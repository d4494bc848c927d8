/** Whole runs of the greylisting engine, interleaved with the janitor's deletions (src/dbt.c). */
module GreylistRuns {
  import opened Common
  import opened Greylist

  // ---------------------------------------------------------------- runs

  /** One evaluation of a tuple on a connection, or one sweep of the janitor that looks at the
      tuples in `visited` and deletes those whose expiry lies before the schedule. */
  datatype Step =
    | Eval(conn: nat, gl: Rule, t: Tuple, received: int)
    | Purge(schedule: int, visited: set<Tuple>)

  /** What the log keeps of an evaluation: what it decided, the delay it reported, the live record it
      found and the record it stored. */
  datatype Entry = Entry(conn: nat, t: Tuple, received: int, kind: Kind, delayed: int,
    live: Option<GreyRecord>, stored: Option<GreyRecord>)

  datatype World = World(db: Db, conns: map<nat, Counted>, log: seq<Entry>)

  const NEW_WORLD := World(map[], map[], [])

  function Lists(w: World, conn: nat): Counted {
    if conn in w.conns then w.conns[conn] else Counted([], [])
  }

  predicate Stores(kind: Kind) {
    kind.Created? || kind.Deferred? || kind.Passed?
  }

  function Evaluated(cfg: Config, w: World, conn: nat, gl: Rule, t: Tuple, received: int): World {
    var v := Recipient(cfg, gl, w.db, Lists(w, conn), t, received);
    World(v.db, w.conns[conn := v.counted],
          w.log + [Entry(conn, t, received, v.kind, v.delayed, Live(w.db, t, received),
                         if Stores(v.kind) && t in v.db then Some(v.db[t]) else None)])
  }

  /** dbt_common_validate: the record is to be deleted. */
  predicate Stale(db: Db, t: Tuple, schedule: int) {
    t in db && schedule > db[t].expire
  }

  function Apply(cfg: Config, w: World, s: Step): World {
    match s
    case Eval(conn, gl, t, received) => Evaluated(cfg, w, conn, gl, t, received)
    case Purge(schedule, visited) =>
      w.(db := map t | t in w.db && !(t in visited && Stale(w.db, t, schedule)) :: w.db[t])
  }

  function Run(cfg: Config, w: World, steps: seq<Step>): World
    decreases |steps|
  {
    if steps == [] then w else Run(cfg, Apply(cfg, w, steps[0]), steps[1..])
  }

  // ---------------------------------------------------------------- actions are runs

  function Evals(conn: nat, gl: Rule, origin: string, envfrom: string, rcpts: seq<string>, n: nat, m: nat,
                 received: int): seq<Step>
    requires n <= m <= |rcpts|
    decreases m - n
  {
    if n == m then []
    else
      [Eval(conn, gl, Tuple(origin, envfrom, rcpts[n]), received)]
      + Evals(conn, gl, origin, envfrom, rcpts, n + 1, m, received)
  }

  /** The largest delay reported by the entries from number n on, and base. */
  function Largest(log: seq<Entry>, n: nat, base: int): (r: int)
    requires n <= |log|
    ensures r >= base && forall k :: n <= k < |log| ==> log[k].delayed <= r
    ensures r == base || exists k :: n <= k < |log| && log[k].delayed == r
    decreases |log| - n
  {
    if n == |log| then base
    else Largest(log, n + 1, if log[n].delayed > base then log[n].delayed else base)
  }

  /** The run from w to w' judged the recipients from n to m, one entry each, and all but the last of them
      were let through. */
  ghost predicate Judged(w: World, w': World, conn: nat, origin: string, envfrom: string, rcpts: seq<string>,
                         n: nat, m: nat, received: int)
    requires n <= m <= |rcpts|
  {
    && w.log <= w'.log && |w'.log| == |w.log| + (m - n)
    && forall k {:trigger rcpts[k]} :: n <= k < m ==>
         IsEntry(w'.log[|w.log| + (k - n)], conn, Tuple(origin, envfrom, rcpts[k]), received, k < m - 1)
  }

  /** An entry of this evaluation, one that was let through if `passes`. */
  ghost predicate IsEntry(e: Entry, conn: nat, t: Tuple, received: int, passes: bool) {
    e.conn == conn && e.t == t && e.received == received && (passes ==> e.kind.Lets())
  }

  /** The run from w to w' ends as the action does. */
  ghost predicate EndsAs(w: World, w': World, conn: nat, end: (Decision, Db, Counted)) {
    && w'.db == end.1 && Lists(w', conn) == end.2
    && w.log < w'.log && w'.log[|w'.log| - 1].kind == end.0.kind
  }

  /** The recipient loop is a run of single evaluations: it stops at the first recipient that is not let
      through, and only there. */
  lemma {:induction false} RecipientsAreRun(cfg: Config, w: World, conn: nat, gl: Rule, origin: string, envfrom: string,
                                            rcpts: seq<string>, n: nat, received: int, maxDelay: int)
    returns (m: nat)
    requires n < |rcpts|
    ensures n < m <= |rcpts|
    ensures var w' := Run(cfg, w, Evals(conn, gl, origin, envfrom, rcpts, n, m, received));
      var end := Recipients(cfg, gl, w.db, Lists(w, conn), origin, envfrom, rcpts, n, received, maxDelay);
      && EndsAs(w, w', conn, end) && Judged(w, w', conn, origin, envfrom, rcpts, n, m, received)
      && (m == |rcpts| || !end.0.kind.Lets())
      && (end.0.kind.Lets() ==> end.0.maxDelay == Largest(w'.log, |w.log|, maxDelay))
    decreases |rcpts| - n
  {
    var t := Tuple(origin, envfrom, rcpts[n]);
    var v := Recipient(cfg, gl, w.db, Lists(w, conn), t, received);
    var w1 := Evaluated(cfg, w, conn, gl, t, received);
    if !v.kind.Lets() || n + 1 == |rcpts| {
      m := n + 1;
      RunEval(cfg, w, conn, gl, t, received, []);
      OneEntry(w.log, w1.log[|w.log|], maxDelay);
    } else {
      var longest := if v.delayed > maxDelay then v.delayed else maxDelay;
      m := RecipientsAreRun(cfg, w1, conn, gl, origin, envfrom, rcpts, n + 1, received, longest);
      RunEval(cfg, w, conn, gl, t, received, Evals(conn, gl, origin, envfrom, rcpts, n + 1, m, received));
      var w' := Run(cfg, w1, Evals(conn, gl, origin, envfrom, rcpts, n + 1, m, received));
      JudgedMore(w, w1, w', conn, origin, envfrom, rcpts, n, m, received);
      assert w'.log[|w.log|] == w1.log[|w.log|];
    }
  }

  lemma OneEntry(log: seq<Entry>, e: Entry, base: int)
    ensures Largest(log + [e], |log|, base) == if e.delayed > base then e.delayed else base
  {
  }

  lemma JudgedMore(w: World, w1: World, w': World, conn: nat, origin: string, envfrom: string, rcpts: seq<string>,
                   n: nat, m: nat, received: int)
    requires n + 1 < m <= |rcpts| && w.log < w1.log && |w1.log| == |w.log| + 1
    requires Judged(w1, w', conn, origin, envfrom, rcpts, n + 1, m, received)
    requires IsEntry(w1.log[|w.log|], conn, Tuple(origin, envfrom, rcpts[n]), received, true)
    ensures Judged(w, w', conn, origin, envfrom, rcpts, n, m, received)
  {
    assert w'.log[|w.log|] == w1.log[|w.log|];
    forall k | n <= k < m
      ensures IsEntry(w'.log[|w.log| + (k - n)], conn, Tuple(origin, envfrom, rcpts[k]), received, k < m - 1)
    {
      if k > n { assert |w.log| + (k - n) == |w1.log| + (k - (n + 1)); }
    }
  }

  /** A greylist action is a run of single evaluations, so whatever holds of every run holds of every
      sequence of actions: in the envrcpt stage of the current recipient, otherwise of all recipients up to
      the first that is not let through. A message is let through only if all of them were judged and let
      through, and the delay is the largest that one of them reported. */
  lemma ActionIsRun(cfg: Config, w: World, conn: nat, envrcptStage: bool, gl: Rule, origin: string, envfrom: string,
                    envrcpt: string, recipients: seq<string>, received: int)
    returns (m: nat)
    requires envrcptStage || recipients != []
    ensures var rcpts := if envrcptStage then [envrcpt] else recipients;
      var end := ActionOf(cfg, envrcptStage, gl, w.db, Lists(w, conn), origin, envfrom, envrcpt, recipients, received);
      && 0 < m <= |rcpts|
      && var w' := Run(cfg, w, Evals(conn, gl, origin, envfrom, rcpts, 0, m, received));
      && EndsAs(w, w', conn, end) && Judged(w, w', conn, origin, envfrom, rcpts, 0, m, received)
      && (m == |rcpts| || !end.0.kind.Lets())
      && (end.0.kind.Lets() ==>
           end.0.maxDelay == if envrcptStage then w'.log[|w.log|].delayed else Largest(w'.log, |w.log|, 0))
  {
    var rcpts := if envrcptStage then [envrcpt] else recipients;
    m := RecipientsAreRun(cfg, w, conn, gl, origin, envfrom, rcpts, 0, received, 0);
    if envrcptStage {
      var t := Tuple(origin, envfrom, envrcpt);
      RunEval(cfg, w, conn, gl, t, received, []);
      assert Evals(conn, gl, origin, envfrom, rcpts, 0, m, received) == [Eval(conn, gl, t, received)] + [];
    }
  }

  /** Under a rule with a parameter, a message is let through only if every recipient has a record. */
  lemma {:induction false} LetThroughIsRecorded(cfg: Config, gl: Rule, db: Db, counted: Counted, origin: string,
      envfrom: string, rcpts: seq<string>, n: nat, received: int, maxDelay: int)
    requires n < |rcpts| && !gl.Empty()
    ensures var (d, db', _) := Recipients(cfg, gl, db, counted, origin, envfrom, rcpts, n, received, maxDelay);
      && (forall t :: t in db ==> t in db')
      && (d.kind.Lets() ==> forall k :: n <= k < |rcpts| ==> Tuple(origin, envfrom, rcpts[k]) in db')
    decreases |rcpts| - n
  {
    var v := Recipient(cfg, gl, db, counted, Tuple(origin, envfrom, rcpts[n]), received);
    if v.kind.Lets() && n + 1 < |rcpts| {
      LetThroughIsRecorded(cfg, gl, v.db, v.counted, origin, envfrom, rcpts, n + 1, received,
        if v.delayed > maxDelay then v.delayed else maxDelay);
    }
  }

  lemma RunEval(cfg: Config, w: World, conn: nat, gl: Rule, t: Tuple, received: int, rest: seq<Step>)
    ensures Run(cfg, w, [Eval(conn, gl, t, received)] + rest)
      == Run(cfg, Evaluated(cfg, w, conn, gl, t, received), rest)
  {
    assert ([Eval(conn, gl, t, received)] + rest)[1..] == rest;
  }

  // ---------------------------------------------------------------- cleanup cannot be noticed

  function WithoutPurges(steps: seq<Step>): seq<Step> {
    if steps == [] then []
    else (if steps[0].Eval? then [steps[0]] else []) + WithoutPurges(steps[1..])
  }

  /** No evaluation has a time before the schedule of an earlier sweep, and no rule is empty. */
  ghost predicate Timely(steps: seq<Step>, horizon: int)
    decreases |steps|
  {
    steps == [] ||
    match steps[0]
    case Eval(_, gl, _, received) => !gl.Empty() && received >= horizon && Timely(steps[1..], horizon)
    case Purge(schedule, _) => Timely(steps[1..], if schedule > horizon then schedule else horizon)
  }

  /** The cleaned world w1 lacks only records that have expired by the horizon. */
  ghost predicate Lacks(w1: World, w2: World, horizon: int) {
    && w1.conns == w2.conns && w1.log == w2.log
    && (forall t :: t in w1.db ==> t in w2.db && w1.db[t] == w2.db[t])
    && (forall t :: t in w2.db && t !in w1.db ==> w2.db[t].expire < horizon)
  }

  lemma EvalLacks(cfg: Config, w1: World, w2: World, horizon: int, conn: nat, gl: Rule, t: Tuple, received: int)
    requires Lacks(w1, w2, horizon) && received >= horizon && !gl.Empty()
    ensures Lacks(Evaluated(cfg, w1, conn, gl, t, received), Evaluated(cfg, w2, conn, gl, t, received), horizon)
  {
    assert Lists(w1, conn) == Lists(w2, conn);
    assert Live(w1.db, t, received) == Live(w2.db, t, received);
  }

  lemma PurgeLacks(cfg: Config, w1: World, w2: World, horizon: int, schedule: int, visited: set<Tuple>)
    requires Lacks(w1, w2, horizon)
    ensures Lacks(Apply(cfg, w1, Purge(schedule, visited)), w2, if schedule > horizon then schedule else horizon)
  {
  }

  /** The latest schedule of a sweep, or the given one if it is later. */
  function LastSchedule(steps: seq<Step>, horizon: int): int
    decreases |steps|
  {
    if steps == [] then horizon
    else LastSchedule(steps[1..], if steps[0].Purge? && steps[0].schedule > horizon then steps[0].schedule else horizon)
  }

  lemma {:induction false} RunLacks(cfg: Config, w1: World, w2: World, horizon: int, steps: seq<Step>)
    requires Lacks(w1, w2, horizon) && Timely(steps, horizon)
    ensures Lacks(Run(cfg, w1, steps), Run(cfg, w2, WithoutPurges(steps)), LastSchedule(steps, horizon))
    decreases |steps|
  {
    if steps != [] {
      var rest := steps[1..];
      match steps[0]
      case Eval(conn, gl, t, received) =>
        EvalLacks(cfg, w1, w2, horizon, conn, gl, t, received);
        RunLacks(cfg, Apply(cfg, w1, steps[0]), Apply(cfg, w2, steps[0]), horizon, rest);
        assert WithoutPurges(steps)[0] == steps[0] && WithoutPurges(steps)[1..] == WithoutPurges(rest);
      case Purge(schedule, visited) =>
        PurgeLacks(cfg, w1, w2, horizon, schedule, visited);
        RunLacks(cfg, Apply(cfg, w1, steps[0]), w2, if schedule > horizon then schedule else horizon, rest);
        assert WithoutPurges(steps) == [] + WithoutPurges(rest) == WithoutPurges(rest);
    }
  }

  /** Cleanup is unobservable: every decision, delay and record written are those of the run
      without the janitor, the connections' lists are the same, each surviving record equals the
      record of that run, and each missing one had expired before the last sweep. */
  lemma CleanupUnobservable(cfg: Config, w: World, steps: seq<Step>, horizon: int)
    requires Timely(steps, horizon)
    ensures var cleaned, full := Run(cfg, w, steps), Run(cfg, w, WithoutPurges(steps));
      && cleaned.log == full.log && cleaned.conns == full.conns
      && (forall t :: t in cleaned.db ==> t in full.db && cleaned.db[t] == full.db[t])
      && (forall t :: t in full.db && t !in cleaned.db ==> full.db[t].expire < LastSchedule(steps, horizon))
  {
    RunLacks(cfg, w, w, horizon, steps);
  }

  /** When an evaluation tells that a record has been deleted. Of an expired record only a rule without
      parameters tells it; of a live one every rule does whose parameters evaluate. */
  lemma DeletionShowsIff(cfg: Config, gl: Rule, db: Db, counted: Counted, t: Tuple, received: int)
    requires t in db
    ensures Recipient(cfg, gl, db, counted, t, received).kind == Recipient(cfg, gl, db - {t}, counted, t, received).kind
      <==> if db[t].expire < received then !gl.Empty() else !Evaluates(gl)
  {
  }

  /** When a deletion changes what happens to the message. A live record that has not yet qualified
      defers with or without its history, unless the rule is empty: that lets unknown tuples through. */
  lemma DeletionChangesResultIff(cfg: Config, gl: Rule, db: Db, counted: Counted, t: Tuple, received: int)
    requires t in db
    ensures var kept := Recipient(cfg, gl, db, counted, t, received);
      var deleted := Recipient(cfg, gl, db - {t}, counted, t, received);
      kept.kind.Result() != deleted.kind.Result() <==>
        if db[t].expire < received then gl.Empty()
        else Evaluates(gl) && (gl.Empty() <==> !Qualifies(Attempted(gl, db[t], counted, t.envrcpt), received))
  {
  }

  // ---------------------------------------------------------------- what a pass implies

  ghost predicate Counts(e: Entry, t: Tuple) {
    e.t == t && (e.kind.Deferred? || e.kind.Passed?)
  }

  /** The connections that evaluated the existing record of t after entry i and before entry n. */
  ghost function Voters(log: seq<Entry>, t: Tuple, i: nat, n: nat): set<nat>
    requires n <= |log|
    decreases n
  {
    if n <= i + 1 then {}
    else Voters(log, t, i, n - 1) + if Counts(log[n - 1], t) then {log[n - 1].conn} else {}
  }

  /** The last evaluation before entry n that stored the record of t was a pass. */
  ghost predicate LastPassed(log: seq<Entry>, t: Tuple, n: nat)
    requires n <= |log|
    decreases n
  {
    n > 0 && if log[n - 1].t == t && Stores(log[n - 1].kind) then log[n - 1].kind.Passed? else LastPassed(log, t, n - 1)
  }

  lemma {:induction false} LogGrows(log: seq<Entry>, e: Entry, t: Tuple, i: nat, n: nat)
    requires n <= |log|
    ensures Voters(log + [e], t, i, n) == Voters(log, t, i, n)
    ensures LastPassed(log + [e], t, n) == LastPassed(log, t, n)
    decreases n
  {
    if n > 0 {
      LogGrows(log, e, t, i, n - 1);
    }
  }

  /** The voters and the last pass after one more entry. */
  lemma VotersStep(log: seq<Entry>, e: Entry, t: Tuple, i: nat)
    requires i < |log|
    ensures (log + [e])[i] == log[i]
    ensures Voters(log + [e], t, i, |log| + 1) == Voters(log, t, i, |log|) + if Counts(e, t) then {e.conn} else {}
    ensures LastPassed(log + [e], t, |log| + 1)
      == if e.t == t && Stores(e.kind) then e.kind.Passed? else LastPassed(log, t, |log|)
  {
    LogGrows(log, e, t, i, |log|);
    assert (log + [e])[|log|] == e;
  }

  /** Entry i is the deferral that created the record r of t, and the connections counted in r
      are the creating one and no more than the voters since. */
  ghost predicate Born(log: seq<Entry>, t: Tuple, r: GreyRecord, i: nat, n: nat)
    requires n <= |log|
  {
    i < n && log[i].t == t && log[i].kind.Created? && log[i].received == r.created
    && r.connections - 1 <= |Voters(log, t, i, n)|
  }

  /** Entry i explains the stored record of t. */
  ghost predicate Explained(w: World, t: Tuple, i: nat)
    requires t in w.db
  {
    && Born(w.log, t, w.db[t], i, |w.log|)
    && VotersListed(w, t, Voters(w.log, t, i, |w.log|))
    && (!LastPassed(w.log, t, |w.log|) ==> w.db[t].expire == w.db[t].created + w.db[t].deadline)
  }

  /** Every voter has the recipient on its list, and so is not counted again. */
  ghost predicate VotersListed(w: World, t: Tuple, voters: set<nat>) {
    forall c {:trigger ListedBy(w, t, c)} :: c in voters ==> ListedBy(w, t, c)
  }

  ghost predicate ListedBy(w: World, t: Tuple, c: nat) {
    t.envrcpt in Lists(w, c).connection
  }

  ghost predicate Tracked(w: World, t: Tuple) {
    t in w.db ==> exists i: nat :: Explained(w, t, i)
  }

  ghost predicate AllTracked(w: World) {
    forall t {:trigger Tracked(w, t)} :: Tracked(w, t)
  }

  /** The pass at entry n has been earned since the deferral at entry i: that deferral created the
      record, more than the delay in force has gone by, at least `attempts` connections have come
      back, and a pass that directly follows a deferral is within the stored deadline. */
  ghost predicate EarnedSince(log: seq<Entry>, n: nat, i: nat)
    requires n < |log|
  {
    var e := log[n];
    && e.live.Some? && e.stored.Some?
    && i < n && log[i].t == e.t && log[i].kind.Created? && log[i].received == e.stored.value.created
    && Int32(e.received - e.stored.value.created) > e.stored.value.delay
    && (e.received - e.stored.value.created >= -0x8000_0000 ==>
      e.received - e.stored.value.created > e.stored.value.delay)
    && e.stored.value.attempts <= |Voters(log, e.t, i, n + 1)|
    && (!LastPassed(log, e.t, n) ==> e.received <= e.live.value.created + e.live.value.deadline)
  }

  ghost predicate Earned(log: seq<Entry>, n: nat)
    requires n < |log|
  {
    log[n].kind.Passed? ==> exists i: nat :: EarnedSince(log, n, i)
  }

  ghost predicate AllEarned(log: seq<Entry>) {
    forall n {:trigger Earned(log, n)} :: 0 <= n < |log| ==> Earned(log, n)
  }

  lemma EarnedGrows(log: seq<Entry>, e: Entry, n: nat)
    requires n < |log| && Earned(log, n)
    ensures Earned(log + [e], n)
  {
    if log[n].kind.Passed? {
      var i: nat :| EarnedSince(log, n, i);
      LogGrows(log, e, log[n].t, i, n + 1);
      LogGrows(log, e, log[n].t, i, n);
      assert (log + [e])[n] == log[n] && (log + [e])[i] == log[i];
      assert EarnedSince(log + [e], n, i);
    }
  }

  /** No connection forgets a recipient that it has counted. */
  ghost predicate ListsKept(w: World, w': World) {
    forall c {:trigger KeptAt(w, w', c)} :: KeptAt(w, w', c)
  }

  ghost predicate KeptAt(w: World, w': World, c: nat) {
    forall s :: s in Lists(w, c).connection ==> s in Lists(w', c).connection
  }

  lemma VotersKept(w: World, w': World, t: Tuple, voters: set<nat>)
    requires ListsKept(w, w') && VotersListed(w, t, voters)
    ensures VotersListed(w', t, voters)
  {
    forall c | c in voters ensures ListedBy(w', t, c) {
      assert KeptAt(w, w', c) && ListedBy(w, t, c);
    }
  }

  /** A tuple other than the evaluated one, or one whose record is left alone, stays explained. */
  lemma OtherTracked(w: World, w': World, e: Entry, t: Tuple)
    requires Tracked(w, t) && w'.log == w.log + [e] && !(e.t == t && Stores(e.kind))
    requires t in w'.db ==> t in w.db && w'.db[t] == w.db[t]
    requires ListsKept(w, w')
    ensures Tracked(w', t)
  {
    if t in w'.db {
      var i: nat :| Explained(w, t, i);
      StillExplained(w, w', e, t, i);
    }
  }

  lemma StillExplained(w: World, w': World, e: Entry, t: Tuple, i: nat)
    requires t in w.db && Explained(w, t, i) && w'.log == w.log + [e] && !(e.t == t && Stores(e.kind))
    requires t in w'.db && w'.db[t] == w.db[t] && ListsKept(w, w')
    ensures Explained(w', t, i)
  {
    VotersStep(w.log, e, t, i);
    var voters := Voters(w.log, t, i, |w.log|);
    assert !Counts(e, t);
    assert Voters(w'.log, t, i, |w'.log|) == voters;
    VotersKept(w, w', t, voters);
    assert Born(w'.log, t, w'.db[t], i, |w'.log|);
  }

  /** A new record is explained by its own deferral. */
  lemma NewTracked(w': World, t: Tuple)
    requires w'.log != [] && t in w'.db
    requires var e := w'.log[|w'.log| - 1]; e.t == t && e.kind.Created? && w'.db[t].created == e.received
    requires w'.db[t].connections == 1 && w'.db[t].expire == w'.db[t].created + w'.db[t].deadline
    ensures Tracked(w', t)
  {
    assert Explained(w', t, |w'.log| - 1);
  }

  /** A judged record stays explained by the same deferral, with the connection now a voter. */
  lemma JudgedTracked(w: World, w': World, t: Tuple, e: Entry, i: nat)
    requires t in w.db && t in w'.db && Explained(w, t, i) && w'.log == w.log + [e]
    requires e.t == t && (e.kind.Deferred? || e.kind.Passed?)
    requires w'.db[t].created == w.db[t].created
    requires w'.db[t].connections == w.db[t].connections + if t.envrcpt in Lists(w, e.conn).connection then 0 else 1
    requires e.kind.Deferred? ==> w'.db[t].expire == w'.db[t].created + w'.db[t].deadline
    requires ListsKept(w, w')
    requires t.envrcpt in Lists(w', e.conn).connection
    ensures Explained(w', t, i)
  {
    VotersStep(w.log, e, t, i);
    var before := Voters(w.log, t, i, |w.log|);
    assert Counts(e, t) && Voters(w'.log, t, i, |w'.log|) == before + {e.conn};
    OneMoreVoter(w, w', t, e.conn, before, w.db[t].connections - 1);
    BornStill(w.log, w'.log, e, t, w.db[t], w'.db[t], i);
  }

  /** A connection that had not listed the recipient is a new voter. */
  lemma OneMoreVoter(w: World, w': World, t: Tuple, conn: nat, voters: set<nat>, n: int)
    requires ListsKept(w, w') && VotersListed(w, t, voters) && t.envrcpt in Lists(w', conn).connection && n <= |voters|
    ensures VotersListed(w', t, voters + {conn})
    ensures n + (if t.envrcpt in Lists(w, conn).connection then 0 else 1) <= |voters + {conn}|
  {
    VotersKept(w, w', t, voters);
    SubsetSize(voters, voters + {conn});
    assert ListedBy(w, t, conn) || conn !in voters;
    forall c | c in voters + {conn} ensures ListedBy(w', t, c) {
    }
  }

  lemma BornStill(log: seq<Entry>, log': seq<Entry>, e: Entry, t: Tuple, r: GreyRecord, r': GreyRecord, i: nat)
    requires Born(log, t, r, i, |log|) && log' == log + [e] && r'.created == r.created
    requires r'.connections - 1 <= |Voters(log', t, i, |log'|)|
    ensures Born(log', t, r', i, |log'|)
  {
    assert log'[i] == log[i];
  }

  lemma ListsGrow(cfg: Config, w: World, conn: nat, gl: Rule, t: Tuple, received: int)
    ensures ListsKept(w, Evaluated(cfg, w, conn, gl, t, received))
  {
    var v := Recipient(cfg, gl, w.db, Lists(w, conn), t, received);
    assert forall s :: s in Lists(w, conn).connection ==> s in v.counted.connection;
  }

  /** What an evaluation did to the record of its tuple, by the kind of its entry. */
  ghost predicate Effect(w: World, w': World, e: Entry) {
    w'.log == w.log + [e] && OthersKept(w, w', e.t) && OwnEffect(w, w', e)
  }

  ghost predicate OthersKept(w: World, w': World, t: Tuple) {
    forall u :: u != t ==> (u in w'.db <==> u in w.db) && (u in w.db ==> w'.db[u] == w.db[u])
  }

  ghost predicate OwnEffect(w: World, w': World, e: Entry) {
    var t := e.t;
    && (!Stores(e.kind) ==> w'.db == w.db)
    && (Stores(e.kind) ==> t in w'.db && e.stored == Some(w'.db[t]))
    && (e.kind.Created? ==>
         w'.db[t].created == e.received && w'.db[t].connections == 1
           && w'.db[t].expire == w'.db[t].created + w'.db[t].deadline)
    && (Counts(e, t) ==>
         && t in w.db && e.live == Some(w.db[t]) && w.db[t].expire >= e.received
         && w'.db[t].created == w.db[t].created
         && w'.db[t].connections == w.db[t].connections + (if t.envrcpt in Lists(w, e.conn).connection then 0 else 1)
         && t.envrcpt in Lists(w', e.conn).connection)
    && (e.kind.Deferred? ==> w'.db[t].expire == w'.db[t].created + w'.db[t].deadline)
    && (e.kind.Passed? ==> Qualifies(w'.db[t], e.received))
  }

  lemma EvalEffect(cfg: Config, w: World, conn: nat, gl: Rule, t: Tuple, received: int)
    ensures var w' := Evaluated(cfg, w, conn, gl, t, received);
      && |w'.log| == |w.log| + 1 && w'.log[|w.log|].t == t
      && Effect(w, w', w'.log[|w.log|]) && ListsKept(w, w')
  {
    ListsGrow(cfg, w, conn, gl, t, received);
    var w' := Evaluated(cfg, w, conn, gl, t, received);
    assert OthersKept(w, w', t);
    EvalOwnEffect(cfg, w, conn, gl, t, received);
  }

  lemma EvalOwnEffect(cfg: Config, w: World, conn: nat, gl: Rule, t: Tuple, received: int)
    ensures var w' := Evaluated(cfg, w, conn, gl, t, received); OwnEffect(w, w', w'.log[|w.log|])
  {
  }

  lemma EffectTracked(w: World, w': World, e: Entry, u: Tuple)
    requires Effect(w, w', e) && ListsKept(w, w') && Tracked(w, u)
    ensures Tracked(w', u)
  {
    if !(u == e.t && Stores(e.kind)) {
      OtherTracked(w, w', e, u);
    } else if e.kind.Created? {
      NewTracked(w', u);
    } else {
      var i: nat :| Explained(w, u, i);
      JudgedTracked(w, w', u, e, i);
    }
  }

  lemma EffectEarned(w: World, w': World, e: Entry)
    requires Effect(w, w', e) && ListsKept(w, w') && Tracked(w, e.t)
    ensures Earned(w'.log, |w.log|)
  {
    if e.kind.Passed? {
      var i: nat :| Explained(w, e.t, i);
      JudgedTracked(w, w', e.t, e, i);
      ExplainedIsEarned(w, w', e, i);
    }
  }

  lemma ExplainedIsEarned(w: World, w': World, e: Entry, i: nat)
    requires w'.log == w.log + [e] && OwnEffect(w, w', e) && e.kind.Passed?
    requires Explained(w, e.t, i) && Born(w'.log, e.t, w'.db[e.t], i, |w'.log|)
    ensures EarnedSince(w'.log, |w.log|, i)
  {
    LogGrows(w.log, e, e.t, i, |w.log|);
    PassIsEarned(w'.log, |w.log|, i, w.db[e.t], w'.db[e.t]);
  }

  lemma PassIsEarned(log: seq<Entry>, n: nat, i: nat, live: GreyRecord, stored: GreyRecord)
    requires |log| == n + 1 && log[n].kind.Passed? && log[n].live == Some(live) && log[n].stored == Some(stored)
    requires Born(log, log[n].t, stored, i, n + 1) && Qualifies(stored, log[n].received)
    requires log[n].received <= live.expire
    requires !LastPassed(log, log[n].t, n) ==> live.expire == live.created + live.deadline
    ensures EarnedSince(log, n, i)
  {
  }

  lemma EvalTracked(cfg: Config, w: World, conn: nat, gl: Rule, t: Tuple, received: int)
    requires AllTracked(w) && AllEarned(w.log)
    ensures AllTracked(Evaluated(cfg, w, conn, gl, t, received))
    ensures AllEarned(Evaluated(cfg, w, conn, gl, t, received).log)
  {
    var w' := Evaluated(cfg, w, conn, gl, t, received);
    EvalEffect(cfg, w, conn, gl, t, received);
    var e := w'.log[|w.log|];
    forall u ensures Tracked(w', u) {
      assert Tracked(w, u);
      EffectTracked(w, w', e, u);
    }
    forall n | 0 <= n < |w'.log| ensures Earned(w'.log, n) {
      if n < |w.log| {
        assert Earned(w.log, n);
        EarnedGrows(w.log, e, n);
      } else {
        assert Tracked(w, t);
        EffectEarned(w, w', e);
      }
    }
  }

  lemma PurgeTracked(cfg: Config, w: World, schedule: int, visited: set<Tuple>)
    requires AllTracked(w)
    ensures AllTracked(Apply(cfg, w, Purge(schedule, visited)))
  {
    var w' := Apply(cfg, w, Purge(schedule, visited));
    forall t ensures Tracked(w', t) {
      assert Tracked(w, t);
      if t in w'.db {
        var i: nat :| Explained(w, t, i);
        assert ListsKept(w, w');
        VotersKept(w, w', t, Voters(w.log, t, i, |w.log|));
        assert Explained(w', t, i);
      }
    }
  }

  lemma {:induction false} RunTracked(cfg: Config, w: World, steps: seq<Step>)
    requires AllTracked(w) && AllEarned(w.log)
    ensures AllTracked(Run(cfg, w, steps)) && AllEarned(Run(cfg, w, steps).log)
    decreases |steps|
  {
    if steps != [] {
      match steps[0] {
        case Eval(conn, gl, t, received) => EvalTracked(cfg, w, conn, gl, t, received);
        case Purge(schedule, visited) => PurgeTracked(cfg, w, schedule, visited);
      }
      RunTracked(cfg, Apply(cfg, w, steps[0]), steps[1..]);
    }
  }

  /** Greylist safety: in every run from an empty database, with any rules, connections, times and
      sweeps, every pass of an existing record has been earned. */
  lemma PassesAreEarned(cfg: Config, steps: seq<Step>, n: nat)
    requires var log := Run(cfg, NEW_WORLD, steps).log; n < |log| && log[n].kind.Passed?
    ensures exists i: nat :: EarnedSince(Run(cfg, NEW_WORLD, steps).log, n, i)
  {
    forall t ensures Tracked(NEW_WORLD, t) {
    }
    RunTracked(cfg, NEW_WORLD, steps);
    assert Earned(Run(cfg, NEW_WORLD, steps).log, n);
  }

  // ---------------------------------------------------------------- a visa keeps passing

  /** The record of t passed at time `last` and is good until its visa runs out. */
  ghost predicate OnVisa(w: World, t: Tuple, last: int) {
    t in w.db &&
    var r := w.db[t];
    r.expire == last + r.visa && r.connections > r.attempts && last >= r.created && Int32(last - r.created) > r.delay
  }

  /** A step that a visa survives: a message within the visa in force that raises neither delay
      nor attempts, at most 2^31 seconds after the creation of the record; a sweep scheduled no
      later than the expiry; anything on other tuples. The rule may be empty. */
  ghost predicate Renews(r: GreyRecord, t: Tuple, last: int, s: Step) {
    match s
    case Eval(_, gl, u, received) =>
      u == t ==>
        && Evaluates(gl) && last <= received <= last + r.visa && received - r.created < 0x8000_0000
        && Pick(gl.delay, r.delay) <= r.delay && Pick(gl.attempts, r.attempts) <= r.attempts
    case Purge(schedule, visited) => t in visited ==> schedule <= r.expire
  }

  function LastSeen(t: Tuple, last: int, s: Step): int {
    if s.Eval? && s.t == t then s.received else last
  }

  /** Every step of the run renews the visa that the steps before it have left. */
  ghost predicate Renewing(cfg: Config, w: World, t: Tuple, last: int, steps: seq<Step>)
    decreases |steps|
  {
    steps == [] ||
    (t in w.db && Renews(w.db[t], t, last, steps[0])
     && Renewing(cfg, Apply(cfg, w, steps[0]), t, LastSeen(t, last, steps[0]), steps[1..]))
  }

  lemma RenewalPasses(cfg: Config, w: World, t: Tuple, last: int, s: Step)
    requires OnVisa(w, t, last) && Renews(w.db[t], t, last, s)
    ensures OnVisa(Apply(cfg, w, s), t, LastSeen(t, last, s))
    ensures s.Eval? ==>
      var log := Apply(cfg, w, s).log;
      |log| == |w.log| + 1 && (s.t == t ==> log[|w.log|].kind.Passed?)
    ensures w.log <= Apply(cfg, w, s).log
  {
    match s
    case Eval(conn, gl, u, received) =>
      if u == t { MessageRenews(cfg, w, t, last, conn, gl, received); }
    case Purge(_, _) =>
  }

  lemma MessageRenews(cfg: Config, w: World, t: Tuple, last: int, conn: nat, gl: Rule, received: int)
    requires OnVisa(w, t, last) && Renews(w.db[t], t, last, Eval(conn, gl, t, received))
    ensures OnVisa(Evaluated(cfg, w, conn, gl, t, received), t, received)
    ensures Recipient(cfg, gl, w.db, Lists(w, conn), t, received).kind.Passed?
  {
    var r := w.db[t];
    var a := Attempted(gl, r, Lists(w, conn), t.envrcpt);
    assert received - a.created >= last - r.created;
    assert Qualifies(a, received);
  }

  /** Once a tuple has passed, every later message of a renewing run passes too. */
  lemma {:induction false} VisaKeepsPassing(cfg: Config, w: World, t: Tuple, last: int, steps: seq<Step>)
    requires OnVisa(w, t, last) && Renewing(cfg, w, t, last, steps)
    ensures w.log <= Run(cfg, w, steps).log
    ensures forall n :: |w.log| <= n < |Run(cfg, w, steps).log| && Run(cfg, w, steps).log[n].t == t ==>
      Run(cfg, w, steps).log[n].kind.Passed?
    decreases |steps|
  {
    if steps != [] {
      var w1, s := Apply(cfg, w, steps[0]), steps[0];
      RenewalPasses(cfg, w, t, last, s);
      VisaKeepsPassing(cfg, w1, t, LastSeen(t, last, s), steps[1..]);
      var log := Run(cfg, w1, steps[1..]).log;
      assert Run(cfg, w, steps).log == log && w1.log <= log;
      forall n | |w.log| <= n < |log| && log[n].t == t ensures log[n].kind.Passed? {
        if n < |w1.log| {
          assert log[n] == w1.log[n];
          assert w1.log[n].t == t ==> s.t == t;
        }
      }
    }
  }

  /** A pass puts the tuple on a visa, unless the clock has gone back behind the creation. */
  lemma PassStartsVisa(cfg: Config, w: World, conn: nat, gl: Rule, t: Tuple, received: int)
    requires Recipient(cfg, gl, w.db, Lists(w, conn), t, received).kind.Passed? && received >= w.db[t].created
    ensures OnVisa(Evaluated(cfg, w, conn, gl, t, received), t, received)
  {
  }

  // ---------------------------------------------------------------- where the promises end

  /** Delay and attempts must both be exceeded: with either of them alone a live record is deferred. */
  lemma DelayAloneDefers(cfg: Config, t: Tuple)
    ensures var gl := Rule(Given(100), Given(10), Given(2), Unset);
      var r := GreyRecord(0, 0, 100, 1, 100, 10, 2, 0, 0);
      && Recipient(cfg, gl, map[t := r], Counted([], []), t, 50).kind.Deferred?
      && Recipient(cfg, gl, map[t := r.(connections := 3)], Counted([], []), t, 5).kind.Deferred?
      && Recipient(cfg, gl, map[t := r.(connections := 3)], Counted([], []), t, 50).kind.Passed?
  {
  }

  /** A live record with a rule that evaluates passes exactly when both are exceeded. */
  lemma PassesIffBothExceeded(cfg: Config, gl: Rule, db: Db, counted: Counted, t: Tuple, received: int)
    requires t in db && db[t].expire >= received && Evaluates(gl)
    ensures var r := db[t];
      var connections := r.connections + if t.envrcpt in counted.connection then 0 else 1;
      Recipient(cfg, gl, db, counted, t, received).kind.Passed? <==>
        && Int32(received - r.created) > (if gl.delay.Given? then gl.delay.value else r.delay)
        && connections > (if gl.attempts.Given? then gl.attempts.value else r.attempts)
  {
  }

  /** A sweep that a rule without parameters notices: the deleted record defers no longer. */
  lemma EmptyRuleSeesCleanup(cfg: Config, t: Tuple)
    ensures var give := Rule(Given(10), Unset, Unset, Unset);
      var none := Rule(Unset, Unset, Unset, Unset);
      var steps := [Eval(0, give, t, 0), Purge(20, {t}), Eval(1, none, t, 30)];
      Run(cfg, NEW_WORLD, steps).log != Run(cfg, NEW_WORLD, WithoutPurges(steps)).log
  {
    var give := Rule(Given(10), Unset, Unset, Unset);
    var none := Rule(Unset, Unset, Unset, Unset);
    var e0, p, e1 := Eval(0, give, t, 0), Purge(20, {t}), Eval(1, none, t, 30);
    var w0 := Apply(cfg, NEW_WORLD, e0);
    var w1 := Apply(cfg, w0, p);
    assert w0.db[t].expire == 10 && t !in w1.db;
    assert Apply(cfg, w1, e1).log[1].kind.Ignored? && Apply(cfg, w0, e1).log[1].kind.Created?;
    ThreeSteps(cfg, e0, p, e1);
  }

  /** A sweep that any rule notices: it is scheduled after the message was received, which is before
      the rule is evaluated, and deletes a record that was still live for it. */
  lemma LateSweepIsSeen(cfg: Config, t: Tuple)
    ensures var give := Rule(Given(10), Unset, Unset, Unset);
      var steps := [Eval(0, give, t, 0), Purge(20, {t}), Eval(1, give, t, 5)];
      Run(cfg, NEW_WORLD, steps).log != Run(cfg, NEW_WORLD, WithoutPurges(steps)).log
  {
    var give := Rule(Given(10), Unset, Unset, Unset);
    var e0, p, e1 := Eval(0, give, t, 0), Purge(20, {t}), Eval(1, give, t, 5);
    var w0 := Apply(cfg, NEW_WORLD, e0);
    var w1 := Apply(cfg, w0, p);
    assert w0.db[t].expire == 10 && t !in w1.db;
    assert Apply(cfg, w1, e1).log[1].kind.Created? && !Apply(cfg, w0, e1).log[1].kind.Created?;
    ThreeSteps(cfg, e0, p, e1);
  }

  /** Two evaluations with a sweep between them, and without it. */
  lemma ThreeSteps(cfg: Config, e0: Step, p: Step, e1: Step)
    requires e0.Eval? && p.Purge? && e1.Eval?
    ensures Run(cfg, NEW_WORLD, [e0, p, e1]) == Apply(cfg, Apply(cfg, Apply(cfg, NEW_WORLD, e0), p), e1)
    ensures Run(cfg, NEW_WORLD, WithoutPurges([e0, p, e1])) == Apply(cfg, Apply(cfg, NEW_WORLD, e0), e1)
  {
    RunOne(cfg, Apply(cfg, Apply(cfg, NEW_WORLD, e0), p), e1);
    RunOne(cfg, Apply(cfg, NEW_WORLD, e0), e1);
    assert [p, e1][1..] == [e1] && [e0, p, e1][1..] == [p, e1] && [e0, e1][1..] == [e1];
    assert WithoutPurges([e1]) == [e1] by { assert [e1][1..] == []; }
    assert WithoutPurges([p, e1]) == [e1];
    assert WithoutPurges([e0, p, e1]) == [e0, e1];
  }

  lemma RunOne(cfg: Config, w: World, s: Step)
    ensures Run(cfg, w, [s]) == Apply(cfg, w, s)
  {
    assert [s][1..] == [];
  }
}
