/** What a greylist record says after an evaluation, and that a sender who keeps trying gets through. */
module GreylistRecords {
  import opened Common
  import opened Greylist
  import opened GreylistRuns

  // ---------------------------------------------------------------- one evaluation, field by field

  /** A parameter in force: the given one, otherwise the stored one. */
  function InForce(p: Param, stored: int): int {
    match p case Given(v) => v case Unset => stored case Fails => stored
  }

  /** A parameter of a new record: zero and nothing given mean the configured default. */
  function OrDefault(p: Param, default: int): int {
    match p case Given(v) => (if v == 0 then default else v) case Unset => default case Fails => default
  }

  /** A new record: created now, one connection, good until the deadline, never passed. */
  lemma NewRecordSays(cfg: Config, gl: Rule, db: Db, counted: Counted, t: Tuple, received: int)
    requires Recipient(cfg, gl, db, counted, t, received).kind.Created?
    ensures var v := Recipient(cfg, gl, db, counted, t, received);
      && t in v.db && v.db == db[t := v.db[t]] && v.counted == counted && v.delayed == 0
      && var r := v.db[t];
      && r.created == r.updated == received && r.connections == 1 && r.passed == 0
      && r.deadline == OrDefault(gl.deadline, cfg.deadline) && r.visa == OrDefault(gl.visa, cfg.visa)
      && r.delay == InForce(gl.delay, 0) && r.attempts == InForce(gl.attempts, 0)
      && r.expire == received + r.deadline
  {
  }

  /** A judged record: who was counted, which parameters are in force, and until when the record is good. A
      first pass is reported with its delay. */
  lemma JudgedRecordSays(cfg: Config, gl: Rule, db: Db, counted: Counted, t: Tuple, received: int)
    requires Recipient(cfg, gl, db, counted, t, received).kind in {Passed, Deferred}
    ensures var v := Recipient(cfg, gl, db, counted, t, received);
      && t in db && t in v.db && v.db == db[t := v.db[t]]
      && var r, r' := db[t], v.db[t];
      && r.expire >= received && r'.created == r.created && r'.updated == received
      && r'.connections == r.connections + (if t.envrcpt in counted.connection then 0 else 1)
      && r'.delay == InForce(gl.delay, r.delay) && r'.attempts == InForce(gl.attempts, r.attempts)
      && r'.deadline == InForce(gl.deadline, r.deadline) && r'.visa == InForce(gl.visa, r.visa)
      && (forall x :: x in v.counted.connection <==> x in counted.connection || x == t.envrcpt)
    ensures var v := Recipient(cfg, gl, db, counted, t, received);
      v.kind.Deferred? ==>
        && v.db[t].expire == v.db[t].created + v.db[t].deadline && v.db[t].passed == 0 && v.delayed == 0
        && v.counted.passed == counted.passed
    ensures var v := Recipient(cfg, gl, db, counted, t, received);
      v.kind.Passed? ==>
        && v.db[t].expire == received + v.db[t].visa
        && v.db[t].passed == db[t].passed + (if t.envrcpt in counted.passed then 0 else 1)
        && v.delayed == (if v.db[t].passed == 1 then Int32(received - db[t].created) else 0)
        && (forall x :: x in v.counted.passed <==> x in counted.passed || x == t.envrcpt)
  {
  }

  /** The action goes on if at most one of its five symbols is missing. */
  lemma OneSymbolMayMiss(s: Symbols)
    ensures s.Count() >= 4 <==>
      && (s.origin.None? ==> s.envfrom.Some? && s.envrcpt.Some? && s.recipients.Some? && s.received.Some?)
      && (s.envfrom.None? ==> s.envrcpt.Some? && s.recipients.Some? && s.received.Some?)
      && (s.envrcpt.None? ==> s.recipients.Some? && s.received.Some?)
      && (s.recipients.None? ==> s.received.Some?)
  {
  }

  /** Which of the five outcomes it is, and what it means for the message. */
  lemma OutcomeIs(cfg: Config, gl: Rule, db: Db, counted: Counted, t: Tuple, received: int)
    ensures var kind := Recipient(cfg, gl, db, counted, t, received).kind;
      var live := t in db && db[t].expire >= received;
      var fails := gl.deadline == Fails || gl.delay == Fails || gl.attempts == Fails || gl.visa == Fails;
      var unknown := t !in db && gl == Rule(Unset, Unset, Unset, Unset);
      && (kind.Ignored? <==> unknown)
      && (kind.Failed? <==> fails)
      && (kind.Created? <==> !live && !fails && !unknown)
      && (kind.Passed? || kind.Deferred? <==> live && !fails)
      && (kind.Result() == GlError <==> fails)
      && (kind.Result() == GlDefer <==> kind in {Created, Deferred})
      && (kind.Result() == GlNone <==> kind in {Passed, Ignored})
    ensures var v := Recipient(cfg, gl, db, counted, t, received);
      v.kind in {Ignored, Failed} ==> v.db == db && v.counted == counted && v.delayed == 0
  {
  }

  // ---------------------------------------------------------------- a persistent sender

  /** A rule that leaves the parameters of a record as they are. */
  predicate SameTerms(gl: Rule, r: GreyRecord) {
    && Evaluates(gl) && InForce(gl.delay, r.delay) == r.delay && InForce(gl.attempts, r.attempts) == r.attempts
    && InForce(gl.deadline, r.deadline) == r.deadline
  }

  datatype Try = Try(conn: nat, gl: Rule, received: int)

  function Steps(t: Tuple, tries: seq<Try>): seq<Step> {
    seq(|tries|, i requires 0 <= i < |tries| => Eval(tries[i].conn, tries[i].gl, t, tries[i].received))
  }

  /** Tries on connections of their own, under the terms of the record and before its deadline. */
  ghost predicate Persistent(w: World, t: Tuple, tries: seq<Try>) {
    && t in w.db
    && (forall i :: 0 <= i < |tries| ==> Acceptable(w, t, tries[i]))
    && (forall i, j :: 0 <= i < j < |tries| ==> tries[i].conn != tries[j].conn)
  }

  ghost predicate Acceptable(w: World, t: Tuple, x: Try)
    requires t in w.db
  {
    && SameTerms(x.gl, w.db[t]) && x.received <= w.db[t].created + w.db[t].deadline
    && t.envrcpt !in Lists(w, x.conn).connection
  }

  /** A record that has been deferred so far. */
  ghost predicate Waiting(w: World, t: Tuple) {
    t in w.db && w.db[t].expire == w.db[t].created + w.db[t].deadline
  }

  lemma TryEffect(cfg: Config, w: World, t: Tuple, x: Try)
    requires Waiting(w, t) && Acceptable(w, t, x)
    ensures var w' := Evaluated(cfg, w, x.conn, x.gl, t, x.received);
      var r := w.db[t];
      && |w'.log| == |w.log| + 1 && w.log < w'.log && w'.log[|w.log|].t == t
      && (w'.log[|w.log|].kind.Passed? <==> Int32(x.received - r.created) > r.delay && r.connections + 1 > r.attempts)
      && (!w'.log[|w.log|].kind.Passed? ==>
           && Waiting(w', t) && w'.db[t].connections == r.connections + 1 && w'.db[t].created == r.created
           && w'.db[t].delay == r.delay && w'.db[t].attempts == r.attempts && w'.db[t].deadline == r.deadline)
      && forall c :: c != x.conn ==> Lists(w', c) == Lists(w, c)
  {
  }

  lemma StillPersistent(w: World, w': World, t: Tuple, tries: seq<Try>)
    requires tries != [] && Persistent(w, t, tries) && t in w'.db
    requires w'.db[t].created == w.db[t].created && w'.db[t].delay == w.db[t].delay
    requires w'.db[t].attempts == w.db[t].attempts && w'.db[t].deadline == w.db[t].deadline
    requires forall c :: c != tries[0].conn ==> Lists(w', c) == Lists(w, c)
    ensures Persistent(w', t, tries[1..])
  {
    var rest := tries[1..];
    forall i | 0 <= i < |rest| ensures Acceptable(w', t, rest[i]) {
      assert Acceptable(w, t, tries[i + 1]) && tries[0].conn != tries[i + 1].conn;
    }
  }

  /** A sender who keeps trying from new connections before the deadline gets through: as soon as a try
      comes after the delay and there have been enough of them, it or an earlier one has passed. */
  lemma {:induction false} PersistentSenderPasses(cfg: Config, w: World, t: Tuple, tries: seq<Try>)
    requires Waiting(w, t) && Persistent(w, t, tries) && tries != []
    requires var r, last := w.db[t], tries[|tries| - 1];
      Int32(last.received - r.created) > r.delay && r.connections + |tries| > r.attempts
    ensures var log := Run(cfg, w, Steps(t, tries)).log;
      w.log <= log && exists n :: |w.log| <= n < |log| && log[n].t == t && log[n].kind.Passed?
    decreases |tries|
  {
    var x, rest := tries[0], tries[1..];
    assert Acceptable(w, t, x);
    TryEffect(cfg, w, t, x);
    var w1 := Evaluated(cfg, w, x.conn, x.gl, t, x.received);
    FirstStep(cfg, w, t, tries);
    LogKept(cfg, w1, Steps(t, rest));
    if w1.log[|w.log|].kind.Passed? {
      assert Run(cfg, w1, Steps(t, rest)).log[|w.log|] == w1.log[|w.log|];
    } else {
      assert rest != [] && rest[|rest| - 1] == tries[|tries| - 1];
      StillPersistent(w, w1, t, tries);
      PersistentSenderPasses(cfg, w1, t, rest);
    }
  }

  lemma FirstStep(cfg: Config, w: World, t: Tuple, tries: seq<Try>)
    requires tries != []
    ensures var x := tries[0];
      Run(cfg, w, Steps(t, tries)) == Run(cfg, Evaluated(cfg, w, x.conn, x.gl, t, x.received), Steps(t, tries[1..]))
  {
    var x, rest := tries[0], tries[1..];
    assert Steps(t, tries) == [Eval(x.conn, x.gl, t, x.received)] + Steps(t, rest);
    RunEval(cfg, w, x.conn, x.gl, t, x.received, Steps(t, rest));
  }

  lemma {:induction false} LogKept(cfg: Config, w: World, steps: seq<Step>)
    ensures w.log <= Run(cfg, w, steps).log
    decreases |steps|
  {
    if steps != [] { LogKept(cfg, Apply(cfg, w, steps[0]), steps[1..]); }
  }
}
