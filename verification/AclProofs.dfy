/** Properties of every run of the rule interpreter: what it can return, which handlers it runs,
    that a result does not depend on the depth at which it was reached, and that an unconditional
    call may be replaced by the rules of the called table.
 */
module AclProofs {
  import opened Common
  import opened Acl

  // ---------------------------------------------------------------- results and stages

  /** The results that milter_acl knows; its bad-action branch is dead. */
  predicate IsResult(a: ActionType) {
    a.AclError? || a.AclNone? || a.AclContinue? || a.AclReject? || a.AclDiscard? || a.AclAccept?
    || a.AclTempfail? || a.AclGreylist?
  }

  ghost predicate AllAllowed(ran: seq<ActionType>, stage: Stage) {
    forall i :: 0 <= i < |ran| ==> Allowed(ran[i], stage)
  }

  ghost predicate Sound<V>(o: Outcome<V>, stage: Stage) {
    IsResult(o.response) && AllAllowed(o.ran, stage)
  }

  lemma {:induction false} PerformSound<V>(ts: Tables<V>, stage: Stage, a: Action<V>, s: Spec<V>, depth: nat)
    ensures var o := Perform(ts, stage, a, s, depth);
      AllAllowed(o.ran, stage) && (IsResult(o.response) || (o.response.AclReturn? && a == PlainAction(PReturn)))
    decreases MAX_RECURSION - depth, 0, 1
  {
    match a
    case JumpTo(table) => AclSound(ts, stage, table, s, depth);
    case CallTo(table) => AclSound(ts, stage, table, s, depth);
    case _ =>
  }

  lemma {:induction false} TurnSound<V>(ts: Tables<V>, stage: Stage, r: Rule<V>, n: nat, s: Spec<V>, depth: nat)
    ensures var t := TurnOf(ts, stage, r, n, s, depth);
      if t.Next? then AllAllowed(t.ran, stage) else Sound(t.outcome, stage)
    decreases MAX_RECURSION - depth, 0, 2
  {
    var t := Test(r, s);
    PerformSound(ts, stage, r.action, t.spec, depth);
    if Allowed(r.action.Kind(), stage) {
      ReactSound(stage, r, n, Perform(ts, stage, r.action, t.spec, depth));
    }
  }

  lemma ReactSound<V>(stage: Stage, r: Rule<V>, n: nat, p: Outcome<V>)
    requires AllAllowed(p.ran, stage) && Allowed(r.action.Kind(), stage)
    requires IsResult(p.response) || p.response.AclReturn?
    ensures var t := React(stage, r, n, p); if t.Next? then AllAllowed(t.ran, stage) else Sound(t.outcome, stage)
  {
  }

  lemma {:induction false} RulesSound<V>(ts: Tables<V>, stage: Stage, rules: seq<Rule<V>>, i: nat, s: Spec<V>,
      depth: nat)
    requires i <= |rules|
    ensures Sound(RulesFrom(ts, stage, rules, i, s, depth), stage)
    decreases MAX_RECURSION - depth, 1 + |rules| - i, 0
  {
    if i < |rules| {
      TurnSound(ts, stage, rules[i], i + 1, s, depth);
      var t := TurnOf(ts, stage, rules[i], i + 1, s, depth);
      if t.Next? {
        RulesSound(ts, stage, rules, i + 1, t.spec, depth);
      }
    }
  }

  /** On every set of tables, cyclic or not, acl ends with one of the eight results that
      milter_acl handles, and no action anywhere in the call tree is performed at a stage that its
      table entry forbids. */
  lemma {:induction false} AclSound<V>(ts: Tables<V>, stage: Stage, table: string, s: Spec<V>, depth: nat)
    ensures Sound(AclOf(ts, stage, table, s, depth), stage)
    decreases MAX_RECURSION - depth, 0, 0
  {
    if depth + 1 < MAX_RECURSION && table in ts {
      RulesSound(ts, stage, ts[table], 0, s, depth + 1);
    }
  }

  /** At MS_UNKNOWN nothing is performed: the first rule that matches is an error. */
  lemma {:induction false} NothingAtUnknown<V>(ts: Tables<V>, table: string, s: Spec<V>, depth: nat)
    ensures var o := AclOf(ts, MsUnknown, table, s, depth);
      o.ran == [] && (o.response.AclNone? || o.response.AclError?)
  {
    if depth + 1 < MAX_RECURSION && table in ts {
      NoRuleAtUnknown(ts, ts[table], 0, s, depth + 1);
    }
  }

  lemma {:induction false} NoRuleAtUnknown<V>(ts: Tables<V>, rules: seq<Rule<V>>, i: nat, s: Spec<V>, depth: nat)
    requires i <= |rules|
    ensures var o := RulesFrom(ts, MsUnknown, rules, i, s, depth);
      o.ran == [] && (o.response.AclNone? || o.response.AclError?)
    decreases |rules| - i
  {
    if i < |rules| {
      assert !Allowed(rules[i].action.Kind(), MsUnknown);
      var t := TurnOf(ts, MsUnknown, rules[i], i + 1, s, depth);
      if t.Next? { NoRuleAtUnknown(ts, rules, i + 1, t.spec, depth); }
    }
  }

  // ---------------------------------------------------------------- depth

  lemma {:induction false} PerformAnyDepth<V>(ts: Tables<V>, stage: Stage, a: Action<V>, s: Spec<V>, d1: nat, d2: nat)
    requires d2 <= d1 && !Perform(ts, stage, a, s, d1).response.AclError?
    ensures Perform(ts, stage, a, s, d2) == Perform(ts, stage, a, s, d1)
    decreases MAX_RECURSION - d1, 0, 1
  {
    match a
    case JumpTo(table) => AclAnyDepth(ts, stage, table, s, d1, d2);
    case CallTo(table) => AclAnyDepth(ts, stage, table, s, d1, d2);
    case _ =>
  }

  lemma {:induction false} TurnAnyDepth<V>(ts: Tables<V>, stage: Stage, r: Rule<V>, n: nat, s: Spec<V>, d1: nat,
      d2: nat)
    requires d2 <= d1
    requires var t := TurnOf(ts, stage, r, n, s, d1); t.Stop? ==> !t.outcome.response.AclError?
    ensures TurnOf(ts, stage, r, n, s, d2) == TurnOf(ts, stage, r, n, s, d1)
    decreases MAX_RECURSION - d1, 0, 2
  {
    var t := Test(r, s);
    if t.truth.Yes? && Allowed(r.action.Kind(), stage) {
      PerformAnyDepth(ts, stage, r.action, t.spec, d1, d2);
    }
  }

  lemma {:induction false} RulesAnyDepth<V>(ts: Tables<V>, stage: Stage, rules: seq<Rule<V>>, i: nat, s: Spec<V>,
      d1: nat, d2: nat)
    requires i <= |rules| && d2 <= d1 && !RulesFrom(ts, stage, rules, i, s, d1).response.AclError?
    ensures RulesFrom(ts, stage, rules, i, s, d2) == RulesFrom(ts, stage, rules, i, s, d1)
    decreases MAX_RECURSION - d1, 1 + |rules| - i, 0
  {
    if i < |rules| {
      TurnAnyDepth(ts, stage, rules[i], i + 1, s, d1, d2);
      var t := TurnOf(ts, stage, rules[i], i + 1, s, d1);
      if t.Next? {
        RulesAnyDepth(ts, stage, rules, i + 1, t.spec, d1, d2);
      }
    }
  }

  /** A result other than an error is the same at every smaller depth. */
  lemma {:induction false} AclAnyDepth<V>(ts: Tables<V>, stage: Stage, table: string, s: Spec<V>, d1: nat, d2: nat)
    requires d2 <= d1 && !AclOf(ts, stage, table, s, d1).response.AclError?
    ensures AclOf(ts, stage, table, s, d2) == AclOf(ts, stage, table, s, d1)
    decreases MAX_RECURSION - d1, 0, 0
  {
    if table in ts {
      RulesAnyDepth(ts, stage, ts[table], 0, s, d1 + 1, d2 + 1);
    }
  }

  /** A table that begins by calling itself ends in an error at every depth: the recursion limit
      is always reached. */
  lemma {:induction false} EndlessCallIsError<V>(ts: Tables<V>, stage: Stage, table: string, s: Spec<V>, depth: nat)
    requires table in ts && ts[table] != [] && ts[table][0].condition.None? && ts[table][0].action == CallTo(table)
    ensures AclOf(ts, stage, table, s, depth).response.AclError?
    decreases MAX_RECURSION - depth
  {
    if depth + 1 < MAX_RECURSION {
      EndlessCallIsError(ts, stage, table, s, depth + 1);
      var r := ts[table][0];
      assert Perform(ts, stage, r.action, s, depth + 1).response.AclError?;
      assert TurnOf(ts, stage, r, 1, s, depth + 1).Stop?;
    }
  }

  // ---------------------------------------------------------------- inlining a call

  ghost predicate SameVars<V>(s1: Spec<V>, s2: Spec<V>) {
    s1.vars == s2.vars
  }

  // Functions of the mailspec that the acl_* symbols do not influence.

  ghost predicate BlindCondition<V(!new)>(f: Condition<V>) {
    forall s1, s2 {:trigger SameVars(s1, s2)} :: SameVars(s1, s2) ==>
      f(s1).truth == f(s2).truth && f(s1).spec.vars == f(s2).spec.vars
  }

  ghost predicate BlindReply<V(!new)>(f: Reply<V>, a: ActionType) {
    forall s1, s2 {:trigger SameVars(s1, s2)} :: SameVars(s1, s2) ==>
      f(a, s1).ok == f(a, s2).ok && f(a, s1).spec.vars == f(a, s2).spec.vars
  }

  ghost predicate BlindAction<V(!new)>(a: Action<V>, stage: Stage) {
    forall s1, s2 {:trigger SameVars<V>(s1, s2)} :: SameVars<V>(s1, s2) ==>
      match a
      case SimpleAction(_, f) => f(stage, s1).ok == f(stage, s2).ok && f(stage, s1).spec.vars == f(stage, s2).spec.vars
      case GreylistAction(f) =>
        f(stage, s1).result == f(stage, s2).result && f(stage, s1).spec.vars == f(stage, s2).spec.vars
      case TarpitAction(f) =>
        f(stage, s1).result == f(stage, s2).result && f(stage, s1).spec.vars == f(stage, s2).spec.vars
      case _ => true
  }

  ghost predicate Blind<V(!new)>(r: Rule<V>, stage: Stage) {
    && (r.condition.Some? ==> BlindCondition(r.condition.value))
    && (r.reply.Some? ==> forall a :: BlindReply(r.reply.value, a))
    && BlindAction(r.action, stage)
  }

  ghost predicate AllBlind<V(!new)>(ts: Tables<V>, stage: Stage) {
    forall table, i {:trigger Blind(ts[table][i], stage)} ::
      table in ts && 0 <= i < |ts[table]| ==> Blind(ts[table][i], stage)
  }

  /** The rules of a table; a missing table has none. */
  ghost function Body<V>(ts: Tables<V>, table: string): seq<Rule<V>> {
    if table in ts then ts[table] else []
  }

  /** Rule p of the table is an unconditional call without a reply, and the called table has no
      `return` of its own. */
  ghost predicate Inlinable<V>(ts: Tables<V>, table: string, p: nat) {
    && table in ts && p < |ts[table]|
    && ts[table][p].condition.None? && ts[table][p].action.CallTo? && ts[table][p].reply.None?
    && forall j :: 0 <= j < |Body(ts, ts[table][p].action.table)| ==>
         Body(ts, ts[table][p].action.table)[j].action != PlainAction(PReturn)
  }

  ghost function Callee<V>(ts: Tables<V>, table: string, p: nat): seq<Rule<V>>
    requires Inlinable(ts, table, p)
  {
    Body(ts, ts[table][p].action.table)
  }

  /** The table with the call replaced by the rules of the called table. */
  ghost function Spliced<V>(ts: Tables<V>, table: string, p: nat): seq<Rule<V>>
    requires Inlinable(ts, table, p)
  {
    ts[table][..p] + Callee(ts, table, p) + ts[table][p + 1..]
  }

  ghost function Inlined<V>(ts: Tables<V>, table: string, p: nat): Tables<V>
    requires Inlinable(ts, table, p)
  {
    ts[table := Spliced(ts, table, p)]
  }

  /** Where rule i of the original, other than the call, is found after splicing. */
  ghost function Place<V>(ts: Tables<V>, table: string, p: nat, i: nat): nat
    requires Inlinable(ts, table, p)
  {
    if i <= p then i else i - 1 + |Callee(ts, table, p)|
  }

  // What the proof uses of the inlined tables ts', instantiated only where it is named.

  ghost predicate Outside<V>(ts: Tables<V>, table: string, p: nat, ts': Tables<V>, i: nat)
    requires Inlinable(ts, table, p) && table in ts' && i < |ts[table]|
  {
    Place(ts, table, p, i) < |ts'[table]| && ts'[table][Place(ts, table, p, i)] == ts[table][i]
  }

  ghost predicate Inside<V>(ts: Tables<V>, table: string, p: nat, ts': Tables<V>, j: nat)
    requires Inlinable(ts, table, p) && table in ts' && j < |Callee(ts, table, p)|
  {
    p + j < |ts'[table]| && ts'[table][p + j] == Callee(ts, table, p)[j]
  }

  ghost predicate Unchanged<V>(ts: Tables<V>, ts': Tables<V>, name: string) {
    (name in ts' <==> name in ts) && (name in ts ==> ts'[name] == ts[name])
  }

  ghost predicate IsInlined<V>(ts: Tables<V>, table: string, p: nat, ts': Tables<V>) {
    && Inlinable(ts, table, p) && table in ts'
    && |ts'[table]| == |ts[table]| - 1 + |Callee(ts, table, p)|
    && (forall i {:trigger Outside(ts, table, p, ts', i)} ::
      0 <= i < |ts[table]| && i != p ==> Outside(ts, table, p, ts', i))
    && (forall j {:trigger Inside(ts, table, p, ts', j)} ::
      0 <= j < |Callee(ts, table, p)| ==> Inside(ts, table, p, ts', j))
    && (forall name {:trigger Unchanged(ts, ts', name)} :: name != table ==> Unchanged(ts, ts', name))
  }

  lemma InlinedIsInlined<V>(ts: Tables<V>, table: string, p: nat)
    requires Inlinable(ts, table, p)
    ensures IsInlined(ts, table, p, Inlined(ts, table, p))
  {
  }

  ghost predicate Agree<V>(o1: Outcome<V>, o2: Outcome<V>) {
    o1.response == o2.response && SameVars(o1.spec, o2.spec)
  }

  ghost predicate Fine<V>(t: Turn<V>) {
    t.Stop? ==> !t.outcome.response.AclError?
  }

  ghost predicate TurnsAgree<V>(t1: Turn<V>, t2: Turn<V>) {
    match (t1, t2)
    case (Next(s1, _), Next(s2, _)) => SameVars(s1, s2)
    case (Stop(o1), Stop(o2)) => Agree(o1, o2)
    case _ => false
  }

  lemma ConcludeAgrees<V(!new)>(stage: Stage, r: Rule<V>, n1: nat, n2: nat, o1: Outcome<V>, o2: Outcome<V>)
    requires Blind(r, stage) && Agree(o1, o2) && !Conclude(stage, r, n1, o1).response.AclError?
    ensures Agree(Conclude(stage, r, n1, o1), Conclude(stage, r, n2, o2))
  {
    if r.reply.Some? {
      assert BlindReply(r.reply.value, o1.response);
    }
  }

  lemma {:induction false} PerformAgrees<V(!new)>(ts: Tables<V>, table: string, p: nat, ts': Tables<V>,
      stage: Stage, a: Action<V>, s1: Spec<V>, s2: Spec<V>, d1: nat, d2: nat)
    requires IsInlined(ts, table, p, ts') && AllBlind(ts, stage) && BlindAction(a, stage) && SameVars(s1, s2)
      && d2 <= d1
    requires !Perform(ts, stage, a, s1, d1).response.AclError?
    ensures Agree(Perform(ts, stage, a, s1, d1), Perform(ts', stage, a, s2, d2))
    decreases MAX_RECURSION - d1, 0, 1
  {
    match a
    case JumpTo(name) => AclAgrees(ts, table, p, ts', stage, name, s1, s2, d1, d2);
    case CallTo(name) => AclAgrees(ts, table, p, ts', stage, name, s1, s2, d1, d2);
    case _ => HandlerAgrees(ts, ts', stage, a, s1, s2, d1, d2);
  }

  /** An action that does not enter a table. */
  lemma HandlerAgrees<V(!new)>(ts: Tables<V>, ts': Tables<V>, stage: Stage, a: Action<V>, s1: Spec<V>, s2: Spec<V>,
      d1: nat, d2: nat)
    requires BlindAction(a, stage) && SameVars(s1, s2) && !a.JumpTo? && !a.CallTo?
    ensures Agree(Perform(ts, stage, a, s1, d1), Perform(ts', stage, a, s2, d2))
  {
  }

  lemma {:induction false} TurnAgrees<V(!new)>(ts: Tables<V>, table: string, p: nat, ts': Tables<V>, stage: Stage,
      r: Rule<V>, n1: nat, n2: nat, s1: Spec<V>, s2: Spec<V>, d1: nat, d2: nat)
    requires IsInlined(ts, table, p, ts') && AllBlind(ts, stage) && Blind(r, stage) && SameVars(s1, s2) && d2 <= d1
    requires Fine(TurnOf(ts, stage, r, n1, s1, d1))
    ensures TurnsAgree(TurnOf(ts, stage, r, n1, s1, d1), TurnOf(ts', stage, r, n2, s2, d2))
    decreases MAX_RECURSION - d1, 0, 2
  {
    var t1, t2 := Test(r, s1), Test(r, s2);
    assert t1.truth == t2.truth && SameVars(t1.spec, t2.spec);
    if t1.truth.Yes? && Allowed(r.action.Kind(), stage) {
      var p1 := Perform(ts, stage, r.action, t1.spec, d1);
      assert TurnOf(ts, stage, r, n1, s1, d1) == React(stage, r, n1, p1);
      assert !p1.response.AclError?;
      PerformAgrees(ts, table, p, ts', stage, r.action, t1.spec, t2.spec, d1, d2);
      ReactAgrees(stage, r, n1, n2, p1, Perform(ts', stage, r.action, t2.spec, d2));
    }
  }

  lemma ReactAgrees<V(!new)>(stage: Stage, r: Rule<V>, n1: nat, n2: nat, p1: Outcome<V>, p2: Outcome<V>)
    requires Blind(r, stage) && Agree(p1, p2) && Fine(React(stage, r, n1, p1))
    ensures TurnsAgree(React(stage, r, n1, p1), React(stage, r, n2, p2))
  {
    var o1, o2 := p1.(ran := [r.action.Kind()] + p1.ran), p2.(ran := [r.action.Kind()] + p2.ran);
    if !o1.response.AclNone? && !o1.response.AclReturn? && !o1.response.AclError? {
      ConcludeAgrees(stage, r, n1, n2, o1, o2);
    }
  }

  /** Two loops agree when their turns do and the loops behind them do. */
  lemma LoopsAgree<V>(ts1: Tables<V>, rules1: seq<Rule<V>>, i1: nat, s1: Spec<V>, d1: nat, ts2: Tables<V>,
      rules2: seq<Rule<V>>, i2: nat, s2: Spec<V>, d2: nat, stage: Stage)
    requires i1 < |rules1| && i2 < |rules2|
    requires var t1 := TurnOf(ts1, stage, rules1[i1], i1 + 1, s1, d1);
      var t2 := TurnOf(ts2, stage, rules2[i2], i2 + 1, s2, d2);
      TurnsAgree(t1, t2) &&
      (t1.Next? ==> Agree(RulesFrom(ts1, stage, rules1, i1 + 1, t1.spec, d1),
                          RulesFrom(ts2, stage, rules2, i2 + 1, t2.spec, d2)))
    ensures Agree(RulesFrom(ts1, stage, rules1, i1, s1, d1), RulesFrom(ts2, stage, rules2, i2, s2, d2))
  {
  }

  /** What is fine as a whole has a fine first turn and is fine behind it. */
  lemma FineTurn<V>(ts: Tables<V>, stage: Stage, rules: seq<Rule<V>>, i: nat, s: Spec<V>, depth: nat)
    requires i < |rules| && !RulesFrom(ts, stage, rules, i, s, depth).response.AclError?
    ensures var t := TurnOf(ts, stage, rules[i], i + 1, s, depth);
      var all := RulesFrom(ts, stage, rules, i, s, depth);
      if t.Next? then
        var rest := RulesFrom(ts, stage, rules, i + 1, t.spec, depth);
        all.response == rest.response && all.spec == rest.spec
      else all == t.outcome
  {
  }

  /** The same rule at two places, under the original and under the inlined tables. */
  lemma {:induction false} BothTurn<V(!new)>(ts: Tables<V>, table: string, p: nat, ts': Tables<V>, stage: Stage,
      name1: string, i1: nat, name2: string, i2: nat, s1: Spec<V>, s2: Spec<V>, d1: nat, d2: nat)
    returns (t1: Turn<V>, t2: Turn<V>)
    requires IsInlined(ts, table, p, ts') && AllBlind(ts, stage) && SameVars(s1, s2) && d2 <= d1
    requires name1 in ts && i1 < |ts[name1]| && name2 in ts' && i2 < |ts'[name2]| && ts'[name2][i2] == ts[name1][i1]
    requires !RulesFrom(ts, stage, ts[name1], i1, s1, d1).response.AclError?
    ensures t1 == TurnOf(ts, stage, ts[name1][i1], i1 + 1, s1, d1)
      && t2 == TurnOf(ts', stage, ts'[name2][i2], i2 + 1, s2, d2)
    ensures TurnsAgree(t1, t2)
    ensures if t1.Next? then !RulesFrom(ts, stage, ts[name1], i1 + 1, t1.spec, d1).response.AclError?
                && RulesFrom(ts, stage, ts[name1], i1, s1, d1).response
                  == RulesFrom(ts, stage, ts[name1], i1 + 1, t1.spec, d1).response
                && RulesFrom(ts, stage, ts[name1], i1, s1, d1).spec
                  == RulesFrom(ts, stage, ts[name1], i1 + 1, t1.spec, d1).spec
            else RulesFrom(ts, stage, ts[name1], i1, s1, d1) == t1.outcome
    decreases MAX_RECURSION - d1, 0, 3
  {
    assert Blind(ts[name1][i1], stage);
    FineTurn(ts, stage, ts[name1], i1, s1, d1);
    TurnAgrees(ts, table, p, ts', stage, ts[name1][i1], i1 + 1, i2 + 1, s1, s2, d1, d2);
    t1 := TurnOf(ts, stage, ts[name1][i1], i1 + 1, s1, d1);
    t2 := TurnOf(ts', stage, ts'[name2][i2], i2 + 1, s2, d2);
  }

  /** The same rules under the original and under the inlined tables. */
  lemma {:induction false} RulesAgree<V(!new)>(ts: Tables<V>, table: string, p: nat, ts': Tables<V>, stage: Stage,
      name: string, i: nat, s1: Spec<V>, s2: Spec<V>, d1: nat, d2: nat)
    requires IsInlined(ts, table, p, ts') && AllBlind(ts, stage) && SameVars(s1, s2) && d2 <= d1
    requires name in ts && Unchanged(ts, ts', name) && i <= |ts[name]|
    requires !RulesFrom(ts, stage, ts[name], i, s1, d1).response.AclError?
    ensures Agree(RulesFrom(ts, stage, ts[name], i, s1, d1), RulesFrom(ts', stage, ts'[name], i, s2, d2))
    decreases MAX_RECURSION - d1, 1 + |ts[name]| - i, 0
  {
    if i < |ts[name]| {
      var t1, t2 := BothTurn(ts, table, p, ts', stage, name, i, name, i, s1, s2, d1, d2);
      if t1.Next? {
        RulesAgree(ts, table, p, ts', stage, name, i + 1, t1.spec, t2.spec, d1, d2);
      }
      LoopsAgree(ts, ts[name], i, s1, d1, ts', ts'[name], i, s2, d2, stage);
    }
  }

  /** A turn returns ACL_NONE only for a `return` rule. */
  lemma OnlyReturnStopsWithNone<V>(ts: Tables<V>, stage: Stage, r: Rule<V>, n: nat, s: Spec<V>, depth: nat)
    ensures var t := TurnOf(ts, stage, r, n, s, depth);
      t.Stop? && t.outcome.response.AclNone? ==> r.action == PlainAction(PReturn)
  {
    PerformSound(ts, stage, r.action, Test(r, s).spec, depth);
  }

  /** What SegmentAgrees states: the rules from number k on fall through to rule number `end` with
      s2' when the called table ends in o1 with nothing, and stop with its response otherwise. */
  ghost predicate SegmentEnds<V>(ts': Tables<V>, stage: Stage, rules: seq<Rule<V>>, k: nat, end: nat, o1: Outcome<V>,
                                 s2: Spec<V>, d2: nat, s2': Spec<V>)
    requires k <= end <= |rules|
  {
    var o2 := RulesFrom(ts', stage, rules, k, s2, d2);
    if o1.response.AclNone? then SameVars(o1.spec, s2') && Agree(o2, RulesFrom(ts', stage, rules, end, s2', d2))
    else Agree(o1, o2)
  }

  /** One spliced-in rule that goes on. */
  lemma SegmentNext<V>(ts': Tables<V>, stage: Stage, rules: seq<Rule<V>>, k: nat, end: nat, o1: Outcome<V>,
      o1': Outcome<V>, s2: Spec<V>, d2: nat, s2': Spec<V>)
    requires k < end <= |rules| && o1.response == o1'.response && o1.spec == o1'.spec
    requires var t2 := TurnOf(ts', stage, rules[k], k + 1, s2, d2);
      t2.Next? && SegmentEnds(ts', stage, rules, k + 1, end, o1', t2.spec, d2, s2')
    ensures SegmentEnds(ts', stage, rules, k, end, o1, s2, d2, s2')
  {
  }

  /** One spliced-in rule that stops. */
  lemma SegmentStop<V>(ts': Tables<V>, stage: Stage, rules: seq<Rule<V>>, k: nat, end: nat, o1: Outcome<V>,
      s2: Spec<V>, d2: nat, s2': Spec<V>)
    requires k < end <= |rules|
    requires !o1.response.AclNone? && TurnsAgree(Stop(o1), TurnOf(ts', stage, rules[k], k + 1, s2, d2))
    ensures SegmentEnds(ts', stage, rules, k, end, o1, s2, d2, s2')
  {
  }

  /** No rule of the called table stops with nothing. */
  lemma CalleeStops<V>(ts: Tables<V>, table: string, p: nat, stage: Stage, j: nat, s: Spec<V>, depth: nat)
    requires Inlinable(ts, table, p) && j < |Callee(ts, table, p)|
    ensures var t := TurnOf(ts, stage, Callee(ts, table, p)[j], j + 1, s, depth);
      t.Stop? ==> !t.outcome.response.AclNone?
  {
    OnlyReturnStopsWithNone(ts, stage, Callee(ts, table, p)[j], j + 1, s, depth);
  }

  /** One spliced-in rule against the same rule in the called table. */
  lemma SegmentTurn<V>(ts': Tables<V>, stage: Stage, rules: seq<Rule<V>>, k: nat, end: nat, t1: Turn<V>,
      o1: Outcome<V>, o1': Outcome<V>, s2: Spec<V>, d2: nat, s2': Spec<V>)
    requires k < end <= |rules|
    requires var t2 := TurnOf(ts', stage, rules[k], k + 1, s2, d2);
      && TurnsAgree(t1, t2)
      && (t1.Next? ==> o1.response == o1'.response && o1.spec == o1'.spec
                       && SegmentEnds(ts', stage, rules, k + 1, end, o1', t2.spec, d2, s2'))
    requires t1.Stop? ==> o1 == t1.outcome && !o1.response.AclNone?
    ensures SegmentEnds(ts', stage, rules, k, end, o1, s2, d2, s2')
  {
    if t1.Next? {
      SegmentNext(ts', stage, rules, k, end, o1, o1', s2, d2, s2');
    } else {
      SegmentStop(ts', stage, rules, k, end, o1, s2, d2, s2');
    }
  }

  /** The first of the spliced-in rules, and what the called table still has to do behind it. */
  lemma {:induction false} SegmentFirst<V(!new)>(ts: Tables<V>, table: string, p: nat, ts': Tables<V>, stage: Stage,
      name: string, j: nat, s1: Spec<V>, s2: Spec<V>, d1: nat, d2: nat, o1: Outcome<V>)
    returns (t1: Turn<V>, t2: Turn<V>, o1': Outcome<V>)
    requires IsInlined(ts, table, p, ts') && AllBlind(ts, stage) && SameVars(s1, s2) && d2 <= d1
    requires name in ts && name == ts[table][p].action.table && j < |ts[name]|
    requires o1 == RulesFrom(ts, stage, ts[name], j, s1, d1) && !o1.response.AclError?
    ensures t2 == TurnOf(ts', stage, ts'[table][p + j], p + j + 1, s2, d2) && TurnsAgree(t1, t2)
    ensures t1.Next? ==> o1' == RulesFrom(ts, stage, ts[name], j + 1, t1.spec, d1)
    ensures t1.Next? ==> o1.response == o1'.response && o1.spec == o1'.spec
    ensures t1.Stop? ==> o1 == t1.outcome && !o1.response.AclNone?
    decreases MAX_RECURSION - d1, 0, 4
  {
    assert Inside(ts, table, p, ts', j);
    t1, t2 := BothTurn(ts, table, p, ts', stage, name, j, table, p + j, s1, s2, d1, d2);
    CalleeStops(ts, table, p, stage, j, s1, d1);
    o1' := if t1.Next? then RulesFrom(ts, stage, ts[name], j + 1, t1.spec, d1) else o1;
  }

  /** The spliced-in rules at depth d2 do what the called table does at depth d1. */
  lemma {:induction false} SegmentAgrees<V(!new)>(ts: Tables<V>, table: string, p: nat, ts': Tables<V>,
      stage: Stage, name: string, j: nat, s1: Spec<V>, s2: Spec<V>, d1: nat, d2: nat, o1: Outcome<V>,
      end: nat) returns (s2': Spec<V>)
    requires IsInlined(ts, table, p, ts') && AllBlind(ts, stage) && SameVars(s1, s2) && d2 <= d1
    requires name in ts && name == ts[table][p].action.table && j <= |ts[name]| && end == p + |ts[name]|
    requires o1 == RulesFrom(ts, stage, ts[name], j, s1, d1) && !o1.response.AclError?
    ensures SegmentEnds(ts', stage, ts'[table], p + j, end, o1, s2, d2, s2')
    decreases MAX_RECURSION - d1, 1 + |ts[name]| - j, 0
  {
    s2' := s2;
    if j < |ts[name]| {
      var t1, t2, o1' := SegmentFirst(ts, table, p, ts', stage, name, j, s1, s2, d1, d2, o1);
      if t1.Next? {
        s2' := SegmentAgrees(ts, table, p, ts', stage, name, j + 1, t1.spec, t2.spec, d1, d2, o1', end);
      }
      SegmentTurn(ts', stage, ts'[table], p + j, end, t1, o1, o1', s2, d2, s2');
    }
  }

  /** The changed table itself, from rule i of the original on. */
  lemma {:induction false} SplicedAgrees<V(!new)>(ts: Tables<V>, table: string, p: nat, ts': Tables<V>,
      stage: Stage, i: nat, s1: Spec<V>, s2: Spec<V>, d1: nat, d2: nat)
    requires IsInlined(ts, table, p, ts') && AllBlind(ts, stage) && SameVars(s1, s2) && d2 <= d1
    requires i <= |ts[table]| && !RulesFrom(ts, stage, ts[table], i, s1, d1).response.AclError?
    ensures Agree(RulesFrom(ts, stage, ts[table], i, s1, d1),
                  RulesFrom(ts', stage, ts'[table], Place(ts, table, p, i), s2, d2))
    decreases MAX_RECURSION - d1, 1 + |ts[table]| - i, 1
  {
    if i == p {
      CallAgrees(ts, table, p, ts', stage, s1, s2, d1, d2);
    } else if i < |ts[table]| {
      var k := Place(ts, table, p, i);
      assert Outside(ts, table, p, ts', i);
      var t1, t2 := BothTurn(ts, table, p, ts', stage, table, i, table, k, s1, s2, d1, d2);
      if t1.Next? {
        SplicedAgrees(ts, table, p, ts', stage, i + 1, t1.spec, t2.spec, d1, d2);
      }
      LoopsAgree(ts, ts[table], i, s1, d1, ts', ts'[table], k, s2, d2, stage);
    }
  }

  /** The call rule against the rules that replace it. */
  lemma {:induction false} CallAgrees<V(!new)>(ts: Tables<V>, table: string, p: nat, ts': Tables<V>, stage: Stage,
      s1: Spec<V>, s2: Spec<V>, d1: nat, d2: nat)
    requires IsInlined(ts, table, p, ts') && AllBlind(ts, stage) && SameVars(s1, s2) && d2 <= d1
    requires !RulesFrom(ts, stage, ts[table], p, s1, d1).response.AclError?
    ensures Agree(RulesFrom(ts, stage, ts[table], p, s1, d1), RulesFrom(ts', stage, ts'[table], p, s2, d2))
    decreases MAX_RECURSION - d1, 1 + |ts[table]| - p, 0
  {
    var name := ts[table][p].action.table;
    var o := AclOf(ts, stage, name, s1, d1);
    FineTurn(ts, stage, ts[table], p, s1, d1);
    CallTurn(ts, stage, ts[table][p], p + 1, s1, d1);
    var s2' := s2;
    if name in ts {
      s2' := SegmentAgrees(ts, table, p, ts', stage, name, 0, s1, s2, d1 + 1, d2, o, p + |ts[name]|);
    }
    if o.response.AclNone? {
      SplicedAgrees(ts, table, p, ts', stage, p + 1, o.spec, s2', d1, d2);
    }
  }

  /** What a call rule without condition and reply does. */
  lemma CallTurn<V>(ts: Tables<V>, stage: Stage, r: Rule<V>, n: nat, s: Spec<V>, depth: nat)
    requires r.condition.None? && r.action.CallTo? && r.reply.None? && Fine(TurnOf(ts, stage, r, n, s, depth))
    ensures var t, o := TurnOf(ts, stage, r, n, s, depth), AclOf(ts, stage, r.action.table, s, depth);
      && !o.response.AclError?
      && (o.response.AclNone? ==> t.Next? && t.spec == o.spec)
      && (!o.response.AclNone? ==> t.Stop? && Agree(t.outcome, o))
  {
    AclSound(ts, stage, r.action.table, s, depth);
    var o := AclOf(ts, stage, r.action.table, s, depth);
    assert Perform(ts, stage, r.action, s, depth) == o;
    assert Allowed(AclCall, stage) ==> TurnOf(ts, stage, r, n, s, depth) == React(stage, r, n, o);
  }

  lemma {:induction false} AclAgrees<V(!new)>(ts: Tables<V>, table: string, p: nat, ts': Tables<V>, stage: Stage,
      name: string, s1: Spec<V>, s2: Spec<V>, d1: nat, d2: nat)
    requires IsInlined(ts, table, p, ts') && AllBlind(ts, stage) && SameVars(s1, s2) && d2 <= d1
    requires !AclOf(ts, stage, name, s1, d1).response.AclError?
    ensures Agree(AclOf(ts, stage, name, s1, d1), AclOf(ts', stage, name, s2, d2))
    decreases MAX_RECURSION - d1, 0, 0
  {
    if name == table {
      SplicedAgrees(ts, table, p, ts', stage, 0, s1, s2, d1 + 1, d2 + 1);
    } else {
      assert Unchanged(ts, ts', name);
    }
    if name != table && name in ts {
      RulesAgree(ts, table, p, ts', stage, name, 0, s1, s2, d1 + 1, d2 + 1);
    }
  }

  /** Replacing an unconditional call without a reply by the rules of the called table, which has
      no `return` of its own, preserves the result and all variables but the acl_* symbols, for
      every table, stage, mailspec and depth at which the original run does not end in an error.
      Tables may be cyclic; the called table may even be the calling one. */
  lemma InliningPreservesMeaning<V(!new)>(ts: Tables<V>, table: string, p: nat, stage: Stage, name: string,
      s: Spec<V>, depth: nat)
    requires Inlinable(ts, table, p) && AllBlind(ts, stage)
    requires !AclOf(ts, stage, name, s, depth).response.AclError?
    ensures var o1, o2 := AclOf(ts, stage, name, s, depth), AclOf(Inlined(ts, table, p), stage, name, s, depth);
      o2.response == o1.response && o2.spec.vars == o1.spec.vars
  {
    InlinedIsInlined(ts, table, p);
    AclAgrees(ts, table, p, Inlined(ts, table, p), stage, name, s, s, depth, depth);
  }

  /** The called table must have no `return`: it would end the calling table as well. */
  lemma ReturnForbidsInlining(s: Spec<int>, depth: nat)
    requires depth + 2 < MAX_RECURSION
    ensures var rule := (a: Action<int>) => Rule(None, a, None, "", 0);
      var callee := [rule(PlainAction(PReturn))];
      var after := [rule(PlainAction(PReject))];
      var ts := map["caller" := [rule(CallTo("callee"))] + after, "callee" := callee];
      && AclOf(ts, MsConnect, "caller", s, depth).response.AclReject?
      && AclOf(ts["caller" := callee + after], MsConnect, "caller", s, depth).response.AclNone?
  {
    var rule := (a: Action<int>) => Rule(None, a, None, "", 0);
    var callee := [rule(PlainAction(PReturn))];
    var after := [rule(PlainAction(PReject))];
    var ts: Tables<int> := map["caller" := [rule(CallTo("callee"))] + after, "callee" := callee];
    var rules := ts["caller"];
    assert TurnOf(ts, MsConnect, callee[0], 1, s, depth + 2) == Stop(Outcome(AclNone, s, [AclReturn]));
    assert AclOf(ts, MsConnect, "callee", s, depth + 1) == Outcome(AclNone, s, [AclReturn]);
    assert TurnOf(ts, MsConnect, rules[0], 1, s, depth + 1) == Next(s, [AclCall] + [AclReturn]);
    assert TurnOf(ts, MsConnect, rules[1], 2, s, depth + 1).Stop?;
    assert TurnOf(ts, MsConnect, rules[1], 2, s, depth + 1).outcome.response.AclReject?;
    assert RulesFrom(ts, MsConnect, rules, 1, s, depth + 1).response.AclReject?;
    var ts' := ts["caller" := callee + after];
    assert TurnOf(ts', MsConnect, ts'["caller"][0], 1, s, depth + 1) == Stop(Outcome(AclNone, s, [AclReturn]));
  }
}
