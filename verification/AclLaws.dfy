/** What each kind of rule does to a table: which rules are tried behind it and what the table answers, which
    stages the source's handler table allows, and what the acl_* symbols say afterwards.
 */
module AclLaws {
  import opened Common
  import opened Acl
  import opened AclProofs

  // ---------------------------------------------------------------- the stages of the handler table

  const MS_ANY := {MsConnect, MsHelo, MsEnvfrom, MsEnvrcpt, MsData, MsHeader, MsEoh, MsBody, MsEom, MsAbort, MsClose}
  const MS_OFF_ENVRCPT := {MsEnvrcpt, MsData, MsHeader, MsEoh, MsBody, MsEom, MsAbort, MsClose}

  /** The stages at which an action is allowed, as sets of stages: tables, control flow, set and log also
      before the first connection, greylisting from the first recipient on, changes of the message at its
      end. */
  lemma AllowedStages(stage: Stage)
    ensures forall a :: a in {AclNull, AclNone, AclReturn, AclContinue, AclJump, AclCall, AclSet, AclLog} ==>
      (Allowed(a, stage) <==> stage in MS_ANY + {MsInit})
    ensures forall a :: a in {AclReject, AclDiscard, AclAccept, AclTempfail, AclTarpit} ==>
      (Allowed(a, stage) <==> stage in MS_ANY)
    ensures Allowed(AclGreylist, stage) <==> stage in MS_OFF_ENVRCPT
    ensures forall a :: a in {AclMod, AclPipe} ==> (Allowed(a, stage) <==> stage == MsEom)
  {
  }

  // ---------------------------------------------------------------- tables

  /** A missing table and an empty one answer with nothing and change nothing. */
  lemma EmptyTable<V>(ts: Tables<V>, stage: Stage, table: string, s: Spec<V>, depth: nat)
    requires depth < 255 && (table !in ts || ts[table] == [])
    ensures AclOf(ts, stage, table, s, depth) == Outcome(AclNone, s, [])
  {
  }

  /** The limit is 256 nested tables. */
  lemma TooDeep<V>(ts: Tables<V>, stage: Stage, table: string, s: Spec<V>, depth: nat)
    requires depth >= 255
    ensures AclOf(ts, stage, table, s, depth) == Outcome(AclError, s, [])
  {
  }

  // ---------------------------------------------------------------- conditions

  /** A rule whose condition is false is passed over, with what the condition did to the mailspec. */
  lemma FalseCondition<V>(ts: Tables<V>, stage: Stage, rules: seq<Rule<V>>, i: nat, s: Spec<V>, depth: nat)
    requires i < |rules| && rules[i].condition.Some? && rules[i].condition.value(s).truth.No?
    ensures RulesFrom(ts, stage, rules, i, s, depth)
      == RulesFrom(ts, stage, rules, i + 1, rules[i].condition.value(s).spec, depth)
  {
    var rest := RulesFrom(ts, stage, rules, i + 1, rules[i].condition.value(s).spec, depth);
    assert [] + rest.ran == rest.ran;
  }

  /** A condition that fails, and an action that the stage forbids, end the table in an error before
      anything is performed. */
  lemma FailedRule<V>(ts: Tables<V>, stage: Stage, rules: seq<Rule<V>>, i: nat, s: Spec<V>, depth: nat)
    requires i < |rules|
    requires (rules[i].condition.Some? && rules[i].condition.value(s).truth.Broken?)
      || (Fires(rules[i], s) && !Allowed(rules[i].action.Kind(), stage))
    ensures var o := RulesFrom(ts, stage, rules, i, s, depth); o.response == AclError && o.ran == []
  {
  }

  ghost predicate Fires<V>(r: Rule<V>, s: Spec<V>) {
    r.condition.None? || r.condition.value(s).truth.Yes?
  }

  ghost function After<V>(r: Rule<V>, s: Spec<V>): Spec<V> {
    if r.condition.None? then s else r.condition.value(s).spec
  }

  /** The rule is reached with mailspec s, its condition holds and the stage allows its action. */
  ghost predicate Matches<V>(rules: seq<Rule<V>>, i: nat, s: Spec<V>, stage: Stage) {
    i < |rules| && Fires(rules[i], s) && Allowed(rules[i].action.Kind(), stage)
  }

  /** The table ends here: the rule answers a with mailspec s, unless its reply cannot be evaluated, and
      nothing behind the actions in ran is performed. */
  ghost predicate EndsWith<V>(o: Outcome<V>, r: Rule<V>, a: ActionType, s: Spec<V>, ran: seq<ActionType>) {
    && o.ran == ran
    && (r.reply.None? ==> o.response == a && o.spec.vars == s.vars)
    && (r.reply.Some? ==>
         var d := r.reply.value(a, s);
         o.spec.vars == d.spec.vars && o.response == if d.ok then a else AclError)
  }

  /** The table goes on behind the rule with mailspec s. */
  ghost predicate GoesOn<V>(o: Outcome<V>, rest: Outcome<V>, ran: seq<ActionType>) {
    o.response == rest.response && o.spec == rest.spec && o.ran == ran + rest.ran
  }

  lemma ConcludeEnds<V>(stage: Stage, r: Rule<V>, n: nat, o: Outcome<V>)
    ensures EndsWith(Conclude(stage, r, n, o), r, o.response, o.spec, o.ran)
  {
  }

  /** What the response of the handler does to the table. */
  lemma Reacted<V>(ts: Tables<V>, stage: Stage, rules: seq<Rule<V>>, i: nat, s: Spec<V>, depth: nat)
    requires Matches(rules, i, s, stage)
    ensures var o, r := RulesFrom(ts, stage, rules, i, s, depth), rules[i];
      var p := Perform(ts, stage, r.action, After(r, s), depth);
      var ran := [r.action.Kind()] + p.ran;
      match p.response
      case AclNone => GoesOn(o, RulesFrom(ts, stage, rules, i + 1, p.spec, depth), ran)
      case AclReturn => o == Outcome(AclNone, p.spec, ran)
      case AclError => o == p.(ran := ran)
      case _ => EndsWith(o, r, p.response, p.spec, ran)
  {
    var r := rules[i];
    var p := Perform(ts, stage, r.action, After(r, s), depth);
    assert TurnOf(ts, stage, r, i + 1, s, depth) == React(stage, r, i + 1, p);
    ConcludeEnds(stage, r, i + 1, p.(ran := [r.action.Kind()] + p.ran));
  }

  // ---------------------------------------------------------------- actions

  /** Verdicts and `continue` end the table with themselves, `return` ends it with nothing, and a rule
      without effect goes on. */
  lemma PlainRule<V>(ts: Tables<V>, stage: Stage, rules: seq<Rule<V>>, i: nat, s: Spec<V>, depth: nat)
    requires Matches(rules, i, s, stage) && rules[i].action.PlainAction?
    ensures var o, r, s' := RulesFrom(ts, stage, rules, i, s, depth), rules[i], After(rules[i], s);
      match r.action.plain
      case PNone => GoesOn(o, RulesFrom(ts, stage, rules, i + 1, s', depth), [AclNone])
      case PReturn => o == Outcome(AclNone, s', [AclReturn])
      case PContinue => EndsWith(o, r, AclContinue, s', [AclContinue])
      case PReject => EndsWith(o, r, AclReject, s', [AclReject])
      case PDiscard => EndsWith(o, r, AclDiscard, s', [AclDiscard])
      case PAccept => EndsWith(o, r, AclAccept, s', [AclAccept])
      case PTempfail => EndsWith(o, r, AclTempfail, s', [AclTempfail])
  {
    Reacted(ts, stage, rules, i, s, depth);
  }

  /** A jump never comes back: if its target has no answer, the table answers `continue`, and no rule
      behind a matching jump is tried. */
  lemma JumpRule<V>(ts: Tables<V>, stage: Stage, rules: seq<Rule<V>>, i: nat, s: Spec<V>, depth: nat)
    requires Matches(rules, i, s, stage) && rules[i].action.JumpTo?
    ensures var o, a := RulesFrom(ts, stage, rules, i, s, depth),
        AclOf(ts, stage, rules[i].action.table, After(rules[i], s), depth);
      if a.response.AclError? then o == a.(ran := [AclJump] + a.ran)
      else EndsWith(o, rules[i], if a.response.AclNone? then AclContinue else a.response, a.spec, [AclJump] + a.ran)
  {
    AclSound(ts, stage, rules[i].action.table, After(rules[i], s), depth);
    Reacted(ts, stage, rules, i, s, depth);
  }

  /** A call comes back when its target has no answer, and otherwise ends the table with that answer. */
  lemma CallRule<V>(ts: Tables<V>, stage: Stage, rules: seq<Rule<V>>, i: nat, s: Spec<V>, depth: nat)
    requires Matches(rules, i, s, stage) && rules[i].action.CallTo?
    ensures var o, a := RulesFrom(ts, stage, rules, i, s, depth),
        AclOf(ts, stage, rules[i].action.table, After(rules[i], s), depth);
      if a.response.AclNone? then GoesOn(o, RulesFrom(ts, stage, rules, i + 1, a.spec, depth), [AclCall] + a.ran)
      else if a.response.AclError? then o == a.(ran := [AclCall] + a.ran)
      else EndsWith(o, rules[i], a.response, a.spec, [AclCall] + a.ran)
  {
    AclSound(ts, stage, rules[i].action.table, After(rules[i], s), depth);
    Reacted(ts, stage, rules, i, s, depth);
  }

  /** In particular for a table that starts with a jump. */
  lemma TableStartsWithJump<V>(ts: Tables<V>, stage: Stage, table: string, s: Spec<V>, depth: nat)
    requires depth + 1 < MAX_RECURSION && table in ts && Matches(ts[table], 0, s, stage)
    requires ts[table][0].condition.None? && ts[table][0].reply.None? && ts[table][0].action.JumpTo?
    ensures var a := AclOf(ts, stage, ts[table][0].action.table, s, depth + 1).response;
      AclOf(ts, stage, table, s, depth).response == if a.AclNone? then AclContinue else a
  {
    JumpRule(ts, stage, ts[table], 0, s, depth + 1);
  }

  /** A handler that can only succeed or fail: success goes on with its mailspec, failure is an error. */
  lemma SimpleRule<V>(ts: Tables<V>, stage: Stage, rules: seq<Rule<V>>, i: nat, s: Spec<V>, depth: nat)
    requires Matches(rules, i, s, stage) && rules[i].action.SimpleAction?
    ensures var o, d := RulesFrom(ts, stage, rules, i, s, depth), rules[i].action.run(stage, After(rules[i], s));
      if d.ok then GoesOn(o, RulesFrom(ts, stage, rules, i + 1, d.spec, depth), [rules[i].action.Kind()])
      else o == Outcome(AclError, d.spec, [rules[i].action.Kind()])
  {
    Reacted(ts, stage, rules, i, s, depth);
  }

  /** A greylisted message ends the table with ACL_GREYLIST, others go on. */
  lemma GreylistRule<V>(ts: Tables<V>, stage: Stage, rules: seq<Rule<V>>, i: nat, s: Spec<V>, depth: nat)
    requires Matches(rules, i, s, stage) && rules[i].action.GreylistAction?
    ensures var o, g := RulesFrom(ts, stage, rules, i, s, depth), rules[i].action.greylist(stage, After(rules[i], s));
      match g.result
      case GlError => o == Outcome(AclError, g.spec, [AclGreylist])
      case GlDefer => EndsWith(o, rules[i], AclGreylist, g.spec, [AclGreylist])
      case GlNone => GoesOn(o, RulesFrom(ts, stage, rules, i + 1, g.spec, depth), [AclGreylist])
  {
    Reacted(ts, stage, rules, i, s, depth);
  }

  /** A client that hangs up while it is delayed ends the table with ACL_TEMPFAIL, others go on. */
  lemma TarpitRule<V>(ts: Tables<V>, stage: Stage, rules: seq<Rule<V>>, i: nat, s: Spec<V>, depth: nat)
    requires Matches(rules, i, s, stage) && rules[i].action.TarpitAction?
    ensures var o, t := RulesFrom(ts, stage, rules, i, s, depth), rules[i].action.tarpit(stage, After(rules[i], s));
      match t.result
      case TpError => o == Outcome(AclError, t.spec, [AclTarpit])
      case TpDropped => EndsWith(o, rules[i], AclTempfail, t.spec, [AclTarpit])
      case TpNone => GoesOn(o, RulesFrom(ts, stage, rules, i + 1, t.spec, depth), [AclTarpit])
  {
    Reacted(ts, stage, rules, i, s, depth);
  }

  // ---------------------------------------------------------------- the acl_* symbols

  // Conditions, handlers and replies that leave the acl_* symbols alone.

  ghost predicate TidyAction<V(!new)>(a: Action<V>, stage: Stage) {
    match a
    case SimpleAction(_, f) => forall s {:trigger f(stage, s)} :: f(stage, s).spec.book == s.book
    case GreylistAction(f) => forall s {:trigger f(stage, s)} :: f(stage, s).spec.book == s.book
    case TarpitAction(f) => forall s {:trigger f(stage, s)} :: f(stage, s).spec.book == s.book
    case _ => true
  }

  ghost predicate Tidy<V(!new)>(r: Rule<V>, stage: Stage) {
    && (r.condition.Some? ==> forall s {:trigger r.condition.value(s)} :: r.condition.value(s).spec.book == s.book)
    && (r.reply.Some? ==> forall a, s {:trigger r.reply.value(a, s)} :: r.reply.value(a, s).spec.book == s.book)
    && TidyAction(r.action, stage)
  }

  ghost predicate AllTidy<V(!new)>(ts: Tables<V>, stage: Stage) {
    forall name, j {:trigger Tidy(ts[name][j], stage)} :: name in ts && 0 <= j < |ts[name]| ==> Tidy(ts[name][j], stage)
  }

  /** A rule has matched in this stage or a later one. */
  ghost predicate Taken<V>(s: Spec<V>, stage: Stage) {
    s.book.Some? && s.book.value.matched && StageNumber(stage) <= StageNumber(s.book.value.stage)
  }

  ghost predicate IsRule<V>(ts: Tables<V>, b: Book, name: string, j: nat) {
    name in ts && j < |ts[name]| && b.rule == j + 1 && b.filename == ts[name][j].filename && b.line == ts[name][j].line
  }

  /** The symbols name a rule of some table, this stage and this response. */
  ghost predicate Names<V>(ts: Tables<V>, stage: Stage, o: Outcome<V>) {
    o.spec.book.Some? &&
    var b := o.spec.book.value;
    b.matched && b.stage == stage && b.response == o.response && exists name, j: nat :: IsRule(ts, b, name, j)
  }

  /** What the symbols say after an outcome reached from s: the first match of the stage stays; otherwise
      they name the rule that decided, and they change only if one has. */
  ghost predicate Noted<V>(ts: Tables<V>, stage: Stage, s: Spec<V>, o: Outcome<V>) {
    if Taken(s, stage) then o.spec.book == s.book
    else if o.response.AclNone? then o.spec.book == s.book
    else o.response.AclError? || Names(ts, stage, o)
  }

  lemma {:induction false} PerformNotes<V(!new)>(ts: Tables<V>, stage: Stage, a: Action<V>, s: Spec<V>, depth: nat)
    requires AllTidy(ts, stage) && TidyAction(a, stage)
    ensures var o := Perform(ts, stage, a, s, depth);
      || o.spec.book == s.book
      || (!Taken(s, stage) && !o.response.AclNone? && !o.response.AclReturn?
          && (o.response.AclError? || Names(ts, stage, o)))
    decreases MAX_RECURSION - depth, 0, 1
  {
    match a
    case JumpTo(table) => AclNotes(ts, stage, table, s, depth); AclSound(ts, stage, table, s, depth);
    case CallTo(table) => AclNotes(ts, stage, table, s, depth); AclSound(ts, stage, table, s, depth);
    case _ =>
  }

  lemma ConcludeNotes<V(!new)>(ts: Tables<V>, stage: Stage, name: string, j: nat, s: Spec<V>, o: Outcome<V>)
    requires name in ts && j < |ts[name]| && Tidy(ts[name][j], stage)
    requires IsResult(o.response) && !o.response.AclNone? && !o.response.AclError?
    requires o.spec.book == s.book || (!Taken(s, stage) && Names(ts, stage, o))
    ensures Noted(ts, stage, s, Conclude(stage, ts[name][j], j + 1, o))
  {
    var r := ts[name][j];
    var d := if r.reply.None? then Done(true, o.spec) else r.reply.value(o.response, o.spec);
    assert d.spec.book == o.spec.book;
    var c := Conclude(stage, r, j + 1, o);
    if d.ok && !Taken(d.spec, stage) {
      assert IsRule(ts, c.spec.book.value, name, j);
    }
  }

  lemma {:induction false} TurnNotes<V(!new)>(ts: Tables<V>, stage: Stage, name: string, j: nat, s: Spec<V>, depth: nat)
    requires AllTidy(ts, stage) && name in ts && j < |ts[name]|
    ensures var t := TurnOf(ts, stage, ts[name][j], j + 1, s, depth);
      if t.Next? then t.spec.book == s.book else Noted(ts, stage, s, t.outcome)
    decreases MAX_RECURSION - depth, 0, 2
  {
    var r := ts[name][j];
    assert Tidy(r, stage);
    var t := Test(r, s);
    assert t.spec.book == s.book;
    if t.truth.Yes? && Allowed(r.action.Kind(), stage) {
      PerformNotes(ts, stage, r.action, t.spec, depth);
      PerformSound(ts, stage, r.action, t.spec, depth);
      ReactNotes(ts, stage, name, j, s, Perform(ts, stage, r.action, t.spec, depth));
    }
  }

  lemma ReactNotes<V(!new)>(ts: Tables<V>, stage: Stage, name: string, j: nat, s: Spec<V>, p: Outcome<V>)
    requires name in ts && j < |ts[name]| && Tidy(ts[name][j], stage)
    requires IsResult(p.response) || p.response.AclReturn?
    requires p.spec.book == s.book
      || (!Taken(s, stage) && !p.response.AclNone? && !p.response.AclReturn?
          && (p.response.AclError? || Names(ts, stage, p)))
    ensures var t := React(stage, ts[name][j], j + 1, p);
      if t.Next? then t.spec.book == s.book else Noted(ts, stage, s, t.outcome)
  {
    var r := ts[name][j];
    if !p.response.AclNone? && !p.response.AclReturn? && !p.response.AclError? {
      ConcludeNotes(ts, stage, name, j, s, p.(ran := [r.action.Kind()] + p.ran));
    }
  }

  lemma {:induction false} RulesNote<V(!new)>(ts: Tables<V>, stage: Stage, name: string, i: nat, s: Spec<V>, depth: nat)
    requires AllTidy(ts, stage) && name in ts && i <= |ts[name]|
    ensures Noted(ts, stage, s, RulesFrom(ts, stage, ts[name], i, s, depth))
    decreases MAX_RECURSION - depth, 1 + |ts[name]| - i, 0
  {
    if i < |ts[name]| {
      TurnNotes(ts, stage, name, i, s, depth);
      var t := TurnOf(ts, stage, ts[name][i], i + 1, s, depth);
      if t.Next? { RulesNote(ts, stage, name, i + 1, t.spec, depth); }
    }
  }

  /** The acl_* symbols after a stage: the first match of the stage stays, and a table that decides names the
      rule that did, wherever in the call tree it stands, with its file, line and response. */
  lemma {:induction false} AclNotes<V(!new)>(ts: Tables<V>, stage: Stage, table: string, s: Spec<V>, depth: nat)
    requires AllTidy(ts, stage)
    ensures Noted(ts, stage, s, AclOf(ts, stage, table, s, depth))
    decreases MAX_RECURSION - depth, 0, 0
  {
    if depth + 1 < MAX_RECURSION && table in ts {
      RulesNote(ts, stage, table, 0, s, depth + 1);
    }
  }
}
