/** The rule interpreter of src/acl.c. Tables of rules call and jump to each other, possibly in
    cycles; a depth limit ends the recursion. Expressions, replies and handlers outside the
    interpreter are arbitrary functions of the mailspec.
 */
module Acl {
  import opened Common

  datatype Stage = MsInit | MsConnect | MsUnknown | MsHelo | MsEnvfrom | MsEnvrcpt | MsData | MsHeader
    | MsEoh | MsBody | MsEom | MsAbort | MsClose

  /** acl_action_type_t: the kinds of actions and the results of the interpreter. */
  datatype ActionType = AclError | AclNull | AclNone | AclReturn | AclContinue | AclReject | AclDiscard
    | AclAccept | AclTempfail | AclJump | AclCall | AclSet | AclLog | AclGreylist | AclTarpit | AclMod | AclPipe

  const MAX_RECURSION := 256

  /** The value of the enumeration constant, as acl_match compares it. */
  function StageNumber(stage: Stage): nat {
    match stage
    case MsInit => 1
    case MsConnect => 2
    case MsUnknown => 4
    case MsHelo => 8
    case MsEnvfrom => 16
    case MsEnvrcpt => 32
    case MsData => 64
    case MsHeader => 128
    case MsEoh => 256
    case MsBody => 512
    case MsEom => 1024
    case MsAbort => 2048
    case MsClose => 4096
  }

  /** MS_ANY, which leaves out MS_INIT and MS_UNKNOWN. */
  predicate AnyStage(stage: Stage) {
    !stage.MsInit? && !stage.MsUnknown?
  }

  predicate FromEnvrcpt(stage: Stage) {
    AnyStage(stage) && !stage.MsConnect? && !stage.MsHelo? && !stage.MsEnvfrom?
  }

  /** ah_stages of acl_action_handlers */
  predicate Allowed(kind: ActionType, stage: Stage) {
    match kind
    case AclError => false
    case AclReject => AnyStage(stage)
    case AclDiscard => AnyStage(stage)
    case AclAccept => AnyStage(stage)
    case AclTempfail => AnyStage(stage)
    case AclGreylist => FromEnvrcpt(stage)
    case AclTarpit => AnyStage(stage)
    case AclMod => stage.MsEom?
    case AclPipe => stage.MsEom?
    case _ => AnyStage(stage) || stage.MsInit?
  }

  // ---------------------------------------------------------------- rules and tables

  /** What acl_match writes: the acl_* symbols. */
  datatype Book = Book(matched: bool, stage: Stage, rule: nat, filename: string, line: int, response: ActionType)

  /** The mailspec: the acl_* bookkeeping symbols apart from all other variables. */
  datatype Spec<V> = Spec(vars: V, book: Option<Book>)

  datatype Truth = No | Yes | Broken
  datatype Tested<V> = Tested(truth: Truth, spec: Spec<V>)
  datatype Done<V> = Done(ok: bool, spec: Spec<V>)

  datatype TarpitResult = TpError | TpDropped | TpNone
  datatype Greylisted<V> = Greylisted(result: GreylistResult, spec: Spec<V>)
  datatype Tarpitted<V> = Tarpitted(result: TarpitResult, spec: Spec<V>)

  /** The actions that without a handler stand for themselves. The grammar makes no ACL_NULL. */
  datatype Plain = PNone | PReturn | PContinue | PReject | PDiscard | PAccept | PTempfail {
    function Kind(): ActionType {
      match this
      case PNone => AclNone
      case PReturn => AclReturn
      case PContinue => AclContinue
      case PReject => AclReject
      case PDiscard => AclDiscard
      case PAccept => AclAccept
      case PTempfail => AclTempfail
    }
  }

  /** The actions whose handler yields only success or an error. */
  datatype Simple = SSet | SLog | SMod | SPipe {
    function Kind(): ActionType {
      match this
      case SSet => AclSet
      case SLog => AclLog
      case SMod => AclMod
      case SPipe => AclPipe
    }
  }

  datatype Action<!V> =
    | PlainAction(plain: Plain)
    | JumpTo(table: string)
    | CallTo(table: string)
    | SimpleAction(simple: Simple, run: (Stage, Spec<V>) -> Done<V>)
    | GreylistAction(greylist: (Stage, Spec<V>) -> Greylisted<V>)
    | TarpitAction(tarpit: (Stage, Spec<V>) -> Tarpitted<V>)
  {
    function Kind(): ActionType {
      match this
      case PlainAction(plain) => plain.Kind()
      case JumpTo(_) => AclJump
      case CallTo(_) => AclCall
      case SimpleAction(simple, _) => simple.Kind()
      case GreylistAction(_) => AclGreylist
      case TarpitAction(_) => AclTarpit
    }
  }

  type Condition<!V> = Spec<V> -> Tested<V>
  type Reply<!V> = (ActionType, Spec<V>) -> Done<V>

  /** A rule; no condition means that it always matches. */
  datatype Rule<!V> = Rule(condition: Option<Condition<V>>, action: Action<V>, reply: Option<Reply<V>>,
    filename: string, line: int)

  type Tables<!V> = map<string, seq<Rule<V>>>

  // ---------------------------------------------------------------- the interpreter as a function

  /** The result of acl, the mailspec it leaves, and the kinds of all actions that were performed
      anywhere in the call tree, in order. */
  datatype Outcome<V> = Outcome(response: ActionType, spec: Spec<V>, ran: seq<ActionType>)

  /** What one rule does to the loop: go on to the next rule, or return. */
  datatype Turn<V> = Next(spec: Spec<V>, ran: seq<ActionType>) | Stop(outcome: Outcome<V>)

  function Match<V>(s: Spec<V>, stage: Stage, rule: nat, filename: string, line: int, response: ActionType): Spec<V> {
    if s.book.Some? && StageNumber(s.book.value.stage) >= StageNumber(stage) && s.book.value.matched then s
    else s.(book := Some(Book(true, stage, rule, filename, line, response)))
  }

  function Test<V>(r: Rule<V>, s: Spec<V>): Tested<V> {
    if r.condition.None? then Tested(Yes, s) else r.condition.value(s)
  }

  /** The action handler, or the action type itself. */
  function Perform<V>(ts: Tables<V>, stage: Stage, a: Action<V>, s: Spec<V>, depth: nat): Outcome<V>
    decreases MAX_RECURSION - depth, 0, 1
  {
    match a
    case PlainAction(plain) => Outcome(plain.Kind(), s, [])
    case JumpTo(table) =>
      var o := AclOf(ts, stage, table, s, depth);
      if o.response.AclNone? then o.(response := AclContinue) else o
    case CallTo(table) => AclOf(ts, stage, table, s, depth)
    case SimpleAction(_, run) =>
      var d := run(stage, s);
      Outcome(if d.ok then AclNone else AclError, d.spec, [])
    case GreylistAction(run) =>
      var g := run(stage, s);
      Outcome(match g.result case GlError => AclError case GlDefer => AclGreylist case GlNone => AclNone, g.spec, [])
    case TarpitAction(run) =>
      var t := run(stage, s);
      Outcome(match t.result case TpError => AclError case TpDropped => AclTempfail case TpNone => AclNone, t.spec, [])
  }

  /** After a response that ends the table: evaluate the reply and note the match. */
  function Conclude<V>(stage: Stage, r: Rule<V>, n: nat, o: Outcome<V>): Outcome<V> {
    var d := if r.reply.None? then Done(true, o.spec) else r.reply.value(o.response, o.spec);
    if !d.ok then Outcome(AclError, d.spec, o.ran)
    else o.(spec := Match(d.spec, stage, n, r.filename, r.line, o.response))
  }

  /** The switch on the response of rule number n. */
  function React<V>(stage: Stage, r: Rule<V>, n: nat, p: Outcome<V>): Turn<V> {
    var o := p.(ran := [r.action.Kind()] + p.ran);
    match o.response
    case AclNone => Next(o.spec, o.ran)
    case AclReturn => Stop(o.(response := AclNone))
    case AclError => Stop(o)
    case _ => Stop(Conclude(stage, r, n, o))
  }

  /** One turn of the loop of acl, for rule number n. */
  function TurnOf<V>(ts: Tables<V>, stage: Stage, r: Rule<V>, n: nat, s: Spec<V>, depth: nat): Turn<V>
    decreases MAX_RECURSION - depth, 0, 2
  {
    var t := Test(r, s);
    if t.truth.No? then Next(t.spec, [])
    else if t.truth.Broken? then Stop(Outcome(AclError, t.spec, []))
    else if !Allowed(r.action.Kind(), stage) then Stop(Outcome(AclError, t.spec, []))
    else React(stage, r, n, Perform(ts, stage, r.action, t.spec, depth))
  }

  /** The loop of acl from rule number i + 1 on. */
  function RulesFrom<V>(ts: Tables<V>, stage: Stage, rules: seq<Rule<V>>, i: nat, s: Spec<V>, depth: nat): Outcome<V>
    requires i <= |rules|
    decreases MAX_RECURSION - depth, 1 + |rules| - i, 0
  {
    if i == |rules| then Outcome(AclNone, s, [])
    else
      match TurnOf(ts, stage, rules[i], i + 1, s, depth)
      case Stop(o) => o
      case Next(s', ran) =>
        Behind(ran, RulesFrom(ts, stage, rules, i + 1, s', depth))
  }

  /** acl */
  function AclOf<V>(ts: Tables<V>, stage: Stage, table: string, s: Spec<V>, depth: nat): Outcome<V>
    decreases MAX_RECURSION - depth, 0, 0
  {
    if depth + 1 >= MAX_RECURSION then Outcome(AclError, s, [])
    else if table !in ts then Outcome(AclNone, s, [])
    else RulesFrom(ts, stage, ts[table], 0, s, depth + 1)
  }

  // ---------------------------------------------------------------- the code

  /** The mailspec table of a connection, which conditions, handlers and replies change. */
  class Mailspec<V> {
    var spec: Spec<V>

    constructor (spec: Spec<V>)
      ensures this.spec == spec
    {
      this.spec := spec;
    }
  }

  class Interpreter<V> {
    const tables: Tables<V>

    constructor (tables: Tables<V>)
      ensures this.tables == tables
    {
      this.tables := tables;
    }

    /** The call through ah_handler, or the action type where there is no handler. */
    method Handle(stage: Stage, a: Action<V>, ms: Mailspec<V>, depth: nat)
      returns (response: ActionType, ran: seq<ActionType>)
      modifies ms
      ensures Outcome(response, ms.spec, ran) == Perform(tables, stage, a, old(ms.spec), depth)
      decreases MAX_RECURSION - depth, 1
    {
      ran := [];
      match a {
        case PlainAction(plain) =>
          response := plain.Kind();
        case JumpTo(table) =>
          response, ran := Acl(stage, table, ms, depth);
          if response.AclNone? {
            response := AclContinue;
          }
        case CallTo(table) =>
          response, ran := Acl(stage, table, ms, depth);
        case SimpleAction(_, run) =>
          var d := run(stage, ms.spec);
          ms.spec := d.spec;
          response := if d.ok then AclNone else AclError;
        case GreylistAction(run) =>
          var g := run(stage, ms.spec);
          ms.spec := g.spec;
          response := match g.result case GlError => AclError case GlDefer => AclGreylist case GlNone => AclNone;
        case TarpitAction(run) =>
          var t := run(stage, ms.spec);
          ms.spec := t.spec;
          response := match t.result case TpError => AclError case TpDropped => AclTempfail case TpNone => AclNone;
      }
    }

    /** The body of the loop of acl, for rule number n; it goes on to the next rule or returns. */
    method TryRule(stage: Stage, r: Rule<V>, n: nat, ms: Mailspec<V>, depth: nat)
      returns (goOn: bool, response: ActionType, ran: seq<ActionType>)
      modifies ms
      ensures TurnOf(tables, stage, r, n, old(ms.spec), depth)
        == if goOn then Next(ms.spec, ran) else Stop(Outcome(response, ms.spec, ran))
      decreases MAX_RECURSION - depth, 2
    {
      var t := Test(r, ms.spec);
      ms.spec := t.spec;
      if t.truth.No? {
        return true, AclNone, [];
      }
      if t.truth.Broken? || !Allowed(r.action.Kind(), stage) {
        return false, AclError, [];
      }
      response, ran := Handle(stage, r.action, ms, depth);
      ran := [r.action.Kind()] + ran;
      if response.AclNone? {
        return true, response, ran;
      }
      if response.AclReturn? {
        return false, AclNone, ran;
      }
      if response.AclError? {
        return false, response, ran;
      }
      if r.reply.Some? {
        var d := r.reply.value(response, ms.spec);
        ms.spec := d.spec;
        if !d.ok {
          return false, AclError, ran;
        }
      }
      ms.spec := Match(ms.spec, stage, n, r.filename, r.line, response);
      return false, response, ran;
    }

    /** acl: try the rules of the table in order until one returns. */
    method Acl(stage: Stage, table: string, ms: Mailspec<V>, depth: nat)
      returns (response: ActionType, ran: seq<ActionType>)
      modifies ms
      ensures Outcome(response, ms.spec, ran) == AclOf(tables, stage, table, old(ms.spec), depth)
      decreases MAX_RECURSION - depth, 0
    {
      ran := [];
      var level := depth + 1;
      if level >= MAX_RECURSION {
        return AclError, ran;
      }
      if table !in tables {
        return AclNone, ran;
      }
      var rules := tables[table];
      ghost var goal := RulesFrom(tables, stage, rules, 0, ms.spec, level);
      for i := 0 to |rules|
        invariant goal == Behind(ran, RulesFrom(tables, stage, rules, i, ms.spec, level))
      {
        RulesTurn(tables, stage, rules, i, ms.spec, level, ran);
        var goOn, performed;
        goOn, response, performed := TryRule(stage, rules[i], i + 1, ms, level);
        if !goOn {
          return response, ran + performed;
        }
        ran := ran + performed;
      }
      return AclNone, ran;
    }
  }

  /** The outcome o after the actions in ran. */
  function Behind<V>(ran: seq<ActionType>, o: Outcome<V>): Outcome<V> {
    o.(ran := ran + o.ran)
  }

  /** One turn of the loop, after the actions in ran. */
  lemma RulesTurn<V>(ts: Tables<V>, stage: Stage, rules: seq<Rule<V>>, i: nat, s: Spec<V>, depth: nat,
                     ran: seq<ActionType>)
    requires i < |rules|
    ensures var all := Behind(ran, RulesFrom(ts, stage, rules, i, s, depth));
      match TurnOf(ts, stage, rules[i], i + 1, s, depth)
      case Stop(o) => all == Behind(ran, o)
      case Next(s', more) => all == Behind(ran + more, RulesFrom(ts, stage, rules, i + 1, s', depth))
  {
    match TurnOf(ts, stage, rules[i], i + 1, s, depth)
    case Stop(o) =>
    case Next(s', more) => BehindTwice(ran, more, RulesFrom(ts, stage, rules, i + 1, s', depth));
  }

  lemma BehindTwice<V>(a: seq<ActionType>, b: seq<ActionType>, o: Outcome<V>)
    ensures Behind(a, Behind(b, o)) == Behind(a + b, o)
  {
    assert a + (b + o.ran) == (a + b) + o.ran;
  }
}
