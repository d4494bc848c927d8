/** The boolean part of the expression evaluator of src/exp.c, over values that may be null, and
    three-valued (Kleene) logic as the manual describes it (man/mopherd.acl.5.in).
 */
module Exp {
  import opened Common

  /** What v_data points to: of an address only whether it is the zero address of its family, of a
      list or table its size, of a blob its leading size word. */
  datatype Scalar =
    | SInt(i: int)
    | SFloat(f: real)
    | SString(s: string)
    | SAddr(zero: bool)
    | SList(size: nat)
    | STable(records: nat)
    | SBlob(header: int)
    | SPointer

  /** A var_t: null has no v_data. */
  datatype Val = Null | Known(scalar: Scalar)

  const TRUE := Known(SInt(1))
  const FALSE := Known(SInt(0))

  /** var_true */
  predicate VarTrue(v: Val) {
    v.Known? &&
    match v.scalar
    case SInt(i) => i != 0
    case SFloat(f) => f != 0.0
    case SString(s) => s != "0" && |s| > 0
    case SAddr(zero) => !zero
    case SList(size) => size != 0
    case STable(records) => records != 0
    case SBlob(header) => header != 0
    case SPointer => true
  }

  /** Expressions over leaves: constants, symbols, variables, function calls and everything else
      that is not a boolean operation. */
  datatype Exp =
    | Leaf(id: nat)
    | Paren(e: Exp)
    | And(l: Exp, r: Exp)
    | Or(l: Exp, r: Exp)
    | Not(e: Exp)
    | IsNull(e: Exp)

  /** What the leaves evaluate to; None is a failed evaluation. */
  type Leaves = nat -> Option<Val>

  /** The value, or None on failure, and the leaves that were evaluated, in order. */
  datatype Result = Result(value: Option<Val>, trace: seq<nat>)

  function After(trace: seq<nat>, r: Result): Result {
    r.(trace := trace + r.trace)
  }

  /** exp_bool for &&, once the right operand has been evaluated. */
  function AndKnown(left: Val, right: Val): Val {
    if left.Null? && right.Null? then Null
    else if left.Null? || right.Null? then
      (var known := if left.Known? then VarTrue(left) else VarTrue(right);
       if !known then FALSE else Null)
    else if VarTrue(left) && VarTrue(right) then TRUE
    else FALSE
  }

  /** exp_not; a failed evaluation counts as null. */
  function Negated(v: Option<Val>): Val {
    if v.None? || v.value.Null? then Null else if VarTrue(v.value) then FALSE else TRUE
  }

  /** exp_eval with exp_bool, exp_not and exp_is_null. */
  function Eval(e: Exp, env: Leaves): Result {
    match e
    case Leaf(id) => Result(env(id), [id])
    case Paren(e) => Eval(e, env)
    case And(l, r) =>
      var left := Eval(l, env);
      if left.value.None? then left
      else if left.value.value.Known? && !VarTrue(left.value.value) then left.(value := Some(FALSE))
      else
        var right := Eval(r, env);
        if right.value.None? then After(left.trace, right)
        else After(left.trace, right.(value := Some(AndKnown(left.value.value, right.value.value))))
    case Or(l, r) =>
      var left := Eval(l, env);
      if left.value.None? || VarTrue(left.value.value) then left
      else After(left.trace, Eval(r, env))
    case Not(e) =>
      var v := Eval(e, env);
      v.(value := Some(Negated(v.value)))
    case IsNull(e) =>
      var v := Eval(e, env);
      v.(value := Some(if v.value.None? || v.value.value.Null? then TRUE else FALSE))
  }

  datatype Fires = DoesFire | DoesNotFire | EvaluationFailed

  /** exp_is_true */
  function IsTrue(e: Exp, env: Leaves): Fires {
    var v := Eval(e, env).value;
    if v.None? then EvaluationFailed else if VarTrue(v.value) then DoesFire else DoesNotFire
  }

  // ---------------------------------------------------------------- the manual's tables

  datatype Truth = T | F | U

  function TruthOf(v: Val): Truth {
    if v.Null? then U else if VarTrue(v) then T else F
  }

  function KAnd(a: Truth, b: Truth): Truth {
    if a == F || b == F then F else if a == U || b == U then U else T
  }

  function KOr(a: Truth, b: Truth): Truth {
    if a == T || b == T then T else if a == U || b == U then U else F
  }

  function KNot(a: Truth): Truth {
    match a case T => F case F => T case U => U
  }

  /** The leaves do not fail. */
  ghost predicate Total(env: Leaves) {
    forall id :: env(id).Some?
  }

  /** The value that the manual's tables give; a null test is true of what they leave unknown. */
  ghost function Kleene(e: Exp, env: Leaves): Truth
    requires Total(env)
  {
    match e
    case Leaf(id) => TruthOf(env(id).value)
    case Paren(e) => Kleene(e, env)
    case And(l, r) => KAnd(Kleene(l, env), Kleene(r, env))
    case Or(l, r) => KOr(Kleene(l, env), Kleene(r, env))
    case Not(e) => KNot(Kleene(e, env))
    case IsNull(e) => if Kleene(e, env) == U then T else F
  }

  /** The evaluation strays from the table to v. It starts at an || whose left operand comes to null and
      whose right one comes to false, and travels upwards from there. */
  ghost predicate Strays(e: Exp, env: Leaves, v: Truth)
    requires Total(env)
    decreases e, 0
  {
    Kleene(e, env) != v &&
    match e
    case Leaf(_) => false
    case Paren(e) => Strays(e, env, v)
    case Not(e) => Strays(e, env, KNot(v))
    case And(l, r) =>
      (match v
       case T => Comes(l, env, T) && Comes(r, env, T)
       case F => Comes(l, env, F) || Comes(r, env, F)
       case U => !(Comes(l, env, T) && Comes(r, env, T)) && !Comes(l, env, F) && !Comes(r, env, F))
    case Or(l, r) =>
      (match v
       case T => Comes(l, env, T) || Comes(r, env, T)
       case F => !Comes(l, env, T) && Comes(r, env, F)
       case U => !Comes(l, env, T) && Comes(r, env, U))
    case IsNull(e) =>
      (match v
       case T => Strays(e, env, U)
       case F => Strays(e, env, T) || Strays(e, env, F)
       case U => false)
  }

  /** An operand comes to v: the table says so and the evaluation does not stray, or it strays to v. */
  ghost predicate Comes(e: Exp, env: Leaves, v: Truth)
    requires Total(env)
    decreases e, 1
  {
    if Kleene(e, env) != v then Strays(e, env, v)
    else !Strays(e, env, T) && !Strays(e, env, F) && !Strays(e, env, U)
  }

  /** For expressions without null tests: the unknown is lost to the known value b. Only table values of
      operands are asked for. */
  ghost predicate Lost(e: Exp, env: Leaves, b: Truth)
    requires Total(env) && b != U
  {
    Kleene(e, env) == U &&
    match e
    case Leaf(_) => false
    case Paren(e) => Lost(e, env, b)
    case Not(e) => Lost(e, env, KNot(b))
    case And(l, r) =>
      if b == T then (Kleene(l, env) == T || Lost(l, env, T)) && (Kleene(r, env) == T || Lost(r, env, T))
      else Lost(l, env, F) || Lost(r, env, F)
    case Or(l, r) =>
      if b == T then Lost(l, env, T) || Lost(r, env, T)
      else !Lost(l, env, T) && (Kleene(r, env) == F || Lost(r, env, F))
    case IsNull(_) => false
  }

  // ---------------------------------------------------------------- agreement

  predicate OnlyAndOr(e: Exp) {
    match e
    case Leaf(_) => true
    case Paren(e) => OnlyAndOr(e)
    case And(l, r) => OnlyAndOr(l) && OnlyAndOr(r)
    case Or(l, r) => OnlyAndOr(l) && OnlyAndOr(r)
    case Not(_) => false
    case IsNull(_) => false
  }

  predicate NoOr(e: Exp) {
    match e
    case Leaf(_) => true
    case Paren(e) => NoOr(e)
    case And(l, r) => NoOr(l) && NoOr(r)
    case Or(_, _) => false
    case Not(e) => NoOr(e)
    case IsNull(e) => NoOr(e)
  }

  predicate NoNullTest(e: Exp) {
    match e
    case Leaf(_) => true
    case Paren(e) => NoNullTest(e)
    case And(l, r) => NoNullTest(l) && NoNullTest(r)
    case Or(l, r) => NoNullTest(l) && NoNullTest(r)
    case Not(e) => NoNullTest(e)
    case IsNull(_) => false
  }

  /** An evaluation that fails does so at the leaf it evaluated last; ! and the null test absorb
      failures below them. */
  lemma {:induction false} EvalFailsAtLeaf(e: Exp, env: Leaves)
    ensures Eval(e, env).trace != []
    ensures Eval(e, env).value.None? ==> env(Eval(e, env).trace[|Eval(e, env).trace| - 1]).None?
  {
    match e
    case Leaf(id) =>
    case Paren(e) => EvalFailsAtLeaf(e, env);
    case And(l, r) => EvalFailsAtLeaf(l, env); EvalFailsAtLeaf(r, env);
    case Or(l, r) => EvalFailsAtLeaf(l, env); EvalFailsAtLeaf(r, env);
    case Not(e) => EvalFailsAtLeaf(e, env);
    case IsNull(e) => EvalFailsAtLeaf(e, env);
  }

  /** Where a failure goes: ! makes it null, a null test finds it null, and an operand that is evaluated
      takes && and || with it. */
  lemma FailureGoes(e: Exp, r: Exp, env: Leaves)
    requires Eval(e, env).value.None?
    ensures Eval(Not(e), env).value == Some(Null) && IsTrue(Not(e), env).DoesNotFire?
    ensures IsTrue(IsNull(e), env).DoesFire? && IsTrue(e, env).EvaluationFailed?
    ensures Eval(And(e, r), env) == Eval(e, env) == Eval(Or(e, r), env)
    ensures IsTrue(r, env).DoesFire? ==> IsTrue(And(r, e), env).EvaluationFailed? && IsTrue(Or(r, e), env).DoesFire?
    ensures IsTrue(r, env).DoesNotFire? ==> IsTrue(Or(r, e), env).EvaluationFailed?
  {
  }

  lemma AndKnownIsKleene(a: Val, b: Val)
    ensures TruthOf(AndKnown(a, b)) == KAnd(TruthOf(a), TruthOf(b))
  {
  }

  ghost predicate StraysTo(e: Exp, env: Leaves, t: Truth)
    requires Total(env)
  {
    && (Strays(e, env, T) <==> t == T != Kleene(e, env))
    && (Strays(e, env, F) <==> t == F != Kleene(e, env))
    && (Strays(e, env, U) <==> t == U != Kleene(e, env))
  }

  ghost predicate ComesTo(e: Exp, env: Leaves, t: Truth)
    requires Total(env)
  {
    (Comes(e, env, T) <==> t == T) && (Comes(e, env, F) <==> t == F) && (Comes(e, env, U) <==> t == U)
  }

  /** What the code evaluates to, for every expression: exactly what the expression comes to. */
  lemma {:induction false} EvalTruth(e: Exp, env: Leaves)
    requires Total(env)
    ensures Eval(e, env).value.Some?
    ensures StraysTo(e, env, TruthOf(Eval(e, env).value.value))
    ensures ComesTo(e, env, TruthOf(Eval(e, env).value.value))
  {
    match e
    case Leaf(id) => assert env(id).Some?;
    case Paren(e) => EvalTruth(e, env);
    case And(l, r) =>
      EvalTruth(l, env);
      EvalTruth(r, env);
      AndKnownIsKleene(Eval(l, env).value.value, Eval(r, env).value.value);
    case Or(l, r) =>
      EvalTruth(l, env);
      EvalTruth(r, env);
    case Not(e) => EvalTruth(e, env);
    case IsNull(e) => EvalTruth(e, env);
  }

  /** The code has the manual's value if and only if it does not stray. */
  lemma EvalIsKleeneIff(e: Exp, env: Leaves)
    requires Total(env)
    ensures Eval(e, env).value.Some?
    ensures TruthOf(Eval(e, env).value.value) == Kleene(e, env)
      <==> !Strays(e, env, T) && !Strays(e, env, F) && !Strays(e, env, U)
  {
    EvalTruth(e, env);
  }

  /** Without null tests to stray is to lose an unknown. */
  lemma {:induction false} StrayIsLost(e: Exp, env: Leaves)
    requires Total(env) && NoNullTest(e)
    ensures !Strays(e, env, U)
    ensures Strays(e, env, T) <==> Lost(e, env, T)
    ensures Strays(e, env, F) <==> Lost(e, env, F)
  {
    EvalTruth(e, env);
    match e
    case Leaf(_) =>
    case Paren(e) => StrayIsLost(e, env);
    case And(l, r) =>
      StrayIsLost(l, env);
      StrayIsLost(r, env);
    case Or(l, r) =>
      StrayIsLost(l, env);
      StrayIsLost(r, env);
    case Not(e) => StrayIsLost(e, env);
  }

  /** Without null tests, the code has the manual's value if and only if no unknown is lost. */
  lemma EvalKeepsUnknownIff(e: Exp, env: Leaves)
    requires Total(env) && NoNullTest(e)
    ensures Eval(e, env).value.Some?
    ensures TruthOf(Eval(e, env).value.value) == Kleene(e, env) <==> !Lost(e, env, T) && !Lost(e, env, F)
  {
    EvalTruth(e, env);
    StrayIsLost(e, env);
  }

  /** Without null tests, a known value is never changed. */
  lemma KnownIsKept(e: Exp, env: Leaves)
    requires Total(env) && NoNullTest(e) && Kleene(e, env) != U
    ensures Eval(e, env).value.Some? && TruthOf(Eval(e, env).value.value) == Kleene(e, env)
  {
    EvalKeepsUnknownIff(e, env);
  }

  /** A null test of such an expression is the manual's if and only if no unknown is lost below it. */
  lemma NullTestIff(e: Exp, env: Leaves)
    requires Total(env) && NoNullTest(e)
    ensures Eval(IsNull(e), env).value.Some?
    ensures TruthOf(Eval(IsNull(e), env).value.value) == (if Kleene(e, env) == U then T else F)
      <==> !Lost(e, env, T) && !Lost(e, env, F)
  {
    EvalTruth(e, env);
    StrayIsLost(e, env);
  }

  /** `(x || y) is null` with x null and y false: true by the tables, false by the code, and its negation
      fires. */
  lemma NullTestOfLostUnknown(env: Leaves)
    requires Total(env) && env(0) == Some(Null) && env(1) == Some(FALSE)
    ensures var e := IsNull(Or(Leaf(0), Leaf(1)));
      && Kleene(e, env) == T && IsTrue(e, env).DoesNotFire?
      && Kleene(Not(e), env) == F && IsTrue(Not(e), env).DoesFire?
  {
  }

  /** The values that are false, as the manual lists them: null, zero, the empty string and "0", the zero
      address, and what is empty. */
  const FALSEHOODS: set<Val> := {Null, Known(SInt(0)), Known(SFloat(0.0)), Known(SString("")), Known(SString("0")),
    Known(SAddr(true)), Known(SList(0)), Known(STable(0)), Known(SBlob(0))}

  /** A condition that is a single value fires if and only if the value is not one of the false ones. */
  lemma LeafFires(id: nat, env: Leaves)
    ensures IsTrue(Leaf(id), env)
      == (if env(id) == None then EvaluationFailed else if env(id).value in FALSEHOODS then DoesNotFire else DoesFire)
  {
  }

  /** A rule fires if and only if its condition comes to true. */
  lemma FiresIff(e: Exp, env: Leaves)
    requires Total(env)
    ensures IsTrue(e, env) == (if Comes(e, env, T) then DoesFire else DoesNotFire)
  {
    EvalTruth(e, env);
  }

  lemma {:induction false} AndOrLosesToFalseOnly(e: Exp, env: Leaves)
    requires Total(env) && OnlyAndOr(e)
    ensures NoNullTest(e) && !Lost(e, env, T)
  {
    match e
    case Leaf(_) =>
    case Paren(e) => AndOrLosesToFalseOnly(e, env);
    case And(l, r) => AndOrLosesToFalseOnly(l, env); AndOrLosesToFalseOnly(r, env);
    case Or(l, r) => AndOrLosesToFalseOnly(l, env); AndOrLosesToFalseOnly(r, env);
  }

  /** With && and || only, a rule fires if and only if the Kleene value is true. */
  lemma AndOrFires(e: Exp, env: Leaves)
    requires Total(env) && OnlyAndOr(e)
    ensures IsTrue(e, env) == (if Kleene(e, env) == T then DoesFire else DoesNotFire)
  {
    AndOrLosesToFalseOnly(e, env);
    StrayIsLost(e, env);
    EvalTruth(e, env);
  }

  /** Without ||, nothing strays, null tests included. */
  lemma {:induction false} AndNotIsKleene(e: Exp, env: Leaves)
    requires Total(env) && NoOr(e)
    ensures Eval(e, env).value.Some? && TruthOf(Eval(e, env).value.value) == Kleene(e, env)
  {
    EvalTruth(e, env);
    match e
    case Leaf(_) =>
    case Paren(e) => AndNotIsKleene(e, env);
    case And(l, r) =>
      AndNotIsKleene(l, env);
      AndNotIsKleene(r, env);
      AndKnownIsKleene(Eval(l, env).value.value, Eval(r, env).value.value);
    case Not(e) => AndNotIsKleene(e, env);
    case IsNull(e) => AndNotIsKleene(e, env);
  }

  /** A negated || makes the difference visible: the rule fires on an unknown condition. */
  lemma NegatedOrFires(env: Leaves)
    requires Total(env) && env(0) == Some(Null) && env(1) == Some(FALSE)
    ensures Kleene(Not(Or(Leaf(0), Leaf(1))), env) == U && IsTrue(Not(Or(Leaf(0), Leaf(1))), env).DoesFire?
  {
  }

  /** What the operators yield: && and ! a truth value or null, || the value of the operand that decided. */
  lemma OperatorsYield(l: Exp, r: Exp, env: Leaves)
    requires Total(env)
    ensures Eval(And(l, r), env).value in {Some(Null), Some(Known(SInt(1))), Some(Known(SInt(0)))}
    ensures Eval(Not(l), env).value in {Some(Null), Some(Known(SInt(1))), Some(Known(SInt(0)))}
    ensures Eval(IsNull(l), env).value in {Some(Known(SInt(1))), Some(Known(SInt(0)))}
    ensures Eval(Or(l, r), env).value == if Comes(l, env, T) then Eval(l, env).value else Eval(r, env).value
  {
    EvalTruth(l, env);
    EvalTruth(r, env);
  }

  // ---------------------------------------------------------------- laziness

  /** The value and the trace depend only on the leaves that were evaluated: wherever an operand
      decides, at any depth, nothing behind it is looked at, even if it would fail. */
  lemma {:induction false} OnlyTraceMatters(e: Exp, env1: Leaves, env2: Leaves)
    requires forall id :: id in Eval(e, env1).trace ==> env2(id) == env1(id)
    ensures Eval(e, env2) == Eval(e, env1)
  {
    match e
    case Leaf(id) => assert id in [id];
    case Paren(e) => OnlyTraceMatters(e, env1, env2);
    case And(l, r) =>
      OnlyTraceMatters(l, env1, env2);
      var left := Eval(l, env1).value;
      if left.Some? && !(left.value.Known? && !VarTrue(left.value)) { OnlyTraceMatters(r, env1, env2); }
    case Or(l, r) =>
      OnlyTraceMatters(l, env1, env2);
      var left := Eval(l, env1).value;
      if left.Some? && !VarTrue(left.value) { OnlyTraceMatters(r, env1, env2); }
    case Not(e) => OnlyTraceMatters(e, env1, env2);
    case IsNull(e) => OnlyTraceMatters(e, env1, env2);
  }

  /** The leaves that have to be asked, from left to right: of an && the right operand unless the left one
      comes to false, of an || unless it comes to true. */
  ghost function Needed(e: Exp, env: Leaves): seq<nat>
    requires Total(env)
  {
    match e
    case Leaf(id) => [id]
    case Paren(e) => Needed(e, env)
    case Not(e) => Needed(e, env)
    case IsNull(e) => Needed(e, env)
    case And(l, r) => Needed(l, env) + if Comes(l, env, F) then [] else Needed(r, env)
    case Or(l, r) => Needed(l, env) + if Comes(l, env, T) then [] else Needed(r, env)
  }

  /** Exactly the leaves that have to be asked are evaluated, in that order. */
  lemma {:induction false} TraceIsNeeded(e: Exp, env: Leaves)
    requires Total(env)
    ensures Eval(e, env).trace == Needed(e, env)
  {
    match e
    case Leaf(_) =>
    case Paren(e) => TraceIsNeeded(e, env);
    case Not(e) => TraceIsNeeded(e, env);
    case IsNull(e) => TraceIsNeeded(e, env);
    case And(l, r) =>
      EvalTruth(l, env);
      EvalTruth(r, env);
      TraceIsNeeded(l, env);
      TraceIsNeeded(r, env);
    case Or(l, r) =>
      EvalTruth(l, env);
      EvalTruth(r, env);
      TraceIsNeeded(l, env);
      TraceIsNeeded(r, env);
  }
}
