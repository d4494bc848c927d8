/** Registrable domains, src/regdom.c: the walk over the suffixes of a name, longest first, compared with
    the prevailing-rule algorithm of publicsuffix.org.
 */
module Regdom {
  import opened Common

  datatype Rule = Rule(wildcard: bool, exception: bool)

  /** The rule table, by the name of a rule without its mark. */
  type Rules = map<string, Rule>

  // ---------------------------------------------------------------- the walk on strings

  function SkipDots(s: string): (r: string)
    ensures |r| <= |s|
    ensures s != "" && s[0] == '.' ==> |r| < |s|
  {
    if s != "" && s[0] == '.' then SkipDots(s[1..]) else s
  }

  /** The rest of the text from its first dot on (strchr). */
  function FromDot(s: string): (r: Option<string>)
    ensures r.Some? ==> r.value != "" && r.value[0] == '.' && |r.value| <= |s|
  {
    if s == "" then None else if s[0] == '.' then Some(s) else FromDot(s[1..])
  }

  /** A last suffix without a dot gives way to the one before it. */
  function Last(prev: Option<string>, curr: Option<string>): Option<string> {
    if curr.Some? && FromDot(curr.value) == None then prev else curr
  }

  /** The loop: the two suffixes before the one looked up are kept. */
  function Walk(rules: Rules, prev: Option<string>, curr: Option<string>, next: string): Option<string>
    decreases |SkipDots(next)|
  {
    var suffix := SkipDots(next);
    if suffix in rules then
      (if rules[suffix].exception then Some(suffix)
       else if rules[suffix].wildcard then prev
       else Last(prev, curr))
    else match FromDot(suffix)
      case None => Last(curr, Some(suffix))
      case Some(rest) => Walk(rules, curr, Some(suffix), rest)
  }

  lemma WalkStep(rules: Rules, prev: Option<string>, curr: Option<string>, next: string)
    ensures var suffix := SkipDots(next); var r := Walk(rules, prev, curr, next);
      if suffix in rules then
        (if rules[suffix].exception then r == Some(suffix)
         else if rules[suffix].wildcard then r == prev
         else r == Last(prev, curr))
      else if FromDot(suffix) == None then r == Last(curr, Some(suffix))
      else r == Walk(rules, curr, Some(suffix), FromDot(suffix).value)
  {
  }

  function RegdomOf(rules: Rules, name: string): Option<string> {
    if name != "" && name[0] == '.' then None else Walk(rules, None, None, name)
  }

  /** A name that starts with a dot has no registrable domain. */
  lemma LeadingDot(rules: Rules, name: string)
    ensures RegdomOf(rules, "." + name) == None
  {
  }

  /** For every name and every table, the registrable domain is one of the ends of the name, at a label. */
  lemma RegdomIsEnd(rules: Rules, name: string)
    requires RegdomOf(rules, name).Some?
    ensures IsEnd(RegdomOf(rules, name).value, name)
  {
    WalkIsEnd(rules, None, None, name, name);
  }

  ghost predicate IsEnd(s: string, name: string) {
    |s| <= |name| && s == name[|name| - |s|..] && (s != "" ==> s[0] != '.')
  }

  lemma {:induction false} SkipIsEnd(s: string)
    ensures IsEnd(SkipDots(s), s)
  {
    if s != "" && s[0] == '.' {
      SkipIsEnd(s[1..]);
      EndOfEnd(SkipDots(s), s[1..], s);
    }
  }

  lemma {:induction false} DotIsEnd(s: string)
    requires FromDot(s).Some?
    ensures |FromDot(s).value| <= |s| && FromDot(s).value == s[|s| - |FromDot(s).value|..]
  {
    if s[0] != '.' {
      DotIsEnd(s[1..]);
      EndOfEnd(FromDot(s).value, s[1..], s);
    }
  }

  lemma EndOfEnd(a: string, b: string, name: string)
    requires |a| <= |b| <= |name| && a == b[|b| - |a|..] && b == name[|name| - |b|..]
    ensures a == name[|name| - |a|..]
  {
  }

  ghost predicate Ends(s: string, name: string) {
    |s| <= |name| && s == name[|name| - |s|..]
  }

  ghost predicate EndOrNone(s: Option<string>, name: string) {
    s.Some? ==> IsEnd(s.value, name)
  }

  lemma NextEnds(next: string, name: string)
    requires Ends(next, name)
    ensures IsEnd(SkipDots(next), name)
    ensures FromDot(SkipDots(next)).Some? ==> Ends(FromDot(SkipDots(next)).value, name)
  {
    var suffix := SkipDots(next);
    SkipIsEnd(next);
    EndOfEnd(suffix, next, name);
    if FromDot(suffix).Some? {
      DotIsEnd(suffix);
      EndOfEnd(FromDot(suffix).value, suffix, name);
    }
  }

  lemma {:induction false} WalkIsEnd(rules: Rules, prev: Option<string>, curr: Option<string>, next: string,
      name: string)
    requires EndOrNone(prev, name) && EndOrNone(curr, name) && Ends(next, name)
    ensures EndOrNone(Walk(rules, prev, curr, next), name)
    decreases |SkipDots(next)|
  {
    NextEnds(next, name);
    var suffix := SkipDots(next);
    if suffix !in rules && FromDot(suffix).Some? {
      WalkIsEnd(rules, curr, Some(suffix), FromDot(suffix).value, name);
    }
  }

  // ---------------------------------------------------------------- the loop on pointers

  /** A pointer into the name, -1 for NULL. */
  ghost predicate PointsTo(name: string, p: int, s: Option<string>) {
    if p == -1 then s == None else 0 <= p <= |name| && s == Some(name[p..])
  }

  method SkipDotsAt(name: string, from: nat) returns (p: nat)
    requires from <= |name|
    ensures from <= p <= |name| && name[p..] == SkipDots(name[from..])
    ensures from < |name| && name[from] == '.' ==> from < p
  {
    p := from;
    while p < |name| && name[p] == '.'
      invariant from <= p <= |name|
      invariant SkipDots(name[p..]) == SkipDots(name[from..])
      invariant p == from ==> name[p..] == name[from..]
    {
      assert name[p..][1..] == name[p + 1..];
      p := p + 1;
    }
  }

  method Strchr(name: string, from: nat) returns (p: int)
    requires from <= |name|
    ensures PointsTo(name, p, FromDot(name[from..]))
    ensures p != -1 ==> from <= p < |name| && name[p] == '.'
  {
    p := from;
    while p < |name| && name[p] != '.'
      invariant from <= p <= |name|
      invariant FromDot(name[p..]) == FromDot(name[from..])
    {
      assert name[p..][1..] == name[p + 1..];
      p := p + 1;
    }
    if p == |name| { p := -1; }
  }

  /** regdom, on a rule table and a name that may be NULL. */
  method Regdom(rules: Rules, name: Option<string>) returns (r: int)
    ensures name == None ==> r == -1
    ensures name.Some? ==> PointsTo(name.value, r, RegdomOf(rules, name.value))
  {
    if name == None { return -1; }
    var s := name.value;
    if s != "" && s[0] == '.' { return -1; }
    var prev, curr, next := -1, -1, 0;
    assert s[next..] == s;
    ghost var p: Option<string>, c: Option<string> := None, None;
    while true
      invariant 0 <= next <= |s|
      invariant PointsTo(s, prev, p) && PointsTo(s, curr, c)
      invariant RegdomOf(rules, s) == Walk(rules, p, c, s[next..])
      decreases |s| - next
    {
      WalkStep(rules, p, c, s[next..]);
      next := SkipDotsAt(s, next);
      if s[next..] in rules {
        var rule := rules[s[next..]];
        if rule.exception { return next; }
        if rule.wildcard { return prev; }
        break;
      }
      prev, p := curr, c;
      curr, c := next, Some(s[next..]);
      var dot := Strchr(s, next);
      if dot == -1 { break; }
      next := dot;
    }
    if curr != -1 {
      var dot := Strchr(s, curr);
      if dot == -1 { return prev; }
    }
    return curr;
  }

  // ---------------------------------------------------------------- names as labels

  predicate AreLabels(d: seq<string>) {
    forall i :: 0 <= i < |d| ==> d[i] != "" && '.' !in d[i]
  }

  function Name(d: seq<string>): string {
    if d == [] then "" else if |d| == 1 then d[0] else d[0] + "." + Name(d[1..])
  }

  /** The suffix that starts at label i. */
  function Suffix(d: seq<string>, i: int): Option<string> {
    if 0 <= i < |d| then Some(Name(d[i..])) else None
  }

  // ---------------------------------------------------------------- the publicsuffix.org algorithm

  predicate RuleAt(rules: Rules, d: seq<string>, i: nat) {
    i < |d| && Name(d[i..]) in rules
  }

  predicate ExceptionAt(rules: Rules, d: seq<string>, i: nat) {
    RuleAt(rules, d, i) && rules[Name(d[i..])].exception
  }

  predicate WildcardAt(rules: Rules, d: seq<string>, i: nat) {
    RuleAt(rules, d, i) && !rules[Name(d[i..])].exception && rules[Name(d[i..])].wildcard
  }

  predicate NormalAt(rules: Rules, d: seq<string>, i: nat) {
    RuleAt(rules, d, i) && !rules[Name(d[i..])].exception && !rules[Name(d[i..])].wildcard
  }

  /** A rule other than an exception matches the labels from s on: a plain rule there, a wildcard in
      front of a rule's name, or the default rule, a lone wildcard. */
  predicate MatchAt(rules: Rules, d: seq<string>, s: nat) {
    s < |d| && (s == |d| - 1 || NormalAt(rules, d, s) || WildcardAt(rules, d, s + 1))
  }

  function FirstException(rules: Rules, d: seq<string>, from: nat): (r: Option<nat>)
    requires from <= |d|
    ensures r.Some? ==> from <= r.value && ExceptionAt(rules, d, r.value)
    ensures forall i {:trigger ExceptionAt(rules, d, i)} ::
      from <= i && ExceptionAt(rules, d, i) ==> r.Some? && r.value <= i
    decreases |d| - from
  {
    if from == |d| then None
    else if ExceptionAt(rules, d, from) then Some(from)
    else FirstException(rules, d, from + 1)
  }

  function LongestMatch(rules: Rules, d: seq<string>, from: nat): (r: nat)
    requires from < |d|
    ensures from <= r && MatchAt(rules, d, r)
    ensures forall i {:trigger MatchAt(rules, d, i)} :: from <= i && MatchAt(rules, d, i) ==> r <= i
    decreases |d| - from
  {
    if MatchAt(rules, d, from) then from else LongestMatch(rules, d, from + 1)
  }

  /** Where the public suffix starts: an exception prevails and loses its first label, otherwise the
      rule with the most labels prevails. */
  function PublicSuffix(rules: Rules, d: seq<string>): nat
    requires d != []
  {
    var e := FirstException(rules, d, 0);
    if e.Some? then e.value + 1 else LongestMatch(rules, d, 0)
  }

  /** The public suffix and one more label. */
  function Registrable(rules: Rules, d: seq<string>): Option<string>
    requires d != []
  {
    Suffix(d, PublicSuffix(rules, d) - 1)
  }

  // ---------------------------------------------------------------- from strings to labels

  lemma {:induction false} FromDotLabel(l: string, t: string)
    requires '.' !in l
    ensures FromDot(l + "." + t) == Some("." + t)
  {
    if l == "" {
      assert l + "." + t == "." + t;
    } else {
      assert (l + "." + t)[1..] == l[1..] + "." + t;
      FromDotLabel(l[1..], t);
    }
  }

  lemma {:induction false} NoDot(l: string)
    requires '.' !in l
    ensures FromDot(l) == None
  {
    if l != "" { NoDot(l[1..]); }
  }

  lemma NameStep(d: seq<string>, i: nat)
    requires i + 1 < |d|
    ensures Name(d[i..]) == d[i] + "." + Name(d[i + 1..])
  {
    assert d[i..][1..] == d[i + 1..];
  }

  lemma NameStart(d: seq<string>, i: nat)
    requires AreLabels(d) && i < |d|
    ensures Name(d[i..]) != "" && Name(d[i..])[0] != '.'
  {
    assert d[i..][0] == d[i] && d[i][0] in d[i];
    if i + 1 < |d| { NameStep(d, i); }
  }

  lemma NextSuffix(d: seq<string>, i: nat)
    requires AreLabels(d) && i < |d|
    ensures FromDot(Name(d[i..])) == if i + 1 < |d| then Some("." + Name(d[i + 1..])) else None
  {
    if i + 1 < |d| {
      NameStep(d, i);
      FromDotLabel(d[i], Name(d[i + 1..]));
    } else {
      assert d[i..] == [d[i]];
      NoDot(d[i]);
    }
  }

  lemma SkipToName(d: seq<string>, i: nat)
    requires AreLabels(d) && i < |d|
    ensures SkipDots(Name(d[i..])) == Name(d[i..]) == SkipDots("." + Name(d[i..]))
  {
    NameStart(d, i);
    assert ("." + Name(d[i..]))[1..] == Name(d[i..]);
  }

  /** What the walk answers from label i on: the first rule it meets decides. */
  function FirstRule(rules: Rules, d: seq<string>, i: nat): Option<string>
    requires i <= |d|
    decreases |d| - i
  {
    if i == |d| then Suffix(d, i - 2)
    else if ExceptionAt(rules, d, i) then Suffix(d, i)
    else if WildcardAt(rules, d, i) then Suffix(d, i - 2)
    else if NormalAt(rules, d, i) then Suffix(d, i - 1)
    else FirstRule(rules, d, i + 1)
  }

  lemma {:induction false} WalkLabels(rules: Rules, d: seq<string>, i: nat, next: string)
    requires AreLabels(d) && i < |d| && SkipDots(next) == Name(d[i..])
    ensures Walk(rules, Suffix(d, i - 2), Suffix(d, i - 1), next) == FirstRule(rules, d, i)
    decreases |d| - i
  {
    NextSuffix(d, i);
    if i > 0 { NextSuffix(d, i - 1); }
    if !RuleAt(rules, d, i) && i + 1 < |d| {
      SkipToName(d, i + 1);
      WalkLabels(rules, d, i + 1, "." + Name(d[i + 1..]));
    }
  }

  lemma RegdomIsFirstRule(rules: Rules, d: seq<string>)
    requires AreLabels(d) && d != []
    ensures RegdomOf(rules, Name(d)) == FirstRule(rules, d, 0)
  {
    assert d[0..] == d;
    NameStart(d, 0);
    SkipToName(d, 0);
    WalkLabels(rules, d, 0, Name(d));
  }

  // ---------------------------------------------------------------- the two compared

  /** A rule below the prevailing exception, or a name of several labels that is itself the name of a
      wildcard rule without a wildcard in front of its parent. */
  ghost predicate Departs(rules: Rules, d: seq<string>)
    requires d != []
  {
    var e := FirstException(rules, d, 0);
    if e.Some? then exists h: nat {:trigger RuleAt(rules, d, h)} :: h < e.value && RuleAt(rules, d, h)
    else WildcardAt(rules, d, 0) && |d| > 1 && !WildcardAt(rules, d, 1)
  }

  lemma {:induction false} SuffixShrinks(d: seq<string>, i: nat, j: nat)
    requires i < j < |d|
    ensures |Name(d[j..])| < |Name(d[i..])|
    decreases j - i
  {
    NameStep(d, i);
    if i + 1 < j { SuffixShrinks(d, i + 1, j); }
  }

  lemma SuffixDiffers(d: seq<string>, i: int, j: nat)
    requires i < j < |d|
    ensures Suffix(d, i) != Suffix(d, j)
  {
    if 0 <= i { SuffixShrinks(d, i, j); }
  }

  /** The walk decides at the first rule it meets. */
  lemma {:induction false} FirstRuleSkips(rules: Rules, d: seq<string>, i: nat, h: nat)
    requires i <= h <= |d| && forall k: nat {:trigger RuleAt(rules, d, k)} :: i <= k < h ==> !RuleAt(rules, d, k)
    ensures FirstRule(rules, d, i) == FirstRule(rules, d, h)
    decreases h - i
  {
    if i < h {
      assert !RuleAt(rules, d, i);
      FirstRuleSkips(rules, d, i + 1, h);
    }
  }

  function FirstHit(rules: Rules, d: seq<string>, from: nat): (h: nat)
    requires from <= |d|
    ensures from <= h <= |d| && (h < |d| ==> RuleAt(rules, d, h))
    ensures forall k: nat {:trigger RuleAt(rules, d, k)} :: from <= k < h ==> !RuleAt(rules, d, k)
    decreases |d| - from
  {
    if from == |d| || RuleAt(rules, d, from) then from else FirstHit(rules, d, from + 1)
  }

  lemma WithException(rules: Rules, d: seq<string>, e: nat, h: nat)
    requires d != [] && FirstException(rules, d, 0) == Some(e) && h == FirstHit(rules, d, 0)
    ensures FirstRule(rules, d, h) == Suffix(d, e) <==> h == e
    ensures h == e <==> !Departs(rules, d)
  {
    assert ExceptionAt(rules, d, e) && RuleAt(rules, d, e) && h <= e;
    if h < e {
      assert RuleAt(rules, d, h) && !ExceptionAt(rules, d, h);
      SuffixDiffers(d, h - 1, e);
      SuffixDiffers(d, h - 2, e);
    }
  }

  lemma NoMatchBefore(rules: Rules, d: seq<string>, s: nat, h: nat)
    requires h == FirstHit(rules, d, 0) && s < h
    ensures s + 1 < h ==> !MatchAt(rules, d, s)
    ensures s + 1 == h < |d| ==> (MatchAt(rules, d, s) <==> WildcardAt(rules, d, h))
  {
    assert !RuleAt(rules, d, s);
    if s + 1 < h { assert !RuleAt(rules, d, s + 1); }
  }

  /** The longest match, from the first rule met. */
  lemma LongestFromHit(rules: Rules, d: seq<string>, h: nat)
    requires d != [] && h == FirstHit(rules, d, 0)
    ensures var s := LongestMatch(rules, d, 0);
      && (h == |d| ==> s == |d| - 1)
      && (NormalAt(rules, d, h) ==> s == h)
      && (WildcardAt(rules, d, h) && h > 0 ==> s == h - 1)
      && (WildcardAt(rules, d, 0) ==> (s == 0 <==> |d| == 1 || WildcardAt(rules, d, 1)))
  {
    var s := LongestMatch(rules, d, 0);
    if s < h { NoMatchBefore(rules, d, s, h); }
    if h == |d| {
      assert MatchAt(rules, d, |d| - 1);
    } else if NormalAt(rules, d, h) {
      assert MatchAt(rules, d, h);
    } else if WildcardAt(rules, d, h) && h > 0 {
      assert MatchAt(rules, d, h - 1);
    }
    if h > 0 { assert !RuleAt(rules, d, 0); }
    assert WildcardAt(rules, d, 0) ==> (MatchAt(rules, d, 0) <==> |d| == 1 || WildcardAt(rules, d, 1));
  }

  lemma WithoutException(rules: Rules, d: seq<string>, h: nat)
    requires d != [] && FirstException(rules, d, 0) == None && h == FirstHit(rules, d, 0)
    ensures FirstRule(rules, d, h) == Suffix(d, LongestMatch(rules, d, 0) - 1) <==> !Departs(rules, d)
  {
    LongestFromHit(rules, d, h);
    assert !ExceptionAt(rules, d, h);
    if h > 0 { assert !RuleAt(rules, d, 0); }
  }

  /** For every rule table and every name without empty labels, regdom finds the registrable domain of
      publicsuffix.org exactly when the name does not depart. */
  lemma RegdomIsRegistrableIff(rules: Rules, d: seq<string>)
    requires AreLabels(d) && d != []
    ensures RegdomOf(rules, Name(d)) == Registrable(rules, d) <==> !Departs(rules, d)
  {
    RegdomIsFirstRule(rules, d);
    FirstRuleIsRegistrableIff(rules, d);
  }

  lemma FirstRuleIsRegistrableIff(rules: Rules, d: seq<string>)
    requires d != []
    ensures FirstRule(rules, d, 0) == Registrable(rules, d) <==> !Departs(rules, d)
  {
    var h := FirstHit(rules, d, 0);
    FirstRuleSkips(rules, d, 0, h);
    var e := FirstException(rules, d, 0);
    if e.Some? {
      WithException(rules, d, e.value, h);
    } else {
      WithoutException(rules, d, h);
    }
  }

  /** No rule strictly below an exception. */
  ghost predicate ExceptionsAreLeaves(rules: Rules) {
    forall e, b | e in rules && b in rules && rules[e].exception :: |e| < |b| ==> b[|b| - |e| - 1..] != "." + e
  }

  lemma {:induction false} SuffixEnds(d: seq<string>, i: nat, j: nat)
    requires i < j < |d|
    ensures var s, t := Name(d[i..]), Name(d[j..]); |t| < |s| && s[|s| - |t| - 1..] == "." + t
    decreases j - i
  {
    NameStep(d, i);
    if i + 1 < j { SuffixEnds(d, i + 1, j); }
  }

  /** The rule sets in use: regdom follows publicsuffix.org for every name that is not itself the name
      of a wildcard rule. */
  lemma RegdomFollowsPublicSuffix(rules: Rules, d: seq<string>)
    requires AreLabels(d) && d != [] && ExceptionsAreLeaves(rules) && !WildcardAt(rules, d, 0)
    ensures RegdomOf(rules, Name(d)) == Registrable(rules, d)
  {
    RegdomIsRegistrableIff(rules, d);
    var e := FirstException(rules, d, 0);
    if e.Some? {
      forall h: nat | h < e.value ensures !RuleAt(rules, d, h) {
        SuffixEnds(d, h, e.value);
      }
    }
  }

  /** A wildcard rule hides its own name from the rule that covers it. */
  lemma WildcardHidesItsName()
    ensures var rules: Rules := map["jp" := Rule(false, false), "kawasaki.jp" := Rule(true, false)];
      && RegdomOf(rules, "kawasaki.jp") == None
      && Registrable(rules, ["kawasaki", "jp"]) == Some("kawasaki.jp")
  {
    var rules: Rules := map["jp" := Rule(false, false), "kawasaki.jp" := Rule(true, false)];
    var d := ["kawasaki", "jp"];
    assert d[0..] == d && d[1..] == ["jp"] && Name(d[1..]) == "jp" && Name(d) == "kawasaki.jp";
    RegdomIsFirstRule(rules, d);
    assert WildcardAt(rules, d, 0) && NormalAt(rules, d, 1);
    assert !ExceptionAt(rules, d, 0) && !ExceptionAt(rules, d, 1);
    assert FirstException(rules, d, 0) == None;
    assert !MatchAt(rules, d, 0) && MatchAt(rules, d, 1);
  }
}
