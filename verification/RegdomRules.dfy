/** The rule file of src/regdom.c (regdom_load_rules): one rule a line, its marks and its comment. The
    translation of a name to punycode is an arbitrary function.
 */
module RegdomRules {
  import opened Common
  import opened Regdom

  datatype Entry = Entry(name: string, rule: Rule)

  type Punycode = string -> string

  // ---------------------------------------------------------------- one line

  /** The text before the first comment mark. */
  function Uncommented(s: string): string {
    if s == "" || (|s| >= 2 && s[0] == '/' && s[1] == '/') then "" else [s[0]] + Uncommented(s[1..])
  }

  predicate IsSpace(c: char) {
    c == ' ' || '\t' <= c <= '\r'
  }

  /** A character of a C string, the terminator included. */
  function At(s: string, p: nat): char
    requires p <= |s|
  {
    if p == |s| then '\0' else s[p]
  }

  /** Where the loop that strips trailing blanks stops. */
  function BlanksFrom(s: string, p: nat): (r: nat)
    requires p <= |s|
    ensures r <= p
  {
    if p > 0 && IsSpace(At(s, p)) then BlanksFrom(s, p - 1) else p
  }

  function Stripped(s: string): string {
    var p := BlanksFrom(s, |s|);
    if p < |s| then s[..p + 1] else s
  }

  /** regdom_has_nonascii */
  predicate HasNonAscii(s: string) {
    exists i :: 0 <= i < |s| && s[i] >= 128 as char
  }

  function Lower(s: string): (r: string)
    ensures |r| == |s|
  {
    seq(|s|, i requires 0 <= i < |s| => ToLower(s[i]))
  }

  /** Only names in ASCII are brought to lower case. */
  function Normal(s: string): string {
    if HasNonAscii(s) then s else Lower(s)
  }

  /** The marks in front of a name. */
  function Classified(s: string): Entry {
    var wildcard := s != "" && s[0] == '*';
    var t := if !wildcard then s else if |s| > 1 && s[1] == '.' then s[2..] else s[1..];
    var exception := t != "" && t[0] == '!';
    Entry(Normal(if exception then t[1..] else t), Rule(wildcard, exception))
  }

  /** A line of the file, None for one without a rule. */
  function Parsed(line: string): Option<Entry> {
    var s := Stripped(Uncommented(line));
    if s == "" then None else Some(Classified(s))
  }

  /** A rule outside ASCII is entered a second time in punycode. */
  function WithTwin(puny: Punycode, e: Entry): seq<Entry> {
    if HasNonAscii(e.name) then [e, e.(name := puny(e.name))] else [e]
  }

  function EntriesOf(puny: Punycode, line: string): seq<Entry> {
    var e := Parsed(line);
    if e == None then [] else WithTwin(puny, e.value)
  }

  // ---------------------------------------------------------------- the lines of a file

  function SkipNewlines(text: string): (r: string)
    ensures |r| <= |text| && (r != "" ==> r[0] != '\n')
  {
    if text != "" && text[0] == '\n' then SkipNewlines(text[1..]) else text
  }

  function LineEnd(text: string): (n: nat)
    ensures n <= |text| && (text != "" && text[0] != '\n' ==> n > 0)
  {
    if text == "" || text[0] == '\n' then 0 else 1 + LineEnd(text[1..])
  }

  /** strtok_r on newlines: the lines that are not empty. */
  function Lines(text: string): seq<string>
    decreases |text|
  {
    var s := SkipNewlines(text);
    if s == "" then [] else [s[..LineEnd(s)]] + Lines(s[LineEnd(s)..])
  }

  method SplitLines(text: string) returns (lines: seq<string>)
    ensures lines == Lines(text)
  {
    lines := [];
    var rest := text;
    while true
      invariant lines + Lines(rest) == Lines(text)
      decreases |rest|
    {
      var s := SkipNewlines(rest);
      if s == "" { return; }
      var n := LineEnd(s);
      assert lines + ([s[..n]] + Lines(s[n..])) == (lines + [s[..n]]) + Lines(s[n..]);
      lines, rest := lines + [s[..n]], s[n..];
    }
  }

  // ---------------------------------------------------------------- the table

  /** The entries of the first n lines, given those of each line. */
  function Concat(parts: seq<seq<Entry>>, n: nat): seq<Entry>
    requires n <= |parts|
  {
    if n == 0 then [] else Concat(parts, n - 1) + parts[n - 1]
  }

  function Parts(puny: Punycode, lines: seq<string>): (parts: seq<seq<Entry>>)
    ensures |parts| == |lines| && forall i :: 0 <= i < |lines| ==> parts[i] == EntriesOf(puny, lines[i])
  {
    seq(|lines|, i requires 0 <= i < |lines| => EntriesOf(puny, lines[i]))
  }

  method CollectEntries(parts: seq<seq<Entry>>) returns (entries: seq<Entry>)
    ensures entries == Concat(parts, |parts|)
  {
    entries := [];
    for n := 0 to |parts|
      invariant entries == Concat(parts, n)
    {
      entries := entries + parts[n];
    }
  }

  /** The table after n insertions, None once a name occurs twice: the daemon does not start. */
  function Loaded(entries: seq<Entry>, n: nat): Option<Rules>
    requires n <= |entries|
  {
    if n == 0 then Some(map[])
    else match Loaded(entries, n - 1)
      case None => None
      case Some(rules) =>
        var e := entries[n - 1];
        if e.name in rules then None else Some(rules[e.name := e.rule])
  }

  method InsertAll(entries: seq<Entry>) returns (rules: Option<Rules>)
    ensures rules == Loaded(entries, |entries|)
  {
    var table: Rules := map[];
    for n := 0 to |entries|
      invariant Loaded(entries, n) == Some(table)
    {
      var e := entries[n];
      if e.name in table {
        DeadAfter(entries, n + 1, |entries|);
        return None;
      }
      table := table[e.name := e.rule];
    }
    return Some(table);
  }

  lemma {:induction false} DeadAfter(entries: seq<Entry>, n: nat, m: nat)
    requires n <= m <= |entries| && Loaded(entries, n) == None
    ensures Loaded(entries, m) == None
    decreases m - n
  {
    if n < m { DeadAfter(entries, n + 1, m); }
  }

  /** What the whole file gives. */
  function FileTable(puny: Punycode, text: string): Option<Rules> {
    var entries := Concat(Parts(puny, Lines(text)), |Lines(text)|);
    Loaded(entries, |entries|)
  }

  /** regdom_load_rules: the lines of the text, the entries of each of them, their insertion. */
  method LoadRules(puny: Punycode, text: string) returns (rules: Option<Rules>)
    ensures rules == FileTable(puny, text)
  {
    var lines := SplitLines(text);
    var entries := CollectEntries(Parts(puny, lines));
    rules := InsertAll(entries);
  }

  // ---------------------------------------------------------------- what a line means

  /** A name as a line may have it, in capitals or not. */
  predicate IsWritten(s: string) {
    && s != "" && s[0] != '*' && s[0] != '!'
    && forall i :: 0 <= i < |s| ==> s[i] != '/' && s[i] != '\n'
  }

  /** A name as a rule has it: in ASCII without capitals, in another alphabet as it is. */
  predicate IsName(s: string) {
    IsWritten(s) && Normal(s) == s
  }

  /** A rule as publicsuffix.org writes it. */
  function Rendered(e: Entry): string {
    (if e.rule.wildcard then "*." else "") + (if e.rule.exception then "!" else "") + e.name
  }

  ghost predicate MarkAt(s: string, i: nat) {
    i + 1 < |s| && s[i] == '/' && s[i + 1] == '/'
  }

  /** A comment starts at the first two slashes in a row, and only there. */
  lemma {:induction false} CommentMark(s: string)
    ensures var u := Uncommented(s);
      && u <= s && (u != s ==> MarkAt(s, |u|)) && forall i: nat {:trigger MarkAt(s, i)} :: i < |u| ==> !MarkAt(s, i)
  {
    if s != "" && !MarkAt(s, 0) {
      var t := s[1..];
      CommentMark(t);
      var u := Uncommented(s);
      assert u == [s[0]] + Uncommented(t);
      forall i: nat | i < |u| ensures !MarkAt(s, i) {
        if i > 0 { assert !MarkAt(t, i - 1); }
      }
      assert u != s ==> MarkAt(t, |u| - 1);
    }
  }

  lemma {:induction false} NoComment(s: string)
    requires forall i :: 0 <= i < |s| ==> s[i] != '/'
    ensures Uncommented(s) == s
  {
    if s != "" { NoComment(s[1..]); }
  }

  lemma {:induction false} CommentCut(s: string, comment: string)
    requires forall i :: 0 <= i < |s| ==> s[i] != '/'
    ensures Uncommented(s + "//" + comment) == s
  {
    var t := s + "//" + comment;
    if s != "" {
      assert t[1..] == s[1..] + "//" + comment;
      CommentCut(s[1..], comment);
    }
  }

  /** The loop looks at the terminator first, so no blank is ever stripped. */
  lemma BlanksStay(s: string)
    ensures Stripped(s) == s
  {
  }

  lemma RenderedChars(e: Entry)
    requires IsWritten(e.name)
    ensures Rendered(e) != "" && forall i :: 0 <= i < |Rendered(e)| ==> Rendered(e)[i] != '/' && Rendered(e)[i] != '\n'
  {
    var marks := (if e.rule.wildcard then "*." else "") + (if e.rule.exception then "!" else "");
    forall i | 0 <= i < |Rendered(e)| ensures Rendered(e)[i] != '/' && Rendered(e)[i] != '\n' {
      assert Rendered(e)[i] == if i < |marks| then marks[i] else e.name[i - |marks|];
    }
  }

  /** Every rule written as publicsuffix.org does is read back, with its marks; capitals are brought to
      lower case. */
  lemma ParsedWritten(e: Entry)
    requires IsWritten(e.name)
    ensures Parsed(Rendered(e)) == Some(e.(name := Normal(e.name)))
  {
    RenderedChars(e);
    NoComment(Rendered(e));
    BlanksStay(Rendered(e));
    ClassifiedRendered(e);
  }

  lemma ParsedRendered(e: Entry)
    requires IsName(e.name)
    ensures Parsed(Rendered(e)) == Some(e)
  {
    ParsedWritten(e);
  }

  /** In ASCII a name is stored with 'a' to 'z' for 'A' to 'Z', in another alphabet as it is written. */
  lemma NormalName(s: string)
    ensures |Normal(s)| == |s|
    ensures (exists i :: 0 <= i < |s| && s[i] as int > 127) ==> Normal(s) == s
    ensures (forall i :: 0 <= i < |s| ==> s[i] as int <= 127) ==>
      forall i :: 0 <= i < |s| ==>
        Normal(s)[i] as int == s[i] as int + (if 65 <= s[i] as int <= 90 then 32 else 0)
  {
  }

  /** The point of a wildcard rule is optional. */
  lemma OptionalPoint(name: string)
    requires IsWritten(name) && name[0] != '.'
    ensures Parsed("*" + name) == Parsed("*." + name) == Some(Entry(Normal(name), Rule(true, false)))
  {
    StarWithoutPoint(name, "*" + name);
    StarWithPoint(name, "*." + name);
  }

  lemma StarWithPoint(name: string, s: string)
    requires IsWritten(name) && s == "*." + name
    ensures Parsed(s) == Some(Entry(Normal(name), Rule(true, false)))
  {
    var e := Entry(name, Rule(true, false));
    assert Rendered(e) == "*." + "" + name == s;
    ParsedWritten(e);
  }

  lemma StarWithoutPoint(name: string, s: string)
    requires IsWritten(name) && name[0] != '.' && s == "*" + name
    ensures Parsed(s) == Some(Entry(Normal(name), Rule(true, false)))
  {
    forall i | 0 <= i < |s| ensures s[i] != '/' {
      assert i > 0 ==> s[i] == name[i - 1];
    }
    NoComment(s);
    BlanksStay(s);
    StarOnly(s, name);
  }

  lemma StarOnly(s: string, name: string)
    requires s == "*" + name && name != "" && name[0] != '.' && name[0] != '!'
    ensures Classified(s) == Entry(Normal(name), Rule(true, false))
  {
    assert s[1..] == name && s[1] == name[0];
  }

  /** A line that is only a comment has no rule, and neither has an empty one. */
  lemma CommentLineHasNoRule(puny: Punycode, comment: string)
    ensures EntriesOf(puny, "//" + comment) == [] && EntriesOf(puny, "") == []
  {
    assert "" + "//" + comment == "//" + comment;
    CommentCut("", comment);
    BlanksStay("");
  }

  lemma ClassifiedRendered(e: Entry)
    requires e.name != "" && e.name[0] != '*' && e.name[0] != '!'
    ensures Classified(Rendered(e)) == e.(name := Normal(e.name))
  {
    var bang := (if e.rule.exception then "!" else "") + e.name;
    RenderedTail(e, bang);
    BangTail(e, bang);
  }

  lemma BangTail(e: Entry, bang: string)
    requires bang == (if e.rule.exception then "!" else "") + e.name && e.name != ""
    ensures bang != "" && bang[0] == (if e.rule.exception then '!' else e.name[0])
    ensures (if e.rule.exception then bang[1..] else bang) == e.name
  {
  }

  lemma RenderedTail(e: Entry, bang: string)
    requires bang == (if e.rule.exception then "!" else "") + e.name && e.name != ""
    ensures e.rule.wildcard ==> |Rendered(e)| >= 2 && Rendered(e)[0] == '*' && Rendered(e)[1] == '.'
    ensures e.rule.wildcard ==> Rendered(e)[2..] == bang
    ensures !e.rule.wildcard ==> Rendered(e) == bang
  {
  }

  /** A rule followed by blanks, with or without a comment behind them, keeps the blanks in its name: it is
      the rule meant exactly when there are none. */
  lemma BlanksBelongToName(e: Entry, blanks: string, tail: string)
    requires IsName(e.name) && forall i :: 0 <= i < |blanks| ==> IsSpace(blanks[i])
    requires tail == "" || (|tail| >= 2 && tail[0] == '/' && tail[1] == '/')
    ensures Parsed(Rendered(e) + blanks + tail) == Some(e.(name := e.name + blanks))
    ensures Parsed(Rendered(e) + blanks + tail) == Some(e) <==> blanks == ""
  {
    var e', s := e.(name := e.name + blanks), Rendered(e) + blanks;
    var marks := (if e.rule.wildcard then "*." else "") + (if e.rule.exception then "!" else "");
    assert s == marks + (e.name + blanks) == Rendered(e');
    NormalWithBlanks(e.name, blanks);
    forall i | 0 <= i < |s| ensures s[i] != '/' {
      assert s[i] == if i < |marks| then marks[i] else (e.name + blanks)[i - |marks|];
    }
    TailCut(s, tail);
    BlanksStay(s);
    ClassifiedRendered(e');
    assert |e'.name| == |e.name| + |blanks|;
    assert blanks == "" ==> e'.name == e.name;
  }

  lemma TailCut(s: string, tail: string)
    requires forall i :: 0 <= i < |s| ==> s[i] != '/'
    requires tail == "" || (|tail| >= 2 && tail[0] == '/' && tail[1] == '/')
    ensures Uncommented(s + tail) == s
  {
    if tail == "" {
      assert s + tail == s;
      NoComment(s);
    } else {
      assert s + tail == s + "//" + tail[2..];
      CommentCut(s, tail[2..]);
    }
  }

  lemma NormalWithBlanks(name: string, blanks: string)
    requires IsName(name) && forall i :: 0 <= i < |blanks| ==> IsSpace(blanks[i])
    ensures Normal(name + blanks) == name + blanks
    ensures forall i :: 0 <= i < |name + blanks| ==> (name + blanks)[i] != '/'
  {
    var s := name + blanks;
    if HasNonAscii(name) {
      var i :| 0 <= i < |name| && name[i] >= 128 as char;
      assert s[i] == name[i];
    } else {
      forall i | 0 <= i < |s| ensures ToLower(s[i]) == s[i] {
        if i < |name| { assert Lower(name)[i] == name[i]; } else { assert IsSpace(blanks[i - |name|]); }
      }
    }
  }

  // ---------------------------------------------------------------- what a file means

  lemma {:induction false} LineEndOf(line: string, rest: string)
    requires '\n' !in line
    ensures LineEnd(line + "\n" + rest) == |line|
  {
    var t := line + "\n" + rest;
    if line != "" {
      assert t[1..] == line[1..] + "\n" + rest;
      LineEndOf(line[1..], rest);
    }
  }

  lemma FirstLine(line: string, rest: string)
    requires line != "" && '\n' !in line
    ensures Lines(line + "\n" + rest) == [line] + Lines(rest)
  {
    var t := line + "\n" + rest;
    LineEndOf(line, rest);
    assert t[0] == line[0] && SkipNewlines(t) == t && t[..|line|] == line && t[|line|..] == "\n" + rest;
    AfterNewline(rest);
  }

  lemma AfterNewline(rest: string)
    ensures Lines("\n" + rest) == Lines(rest)
  {
    assert ("\n" + rest)[1..] == rest;
  }

  /** A line of a rule file: a rule with or without a comment directly behind it, a comment, or nothing. */
  datatype Line = Ruled(e: Entry, comment: Option<string>) | Remark(text: string) | Empty

  function TextOf(l: Line): string {
    match l
    case Ruled(e, None) => Rendered(e)
    case Ruled(e, Some(comment)) => Rendered(e) + "//" + comment
    case Remark(text) => "//" + text
    case Empty => ""
  }

  predicate ValidLine(l: Line) {
    match l
    case Ruled(e, comment) => IsName(e.name) && (comment.Some? ==> '\n' !in comment.value)
    case Remark(text) => '\n' !in text
    case Empty => true
  }

  function FileOf(ls: seq<Line>): string {
    if ls == [] then "" else TextOf(ls[0]) + "\n" + FileOf(ls[1..])
  }

  /** The rules of a file, in order. */
  function RulesOf(ls: seq<Line>): seq<Entry> {
    if ls == [] then [] else (if ls[0].Ruled? then [ls[0].e] else []) + RulesOf(ls[1..])
  }

  /** What the rules enter: each of them under its name, and one with a character beyond ASCII under its
      punycode too. */
  ghost function Expanded(puny: Punycode, es: seq<Entry>): seq<Entry> {
    if es == [] then []
    else
      var Entry(name, rule) := es[0];
      [Entry(name, rule)]
      + (if exists c :: c in name && c as int > 127 then [Entry(puny(name), rule)] else [])
      + Expanded(puny, es[1..])
  }

  lemma LineText(l: Line)
    requires ValidLine(l)
    ensures '\n' !in TextOf(l) && (TextOf(l) == "" <==> l.Empty?)
  {
    if l.Ruled? { RenderedChars(l.e); }
  }

  lemma RuleWithComment(e: Entry, comment: string, text: string)
    requires IsName(e.name) && text == Rendered(e) + "//" + comment
    ensures Parsed(text) == Some(e)
  {
    RenderedChars(e);
    CommentCut(Rendered(e), comment);
    ParsedCut(e, text);
  }

  lemma ParsedCut(e: Entry, text: string)
    requires IsName(e.name) && Uncommented(text) == Rendered(e)
    ensures Parsed(text) == Some(e)
  {
    RenderedChars(e);
    BlanksStay(Rendered(e));
    ClassifiedRendered(e);
  }

  lemma LineEntries(puny: Punycode, l: Line)
    requires ValidLine(l)
    ensures EntriesOf(puny, TextOf(l)) == HeadOf(puny, l)
  {
    match l
    case Ruled(e, comment) =>
      if comment.Some? {
        RuleWithComment(e, comment.value, TextOf(l));
      } else {
        ParsedRendered(e);
      }
    case Remark(text) => CommentLineHasNoRule(puny, text);
    case Empty => CommentLineHasNoRule(puny, "");
  }

  lemma TwinIsExpanded(puny: Punycode, e: Entry, rest: seq<Entry>)
    ensures Expanded(puny, [e] + rest) == WithTwin(puny, e) + Expanded(puny, rest)
  {
    assert ([e] + rest)[1..] == rest;
    if HasNonAscii(e.name) {
      var i :| 0 <= i < |e.name| && e.name[i] >= 128 as char;
      assert e.name[i] in e.name;
    }
  }

  function Flat(parts: seq<seq<Entry>>): seq<Entry> {
    if parts == [] then [] else parts[0] + Flat(parts[1..])
  }

  lemma {:induction false} ConcatIsFlat(parts: seq<seq<Entry>>, n: nat)
    requires n <= |parts|
    ensures Concat(parts, |parts|) == Concat(parts, n) + Flat(parts[n..])
    decreases |parts| - n
  {
    if n < |parts| {
      ConcatIsFlat(parts, n + 1);
      var a, b, c := Concat(parts, n), parts[n], Flat(parts[n + 1..]);
      assert parts[n..][0] == b && parts[n..][1..] == parts[n + 1..];
      assert (a + b) + c == a + (b + c);
    }
  }

  /** All entries of the lines of a text. */
  function Entered(puny: Punycode, text: string): seq<Entry> {
    Flat(Parts(puny, Lines(text)))
  }

  lemma PartsFront(puny: Punycode, x: string, ys: seq<string>)
    ensures Flat(Parts(puny, [x] + ys)) == EntriesOf(puny, x) + Flat(Parts(puny, ys))
  {
    var parts, tail := Parts(puny, [x] + ys), Parts(puny, ys);
    forall i | 0 <= i < |ys| ensures parts[i + 1] == tail[i] {
      assert ([x] + ys)[i + 1] == ys[i];
    }
    FlatFront(parts, EntriesOf(puny, x), tail);
  }

  lemma FlatFront(parts: seq<seq<Entry>>, head: seq<Entry>, tail: seq<seq<Entry>>)
    requires |parts| == |tail| + 1 && parts[0] == head && forall i :: 0 <= i < |tail| ==> parts[i + 1] == tail[i]
    ensures Flat(parts) == head + Flat(tail)
  {
    assert parts[1..] == tail;
  }

  /** The entries of one line. */
  function HeadOf(puny: Punycode, l: Line): seq<Entry> {
    if l.Ruled? then WithTwin(puny, l.e) else []
  }

  lemma ExpandedFront(puny: Punycode, ls: seq<Line>)
    requires ls != []
    ensures Expanded(puny, RulesOf(ls)) == HeadOf(puny, ls[0]) + Expanded(puny, RulesOf(ls[1..]))
  {
    var rest := RulesOf(ls[1..]);
    if ls[0].Ruled? {
      TwinIsExpanded(puny, ls[0].e, rest);
    } else {
      assert [] + rest == rest;
    }
  }

  lemma FirstLineEntries(puny: Punycode, l: Line, rest: string)
    requires ValidLine(l)
    ensures Entered(puny, TextOf(l) + "\n" + rest) == HeadOf(puny, l) + Entered(puny, rest)
  {
    LineText(l);
    if l.Empty? {
      assert "" + "\n" + rest == "\n" + rest;
      AfterNewline(rest);
    } else {
      FirstLine(TextOf(l), rest);
      LineEntries(puny, l);
      PartsFront(puny, TextOf(l), Lines(rest));
    }
  }

  lemma {:induction false} FileEntries(puny: Punycode, ls: seq<Line>)
    requires forall i :: 0 <= i < |ls| ==> ValidLine(ls[i])
    ensures Entered(puny, FileOf(ls)) == Expanded(puny, RulesOf(ls))
  {
    if ls != [] {
      FileEntries(puny, ls[1..]);
      FirstLineEntries(puny, ls[0], FileOf(ls[1..]));
      ExpandedFront(puny, ls);
    }
  }

  ghost predicate Distinct(es: seq<Entry>, n: nat)
    requires n <= |es|
  {
    forall i, j {:trigger Apart(es, i, j)} :: 0 <= i < j < n ==> Apart(es, i, j)
  }

  ghost predicate Apart(es: seq<Entry>, i: nat, j: nat)
    requires i < |es| && j < |es|
  {
    es[i].name != es[j].name
  }

  /** The table has exactly the first n entries. */
  ghost predicate HasExactly(rules: Rules, es: seq<Entry>, n: nat)
    requires n <= |es|
  {
    && (forall i :: 0 <= i < n ==> es[i].name in rules && rules[es[i].name] == es[i].rule)
    && (forall name :: name in rules ==> exists i :: 0 <= i < n && es[i].name == name)
  }

  lemma {:induction false} LoadedIff(es: seq<Entry>, n: nat)
    requires n <= |es|
    ensures Loaded(es, n).Some? <==> Distinct(es, n)
    ensures Loaded(es, n).Some? ==> HasExactly(Loaded(es, n).value, es, n)
  {
    if n > 0 {
      LoadedIff(es, n - 1);
      LoadedStep(es, n - 1, Loaded(es, n - 1));
    }
  }

  lemma LoadedStep(es: seq<Entry>, n: nat, rules: Option<Rules>)
    requires n < |es| && rules == Loaded(es, n)
    requires rules.Some? <==> Distinct(es, n)
    requires rules.Some? ==> HasExactly(rules.value, es, n)
    ensures Loaded(es, n + 1).Some? <==> Distinct(es, n + 1)
    ensures Loaded(es, n + 1).Some? ==> HasExactly(Loaded(es, n + 1).value, es, n + 1)
  {
    if rules.Some? {
      OneMoreEntry(rules.value, es, n);
    } else {
      StillNotDistinct(es, n);
    }
  }

  lemma StillNotDistinct(es: seq<Entry>, n: nat)
    requires n < |es| && !Distinct(es, n)
    ensures !Distinct(es, n + 1)
  {
    var i, j :| 0 <= i < j < n && !Apart(es, i, j);
  }

  lemma OneMoreEntry(rules: Rules, es: seq<Entry>, n: nat)
    requires n < |es| && Distinct(es, n) && HasExactly(rules, es, n)
    ensures es[n].name in rules <==> !Distinct(es, n + 1)
    ensures es[n].name !in rules ==> HasExactly(rules[es[n].name := es[n].rule], es, n + 1)
  {
    if es[n].name in rules {
      var i :| 0 <= i < n && es[i].name == es[n].name;
      assert !Apart(es, i, n);
    } else {
      forall i, j | 0 <= i < j < n + 1 ensures Apart(es, i, j) {
        if j == n { assert es[i].name in rules; }
      }
      var more := rules[es[n].name := es[n].rule];
      forall name | name in more ensures exists i :: 0 <= i < n + 1 && es[i].name == name {
        if name in rules {
          var i :| 0 <= i < n && es[i].name == name;
        } else {
          assert es[n].name == name;
        }
      }
    }
  }

  lemma TextEntries(puny: Punycode, text: string)
    ensures FileTable(puny, text) == Loaded(Entered(puny, text), |Entered(puny, text)|)
  {
    var parts := Parts(puny, Lines(text));
    ConcatIsFlat(parts, 0);
    assert parts[0..] == parts && Concat(parts, 0) + Flat(parts) == Flat(parts);
  }

  /** A file of rules, comments and empty lines in any order loads if and only if no name is entered twice,
      twins in punycode included, and then its table is exactly what its rules enter. */
  lemma FileLoads(puny: Punycode, ls: seq<Line>)
    requires forall i :: 0 <= i < |ls| ==> ValidLine(ls[i])
    ensures var all, rules := Expanded(puny, RulesOf(ls)), FileTable(puny, FileOf(ls));
      && (rules.Some? <==> Distinct(all, |all|))
      && (rules.Some? ==> HasExactly(rules.value, all, |all|))
  {
    TextEntries(puny, FileOf(ls));
    FileEntries(puny, ls);
    LoadedIff(Expanded(puny, RulesOf(ls)), |Expanded(puny, RulesOf(ls))|);
  }
}
