/** The reverse-nibble query of src/modules/dnsbl.c (dnsbl_ipv6_query): the text of an IPv6 address is
    read backwards and its digits are written over a template of zeroes, without ever expanding the
    address. The reference is the expanded address, as in section 2.5 of RFC 3596.
 */
module Dnsbl {
  import opened Common

  // ---------------------------------------------------------------- addresses as text

  predicate IsHex(c: char) {
    '0' <= c <= '9' || 'a' <= c <= 'f' || 'A' <= c <= 'F'
  }

  predicate IsGroup(g: string) {
    1 <= |g| <= 4 && forall i :: 0 <= i < |g| ==> IsHex(g[i])
  }

  predicate AreGroups(gs: seq<string>) {
    forall i :: 0 <= i < |gs| ==> IsGroup(gs[i])
  }

  /** The forms of section 2.2 of RFC 4291 without an embedded IPv4 address: eight groups, or a
      double colon for one or more groups of zeroes. */
  datatype Address = Full(groups: seq<string>) | Compressed(left: seq<string>, right: seq<string>)

  predicate ValidAddress(a: Address) {
    match a
    case Full(gs) => |gs| == 8 && AreGroups(gs)
    case Compressed(l, r) => |l| + |r| <= 7 && AreGroups(l) && AreGroups(r)
  }

  function Join(gs: seq<string>): string {
    if gs == [] then "" else if |gs| == 1 then gs[0] else Join(gs[..|gs| - 1]) + ":" + gs[|gs| - 1]
  }

  function Text(a: Address): string {
    match a
    case Full(gs) => Join(gs)
    case Compressed(l, r) => Join(l) + "::" + Join(r)
  }

  /** A group with its leading zeroes. */
  function Padded(g: string): (p: string)
    requires |g| <= 4
    ensures |p| == 4
  {
    seq(4 - |g|, _ => '0') + g
  }

  /** Group k of the eight groups of the address, counted from the right. */
  function GroupFromRight(a: Address, k: nat): (g: string)
    requires ValidAddress(a) && k < 8
    ensures |g| == 4
  {
    match a
    case Full(gs) => Padded(gs[7 - k])
    case Compressed(l, r) =>
      if k < |r| then Padded(r[|r| - 1 - k])
      else if k >= 8 - |l| then Padded(l[7 - k])
      else "0000"
  }

  /** Digit j of group k of the expanded address, both counted from the right. */
  function Digit(a: Address, k: nat, j: nat): char
    requires ValidAddress(a) && k < 8 && j < 4
  {
    GroupFromRight(a, k)[3 - j]
  }

  // ---------------------------------------------------------------- the scan

  function RoundUp4(byte: nat): nat {
    if byte % 4 != 0 then byte + (4 - byte % 4) else byte
  }

  /** The backward loop over the text that is left: None when it would write outside the template
      or read before the address. */
  function Scan(t: string, byte: nat, missing: int, nib: seq<char>): (r: Option<seq<char>>)
    ensures r.Some? ==> |r.value| == |nib|
    decreases |t|
  {
    if t == "" then Some(nib)
    else
      var n := |t| - 1;
      if t[n] != ':' then
        if byte < |nib| then Scan(t[..n], byte + 1, missing, nib[byte := t[n]]) else None
      else if n == 0 then None
      else if t[n - 1] == ':' then
        (var next := RoundUp4(byte) + missing * 4;
         if next >= 0 then Scan(t[..n - 1], next, missing, nib) else None)
      else Scan(t[..n], RoundUp4(byte), missing, nib)
  }

  /** A group written backwards from position b on. */
  function Written(nib: seq<char>, b: nat, g: string): (r: seq<char>)
    requires b + |g| <= |nib|
    ensures |r| == |nib|
    decreases |g|
  {
    if g == "" then nib else Written(nib[b := g[|g| - 1]], b + 1, g[..|g| - 1])
  }

  lemma {:induction false} WrittenAt(nib: seq<char>, b: nat, g: string, i: nat)
    requires b + |g| <= |nib| && i < |nib|
    ensures Written(nib, b, g)[i] == if b <= i < b + |g| then g[|g| - 1 - (i - b)] else nib[i]
    decreases |g|
  {
    if g != "" {
      WrittenAt(nib[b := g[|g| - 1]], b + 1, g[..|g| - 1], i);
    }
  }

  lemma {:induction false} ScanGroup(t: string, g: string, b: nat, missing: int, nib: seq<char>)
    requires b + |g| <= |nib| && ':' !in g
    ensures Scan(t + g, b, missing, nib) == Scan(t, b + |g|, missing, Written(nib, b, g))
    decreases |g|
  {
    if g == "" {
      assert t + g == t;
    } else {
      var n := |g| - 1;
      assert (t + g)[|t + g| - 1] == g[n];
      assert (t + g)[..|t + g| - 1] == t + g[..n];
      ScanGroup(t, g[..n], b + 1, missing, nib[b := g[n]]);
    }
  }

  /** Groups written from the last one on, the first of them as group k. */
  function Filled(nib: seq<char>, k: nat, gs: seq<string>): (r: seq<char>)
    requires AreGroups(gs) && 4 * (k + |gs|) <= |nib|
    ensures |r| == |nib|
    decreases |gs|
  {
    if gs == [] then nib else Filled(Written(nib, 4 * k, gs[|gs| - 1]), k + 1, gs[..|gs| - 1])
  }

  lemma SplitPos(k: nat, j: nat, m: nat)
    requires j < 4
    ensures 4 * m <= 4 * k + j < 4 * m + 4 <==> k == m
  {
  }

  lemma {:induction false} FilledAt(nib: seq<char>, k: nat, gs: seq<string>, m: nat, j: nat)
    requires AreGroups(gs) && 4 * (k + |gs|) <= |nib| && j < 4 && 4 * m + j < |nib|
    ensures Filled(nib, k, gs)[4 * m + j] ==
      if k <= m < k + |gs| && j < |gs[|gs| - 1 - (m - k)]| then gs[|gs| - 1 - (m - k)][|gs[|gs| - 1 - (m - k)]| - 1 - j]
      else nib[4 * m + j]
    decreases |gs|
  {
    if gs != [] {
      var g := gs[|gs| - 1];
      FilledAt(Written(nib, 4 * k, g), k + 1, gs[..|gs| - 1], m, j);
      WrittenAt(nib, 4 * k, g, 4 * m + j);
      SplitPos(m, j, k);
    }
  }

  /** One group per colon: after the last group the byte count is rounded up to the next group. */
  lemma {:induction false} ScanGroups(t: string, gs: seq<string>, k: nat, missing: int, nib: seq<char>)
    requires gs != [] && AreGroups(gs) && 4 * (k + |gs|) <= |nib|
    ensures Scan(t + Join(gs), 4 * k, missing, nib)
      == Scan(t, 4 * (k + |gs| - 1) + |gs[0]|, missing, Filled(nib, k, gs))
    decreases |gs|
  {
    var n := |gs| - 1;
    var g := gs[n];
    if n == 0 {
      assert gs[..0] == [];
      ScanGroup(t, g, 4 * k, missing, nib);
    } else {
      ScanLastGroup(t, gs, k, missing, nib);
      ScanGroups(t, gs[..n], k + 1, missing, Written(nib, 4 * k, g));
    }
  }

  lemma ScanLastGroup(t: string, gs: seq<string>, k: nat, missing: int, nib: seq<char>)
    requires |gs| > 1 && AreGroups(gs) && 4 * (k + |gs|) <= |nib|
    ensures var n := |gs| - 1;
      Scan(t + Join(gs), 4 * k, missing, nib)
      == Scan(t + Join(gs[..n]), 4 * (k + 1), missing, Written(nib, 4 * k, gs[n]))
  {
    var n := |gs| - 1;
    var g := gs[n];
    var u := t + Join(gs[..n]);
    assert IsGroup(g);
    assert t + Join(gs) == (u + ":") + g;
    ScanGroup(u + ":", g, 4 * k, missing, nib);
    ScanColon(t, gs[..n], 4 * k + |g|, k + 1, missing, Written(nib, 4 * k, g));
  }

  lemma ScanColon(t: string, gs: seq<string>, byte: nat, k: nat, missing: int, nib: seq<char>)
    requires gs != [] && AreGroups(gs) && 4 * (k - 1) < byte <= 4 * k
    ensures Scan(t + Join(gs) + ":", byte, missing, nib) == Scan(t + Join(gs), 4 * k, missing, nib)
  {
    JoinEnds(gs);
    var u := t + Join(gs);
    assert (u + ":")[|u|] == ':' && (u + ":")[..|u|] == u;
    assert (u + ":")[|u| - 1] == u[|u| - 1] == Join(gs)[|Join(gs)| - 1];
    assert RoundUp4(byte) == 4 * k;
  }

  lemma {:induction false} JoinEnds(gs: seq<string>)
    requires gs != [] && AreGroups(gs)
    ensures Join(gs) != "" && Join(gs)[0] != ':' && Join(gs)[|Join(gs)| - 1] != ':'
  {
    var n := |gs| - 1;
    assert IsGroup(gs[n]);
    assert IsHex(gs[n][|gs[n]| - 1]) && IsHex(gs[n][0]);
    if n > 0 {
      JoinEnds(gs[..n]);
    }
  }

  lemma ScanDouble(t: string, byte: nat, missing: nat, nib: seq<char>)
    ensures Scan(t + "::", byte, missing, nib) == Scan(t, RoundUp4(byte) + missing * 4, missing, nib)
  {
    var u := t + "::";
    assert u[|u| - 1] == ':' && u[|u| - 2] == ':' && u[..|u| - 2] == t;
  }

  // ---------------------------------------------------------------- counting the missing groups

  function Colons(t: string): nat {
    if t == "" then 0
    else Colons(t[..|t| - 1]) + if t[|t| - 1] == ':' then 1 else 0
  }

  lemma {:induction false} ColonsConcat(s: string, t: string)
    ensures Colons(s + t) == Colons(s) + Colons(t)
    decreases |t|
  {
    if t == "" {
      assert s + t == s;
    } else {
      assert (s + t)[..|s + t| - 1] == s + t[..|t| - 1];
      ColonsConcat(s, t[..|t| - 1]);
    }
  }

  lemma {:induction false} ColonsOfGroup(g: string)
    requires ':' !in g
    ensures Colons(g) == 0
  {
    if g != "" { ColonsOfGroup(g[..|g| - 1]); }
  }

  lemma {:induction false} ColonsOfJoin(gs: seq<string>)
    requires AreGroups(gs)
    ensures Colons(Join(gs)) == if gs == [] then 0 else |gs| - 1
  {
    if gs != [] {
      var n := |gs| - 1;
      assert IsGroup(gs[n]);
      ColonsOfGroup(gs[n]);
      if n > 0 {
        ColonsOfJoin(gs[..n]);
        ColonsConcat(Join(gs[..n]), ":");
        ColonsConcat(Join(gs[..n]) + ":", gs[n]);
      }
    }
  }

  /** The groups a text with a double colon spells out: its colons, less one for each end of the
      text that is a colon. */
  function Blocks(t: string): int
    requires t != ""
  {
    Colons(t) - (if t[0] == ':' then 1 else 0) - (if t[|t| - 1] == ':' then 1 else 0)
  }

  lemma ColonsAround(u: string, v: string)
    ensures Colons(u + "::" + v) == Colons(u) + 2 + Colons(v)
  {
    var d := "::";
    assert Colons(d) == 2 by {
      assert d[..1] == ":" && d[..1][..0] == "";
    }
    ColonsConcat(u, d);
    ColonsConcat(u + d, v);
  }

  lemma CompressedEnds(l: seq<string>, r: seq<string>)
    requires AreGroups(l) && AreGroups(r)
    ensures var t := Join(l) + "::" + Join(r);
      && (t[0] == ':' <==> l == [])
      && (t[|t| - 1] == ':' <==> r == [])
  {
    if l != [] { JoinEnds(l); }
    if r != [] { JoinEnds(r); }
  }

  lemma BlocksAreGroups(l: seq<string>, r: seq<string>)
    requires AreGroups(l) && AreGroups(r)
    ensures Blocks(Join(l) + "::" + Join(r)) == |l| + |r|
  {
    CompressedEnds(l, r);
    ColonsOfJoin(l);
    ColonsOfJoin(r);
    ColonsAround(Join(l), Join(r));
  }

  // ---------------------------------------------------------------- every valid text

  function Zeroes(): (z: seq<char>)
    ensures |z| == 32 && forall i :: 0 <= i < 32 ==> z[i] == '0'
  {
    seq(32, _ => '0')
  }

  /** What the scan leaves in the template. */
  function Nibbles(a: Address): (nib: seq<char>)
    requires ValidAddress(a)
    ensures |nib| == 32
  {
    match a
    case Full(gs) => Filled(Zeroes(), 0, gs)
    case Compressed(l, r) => Filled(Filled(Zeroes(), 0, r), 8 - |l|, l)
  }

  lemma PaddedDigit(g: string, j: nat)
    requires |g| <= 4 && j < 4
    ensures Padded(g)[3 - j] == if j < |g| then g[|g| - 1 - j] else '0'
  {
  }

  /** The nibbles are the digits of the expanded address, the least significant first. */
  lemma NibbleIsDigit(a: Address, k: nat, j: nat)
    requires ValidAddress(a) && k < 8 && j < 4
    ensures Nibbles(a)[4 * k + j] == Digit(a, k, j)
  {
    match a
    case Full(gs) =>
      FilledDigit(Zeroes(), 0, gs, k, j);
    case Compressed(l, r) =>
      CompressedDigit(Filled(Zeroes(), 0, r), l, r, k, j);
  }

  lemma CompressedDigit(nib: seq<char>, l: seq<string>, r: seq<string>, k: nat, j: nat)
    requires ValidAddress(Compressed(l, r)) && k < 8 && j < 4 && nib == Filled(Zeroes(), 0, r)
    ensures Filled(nib, 8 - |l|, l)[4 * k + j] == Digit(Compressed(l, r), k, j)
  {
    FilledDigit(Zeroes(), 0, r, k, j);
    FilledDigit(nib, 8 - |l|, l, k, j);
    LayeredDigit(l, r, k, j, nib[4 * k + j], Filled(nib, 8 - |l|, l)[4 * k + j]);
  }

  /** A digit c left by the right groups, then d left by the left groups. */
  lemma LayeredDigit(l: seq<string>, r: seq<string>, k: nat, j: nat, c: char, d: char)
    requires ValidAddress(Compressed(l, r)) && k < 8 && j < 4
    requires c == if k < |r| then Padded(r[|r| - 1 - k])[3 - j] else '0'
    requires k >= 8 - |l| && c == '0' ==> d == Padded(l[|l| - 1 - (k - (8 - |l|))])[3 - j]
    requires k < 8 - |l| ==> d == c
    ensures d == Digit(Compressed(l, r), k, j)
  {
  }

  lemma FilledDigit(nib: seq<char>, k: nat, gs: seq<string>, m: nat, j: nat)
    requires AreGroups(gs) && k + |gs| <= 8 && |nib| == 32 && m < 8 && j < 4
    ensures k <= m < k + |gs| && nib[4 * m + j] == '0'
      ==> Filled(nib, k, gs)[4 * m + j] == Padded(gs[|gs| - 1 - (m - k)])[3 - j]
    ensures !(k <= m < k + |gs|) ==> Filled(nib, k, gs)[4 * m + j] == nib[4 * m + j]
  {
    FilledAt(nib, k, gs, m, j);
    if k <= m < k + |gs| {
      PaddedDigit(gs[|gs| - 1 - (m - k)], j);
    }
  }

  /** The scan of a valid text never leaves the template or the text, and expands the address. */
  lemma ScanText(a: Address)
    requires ValidAddress(a)
    ensures Text(a) != "" && Scanned(Text(a)) == Some(Nibbles(a))
  {
    match a
    case Full(gs) =>
      ScanFull(gs, Join(gs));
    case Compressed(l, r) =>
      BlocksAreGroups(l, r);
      ScanCompressed(l, r, Join(l), Text(a));
  }

  lemma ScanFull(gs: seq<string>, t: string)
    requires |gs| == 8 && AreGroups(gs) && t == Join(gs)
    ensures t != "" && Scanned(t) == Some(Filled(Zeroes(), 0, gs))
  {
    JoinEnds(gs);
    assert "" + t == t;
    ScanGroups("", gs, 0, 8 - Blocks(t), Zeroes());
  }

  lemma ScanCompressed(l: seq<string>, r: seq<string>, u: string, t: string)
    requires ValidAddress(Compressed(l, r)) && u == Join(l) && t == u + "::" + Join(r)
    ensures Scan(t, 0, 8 - (|l| + |r|), Zeroes()) == Some(Nibbles(Compressed(l, r)))
  {
    ScanRight(u, r, t, 8 - (|l| + |r|), 4 * (8 - |l|));
    ScanLeft(l, u, 4 * (8 - |l|), 8 - (|l| + |r|), Filled(Zeroes(), 0, r));
  }

  /** The double colon moves on past the right groups and the missing ones. */
  lemma ScanRight(u: string, r: seq<string>, t: string, missing: nat, next: nat)
    requires AreGroups(r) && |r| <= 8 && t == u + "::" + Join(r) && next == 4 * (|r| + missing)
    ensures Scan(t, 0, missing, Zeroes()) == Scan(u, next, missing, Filled(Zeroes(), 0, r))
  {
    var d := u + "::";
    if r == [] {
      assert d + Join(r) == d;
      ScanDouble(u, 0, missing, Zeroes());
    } else {
      assert IsGroup(r[0]);
      ScanGroups(d, r, 0, missing, Zeroes());
      ScanDouble(u, 4 * (|r| - 1) + |r[0]|, missing, Filled(Zeroes(), 0, r));
      RoundUpGroup(|r|, |r[0]|);
    }
  }

  lemma RoundUpGroup(k: nat, n: nat)
    requires k > 0 && 1 <= n <= 4
    ensures RoundUp4(4 * (k - 1) + n) == 4 * k
  {
  }

  lemma ScanLeft(l: seq<string>, u: string, byte: nat, missing: nat, nib: seq<char>)
    requires AreGroups(l) && |l| <= 8 && |nib| == 32 && u == Join(l) && byte == 4 * (8 - |l|)
    ensures Scan(u, byte, missing, nib) == Some(Filled(nib, 8 - |l|, l))
  {
    if l != [] {
      assert "" + Join(l) == Join(l);
      ScanGroups("", l, 8 - |l|, missing, nib);
    }
  }

  // ---------------------------------------------------------------- the buffer

  /** A query in the buffer: nibbles and dots in turn, the domain, the terminator. */
  ghost predicate Holds(buf: seq<char>, nib: seq<char>, domain: string) {
    && |nib| == 32
    && |buf| >= 65 + |domain|
    && (forall i :: 0 <= i < 32 ==> buf[2 * i] == nib[i])
    && (forall i {:trigger nib[i]} :: 0 <= i < 32 ==> buf[2 * i + 1] == '.')
    && (forall i :: 0 <= i < |domain| ==> buf[64 + i] == domain[i])
    && buf[64 + |domain|] == '\0'
  }

  method CountBlocks(addr: string) returns (blocks: int)
    requires addr != ""
    ensures blocks == Blocks(addr)
  {
    blocks := 0;
    var p := 0;
    while p < |addr|
      invariant p <= |addr| && blocks == Colons(addr[..p])
    {
      assert addr[..p + 1][..p] == addr[..p];
      if addr[p] == ':' { blocks := blocks + 1; }
      p := p + 1;
    }
    assert addr[..p] == addr;
    if addr[0] == ':' { blocks := blocks - 1; }
    if addr[|addr| - 1] == ':' { blocks := blocks - 1; }
  }

  method Template(buffer: array<char>, domain: string)
    requires buffer.Length >= 65 + |domain|
    modifies buffer
    ensures Holds(buffer[..], Zeroes(), domain)
    ensures buffer[65 + |domain|..] == old(buffer[65 + |domain|..])
  {
    var i := 0;
    while i < 32
      invariant 0 <= i <= 32
      invariant forall j :: 0 <= j < i ==> buffer[2 * j] == '0' && buffer[2 * j + 1] == '.'
      invariant buffer[65 + |domain|..] == old(buffer[65 + |domain|..])
    {
      buffer[2 * i], buffer[2 * i + 1] := '0', '.';
      i := i + 1;
    }
    i := 0;
    while i < |domain|
      invariant 0 <= i <= |domain|
      invariant forall j :: 0 <= j < 32 ==> buffer[2 * j] == '0' && buffer[2 * j + 1] == '.'
      invariant forall j :: 0 <= j < i ==> buffer[64 + j] == domain[j]
      invariant buffer[65 + |domain|..] == old(buffer[65 + |domain|..])
    {
      buffer[64 + i] := domain[i];
      i := i + 1;
    }
    buffer[64 + |domain|] := '\0';
  }

  method Lower(buffer: array<char>, n: nat)
    requires n < buffer.Length && buffer[n] == '\0' && forall i :: 0 <= i < n ==> buffer[i] != '\0'
    modifies buffer
    ensures forall i :: 0 <= i < n ==> buffer[i] == ToLower(old(buffer[i]))
    ensures buffer[n..] == old(buffer[n..])
  {
    var p := 0;
    while buffer[p] != '\0'
      invariant 0 <= p <= n
      invariant forall i :: 0 <= i < p ==> buffer[i] == ToLower(old(buffer[i]))
      invariant forall i :: p <= i < buffer.Length ==> buffer[i] == old(buffer[i])
      decreases n - p
    {
      buffer[p] := ToLower(buffer[p]);
      p := p + 1;
    }
  }

  /** The number a hexadecimal digit stands for. */
  function HexValue(c: char): int
    requires IsHex(c)
  {
    if c <= '9' then c as int - '0' as int
    else if c <= 'F' then c as int - 'A' as int + 10
    else c as int - 'a' as int + 10
  }

  /** Lower case keeps the number of a digit and leaves no capitals. */
  lemma LowerKeepsDigits(c: char)
    ensures IsHex(c) ==> IsHex(ToLower(c)) && HexValue(ToLower(c)) == HexValue(c)
    ensures !('A' <= ToLower(c) <= 'Z') && (!('A' <= c <= 'Z') ==> ToLower(c) == c)
  {
  }

  /** A query for the given nibbles: each of them followed by a dot, then the domain, everything in
      lower case. */
  ghost predicate IsQueryFor(buf: seq<char>, nib: seq<char>, domain: string) {
    && |nib| == 32 && |buf| >= 65 + |domain|
    && (forall i :: 0 <= i < 32 ==> buf[2 * i] == ToLower(nib[i]))
    && (forall i {:trigger nib[i]} :: 0 <= i < 32 ==> buf[2 * i + 1] == '.')
    && (forall i :: 0 <= i < |domain| ==> buf[64 + i] == ToLower(domain[i]))
    && buf[64 + |domain|] == '\0'
  }

  /** The query for an address: the digits of the expanded address from the right. */
  ghost predicate IsQuery(buf: seq<char>, a: Address, domain: string)
    requires ValidAddress(a)
  {
    && |buf| >= 65 + |domain|
    && (forall k, j | 0 <= k < 8 && 0 <= j < 4 ::
          buf[2 * (4 * k + j)] == ToLower(Digit(a, k, j)) && buf[2 * (4 * k + j) + 1] == '.')
    && (forall i :: 0 <= i < |domain| ==> buf[64 + i] == ToLower(domain[i]))
    && buf[64 + |domain|] == '\0'
  }

  lemma TemplateNotNul(buf: seq<char>, nib: seq<char>, domain: string)
    requires Holds(buf, nib, domain) && '\0' !in domain
    requires forall i :: 0 <= i < 32 ==> nib[i] != '\0'
    ensures forall i :: 0 <= i < 64 + |domain| ==> buf[i] != '\0'
  {
    forall i | 0 <= i < 64 + |domain| ensures buf[i] != '\0' {
      if i >= 64 {
        assert buf[64 + (i - 64)] == domain[i - 64];
      } else {
        assert nib[i / 2] != '\0';
        assert i == 2 * (i / 2) || i == 2 * (i / 2) + 1;
      }
    }
  }

  lemma LoweredIsQuery(before: seq<char>, after: seq<char>, nib: seq<char>, domain: string)
    requires Holds(before, nib, domain)
    requires |after| >= 65 + |domain| && after[64 + |domain|] == '\0'
    requires forall i :: 0 <= i < 64 + |domain| ==> after[i] == ToLower(before[i])
    ensures IsQueryFor(after, nib, domain)
  {
    forall i | 0 <= i < 32 ensures after[2 * i] == ToLower(nib[i]) && after[2 * i + 1] == '.' {
      assert before[2 * i] == nib[i];
    }
  }

  lemma QueryOfAddress(buf: seq<char>, a: Address, domain: string)
    requires ValidAddress(a) && IsQueryFor(buf, Nibbles(a), domain)
    ensures IsQuery(buf, a, domain)
  {
    forall k, j | 0 <= k < 8 && 0 <= j < 4
      ensures buf[2 * (4 * k + j)] == ToLower(Digit(a, k, j)) && buf[2 * (4 * k + j) + 1] == '.'
    {
      NibbleIsDigit(a, k, j);
    }
  }

  /** The text as the code scans it; None if that leaves the template or the text. */
  function Scanned(addr: string): Option<seq<char>>
    requires addr != ""
  {
    Scan(addr, 0, 8 - Blocks(addr), Zeroes())
  }

  /** dnsbl_ipv6_query, on every text whose scan stays inside the template; the texts of all addresses
      are among them. */
  method Ipv6Query(buffer: array<char>, size: nat, addr: string, domain: string) returns (r: int)
    requires size <= buffer.Length && addr != "" && Scanned(addr).Some?
    requires '\0' !in addr && '\0' !in domain
    modifies buffer
    ensures r == if size < 65 + |domain| then -1 else 0
    ensures r == -1 ==> buffer[..] == old(buffer[..])
    ensures r == 0 ==> buffer[65 + |domain|..] == old(buffer[65 + |domain|..])
    ensures r == 0 ==> IsQueryFor(buffer[..], Scanned(addr).value, domain)
    ensures r == 0 ==> forall a :: ValidAddress(a) && Text(a) == addr ==> IsQuery(buffer[..], a, domain)
  {
    if size < 64 + |domain| + 1 {
      return -1;
    }
    ghost var nib := Scanned(addr).value;
    var blocks := CountBlocks(addr);
    Template(buffer, domain);
    Transcribe(buffer, addr, 8 - blocks, domain, nib);
    ghost var query := buffer[..];
    ScanChars(addr, 0, 8 - blocks, Zeroes());
    TemplateNotNul(query, nib, domain);
    Lower(buffer, 64 + |domain|);
    LoweredIsQuery(query, buffer[..], nib, domain);
    forall a | ValidAddress(a) && Text(a) == addr ensures IsQuery(buffer[..], a, domain) {
      ScanText(a);
      QueryOfAddress(buffer[..], a, domain);
    }
    return 0;
  }

  /** The scan leaves only characters of the template and of the text. */
  lemma {:induction false} ScanChars(t: string, byte: nat, missing: int, nib: seq<char>)
    requires Scan(t, byte, missing, nib).Some?
    ensures var r := Scan(t, byte, missing, nib).value;
      |r| == |nib| && forall i :: 0 <= i < |r| ==> r[i] in nib || (r[i] in t && r[i] != ':')
    decreases |t|
  {
    if t != "" {
      var n := |t| - 1;
      if t[n] != ':' {
        ScanChars(t[..n], byte + 1, missing, nib[byte := t[n]]);
      } else if t[n - 1] == ':' {
        ScanChars(t[..n - 1], RoundUp4(byte) + missing * 4, missing, nib);
      } else {
        ScanChars(t[..n], RoundUp4(byte), missing, nib);
      }
    }
  }

  /** The scan moves forward: what it has written stays, and every character but the colons is
      written. */
  lemma {:induction false} ScanWrites(t: string, byte: nat, missing: nat, nib: seq<char>, c: char)
    requires Scan(t, byte, missing, nib).Some?
    ensures var r := Scan(t, byte, missing, nib).value;
      && |r| == |nib|
      && (forall i :: 0 <= i < byte && i < |nib| ==> r[i] == nib[i])
      && (c in t && c != ':' ==> c in r)
    decreases |t|
  {
    if t != "" {
      var n := |t| - 1;
      if t[n] != ':' {
        ScanWrites(t[..n], byte + 1, missing, nib[byte := t[n]], c);
        assert Scan(t, byte, missing, nib).value[byte] == t[n];
      } else if t[n - 1] == ':' {
        ScanWrites(t[..n - 1], RoundUp4(byte) + missing * 4, missing, nib, c);
      } else {
        ScanWrites(t[..n], RoundUp4(byte), missing, nib, c);
      }
      assert c in t && c != ':' ==> c in t[..n] || c == t[n];
    }
  }

  /** The query consists of hexadecimal digits if and only if the text does, colons apart: a text with
      an embedded dotted address never gives the query of an address. */
  lemma QueryIsHexIff(addr: string)
    requires addr != "" && Blocks(addr) <= 8 && Scanned(addr).Some?
    ensures (forall i :: 0 <= i < 32 ==> IsHex(Scanned(addr).value[i]))
      <==> forall i :: 0 <= i < |addr| ==> addr[i] == ':' || IsHex(addr[i])
  {
    ScanChars(addr, 0, 8 - Blocks(addr), Zeroes());
    forall i | 0 <= i < |addr| ensures addr[i] != ':' ==> addr[i] in Scanned(addr).value {
      ScanWrites(addr, 0, 8 - Blocks(addr), Zeroes(), addr[i]);
    }
  }

  /** In particular the text of every IPv4-mapped address, as inet_ntop writes it: the scan stays inside
      the template, and the dots stand among the nibbles. */
  lemma MappedAddress(quad: string)
    requires ':' !in quad && '.' in quad && |quad| <= 15
    ensures Scanned("::ffff:" + quad).Some? && '.' in Scanned("::ffff:" + quad).value
  {
    var t := "::ffff:" + quad;
    MappedBlocks(quad, t);
    MappedScan(quad, t);
    ScanWrites(t, 0, 6, Zeroes(), '.');
  }

  lemma MappedBlocks(quad: string, t: string)
    requires ':' !in quad && quad != "" && t == "::ffff:" + quad
    ensures Blocks(t) == 2
  {
    ColonsOfGroup(quad);
    ColonsOfGroup("ffff");
    ColonsAround("", "ffff");
    assert "" + "::" + "ffff" == "::ffff";
    ColonsConcat("::ffff", ":" + quad);
    ColonsConcat(":", quad);
    assert "::ffff" + (":" + quad) == t;
    assert ":"[..0] == "";
  }

  lemma MappedScan(quad: string, t: string)
    requires ':' !in quad && 1 <= |quad| <= 15 && t == "::ffff:" + quad
    ensures Scan(t, 0, 6, Zeroes()).Some?
  {
    var nib := Written(Zeroes(), 0, quad);
    ScanGroup("::ffff:", quad, 0, 6, Zeroes());
    ScanOneColon("::ffff", |quad|, 6, nib);
    var b := RoundUp4(|quad|);
    ScanGroup("::", "ffff", b, 6, nib);
    ScanDouble("", b + 4, 6, Written(nib, b, "ffff"));
    assert "::" + "ffff" == "::ffff" && "" + "::" == "::" && "::ffff" + ":" == "::ffff:";
  }

  lemma ScanOneColon(t: string, byte: nat, missing: int, nib: seq<char>)
    requires t != "" && t[|t| - 1] != ':'
    ensures Scan(t + ":", byte, missing, nib) == Scan(t, RoundUp4(byte), missing, nib)
  {
    var u := t + ":";
    assert u[|t|] == ':' && u[..|t|] == t && u[|t| - 1] == t[|t| - 1];
  }

  lemma HoldsWritten(buf: seq<char>, nib: seq<char>, domain: string, b: nat, c: char)
    requires Holds(buf, nib, domain) && b < 32
    ensures Holds(buf[2 * b := c], nib[b := c], domain)
  {
    var after := nib[b := c];
    forall i | 0 <= i < 32 ensures buf[2 * b := c][2 * i] == after[i] && buf[2 * b := c][2 * i + 1] == '.' {
      assert buf[2 * i] == nib[i];
    }
  }

  lemma ScanStep(addr: string, p: nat, byte: nat, missing: int, nib: seq<char>)
    requires p < |addr| && Scan(addr[..p + 1], byte, missing, nib).Some?
    ensures var r := Scan(addr[..p + 1], byte, missing, nib); var next := RoundUp4(byte) + missing * 4;
      if addr[p] != ':' then byte < |nib| && r == Scan(addr[..p], byte + 1, missing, nib[byte := addr[p]])
      else if p == 0 then false
      else if addr[p - 1] != ':' then r == Scan(addr[..p], RoundUp4(byte), missing, nib)
      else next >= 0 && r == Scan(addr[..p - 1], next, missing, nib)
  {
    assert addr[..p + 1][..p] == addr[..p];
    if p > 0 {
      assert addr[..p + 1][..p - 1] == addr[..p - 1];
    }
  }

  /** The backward loop: it overwrites the even places of the template. */
  method Transcribe(buffer: array<char>, addr: string, missing: int, domain: string, ghost nib: seq<char>)
    requires Holds(buffer[..], Zeroes(), domain)
    requires Scan(addr, 0, missing, Zeroes()) == Some(nib)
    modifies buffer
    ensures Holds(buffer[..], nib, domain)
    ensures buffer[65 + |domain|..] == old(buffer[65 + |domain|..])
  {
    var p, byte := |addr| - 1, 0;
    ghost var cur := Zeroes();
    assert addr[..p + 1] == addr;
    while p >= 0
      invariant -1 <= p < |addr| && 0 <= byte
      invariant Scan(addr[..p + 1], byte, missing, cur) == Some(nib)
      invariant Holds(buffer[..], cur, domain)
      invariant buffer[65 + |domain|..] == old(buffer[65 + |domain|..])
    {
      ScanStep(addr, p, byte, missing, cur);
      if addr[p] != ':' {
        ghost var before := buffer[..];
        HoldsWritten(before, cur, domain, byte, addr[p]);
        buffer[byte * 2] := addr[p];
        assert buffer[..] == before[2 * byte := addr[p]];
        cur := cur[byte := addr[p]];
        byte := byte + 1;
      } else {
        if byte % 4 != 0 {
          byte := byte + (4 - byte % 4);
        }
        if addr[p - 1] == ':' {
          byte := byte + missing * 4;
          p := p - 1;
        }
      }
      p := p - 1;
    }
  }

}
