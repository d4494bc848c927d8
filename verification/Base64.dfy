/** Base64, src/base64.c: the encoding loop with its padding patched in afterwards, and the decoding loop
    that stays inside any buffer. The reference is the bit stream of section 4 of RFC 4648.
 */
module Base64 {
  import opened Common

  // ---------------------------------------------------------------- the alphabet

  /** The alphabet, as the table of section 4 of RFC 4648 orders it. */
  function Letter(v: nat): char
    requires v < 64
  {
    if v < 26 then 'A' + v as char
    else if v < 52 then 'a' + (v - 26) as char
    else if v < 62 then '0' + (v - 52) as char
    else if v == 62 then '+' else '/'
  }

  function ValueOf(c: char): (v: int)
    ensures -1 <= v < 64
  {
    if 'A' <= c <= 'Z' then (c - 'A') as int
    else if 'a' <= c <= 'z' then (c - 'a') as int + 26
    else if '0' <= c <= '9' then (c - '0') as int + 52
    else if c == '+' then 62
    else if c == '/' then 63
    else -1
  }

  /** The encoder string, in pieces. */
  function Encoder(): seq<string> {
    ["ABCDEFGH", "IJKLMNOP", "QRSTUVWX", "YZabcdef",
     "ghijklmn", "opqrstuv", "wxyz0123", "456789+/"]
  }

  /** The alphabet is the encoder string. */
  lemma AlphabetIsEncoder(q: nat, r: nat)
    requires q < 8 && r < 8
    ensures |Encoder()| == 8 && |Encoder()[q]| == 8 && Encoder()[q][r] == Letter(8 * q + r)
  {
    assert q == 0 || q == 1 || q == 2 || q == 3 || q == 4 || q == 5 || q == 6 || q == 7;
    assert r == 0 || r == 1 || r == 2 || r == 3 || r == 4 || r == 5 || r == 6 || r == 7;
  }

  lemma ValueOfLetter(v: nat)
    requires v < 64
    ensures ValueOf(Letter(v)) == v && Letter(v) != '='
  {
  }

  lemma LetterOfValue(c: char)
    requires ValueOf(c) >= 0
    ensures Letter(ValueOf(c)) == c && c < 128 as char
  {
  }

  /** An entry of the decoder, an array of char: where char is unsigned, the -1 outside the alphabet is
      stored as 255. */
  function EntryOf(signed: bool, c: char): int {
    if ValueOf(c) >= 0 then ValueOf(c) else if signed then -1 else 255
  }

  ghost predicate IsDecoder(signed: bool, table: seq<int>) {
    |table| == 256 && forall c: char {:trigger DecodesAt(signed, table, c)} :: DecodesAt(signed, table, c)
  }

  ghost predicate DecodesAt(signed: bool, table: seq<int>, c: char)
    requires |table| == 256
  {
    c < 256 as char ==> table[c as int] == EntryOf(signed, c)
  }

  /** The characters of the text index the decoder: where char is signed, those from 128 on are
      negative. */
  ghost predicate CharsFit(signed: bool, t: string) {
    forall i :: 0 <= i < |t| ==> t[i] < (if signed then 128 as char else 256 as char)
  }

  /** base64_init_decoder */
  method InitDecoder(signed: bool) returns (decoder: array<int>)
    ensures fresh(decoder) && IsDecoder(signed, decoder[..])
  {
    var none := if signed then -1 else 255;
    decoder := new int[256](_ => none);
    var i := 0;
    while i < 64
      invariant 0 <= i <= 64 && fresh(decoder) && decoder.Length == 256
      invariant forall c: char :: c < 256 as char ==>
        decoder[c as int] == if 0 <= ValueOf(c) < i then ValueOf(c) else none
    {
      ValueOfLetter(i);
      LetterOfValue(Letter(i));
      decoder[Letter(i) as int] := i;
      forall c: char | c < 256 as char && c != Letter(i) ensures ValueOf(c) != i {
        if ValueOf(c) >= 0 { LetterOfValue(c); }
      }
      i := i + 1;
    }
  }

  // ---------------------------------------------------------------- three bytes, four sextets

  /** A byte of the input, zero past its end. */
  function ByteAt(src: seq<byte>, i: nat): byte {
    if i < |src| then src[i] else 0
  }

  function Triple(a: int, b: int, c: int): int {
    a * 0x10000 + b * 0x100 + c
  }

  function Sextet(t: int, m: nat): (s: int)
    requires m < 4
    ensures 0 <= s < 64
  {
    if m == 0 then t / 0x40000 % 64 else if m == 1 then t / 0x1000 % 64 else if m == 2 then t / 64 % 64 else t % 64
  }

  function Octet(t: int, m: nat): (b: byte)
    requires m < 3
  {
    if m == 0 then t / 0x10000 % 256 else if m == 1 then t / 256 % 256 else t % 256
  }

  lemma DivMod(q: int, r: int, d: int)
    requires 0 <= r < d
    ensures (q * d + r) / d == q && (q * d + r) % d == r
  {
    var x := q * d + r;
    var k := x / d - q;
    assert x == x / d * d + x % d;
    assert k * d == r - x % d;
    Multiple(k, d);
  }

  lemma Multiple(k: int, d: int)
    requires d >= 0
    ensures k >= 1 ==> k * d >= d
    ensures k <= -1 ==> k * d <= -d
  {
  }

  lemma SextetsOfBytes(a: byte, b: byte, c: byte)
    ensures Sextet(Triple(a, b, c), 0) == a / 4
    ensures Sextet(Triple(a, b, c), 1) == a % 4 * 16 + b / 16
    ensures Sextet(Triple(a, b, c), 2) == b % 16 * 4 + c / 64
    ensures Sextet(Triple(a, b, c), 3) == c % 64
  {
    DivMod(a / 4, a % 4 * 0x10000 + b * 0x100 + c, 0x40000);
    DivMod(a * 16 + b / 16, b % 16 * 0x100 + c, 0x1000);
    DivMod(a / 4, a % 4 * 16 + b / 16, 64);
    DivMod(a * 0x400 + b * 4 + c / 64, c % 64, 64);
    DivMod(a * 16 + b / 16, b % 16 * 4 + c / 64, 64);
  }

  lemma SextetsRestore(t: nat)
    requires t < 0x1000000
    ensures Sextet(t, 0) * 0x40000 + Sextet(t, 1) * 0x1000 + Sextet(t, 2) * 64 + Sextet(t, 3) == t
  {
    assert t / 0x1000 == t / 64 / 64 && t / 0x40000 == t / 0x1000 / 64;
  }

  lemma OctetsRestore(a: byte, b: byte, c: byte)
    ensures 0 <= Triple(a, b, c) < 0x1000000
    ensures Octet(Triple(a, b, c), 0) == a && Octet(Triple(a, b, c), 1) == b && Octet(Triple(a, b, c), 2) == c
  {
    assert Triple(a, b, c) == (a * 256 + b) * 256 + c;
  }

  // ---------------------------------------------------------------- encoding

  /** How many groups of three bytes, the last of them possibly short. */
  function Groups(n: nat): (g: nat)
    ensures n <= 3 * g < n + 3
  {
    (n + 2) / 3
  }

  function TripleAt(src: seq<byte>, g: nat): int {
    Triple(ByteAt(src, 3 * g), ByteAt(src, 3 * g + 1), ByteAt(src, 3 * g + 2))
  }

  function SextetAt(src: seq<byte>, g: nat, m: nat): (s: nat)
    requires m < 4
    ensures s < 64
  {
    Sextet(TripleAt(src, g), m)
  }

  /** Character m of group g, before padding. */
  function CharAt(src: seq<byte>, g: nat, m: nat): char
    requires m < 4
  {
    Letter(SextetAt(src, g, m))
  }

  /** The encoded text: padding in place of the characters that hold no bit of the input. */
  function Encoded(src: seq<byte>): (t: string)
    ensures |t| == 4 * Groups(|src|)
  {
    var g := Groups(|src|);
    seq(4 * g, k requires 0 <= k < 4 * g => if k < g + |src| then CharAt(src, k / 4, k % 4) else '=')
  }

  /** A buffer that starts with the characters of g groups. */
  ghost predicate Starts(buf: string, src: seq<byte>, g: nat) {
    && |buf| >= 4 * g
    && forall h, m {:trigger CharAt(src, h, m)} | 0 <= h < g && 0 <= m < 4 :: buf[4 * h + m] == CharAt(src, h, m)
  }

  /** base64_encode. */
  method Encode(dest: array?<char>, size: int, src: Option<seq<byte>>) returns (r: int)
    requires dest != null ==> size <= dest.Length
    modifies dest
    ensures r == -1 <==> src == None || dest == null || size < 4 * Groups(|src.value|) + 1
    ensures r == -1 && dest != null ==> dest[..] == old(dest[..])
    ensures r != -1 ==> r == |Encoded(src.value)| && dest[..r] == Encoded(src.value) && dest[r] == '\0'
    ensures r != -1 ==> forall k :: r < k < dest.Length ==> dest[k] == old(dest[k])
  {
    if src == None || dest == null { return -1; }
    var s := src.value;
    var slen := |s|;
    var dlen := 4 * ((slen + 2) / 3);
    if dlen + 1 > size { return -1; }
    if slen == 0 {
      dest[0] := '\0';
      return 0;
    }
    var j := EncodeGroups(dest, s);
    Pad(dest, j, s);
    return dlen;
  }

  /** The padding characters and the terminator. */
  method Pad(dest: array<char>, j: nat, s: seq<byte>)
    requires s != [] && j == 4 * Groups(|s|) < dest.Length && Starts(dest[..], s, Groups(|s|))
    modifies dest
    ensures dest[..j] == Encoded(s) && dest[j] == '\0'
    ensures forall k :: j < k < dest.Length ==> dest[k] == old(dest[k])
  {
    ghost var g, before := Groups(|s|), dest[..];
    Remainder(|s|, g);
    if |s| % 3 == 1 { dest[j - 2] := '='; }
    if |s| % 3 != 0 { dest[j - 1] := '='; }
    dest[j] := '\0';
    PaddedIsEncoded(before, dest[..j], s, g);
  }

  lemma PaddedIsEncoded(before: string, after: string, s: seq<byte>, g: nat)
    requires g == Groups(|s|) && Starts(before, s, g) && |after| == 4 * g
    requires forall k :: 0 <= k < 4 * g ==> after[k] == if k < g + |s| then before[k] else '='
    ensures after == Encoded(s)
  {
    forall k | 0 <= k < g + |s| ensures after[k] == CharAt(s, k / 4, k % 4) {
      assert before[4 * (k / 4) + k % 4] == CharAt(s, k / 4, k % 4);
    }
  }

  lemma Remainder(n: nat, g: nat)
    requires n <= 3 * g < n + 3
    ensures n % 3 == 0 <==> n == 3 * g
    ensures n % 3 == 1 <==> n == 3 * g - 2
  {
  }

  /** Up to three bytes; the last two may be past the end. */
  method NextTriple(s: seq<byte>, from: nat, ghost g: nat) returns (triple: int, i: nat)
    requires from == 3 * g < |s|
    ensures triple == TripleAt(s, g)
    ensures i == if 3 * g + 3 <= |s| then 3 * g + 3 else |s|
  {
    var a: int := s[from];
    i := from + 1;
    var b: int, c: int := 0, 0;
    if i < |s| { b := s[i]; i := i + 1; }
    if i < |s| { c := s[i]; i := i + 1; }
    triple := Triple(a, b, c);
  }

  method EncodeGroups(dest: array<char>, s: seq<byte>) returns (j: nat)
    requires dest.Length > 4 * Groups(|s|)
    modifies dest
    ensures j == 4 * Groups(|s|) && Starts(dest[..], s, Groups(|s|))
    ensures forall k :: j <= k < dest.Length ==> dest[k] == old(dest[k])
  {
    ghost var n, o := Groups(|s|), dest[..];
    var i := 0;
    j := 0;
    ghost var g := 0;
    while i < |s|
      invariant g <= n && j == 4 * g
      invariant if g < n then i == 3 * g < |s| else i == |s|
      invariant Starts(dest[..], s, g)
      invariant forall k :: 4 * n <= k < |o| ==> dest[k] == o[k]
    {
      var triple;
      triple, i := NextTriple(s, i, g);
      ghost var before := dest[..];
      dest[j] := Letter(Sextet(triple, 0));
      dest[j + 1] := Letter(Sextet(triple, 1));
      dest[j + 2] := Letter(Sextet(triple, 2));
      dest[j + 3] := Letter(Sextet(triple, 3));
      StartsNext(before, dest[..], s, g);
      j := j + 4;
      g := g + 1;
    }
  }

  lemma StartsNext(before: string, after: string, s: seq<byte>, g: nat)
    requires Starts(before, s, g) && |before| == |after| >= 4 * g + 4
    requires forall k :: 0 <= k < 4 * g ==> after[k] == before[k]
    requires forall m :: 0 <= m < 4 ==> after[4 * g + m] == CharAt(s, g, m)
    ensures Starts(after, s, g + 1)
  {
    forall h, m | 0 <= h < g + 1 && 0 <= m < 4 ensures after[4 * h + m] == CharAt(s, h, m) {
      if h < g { assert before[4 * h + m] == CharAt(s, h, m); }
    }
  }

  // ---------------------------------------------------------------- the bit stream

  function Pow2(k: nat): nat {
    if k == 0 then 1 else 2 * Pow2(k - 1)
  }

  /** The low k bits of a number, the most significant first. */
  function Bits(x: nat, k: nat): (r: seq<bool>)
    ensures |r| == k
  {
    if k == 0 then [] else Bits(x / 2, k - 1) + [x % 2 == 1]
  }

  function Zeroes(k: nat): seq<bool> {
    seq(k, _ => false)
  }

  /** The bits of the first n bytes, eight each. */
  function ByteStream(src: seq<byte>, n: nat): (r: seq<bool>)
    ensures |r| == 8 * n
  {
    if n == 0 then [] else ByteStream(src, n - 1) + Bits(ByteAt(src, n - 1), 8)
  }

  /** The bits of the first n characters of a text, six each. */
  function TextStream(t: string, n: nat): (r: seq<bool>)
    requires n <= |t| && forall i :: 0 <= i < n ==> ValueOf(t[i]) >= 0
    ensures |r| == 6 * n
  {
    if n == 0 then [] else TextStream(t, n - 1) + Bits(ValueOf(t[n - 1]), 6)
  }

  /** The bits of the sextets of g groups and of m sextets of the next one. */
  function SextetStream(src: seq<byte>, g: nat, m: nat): (r: seq<bool>)
    requires m <= 4
    ensures |r| == 6 * (4 * g + m)
    decreases g, m
  {
    if m > 0 then SextetStream(src, g, m - 1) + Bits(SextetAt(src, g, m - 1), 6)
    else if g > 0 then SextetStream(src, g - 1, 4)
    else []
  }

  lemma {:induction false} BitsConcat(x: nat, y: nat, n: nat, k: nat)
    requires y < Pow2(k)
    ensures Bits(x * Pow2(k) + y, n + k) == Bits(x, n) + Bits(y, k)
  {
    if k > 0 {
      Halve(x, Pow2(k - 1), y);
      BitsConcat(x, y / 2, n, k - 1);
      var last := [y % 2 == 1];
      assert (Bits(x, n) + Bits(y / 2, k - 1)) + last == Bits(x, n) + (Bits(y / 2, k - 1) + last);
    }
  }

  lemma Halve(x: nat, p: nat, y: nat)
    ensures (x * (2 * p) + y) / 2 == x * p + y / 2 && (x * (2 * p) + y) % 2 == y % 2
  {
    assert x * (2 * p) == 2 * (x * p);
  }

  lemma {:induction false} BitsOfZero(k: nat)
    ensures Bits(0, k) == Zeroes(k)
  {
    if k > 0 { BitsOfZero(k - 1); }
  }

  /** A number below 2 to the k behind another one, in bits. */
  lemma BitsBehind(x: nat, y: nat, z: nat, n: nat, k: nat, p: nat)
    requires p == Pow2(k) && y < p && z == x * p + y
    ensures Bits(z, n + k) == Bits(x, n) + Bits(y, k)
  {
    BitsConcat(x, y, n, k);
  }

  lemma Powers()
    ensures Pow2(6) == 64 && Pow2(8) == 256
  {
  }

  lemma BitsOfOctets(a: byte, b: byte, c: byte, t: nat, w: nat)
    requires t == Triple(a, b, c) && w == 8
    ensures Bits(t, 3 * w) == Bits(a, w) + Bits(b, w) + Bits(c, w)
  {
    Powers();
    BitsBehind(a, b, a * 256 + b, w, w, 256);
    BitsBehind(a * 256 + b, c, t, 2 * w, w, 256);
  }

  lemma BitsOfSextets(p: nat, q: nat, r: nat, s: nat, t: nat, w: nat)
    requires p < 64 && q < 64 && r < 64 && s < 64 && t == p * 0x40000 + q * 0x1000 + r * 64 + s && w == 6
    ensures Bits(t, 4 * w) == Bits(p, w) + Bits(q, w) + Bits(r, w) + Bits(s, w)
  {
    var u := (p * 64 + q) * 64 + r;
    assert t == u * 64 + s;
    BitsOfFour(p, q, r, s, u, t, w);
  }

  lemma BitsOfFour(p: nat, q: nat, r: nat, s: nat, u: nat, t: nat, w: nat)
    requires p < 64 && q < 64 && r < 64 && u == (p * 64 + q) * 64 + r
    requires s < 64 && t == u * 64 + s && w == 6
    ensures Bits(t, 4 * w) == Bits(p, w) + Bits(q, w) + Bits(r, w) + Bits(s, w)
  {
    BitsOfThree(p, q, r, p * 64 + q, u, w);
    Powers();
    BitsBehind(u, s, t, 3 * w, w, 64);
  }

  lemma BitsOfThree(p: nat, q: nat, r: nat, v: nat, t: nat, w: nat)
    requires p < 64 && q < 64 && r < 64 && v == p * 64 + q && t == v * 64 + r && w == 6
    ensures Bits(t, 3 * w) == Bits(p, w) + Bits(q, w) + Bits(r, w)
  {
    Powers();
    BitsBehind(p, q, v, w, w, 64);
    BitsBehind(v, r, t, 2 * w, w, 64);
  }

  lemma {:induction false} ZeroBytes(src: seq<byte>, e: nat)
    ensures ByteStream(src, |src| + e) == ByteStream(src, |src|) + Zeroes(8 * e)
  {
    if e > 0 {
      ZeroBytes(src, e - 1);
      BitsOfZero(8);
      assert Zeroes(8 * (e - 1)) + Zeroes(8) == Zeroes(8 * e);
    }
  }

  lemma GroupBits(src: seq<byte>, g: nat)
    ensures Bits(ByteAt(src, 3 * g), 8) + Bits(ByteAt(src, 3 * g + 1), 8) + Bits(ByteAt(src, 3 * g + 2), 8)
      == Bits(SextetAt(src, g, 0), 6) + Bits(SextetAt(src, g, 1), 6) + Bits(SextetAt(src, g, 2), 6)
        + Bits(SextetAt(src, g, 3), 6)
  {
    var a, b, c := ByteAt(src, 3 * g), ByteAt(src, 3 * g + 1), ByteAt(src, 3 * g + 2);
    var t := TripleAt(src, g);
    OctetsRestore(a, b, c);
    SextetsRestore(t);
    BitsOfOctets(a, b, c, t, 8);
    BitsOfSextets(Sextet(t, 0), Sextet(t, 1), Sextet(t, 2), Sextet(t, 3), t, 6);
  }

  lemma ThreeMore<T>(s: seq<T>, x: seq<T>, y: seq<T>, z: seq<T>)
    ensures ((s + x) + y) + z == s + (x + y + z)
  {
  }

  lemma FourMore<T>(s: seq<T>, w: seq<T>, x: seq<T>, y: seq<T>, z: seq<T>)
    ensures (((s + w) + x) + y) + z == s + (w + x + y + z)
  {
  }

  lemma NextByte(src: seq<byte>, n: nat)
    ensures ByteStream(src, n + 1) == ByteStream(src, n) + Bits(ByteAt(src, n), 8)
  {
  }

  lemma NextSextet(src: seq<byte>, g: nat, m: nat)
    requires m < 4
    ensures SextetStream(src, g, m + 1) == SextetStream(src, g, m) + Bits(SextetAt(src, g, m), 6)
  {
  }

  lemma ThreeBytes(src: seq<byte>, g: nat, q: nat)
    requires q == 3 * g
    ensures ByteStream(src, q + 3) == ByteStream(src, q)
      + (Bits(ByteAt(src, q), 8) + Bits(ByteAt(src, q + 1), 8) + Bits(ByteAt(src, q + 2), 8))
  {
    NextByte(src, q);
    NextByte(src, q + 1);
    NextByte(src, q + 2);
    ThreeMore(ByteStream(src, q), Bits(ByteAt(src, q), 8), Bits(ByteAt(src, q + 1), 8), Bits(ByteAt(src, q + 2), 8));
  }

  lemma FourSextets(src: seq<byte>, g: nat)
    ensures SextetStream(src, g, 4) == SextetStream(src, g, 0)
      + (Bits(SextetAt(src, g, 0), 6) + Bits(SextetAt(src, g, 1), 6) + Bits(SextetAt(src, g, 2), 6)
        + Bits(SextetAt(src, g, 3), 6))
  {
    NextSextet(src, g, 0);
    NextSextet(src, g, 1);
    NextSextet(src, g, 2);
    NextSextet(src, g, 3);
    FourMore(SextetStream(src, g, 0), Bits(SextetAt(src, g, 0), 6), Bits(SextetAt(src, g, 1), 6),
             Bits(SextetAt(src, g, 2), 6), Bits(SextetAt(src, g, 3), 6));
  }

  lemma {:induction false} StreamsAgree(src: seq<byte>, g: nat)
    ensures SextetStream(src, g, 0) == ByteStream(src, 3 * g)
  {
    if g > 0 {
      StreamsAgree(src, g - 1);
      GroupStream(src, g - 1, 3 * (g - 1));
    }
  }

  lemma GroupStream(src: seq<byte>, g: nat, q: nat)
    requires q == 3 * g && SextetStream(src, g, 0) == ByteStream(src, q)
    ensures SextetStream(src, g, 4) == ByteStream(src, q + 3)
  {
    FourSextets(src, g);
    ThreeBytes(src, g, q);
    GroupBits(src, g);
  }

  /** Padding replaces only sextets without a bit of the input. */
  lemma PaddingIsZero(src: seq<byte>, g: nat)
    requires src != [] && g == Groups(|src|)
    ensures |src| < 3 * g ==> SextetAt(src, g - 1, 3) == 0
    ensures |src| < 3 * g - 1 ==> SextetAt(src, g - 1, 2) == 0
  {
    SextetsOfBytes(ByteAt(src, 3 * (g - 1)), ByteAt(src, 3 * (g - 1) + 1), ByteAt(src, 3 * (g - 1) + 2));
  }

  lemma ZeroSextets(src: seq<byte>, g: nat, p: nat)
    requires p <= 2 && forall m {:trigger SextetAt(src, g, m)} :: 4 - p <= m < 4 ==> SextetAt(src, g, m) == 0
    ensures SextetStream(src, g, 4) == SextetStream(src, g, 4 - p) + Zeroes(6 * p)
  {
    BitsOfZero(6);
    if p >= 1 { NextSextet(src, g, 3); }
    if p == 2 {
      NextSextet(src, g, 2);
      TwoZeroes(SextetStream(src, g, 2));
    }
  }

  lemma TwoZeroes(s: seq<bool>)
    ensures (s + Zeroes(6)) + Zeroes(6) == s + Zeroes(12)
  {
  }

  /** The first n characters of a text stand for the sextets of the input. */
  ghost predicate Carries(t: string, src: seq<byte>, n: nat) {
    && n <= |t|
    && (forall i :: 0 <= i < n ==> ValueOf(t[i]) >= 0)
    && forall h, m {:trigger SextetAt(src, h, m)} | 0 <= h && 0 <= m < 4 && 4 * h + m < n ::
      ValueOf(t[4 * h + m]) == SextetAt(src, h, m)
  }

  lemma {:induction false} CarriedStream(t: string, src: seq<byte>, n: nat, g: nat, m: nat)
    requires Carries(t, src, n) && m <= 4 && 4 * g + m <= n
    ensures TextStream(t, 4 * g + m) == SextetStream(src, g, m)
    decreases g, m
  {
    if m > 0 {
      CarriedStream(t, src, n, g, m - 1);
      assert ValueOf(t[4 * g + (m - 1)]) == SextetAt(src, g, m - 1);
    } else if g > 0 {
      CarriedStream(t, src, n, g - 1, 4);
    }
  }

  lemma EncodedCarries(src: seq<byte>)
    ensures Carries(Encoded(src), src, Groups(|src|) + |src|)
  {
    var n := Groups(|src|) + |src|;
    forall i | 0 <= i < n ensures ValueOf(Encoded(src)[i]) >= 0 {
      EncodedAt(src, i / 4, i % 4);
    }
    forall h, m | 0 <= h && 0 <= m < 4 && 4 * h + m < n
      ensures ValueOf(Encoded(src)[4 * h + m]) == SextetAt(src, h, m) {
      EncodedAt(src, h, m);
    }
  }

  lemma EncodedAt(src: seq<byte>, g: nat, m: nat)
    requires m < 4 && 4 * g + m < Groups(|src|) + |src|
    ensures Encoded(src)[4 * g + m] == CharAt(src, g, m)
    ensures ValueOf(Encoded(src)[4 * g + m]) == SextetAt(src, g, m)
  {
    assert (4 * g + m) / 4 == g && (4 * g + m) % 4 == m;
    ValueOfLetter(SextetAt(src, g, m));
  }

  lemma Cancel<T>(x: seq<T>, y: seq<T>, u: seq<T>, v: seq<T>)
    requires x + u == y + (v + u)
    ensures x == y + v
  {
    assert |x| == |y + v|;
    assert (x + u)[..|x|] == x;
    assert (y + (v + u))[..|x|] == y + v;
  }

  /** Section 4 of RFC 4648: the text is the bit stream of the input cut into sextets, completed by
      zero bits, and padding to a multiple of four characters. */
  ghost predicate IsBitStream(t: string, src: seq<byte>) {
    var g := Groups(|src|);
    && |t| == 4 * g
    && (forall i :: 0 <= i < g + |src| ==> ValueOf(t[i]) >= 0)
    && (forall i :: g + |src| <= i < |t| ==> t[i] == '=')
    && TextStream(t, g + |src|) == ByteStream(src, |src|) + Zeroes(2 * (3 * g - |src|))
  }

  lemma EncodedIsBitStream(src: seq<byte>)
    ensures IsBitStream(Encoded(src), src)
  {
    EncodedCarries(src);
    StreamOfText(Encoded(src), src, Groups(|src|));
  }

  lemma StreamOfText(t: string, src: seq<byte>, g: nat)
    requires g == Groups(|src|) && |t| == 4 * g && Carries(t, src, g + |src|)
    requires forall i :: g + |src| <= i < |t| ==> t[i] == '='
    ensures IsBitStream(t, src)
  {
    if src != [] { TextIsBytes(t, src, g, 3 * g - |src|, g + |src|); }
  }

  lemma TextIsBytes(t: string, src: seq<byte>, g: nat, p: nat, n: nat)
    requires src != [] && g == Groups(|src|) && p == 3 * g - |src| && n == g + |src| && Carries(t, src, n)
    ensures TextStream(t, n) == ByteStream(src, |src|) + Zeroes(2 * p)
  {
    SextetsAreBytes(src, g, p);
    DataStream(t, src, n, g - 1, 4 - p);
  }

  lemma DataStream(t: string, src: seq<byte>, n: nat, g: nat, m: nat)
    requires m <= 4 && n == 4 * g + m && Carries(t, src, n)
    ensures TextStream(t, n) == SextetStream(src, g, m)
  {
    CarriedStream(t, src, n, g, m);
  }

  lemma PaddedStream(src: seq<byte>, g: nat, p: nat)
    requires src != [] && g == Groups(|src|) && p == 3 * g - |src|
    ensures SextetStream(src, g, 0) == SextetStream(src, g - 1, 4 - p) + Zeroes(6 * p)
  {
    PaddingIsZero(src, g);
    ZeroSextets(src, g - 1, p);
  }

  lemma SextetsAreBytes(src: seq<byte>, g: nat, p: nat)
    requires src != [] && g == Groups(|src|) && p == 3 * g - |src|
    ensures SextetStream(src, g - 1, 4 - p) == ByteStream(src, |src|) + Zeroes(2 * p)
  {
    PaddedStream(src, g, p);
    StreamsAgree(src, g);
    ZeroBytes(src, p);
    CutStream(SextetStream(src, g - 1, 4 - p), ByteStream(src, |src|), p);
  }

  lemma CutStream(x: seq<bool>, y: seq<bool>, p: nat)
    requires x + Zeroes(6 * p) == y + Zeroes(8 * p)
    ensures x == y + Zeroes(2 * p)
  {
    assert Zeroes(8 * p) == Zeroes(2 * p) + Zeroes(6 * p);
    Cancel(x, y, Zeroes(6 * p), Zeroes(2 * p));
  }

  // ---------------------------------------------------------------- decoding

  function PadCount(t: string): (p: nat)
    ensures p <= |t|
  {
    if t != "" && t[|t| - 1] == '=' then 1 + PadCount(t[..|t| - 1]) else 0
  }

  /** The length without the padding characters beyond two. */
  function Used(t: string): nat {
    if PadCount(t) > 2 then |t| - (PadCount(t) - 2) else |t|
  }

  /** base64_decsize: from the whole length of the text. */
  function DecSize(t: string): int {
    |t| / 4 * 3 - (if PadCount(t) >= 2 then 2 else PadCount(t))
  }

  /** The value of character k of a text of n characters; padding at the end is zero. */
  function Value(signed: bool, t: string, n: nat, k: nat): int
    requires k < n <= |t|
  {
    if k == n - 1 && t[n - 1] == '=' then 0
    else if k == n - 2 && t[n - 1] == '=' && t[n - 2] == '=' then 0
    else EntryOf(signed, t[k])
  }

  predicate Good(signed: bool, t: string, n: nat, g: nat)
    requires 4 * g + 4 <= n <= |t|
  {
    && Value(signed, t, n, 4 * g) >= 0 && Value(signed, t, n, 4 * g + 1) >= 0
    && Value(signed, t, n, 4 * g + 2) >= 0 && Value(signed, t, n, 4 * g + 3) >= 0
  }

  /** How many of the groups from g on come before the first one with a foreign character. */
  function GoodFrom(signed: bool, t: string, n: nat, g: nat): (r: nat)
    requires 4 * g <= n <= |t| && n % 4 == 0
    ensures g <= r && 4 * r <= n
    decreases n - 4 * g
  {
    if 4 * g == n || !Good(signed, t, n, g) then g else GoodFrom(signed, t, n, g + 1)
  }

  function TripleOf(signed: bool, t: string, n: nat, g: nat): int
    requires 4 * g + 4 <= n <= |t|
  {
    Value(signed, t, n, 4 * g) * 0x40000 + Value(signed, t, n, 4 * g + 1) * 0x1000
    + Value(signed, t, n, 4 * g + 2) * 64 + Value(signed, t, n, 4 * g + 3)
  }

  /** Byte m of decoded group g. */
  function Decoded(signed: bool, t: string, n: nat, g: nat, m: nat): byte
    requires 4 * g + 4 <= n <= |t| && m < 3
  {
    Octet(TripleOf(signed, t, n, g), m)
  }

  /** Every group of the text stands for three bytes. */
  predicate Accepts(signed: bool, t: string) {
    Used(t) % 4 == 0 && 4 * GoodFrom(signed, t, Used(t), 0) == Used(t)
  }

  /** The buffer after g groups: their bytes as far as they fit, and nothing else changed. */
  ghost predicate DecodedInto(signed: bool, buf: seq<byte>, o: seq<byte>, t: string, n: nat, g: nat, size: nat)
    requires 4 * g <= n <= |t|
  {
    && |buf| == |o| >= size
    && (forall h, m {:trigger Decoded(signed, t, n, h, m)} | 0 <= h < g && 0 <= m < 3 && 3 * h + m < size ::
          buf[3 * h + m] == Decoded(signed, t, n, h, m))
    && forall k :: 0 <= k < |o| && (k >= size || k >= 3 * g) ==> buf[k] == o[k]
  }

  /** base64_decode. From six padding characters on, the last of the bytes
      that it claims to have decoded has not been written. */
  method Decode(signed: bool, dest: array?<byte>, size: nat, src: Option<string>) returns (r: int)
    requires dest != null ==> size <= dest.Length
    requires src.Some? ==> CharsFit(signed, src.value)
    modifies dest
    ensures src == None || dest == null ==> r == -1
    ensures src.Some? && dest != null && |src.value| == 0 ==>
      (if size == 0 then r == -1 && dest[..] == old(dest[..]) else r == 0 && dest[..] == old(dest[..])[0 := 0])
    ensures src.Some? && dest != null && |src.value| > 0 ==>
      && r == (if Accepts(signed, src.value) && DecSize(src.value) <= size then DecSize(src.value) else -1)
      && (if Used(src.value) % 4 == 0 && DecSize(src.value) <= size
          then DecodedInto(signed, dest[..], old(dest[..]), src.value, Used(src.value),
                           GoodFrom(signed, src.value, Used(src.value), 0), size)
          else dest[..] == old(dest[..]))
      && (r != -1 && PadCount(src.value) < 6 ==> r <= 3 * (Used(src.value) / 4))
      && (r != -1 && PadCount(src.value) >= 6 ==> r > 3 * (Used(src.value) / 4) && dest[r - 1] == old(dest[r - 1]))
  {
    var decoder := InitDecoder(signed);
    if src == None || dest == null { return -1; }
    var t := src.value;
    var slen := |t|;
    if slen == 0 {
      if size > 0 {
        dest[0] := 0;
        return 0;
      }
      return -1;
    }
    var padlen := CountPad(t);
    if padlen > 2 { slen := slen - (padlen - 2); }
    if slen % 4 != 0 { return -1; }
    var dlen := |t| / 4 * 3 - (if padlen >= 2 then 2 else padlen);
    if dlen > size { return -1; }
    var ok := DecodeGroups(signed, dest, size, t, slen, decoder[..]);
    SurplusPadding(t);
    return if ok then dlen else -1;
  }

  method CountPad(t: string) returns (padlen: nat)
    ensures padlen == PadCount(t)
  {
    padlen := 0;
    assert t[..|t|] == t;
    while padlen < |t| && t[|t| - padlen - 1] == '='
      invariant padlen <= |t| && PadCount(t) == padlen + PadCount(t[..|t| - padlen])
    {
      assert t[..|t| - padlen][..|t| - padlen - 1] == t[..|t| - (padlen + 1)];
      padlen := padlen + 1;
    }
  }

  /** Four sextets; the last two may be padding at the end. */
  method NextQuad(signed: bool, t: string, n: nat, from: nat, decoder: seq<int>)
    returns (a: int, b: int, c: int, d: int)
    requires from + 4 <= n <= |t| && from % 4 == n % 4 == 0
    requires CharsFit(signed, t)
    requires IsDecoder(signed, decoder)
    ensures a == Value(signed, t, n, from) && b == Value(signed, t, n, from + 1) && c == Value(signed, t, n, from + 2)
      && d == Value(signed, t, n, from + 3)
  {
    assert DecodesAt(signed, decoder, t[from]) && DecodesAt(signed, decoder, t[from + 1]);
    assert DecodesAt(signed, decoder, t[from + 2]) && DecodesAt(signed, decoder, t[from + 3]);
    a, b := decoder[t[from] as int], decoder[t[from + 1] as int];
    c, d := decoder[t[from + 2] as int], decoder[t[from + 3] as int];
    if from + 4 == n && t[n - 1] == '=' {
      d := 0;
      if t[n - 2] == '=' { c := 0; }
    }
  }

  method DecodeGroups(signed: bool, dest: array<byte>, size: nat, t: string, n: nat, decoder: seq<int>)
    returns (ok: bool)
    requires size <= dest.Length && n <= |t| && n % 4 == 0
    requires CharsFit(signed, t)
    requires IsDecoder(signed, decoder)
    modifies dest
    ensures ok <==> 4 * GoodFrom(signed, t, n, 0) == n
    ensures DecodedInto(signed, dest[..], old(dest[..]), t, n, GoodFrom(signed, t, n, 0), size)
  {
    ghost var g;
    ok, g := DecodeLoop(signed, dest, size, t, n, decoder);
    GoodFromIs(signed, t, n, 0, g);
  }

  /** The groups before the first one with a foreign character. */
  method DecodeLoop(signed: bool, dest: array<byte>, size: nat, t: string, n: nat, decoder: seq<int>)
    returns (ok: bool, ghost g: nat)
    requires size <= dest.Length && n <= |t| && n % 4 == 0
    requires CharsFit(signed, t) && IsDecoder(signed, decoder)
    modifies dest
    ensures if ok then 4 * g == n else 4 * g < n && !Good(signed, t, n, g)
    ensures forall h {:trigger Good(signed, t, n, h)} :: 0 <= h < g ==> Good(signed, t, n, h)
    ensures DecodedInto(signed, dest[..], old(dest[..]), t, n, g, size)
  {
    ghost var o, all := dest[..], n / 4;
    assert n == 4 * all;
    var i, j := 0, 0;
    g := 0;
    while i < n
      invariant g <= all && i == 4 * g && j == (if 3 * g <= size then 3 * g else size)
      invariant forall h {:trigger Good(signed, t, n, h)} :: 0 <= h < g ==> Good(signed, t, n, h)
      invariant DecodedInto(signed, dest[..], o, t, n, g, size)
    {
      ok, j := DecodeGroup(signed, dest, size, t, n, i, j, decoder, g, o);
      if !ok {
        return;
      }
      i := i + 4;
      g := g + 1;
    }
    ok := true;
  }

  lemma {:induction false} GoodFromIs(signed: bool, t: string, n: nat, g: nat, end: nat)
    requires g <= end && 4 * end <= n <= |t| && n % 4 == 0
    requires forall h {:trigger Good(signed, t, n, h)} :: g <= h < end ==> Good(signed, t, n, h)
    requires 4 * end == n || !Good(signed, t, n, end)
    ensures GoodFrom(signed, t, n, g) == end
    decreases end - g
  {
    if g < end { GoodFromIs(signed, t, n, g + 1, end); }
  }

  /** One turn of the decoding loop. */
  method DecodeGroup(signed: bool, dest: array<byte>, size: nat, t: string, n: nat, i: nat, from: nat,
                     decoder: seq<int>, ghost g: nat, ghost o: seq<byte>) returns (ok: bool, j: nat)
    requires size <= dest.Length && i == 4 * g && i + 4 <= n <= |t| && n % 4 == 0
    requires from == (if 3 * g <= size then 3 * g else size)
    requires CharsFit(signed, t)
    requires IsDecoder(signed, decoder)
    requires DecodedInto(signed, dest[..], o, t, n, g, size)
    modifies dest
    ensures ok <==> Good(signed, t, n, g)
    ensures !ok ==> dest[..] == old(dest[..])
    ensures ok ==> j == (if 3 * g + 3 <= size then 3 * g + 3 else size)
    ensures ok ==> DecodedInto(signed, dest[..], o, t, n, g + 1, size)
  {
    var a, b, c, d := NextQuad(signed, t, n, i, decoder);
    if a == -1 || b == -1 || c == -1 || d == -1 {
      return false, from;
    }
    var triple := a * 0x40000 + b * 0x1000 + c * 64 + d;
    j := PutTriple(signed, dest, size, from, triple, t, n, g, o);
    return true, j;
  }

  method PutTriple(ghost signed: bool, dest: array<byte>, size: nat, from: nat, triple: int,
                   ghost t: string, ghost n: nat, ghost g: nat, ghost o: seq<byte>) returns (j: nat)
    requires size <= dest.Length && 4 * g + 4 <= n <= |t| && triple == TripleOf(signed, t, n, g)
    requires from == (if 3 * g <= size then 3 * g else size)
    requires DecodedInto(signed, dest[..], o, t, n, g, size)
    modifies dest
    ensures j == (if 3 * g + 3 <= size then 3 * g + 3 else size)
    ensures DecodedInto(signed, dest[..], o, t, n, g + 1, size)
  {
    j := from;
    ghost var before := dest[..];
    if j < size { dest[j] := Octet(triple, 0); j := j + 1; }
    if j < size { dest[j] := Octet(triple, 1); j := j + 1; }
    if j < size { dest[j] := Octet(triple, 2); j := j + 1; }
    DecodedNext(signed, before, dest[..], o, t, n, g, size);
  }

  lemma DecodedNext(signed: bool, before: seq<byte>, after: seq<byte>, o: seq<byte>, t: string, n: nat, g: nat,
                    size: nat)
    requires 4 * g + 4 <= n <= |t| && DecodedInto(signed, before, o, t, n, g, size) && |after| == |before|
    requires forall m :: 0 <= m < 3 && 3 * g + m < size ==> after[3 * g + m] == Decoded(signed, t, n, g, m)
    requires forall k :: 0 <= k < |o| && (k < 3 * g || k >= 3 * g + 3 || k >= size) ==> after[k] == before[k]
    ensures DecodedInto(signed, after, o, t, n, g + 1, size)
  {
    forall h, m | 0 <= h < g + 1 && 0 <= m < 3 && 3 * h + m < size
      ensures after[3 * h + m] == Decoded(signed, t, n, h, m)
    {
      if h < g { assert before[3 * h + m] == Decoded(signed, t, n, h, m); }
    }
  }

  // ---------------------------------------------------------------- what is accepted

  /** Character k of a text of n characters is in the alphabet, or padding at the end. */
  predicate CleanAt(t: string, n: nat, k: nat)
    requires k < n <= |t|
  {
    || ValueOf(t[k]) >= 0
    || (t[k] == '=' && (k == n - 1 || (k == n - 2 && t[n - 1] == '=')))
  }

  predicate Clean(t: string) {
    forall k :: 0 <= k < Used(t) ==> CleanAt(t, Used(t), k)
  }

  lemma ValueIsGood(signed: bool, t: string, n: nat, k: nat)
    requires k < n <= |t|
    ensures Value(signed, t, n, k) >= 0 <==> !signed || CleanAt(t, n, k)
  {
  }

  lemma GoodIff(signed: bool, t: string, n: nat, g: nat)
    requires 4 * g + 4 <= n <= |t|
    ensures Good(signed, t, n, g) <==> !signed || forall k :: 4 * g <= k < 4 * g + 4 ==> CleanAt(t, n, k)
  {
    ValueIsGood(signed, t, n, 4 * g);
    ValueIsGood(signed, t, n, 4 * g + 1);
    ValueIsGood(signed, t, n, 4 * g + 2);
    ValueIsGood(signed, t, n, 4 * g + 3);
    if Good(signed, t, n, g) && signed {
      forall k | 4 * g <= k < 4 * g + 4 ensures CleanAt(t, n, k) {
        ValueIsGood(signed, t, n, k);
        assert k == 4 * g || k == 4 * g + 1 || k == 4 * g + 2 || k == 4 * g + 3;
      }
    }
  }

  lemma {:induction false} GoodFromIff(signed: bool, t: string, n: nat, g: nat)
    requires 4 * g <= n <= |t| && n % 4 == 0
    ensures 4 * GoodFrom(signed, t, n, g) == n <==> !signed || forall k :: 4 * g <= k < n ==> CleanAt(t, n, k)
    decreases n - 4 * g
  {
    if 4 * g < n {
      GoodIff(signed, t, n, g);
      GoodFromIff(signed, t, n, g + 1);
      assert 4 * GoodFrom(signed, t, n, g) == n ==> Good(signed, t, n, g);
    }
  }

  /** What base64_decode accepts, size apart: whole groups, and where char is signed only the alphabet with
      its padding. Where char is unsigned no character is foreign to it. */
  lemma AcceptsIff(signed: bool, t: string)
    ensures Accepts(signed, t) <==> Used(t) % 4 == 0 && (signed ==> Clean(t))
  {
    if Used(t) % 4 == 0 { GoodFromIff(signed, t, Used(t), 0); }
  }

  /** Texts with foreign characters are rejected if and only if char is signed. */
  lemma ForeignRejectedIff(signed: bool)
    ensures (forall t :: Accepts(signed, t) ==> Clean(t)) <==> signed
  {
    forall t ensures Accepts(signed, t) ==> !signed || Clean(t) {
      AcceptsIff(signed, t);
    }
    DashesAccepted();
  }

  lemma DashesAccepted()
    ensures var t := "----"; Accepts(false, t) && !Accepts(true, t) && !Clean(t) && DecSize(t) == 3
  {
    var t := "----";
    PadOfText(t, 4);
    assert Used(t) == 4 && !CleanAt(t, 4, 0);
    AcceptsIff(false, t);
    AcceptsIff(true, t);
  }

  // ---------------------------------------------------------------- the round trip

  lemma {:induction false} PadOfText(t: string, k: nat)
    requires k <= |t| && forall i :: k <= i < |t| ==> t[i] == '='
    requires k > 0 ==> t[k - 1] != '='
    ensures PadCount(t) == |t| - k
    decreases |t|
  {
    if k < |t| { PadOfText(t[..|t| - 1], k); }
  }

  /** A text whose characters, padding included, have the values of the sextets of the input. */
  ghost predicate Faithful(signed: bool, t: string, src: seq<byte>, g: nat) {
    && |t| == 4 * g
    && forall h, m {:trigger SextetAt(src, h, m)} | 0 <= h < g && 0 <= m < 4 ::
      Value(signed, t, 4 * g, 4 * h + m) == SextetAt(src, h, m)
  }

  lemma EncodedFaithful(signed: bool, src: seq<byte>, t: string, g: nat)
    requires src != [] && g == Groups(|src|) && t == Encoded(src)
    ensures Faithful(signed, t, src, g)
  {
    forall h, m | 0 <= h < g && 0 <= m < 4 ensures Value(signed, t, 4 * g, 4 * h + m) == SextetAt(src, h, m) {
      if 4 * h + m < g + |src| {
        EncodedAt(src, h, m);
        ValueOfLetter(SextetAt(src, h, m));
      } else {
        PaddingIsZero(src, g);
      }
    }
  }

  lemma GroupRestored(signed: bool, src: seq<byte>, t: string, g: nat, h: nat)
    requires Faithful(signed, t, src, g) && h < g
    ensures Good(signed, t, 4 * g, h) && TripleOf(signed, t, 4 * g, h) == TripleAt(src, h)
  {
    OctetsRestore(ByteAt(src, 3 * h), ByteAt(src, 3 * h + 1), ByteAt(src, 3 * h + 2));
    SextetsRestore(TripleAt(src, h));
    assert Value(signed, t, 4 * g, 4 * h + 0) == SextetAt(src, h, 0);
    assert Value(signed, t, 4 * g, 4 * h + 1) == SextetAt(src, h, 1);
    assert Value(signed, t, 4 * g, 4 * h + 2) == SextetAt(src, h, 2);
    assert Value(signed, t, 4 * g, 4 * h + 3) == SextetAt(src, h, 3);
  }

  lemma ByteRestored(signed: bool, src: seq<byte>, t: string, g: nat, h: nat, m: nat)
    requires Faithful(signed, t, src, g) && h < g && m < 3
    ensures Decoded(signed, t, 4 * g, h, m) == ByteAt(src, 3 * h + m)
  {
    GroupRestored(signed, src, t, g, h);
    OctetsRestore(ByteAt(src, 3 * h), ByteAt(src, 3 * h + 1), ByteAt(src, 3 * h + 2));
  }

  lemma {:induction false} AllGood(signed: bool, src: seq<byte>, t: string, g: nat, h: nat)
    requires Faithful(signed, t, src, g) && h <= g
    ensures GoodFrom(signed, t, 4 * g, h) == g
    decreases g - h
  {
    if h < g {
      GroupRestored(signed, src, t, g, h);
      AllGood(signed, src, t, g, h + 1);
    }
  }

  lemma EncodedEnd(src: seq<byte>, t: string, k: nat)
    requires src != [] && k == Groups(|src|) + |src| && t == Encoded(src)
    ensures t[k - 1] != '=' && forall i :: k <= i < |t| ==> t[i] == '='
  {
    EncodedAt(src, (k - 1) / 4, (k - 1) % 4);
    ValueOfLetter(SextetAt(src, (k - 1) / 4, (k - 1) % 4));
  }

  lemma SizeFromPad(t: string, n: nat, g: nat)
    requires |t| == 4 * g && PadCount(t) == 3 * g - n && 3 * g < n + 3
    ensures Used(t) == 4 * g && DecSize(t) == n
  {
  }

  /** Every encoded text is accepted, with the length of the input. */
  lemma EncodedAccepted(signed: bool, src: seq<byte>, t: string, g: nat)
    requires src != [] && g == Groups(|src|) && t == Encoded(src)
    ensures Used(t) == 4 * g && GoodFrom(signed, t, 4 * g, 0) == g && Accepts(signed, t) && DecSize(t) == |src|
  {
    EncodedEnd(src, t, g + |src|);
    PadOfText(t, g + |src|);
    SizeFromPad(t, |src|, g);
    EncodedFaithful(signed, src, t, g);
    AllGood(signed, src, t, g, 0);
  }

  /** A buffer of sufficient size filled from an encoded text starts with the input. */
  lemma RestoredBytes(signed: bool, src: seq<byte>, t: string, g: nat, buf: seq<byte>, o: seq<byte>, size: nat)
    requires src != [] && g == Groups(|src|) && Faithful(signed, t, src, g) && size >= |src|
    requires DecodedInto(signed, buf, o, t, 4 * g, g, size)
    ensures buf[..|src|] == src
  {
    forall i | 0 <= i < |src| ensures buf[i] == src[i] {
      ByteRestored(signed, src, t, g, i / 3, i % 3);
      assert buf[3 * (i / 3) + i % 3] == Decoded(signed, t, 4 * g, i / 3, i % 3);
    }
  }

  lemma EncodedChars(src: seq<byte>)
    ensures CharsFit(true, Encoded(src)) && CharsFit(false, Encoded(src))
  {
  }

  /** base64_encode and then base64_decode, as in base64_test, for every non-empty input and every
      pair of buffers of sufficient size. */
  method RoundTrip(signed: bool, src: seq<byte>, text: array<char>, dest: array<byte>, size: nat) returns (r: int)
    requires src != [] && text.Length > 4 * Groups(|src|) && |src| <= size <= dest.Length
    modifies text, dest
    ensures r == |src| && dest[..r] == src
    ensures forall k :: size <= k < dest.Length ==> dest[k] == old(dest[k])
  {
    ghost var o, t, g := dest[..], Encoded(src), Groups(|src|);
    var n := Encode(text, text.Length, Some(src));
    EncodedChars(src);
    EncodedAccepted(signed, src, t, g);
    EncodedFaithful(signed, src, t, g);
    r := Decode(signed, dest, size, Some(text[..n]));
    RestoredBytes(signed, src, t, g, dest[..], o, size);
  }

  /** Surplus padding is tolerated, but the size is taken from the whole text: as many bytes as that
      come out of the groups if and only if there are fewer than six padding characters. */
  lemma SurplusPadding(t: string)
    requires Used(t) % 4 == 0
    ensures DecSize(t) <= 3 * (Used(t) / 4) <==> PadCount(t) < 6
    ensures PadCount(t) >= 2 ==> (DecSize(t) == 3 * (Used(t) / 4) - 2 <==> PadCount(t) < 6)
  {
    if PadCount(t) > 2 {
      var e := PadCount(t) - 2;
      assert |t| == Used(t) + e;
      assert |t| / 4 == Used(t) / 4 + e / 4;
    }
  }

  /** A text of one group with six padding characters: four bytes are claimed, three are written. */
  lemma SurplusPaddingClaimsTooMuch(signed: bool)
    ensures var t := "QQ======"; Accepts(signed, t) && DecSize(t) == 4 && 3 * GoodFrom(signed, t, Used(t), 0) == 3
  {
    var t := "QQ======";
    PadOfText(t, 2);
    assert Used(t) == 4;
    assert Good(signed, t, 4, 0);
    assert GoodFrom(signed, t, 4, 1) == 1;
  }
}
