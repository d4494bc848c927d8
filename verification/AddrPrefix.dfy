/** Address masking of src/util.c (util_addr_prefix) and its use by the expression operator `/`
    (exp_addr_prefix of src/exp.c), which masks the left operand in place. Words are kept as their
    bits, the most significant first.
 */
module AddrPrefix {
  type Octet = s: seq<bool> | |s| == 8 witness [false, false, false, false, false, false, false, false]
  type Word = s: seq<bool> | |s| == 32 witness seq(32, _ => false)

  /** The C operators & and ~ on words of one width. */
  function BitAnd(x: seq<bool>, y: seq<bool>): (z: seq<bool>)
    requires |x| == |y|
    ensures |z| == |x|
  {
    seq(|x|, i requires 0 <= i < |x| => x[i] && y[i])
  }

  function BitNot(x: seq<bool>): (z: seq<bool>)
    ensures |z| == |x|
  {
    seq(|x|, i requires 0 <= i < |x| => !x[i])
  }

  /** (1 << bits) - 1 in a word of the given width: the low bits are set. */
  function LowOnes(width: nat, bits: nat): (z: seq<bool>)
    ensures |z| == width
  {
    seq(width, i requires 0 <= i < width => width - 1 - i < bits)
  }

  /** The address with all but the first p bits cleared; p may be any integer. */
  function Masked(addr: seq<bool>, p: int): (m: seq<bool>)
    ensures |m| == |addr|
  {
    seq(|addr|, i requires 0 <= i < |addr| => addr[i] && i < p)
  }

  /** The bits of an address that is stored byte by byte. */
  function BitsOf(bytes: seq<Octet>): (bits: seq<bool>)
    ensures |bits| == 8 * |bytes|
  {
    seq(8 * |bytes|, i requires 0 <= i < 8 * |bytes| => bytes[i / 8][i % 8])
  }

  // ---------------------------------------------------------------- the code

  /** (1 << bits) - 1 on an int. C defines it below the sign bit; for 31 and 32 bits the platform
      yields what it yields. */
  function IntOnes(platform: nat -> Word, bits: nat): Word {
    if bits < 31 then LowOnes(32, bits) else platform(bits)
  }

  /** The number of bits to clear for a prefix, from 0 to 32. */
  function LowBits(prefix: int): nat {
    32 - Clamp(32, prefix)
  }

  /** The IPv4 case of util_addr_prefix. From prefix 2 on it is exact on every platform. */
  method MaskIPv4(platform: nat -> Word, addr: Word, prefix: int) returns (r: Word)
    ensures r == BitAnd(addr, BitNot(IntOnes(platform, LowBits(prefix))))
    ensures prefix >= 2 ==> r == Masked(addr, prefix)
  {
    var bits := 32 - prefix;
    if bits <= 0 {
      assert BitAnd(addr, BitNot(LowOnes(32, 0))) == addr == Masked(addr, prefix);
      return addr;
    }
    if bits > 32 {
      bits := 32;
    }
    var mask := BitNot(IntOnes(platform, bits));
    r := BitAnd(addr, mask);
  }

  /** Below prefix 2 the mask is right for every address if and only if the platform's shift past the
      sign bit leaves all the low bits set. */
  lemma ShortPrefixIsExactIff(platform: nat -> Word, prefix: int)
    ensures (forall addr: Word {:trigger Masked(addr, prefix)} ::
        BitAnd(addr, BitNot(IntOnes(platform, LowBits(prefix)))) == Masked(addr, prefix))
      <==> IntOnes(platform, LowBits(prefix)) == LowOnes(32, LowBits(prefix))
  {
    var ones: Word := seq(32, _ => true);
    var low := IntOnes(platform, LowBits(prefix));
    assert BitAnd(ones, BitNot(low)) == BitNot(low);
    assert BitNot(BitNot(low)) == low;
    assert BitNot(Masked(ones, prefix)) == LowOnes(32, LowBits(prefix));
    if low == LowOnes(32, LowBits(prefix)) {
      forall addr: Word ensures BitAnd(addr, BitNot(low)) == Masked(addr, prefix) {
        MaskOfOnes(addr, prefix);
      }
    }
  }

  lemma MaskOfOnes(addr: Word, prefix: int)
    ensures BitAnd(addr, BitNot(LowOnes(32, LowBits(prefix)))) == Masked(addr, prefix)
  {
  }

  /** A machine that takes shift counts modulo 32 computes 1 << 32 as 1: prefix 0 masks nothing. */
  lemma ModularShiftMasksNothing(addr: Word)
    ensures var platform := (bits: nat) => LowOnes(32, bits % 32);
      BitAnd(addr, BitNot(IntOnes(platform, LowBits(0)))) == addr
  {
  }

  /** The IPv6 case: the bytes are masked in place, from the last one backwards. */
  method MaskIPv6(bytes: array<Octet>, prefix: int)
    requires bytes.Length == 16
    modifies bytes
    ensures BitsOf(bytes[..]) == Masked(BitsOf(old(bytes[..])), prefix)
  {
    ghost var before := bytes[..];
    var bits := 128 - prefix;
    if bits <= 0 {
      assert BitsOf(before) == Masked(BitsOf(before), prefix);
      return;
    }
    if bits > 128 {
      bits := 128;
    }
    ghost var total := bits;
    var i := 15;
    while bits > 0
      invariant -1 <= i <= 15 && bits == total - 8 * (15 - i)
      invariant forall j :: 0 <= j < 16 ==>
        bytes[j] == if j > i then MaskOctet(before[j], total - 8 * (15 - j)) else before[j]
      decreases bits
    {
      bytes[i] := if bits > 8 then LowOnes(8, 0) else BitAnd(bytes[i], BitNot(LowOnes(8, bits)));
      assert bytes[i] == MaskOctet(before[i], bits);
      i := i - 1;
      bits := bits - 8;
    }
    AllOctetsMasked(before, bytes[..], total, prefix);
  }

  /** The byte with its low bits cleared; all of them from 8 on, none up to 0. */
  function MaskOctet(x: Octet, bits: int): Octet {
    seq(8, i requires 0 <= i < 8 => x[i] && 7 - i >= bits)
  }

  lemma AllOctetsMasked(before: seq<Octet>, after: seq<Octet>, total: int, prefix: int)
    requires |before| == |after| == 16 && 0 < total <= 128
    requires total == if 128 - prefix > 128 then 128 else 128 - prefix
    requires forall j :: 0 <= j < 16 ==>
      after[j] == MaskOctet(before[j], total - 8 * (15 - j)) || (total - 8 * (15 - j) <= 0 && after[j] == before[j])
    ensures BitsOf(after) == Masked(BitsOf(before), prefix)
  {
    forall n | 0 <= n < 128 ensures BitsOf(after)[n] == (BitsOf(before)[n] && n < prefix) {
      var j := n / 8;
      assert after[j] == MaskOctet(before[j], total - 8 * (15 - j))
        || (total - 8 * (15 - j) <= 0 && after[j] == before[j]);
    }
  }

  // ---------------------------------------------------------------- addresses as numbers

  /** The number that bits write, the most significant first. */
  function Number(x: seq<bool>): nat {
    if x == [] then 0 else 2 * Number(x[..|x| - 1]) + if x[|x| - 1] then 1 else 0
  }

  function Pow2(k: nat): (r: nat)
    ensures r > 0
  {
    if k == 0 then 1 else 2 * Pow2(k - 1)
  }

  lemma Halved(v: nat, q: nat, b: nat)
    requires q > 0 && b <= 1
    ensures (2 * v + b) / (2 * q) == v / q
  {
    var k, m := v / q, v % q;
    assert v == k * q + m;
    var x := 2 * v + b;
    assert x == k * (2 * q) + (2 * m + b);
    Quotient(k, 2 * m + b, 2 * q);
  }

  lemma Quotient(k: int, m: int, d: int)
    requires 0 <= m < d
    ensures (k * d + m) / d == k
  {
    var x := k * d + m;
    var e := x / d - k;
    assert x == x / d * d + x % d;
    assert e * d == m - x % d;
    Multiple(e, d);
  }

  lemma Multiple(e: int, d: int)
    requires d >= 0
    ensures e >= 1 ==> e * d >= d
    ensures e <= -1 ==> e * d <= -d
  {
  }

  /** Masking clears the low bits of the number: it rounds down to a multiple of two to the number of bits
      behind the prefix. */
  lemma {:induction false} MaskedNumber(addr: seq<bool>, p: nat)
    requires p <= |addr|
    ensures var q := Pow2(|addr| - p); Number(Masked(addr, p)) == Number(addr) / q * q
    decreases |addr|
  {
    var n := |addr| - 1;
    if p == |addr| {
      assert Masked(addr, p) == addr;
    } else {
      var front, q := addr[..n], Pow2(n - p);
      MaskedNumber(front, p);
      assert Masked(addr, p)[..n] == Masked(front, p);
      Halved(Number(front), q, if addr[n] then 1 else 0);
      Doubled(Number(front) / q, q);
    }
  }

  lemma Doubled(k: nat, q: nat)
    ensures k * (2 * q) == 2 * (k * q)
  {
  }

  /** The bytes of an address are big-endian. */
  lemma BytesAreBigEndian(bytes: seq<Octet>, last: Octet)
    ensures Number(BitsOf(bytes + [last])) == 256 * Number(BitsOf(bytes)) + Number(last)
  {
    var x := BitsOf(bytes);
    assert BitsOf(bytes + [last]) == x + last;
    NumberConcat(x, last);
    assert Pow2(8) == 256;
  }

  lemma {:induction false} NumberConcat(x: seq<bool>, y: seq<bool>)
    ensures Number(x + y) == Number(x) * Pow2(|y|) + Number(y)
    decreases |y|
  {
    if y == [] {
      assert x + y == x;
    } else {
      var n := |y| - 1;
      NumberConcat(x, y[..n]);
      assert (x + y)[..|x| + n] == x + y[..n];
      Doubled(Number(x), Pow2(n));
    }
  }

  // ---------------------------------------------------------------- masking repeatedly

  function Min(a: int, b: int): int {
    if a < b then a else b
  }

  /** Two masks compose to the shorter prefix; with p == q this is idempotence. */
  lemma MasksCompose(addr: seq<bool>, p: int, q: int)
    ensures Masked(Masked(addr, p), q) == Masked(addr, Min(p, q))
  {
  }

  /** The value that the operator `/` leaves in a constant operand after evaluations with the given
      prefixes: exp_addr_prefix masks the constant itself. */
  function AfterEvaluations(addr: seq<bool>, prefixes: seq<int>): (r: seq<bool>)
    ensures |r| == |addr|
  {
    if prefixes == [] then addr
    else Masked(AfterEvaluations(addr, prefixes[..|prefixes| - 1]), prefixes[|prefixes| - 1])
  }

  function Shortest(prefixes: seq<int>): (m: int)
    requires prefixes != []
    ensures m in prefixes && forall i :: 0 <= i < |prefixes| ==> m <= prefixes[i]
  {
    if |prefixes| == 1 then prefixes[0]
    else
      var m := Shortest(prefixes[..|prefixes| - 1]);
      assert m in prefixes[..|prefixes| - 1];
      Min(m, prefixes[|prefixes| - 1])
  }

  lemma {:induction false} EvaluationsMaskToShortest(addr: seq<bool>, prefixes: seq<int>)
    requires prefixes != []
    ensures AfterEvaluations(addr, prefixes) == Masked(addr, Shortest(prefixes))
  {
    var n := |prefixes| - 1;
    if n == 0 {
      assert prefixes[..0] == [];
    } else {
      EvaluationsMaskToShortest(addr, prefixes[..n]);
      MasksCompose(addr, Shortest(prefixes[..n]), prefixes[n]);
    }
  }

  function Clamp(width: nat, p: int): int {
    if p < 0 then 0 else if p > width then width else p
  }

  /** For every address, the constant holds the value of the expression at its last evaluation. */
  ghost predicate Stable(width: nat, prefixes: seq<int>)
    requires prefixes != []
  {
    forall addr: seq<bool> {:trigger AfterEvaluations(addr, prefixes)} :: |addr| == width ==>
      AfterEvaluations(addr, prefixes) == Masked(addr, prefixes[|prefixes| - 1])
  }

  /** No evaluation had a shorter prefix than the last one. */
  predicate LastIsShortest(width: nat, prefixes: seq<int>)
    requires prefixes != []
  {
    forall i :: 0 <= i < |prefixes| ==> Clamp(width, prefixes[|prefixes| - 1]) <= Clamp(width, prefixes[i])
  }

  /** Masking a constant in place is harmless if and only if no earlier evaluation had a shorter
      prefix; a constant prefix therefore gives the same value at every evaluation. */
  lemma InPlaceMaskingIsStable(width: nat, prefixes: seq<int>)
    requires prefixes != []
    ensures Stable(width, prefixes) <==> LastIsShortest(width, prefixes)
  {
    if LastIsShortest(width, prefixes) {
      ShortestLastIsStable(width, prefixes);
    }
    if Stable(width, prefixes) {
      StableNeedsShortestLast(width, prefixes);
    }
  }

  lemma ShortestLastIsStable(width: nat, prefixes: seq<int>)
    requires prefixes != [] && LastIsShortest(width, prefixes)
    ensures Stable(width, prefixes)
  {
    forall addr: seq<bool> | |addr| == width
      ensures AfterEvaluations(addr, prefixes) == Masked(addr, prefixes[|prefixes| - 1])
    {
      EvaluationsMaskToShortest(addr, prefixes);
      SameClampSameMask(addr, prefixes[|prefixes| - 1], Shortest(prefixes));
    }
  }

  lemma StableNeedsShortestLast(width: nat, prefixes: seq<int>)
    requires prefixes != [] && Stable(width, prefixes)
    ensures LastIsShortest(width, prefixes)
  {
    var ones := seq(width, _ => true);
    EvaluationsMaskToShortest(ones, prefixes);
    OnesTellClamp(width, ones, Shortest(prefixes), prefixes[|prefixes| - 1]);
  }

  lemma SameClampSameMask(addr: seq<bool>, p: int, q: int)
    requires Clamp(|addr|, p) == Clamp(|addr|, q)
    ensures Masked(addr, p) == Masked(addr, q)
  {
  }

  lemma OnesTellClamp(width: nat, ones: seq<bool>, p: int, q: int)
    requires |ones| == width && forall i :: 0 <= i < width ==> ones[i]
    requires p <= q && Masked(ones, p) == Masked(ones, q)
    ensures Clamp(width, p) == Clamp(width, q)
  {
    var n := Clamp(width, p);
    assert n < width ==> Masked(ones, p)[n] == Masked(ones, q)[n];
  }
}
