/** The record codec of src/vp.c with the scalar cases of src/var.c. A record is packed into a key
    buffer and a data buffer; the data buffer starts with a 64-bit word in which bit n says that
    field n is null. Sizes are those of an LP64 platform. Numbers and addresses are kept as the
    bytes that stand in memory, since the codec only copies them.
 */
module VarPack {
  import opened Common

  type Word8 = s: seq<byte> | |s| == 8 witness [0, 0, 0, 0, 0, 0, 0, 0]
  type CString = s: seq<byte> | 0 !in s
  type SockAddr = s: seq<byte> | |s| == 128 witness seq(128, _ => 0)
  type Bits64 = s: seq<bool> | |s| == 64 witness seq(64, _ => false)

  /** A blob in memory starts with its own size, header included (src/blob.c). */
  type BlobImage = s: seq<byte> | IsBlob(s) witness [8, 0, 0, 0, 0, 0, 0, 0]

  predicate IsBlob(s: seq<byte>) {
    |s| >= 8 && LongOf(s[..8]) == |s|
  }

  /** The long that stands in memory as these eight bytes, on a little-endian machine. */
  function LongOf(s: Word8): int {
    (s[0] as int) + 0x100 * (s[1] as int) + 0x1_0000 * (s[2] as int) + 0x100_0000 * (s[3] as int)
    + 0x1_0000_0000 * (s[4] as int) + 0x100_0000_0000 * (s[5] as int) + 0x1_0000_0000_0000 * (s[6] as int)
    + 0x100_0000_0000_0000 * (if s[7] < 128 then (s[7] as int) else (s[7] as int) - 256)
  }

  /** The number that little-endian bytes write. */
  function Unsigned(s: seq<byte>): nat {
    if s == [] then 0 else (s[0] as int) + 0x100 * Unsigned(s[1..])
  }

  /** A long is the two's complement of its bytes. */
  lemma LongIsTwosComplement(s: Word8)
    ensures var u := Unsigned(s);
      LongOf(s) == if u < 0x8000_0000_0000_0000 then u else u - 0x1_0000_0000_0000_0000
  {
    var t6 := [s[6]] + [s[7]];
    var t5 := [s[5]] + t6;
    var t4 := [s[4]] + t5;
    var t3 := [s[3]] + t4;
    var t2 := [s[2]] + t3;
    var t1 := [s[1]] + t2;
    assert s == [s[0]] + t1;
    UnsignedCons(s[0], t1);
    UnsignedCons(s[1], t2);
    UnsignedCons(s[2], t3);
    UnsignedCons(s[3], t4);
    UnsignedCons(s[4], t5);
    UnsignedCons(s[5], t6);
    UnsignedCons(s[6], [s[7]]);
    UnsignedCons(s[7], []);
    assert [s[7]] + [] == [s[7]];
  }

  lemma UnsignedCons(b: byte, rest: seq<byte>)
    ensures Unsigned([b] + rest) == (b as int) + 0x100 * Unsigned(rest)
  {
    assert ([b] + rest)[1..] == rest;
  }

  datatype VarType = TInt | TFloat | TString | TAddr | TBlob

  /** What v_data points to. */
  datatype Value =
    | VInt(image: Word8)
    | VFloat(bits: Word8)
    | VString(s: CString)
    | VAddr(a: SockAddr)
    | VBlob(blob: BlobImage)

  datatype Field = Field(name: string, ty: VarType, key: bool)
  type Scheme = seq<Field>

  /** One var_t of a record list; data is None for a null v_data. */
  datatype Item = Item(field: Field, data: Option<Value>)
  type Record = seq<Item>

  /** A vp_t: the key buffer, the null word at vp_null_fields and the bytes at vp_fields. */
  datatype Packed = Packed(key: seq<byte>, nulls: Bits64, values: seq<byte>)

  const FIELD_LIMIT := 64

  function TypeOf(v: Value): VarType {
    match v
    case VInt(_) => TInt
    case VFloat(_) => TFloat
    case VString(_) => TString
    case VAddr(_) => TAddr
    case VBlob(_) => TBlob
  }

  function SchemeOf(r: Record): Scheme {
    seq(|r|, i requires 0 <= i < |r| => r[i].field)
  }

  ghost predicate TypedItem(x: Item) {
    x.data.Some? ==> TypeOf(x.data.value) == x.field.ty
  }

  ghost predicate Typed(r: Record) {
    forall i :: 0 <= i < |r| ==> TypedItem(r[i])
  }

  /** No key is null; vp_pack refuses other records. */
  predicate KeysSet(r: Record) {
    forall i :: 0 <= i < |r| && r[i].field.key ==> r[i].data.Some?
  }

  predicate Packable(r: Record) {
    |r| <= FIELD_LIMIT && KeysSet(r)
  }

  // ---------------------------------------------------------------- values in memory

  /** The bytes that vp_pack_data copies: var_data_size of them, from v_data. */
  function Encode(v: Value): seq<byte> {
    match v
    case VInt(image) => image
    case VFloat(bits) => bits
    case VString(s) => s + [0]
    case VAddr(a) => a
    case VBlob(blob) => blob
  }

  /** The index of the terminating NUL, if there is one. */
  function StrLen(mem: seq<byte>): (n: Option<nat>)
    ensures n.Some? ==> n.value < |mem| && 0 !in mem[..n.value]
  {
    if mem == [] then None
    else if mem[0] == 0 then Some(0)
    else
      var rest := StrLen(mem[1..]);
      if rest.None? then None
      else
        assert mem[..rest.value + 1] == [mem[0]] + mem[1..][..rest.value];
        Some(rest.value + 1)
  }

  /** var_create with VF_COPY on a pointer into a buffer: the value and its size. None stands
      for a read past the end of the buffer. */
  function Decode(t: VarType, mem: seq<byte>): (r: Option<(Value, nat)>)
    ensures r.Some? ==> TypeOf(r.value.0) == t && r.value.1 <= |mem|
  {
    match t
    case TInt => if |mem| < 8 then None else Some((VInt(mem[..8]), 8))
    case TFloat => if |mem| < 8 then None else Some((VFloat(mem[..8]), 8))
    case TString =>
      var n := StrLen(mem);
      if n.None? then None else Some((VString(mem[..n.value]), n.value + 1))
    case TAddr => if |mem| < 128 then None else Some((VAddr(mem[..128]), 128))
    case TBlob =>
      if |mem| < 8 then None
      else
        var n := LongOf(mem[..8]);
        if n < 8 || n > |mem| then None
        else
          assert mem[..n][..8] == mem[..8];
          Some((VBlob(mem[..n]), n))
  }

  lemma {:induction false} StrLenOf(s: CString, rest: seq<byte>)
    ensures StrLen(s + [0] + rest) == Some(|s|)
  {
    var mem := s + [0] + rest;
    if s != [] {
      StrLenOf(s[1..], rest);
      assert mem[0] == s[0] && mem[1..] == s[1..] + [0] + rest;
    }
  }

  /** Whatever follows it in memory, an encoded value is read back, and so is its size. */
  lemma DecodeEncode(v: Value, rest: seq<byte>)
    ensures Decode(TypeOf(v), Encode(v) + rest) == Some((v, |Encode(v)|))
  {
    var mem := Encode(v) + rest;
    match v
    case VInt(image) =>
      assert mem[..8] == image;
    case VFloat(bits) =>
      assert mem[..8] == bits;
    case VString(s) =>
      StrLenOf(s, rest);
      assert mem[..|s|] == s;
    case VAddr(a) =>
      assert mem[..128] == a;
    case VBlob(blob) =>
      assert mem[..8] == blob[..8] && mem[..|blob|] == blob;
  }

  // ---------------------------------------------------------------- layout

  /** The parts of the elements lo <= i < hi, one after the other. */
  function Collect<X, B>(part: X -> seq<B>, r: seq<X>, lo: nat, hi: nat): seq<B>
    requires lo <= hi <= |r|
  {
    if lo == hi then [] else Collect(part, r, lo, hi - 1) + part(r[hi - 1])
  }

  lemma {:induction false} CollectSplit<X, B>(part: X -> seq<B>, r: seq<X>, lo: nat, mid: nat, hi: nat)
    requires lo <= mid <= hi <= |r|
    ensures Collect(part, r, lo, hi) == Collect(part, r, lo, mid) + Collect(part, r, mid, hi)
  {
    if mid < hi {
      CollectSplit(part, r, lo, mid, hi - 1);
      var a, b, c := Collect(part, r, lo, mid), Collect(part, r, mid, hi - 1), part(r[hi - 1]);
      assert (a + b) + c == a + (b + c);
    }
  }

  lemma CollectFront<X, B>(part: X -> seq<B>, r: seq<X>, lo: nat, hi: nat)
    requires lo < hi <= |r|
    ensures Collect(part, r, lo, hi) == part(r[lo]) + Collect(part, r, lo + 1, hi)
  {
    CollectSplit(part, r, lo, lo + 1, hi);
    assert Collect(part, r, lo, lo + 1) == [] + part(r[lo]) == part(r[lo]);
  }

  function KeyPart(x: Item): seq<byte> {
    if x.field.key && x.data.Some? then Encode(x.data.value) else []
  }

  function ValuePart(x: Item): seq<byte> {
    if !x.field.key && x.data.Some? then Encode(x.data.value) else []
  }

  function KeyValue(x: Item): seq<Value> {
    if x.field.key && x.data.Some? then [x.data.value] else []
  }

  /** The key buffer of a record: the encoded keys in field order. */
  function KeyBytes(r: Record): seq<byte> {
    Collect(KeyPart, r, 0, |r|)
  }

  /** The values of the key fields, in field order. */
  function KeyTuple(r: Record): seq<Value> {
    Collect(KeyValue, r, 0, |r|)
  }

  // ---------------------------------------------------------------- packing

  /** One turn of the loop of vp_pack; a null field sets its bit (vp_set_null). */
  function PackItem(p: Packed, x: Item, n: nat): Packed
    requires n < FIELD_LIMIT
  {
    if x.data.None? then p.(nulls := p.nulls[n := true])
    else if x.field.key then p.(key := p.key + Encode(x.data.value))
    else p.(values := p.values + Encode(x.data.value))
  }

  function EmptyPack(): Packed {
    Packed([], seq(64, _ => false), [])
  }

  /** The buffers after the first n fields. */
  function PackedPrefix(r: Record, n: nat): Packed
    requires n <= |r| <= FIELD_LIMIT
  {
    if n == 0 then EmptyPack() else PackItem(PackedPrefix(r, n - 1), r[n - 1], n - 1)
  }

  /** The buffers of a whole record. */
  function PackOf(r: Record): Packed
    requires Packable(r)
  {
    PackedPrefix(r, |r|)
  }

  /** vp_pack */
  method Pack(r: Record) returns (p: Option<Packed>)
    ensures p.Some? <==> Packable(r)
    ensures p.Some? <==> |r| <= 64 && forall i :: 0 <= i < |r| ==> !(r[i].field.key && r[i].data.None?)
    ensures p.Some? ==> p.value == PackOf(r)
  {
    if |r| > FIELD_LIMIT {
      return None;
    }
    var vp := EmptyPack();
    for n := 0 to |r|
      invariant forall i :: 0 <= i < n && r[i].field.key ==> r[i].data.Some?
      invariant vp == PackedPrefix(r, n)
    {
      if r[n].field.key && r[n].data.None? {
        return None;
      }
      vp := PackItem(vp, r[n], n);
    }
    return Some(vp);
  }

  /** Filling the buffers step by step gives the keys and the non-null values in field order, and
      marks exactly the null fields. */
  lemma {:induction false} PackedLayout(r: Record, n: nat)
    requires n <= |r| && Packable(r)
    ensures PackedPrefix(r, n).key == Collect(KeyPart, r, 0, n)
    ensures PackedPrefix(r, n).values == Collect(ValuePart, r, 0, n)
    ensures forall i :: 0 <= i < FIELD_LIMIT ==> (PackedPrefix(r, n).nulls[i] <==> i < n && r[i].data.None?)
  {
    if n > 0 {
      PackedLayout(r, n - 1);
      var p, x := PackedPrefix(r, n - 1), r[n - 1];
      assert p.key + [] == p.key && p.values + [] == p.values;
    }
  }

  // ---------------------------------------------------------------- unpacking

  /** The state of the loop of vp_unpack: the items read and the offsets into the two buffers. */
  datatype Progress = Progress(record: Record, keyOffset: nat, fieldOffset: nat)

  predicate InBounds(p: Packed, g: Progress) {
    g.keyOffset <= |p.key| && g.fieldOffset <= |p.values|
  }

  /** One turn of the loop. */
  function UnpackField(p: Packed, f: Field, isNull: bool, g: Progress): (g': Option<Progress>)
    requires InBounds(p, g)
    ensures g'.Some? ==> InBounds(p, g'.value)
  {
    if isNull then (if f.key then None else Some(g.(record := g.record + [Item(f, None)])))
    else
      var v := Decode(f.ty, if f.key then p.key[g.keyOffset..] else p.values[g.fieldOffset..]);
      if v.None? then None
      else
        var record := g.record + [Item(f, Some(v.value.0))];
        if f.key then Some(Progress(record, g.keyOffset + v.value.1, g.fieldOffset))
        else Some(Progress(record, g.keyOffset, g.fieldOffset + v.value.1))
  }

  /** The state after the first n fields, or None after a failure. A field number past the null
      word cannot occur in a packed record. */
  function UnpackPrefix(p: Packed, s: Scheme, n: nat): (g: Option<Progress>)
    requires n <= |s|
    ensures g.Some? ==> InBounds(p, g.value)
  {
    if n == 0 then Some(Progress([], 0, 0))
    else
      var g := UnpackPrefix(p, s, n - 1);
      if g.None? || n > FIELD_LIMIT then None else UnpackField(p, s[n - 1], p.nulls[n - 1], g.value)
  }

  function UnpackOf(p: Packed, s: Scheme): Option<Record> {
    var g := UnpackPrefix(p, s, |s|);
    if g.None? then None else Some(g.value.record)
  }

  lemma {:induction false} UnpackStuck(p: Packed, s: Scheme, n: nat, m: nat)
    requires n <= m <= |s| && UnpackPrefix(p, s, n).None?
    ensures UnpackPrefix(p, s, m).None?
  {
    if n < m {
      UnpackStuck(p, s, n, m - 1);
    }
  }

  /** vp_unpack */
  method Unpack(p: Packed, s: Scheme) returns (r: Option<Record>)
    ensures r == UnpackOf(p, s)
  {
    var g := Progress([], 0, 0);
    for n := 0 to |s|
      invariant UnpackPrefix(p, s, n) == Some(g)
    {
      var g' := if n < FIELD_LIMIT then UnpackField(p, s[n], p.nulls[n], g) else None;
      if g'.None? {
        UnpackStuck(p, s, n + 1, |s|);
        return None;
      }
      g := g'.value;
    }
    return Some(g.record);
  }

  /** A record whose null word marks a key field is refused. */
  lemma NullKeyRefused(p: Packed, s: Scheme, n: nat)
    requires n < |s| && n < FIELD_LIMIT && s[n].key && p.nulls[n]
    ensures UnpackOf(p, s) == None
  {
    UnpackStuck(p, s, n + 1, |s|);
  }

  /** A packed item is read back, and the offsets then stand behind it. */
  lemma UnpackFieldOfPacked(p: Packed, x: Item, isNull: bool, g: Progress, g': Progress, key: seq<byte>,
                            values: seq<byte>)
    requires InBounds(p, g) && TypedItem(x) && (x.field.key ==> x.data.Some?) && isNull == x.data.None?
    requires p.key[g.keyOffset..] == KeyPart(x) + key
    requires p.values[g.fieldOffset..] == ValuePart(x) + values
    requires g' == Progress(g.record + [x], g.keyOffset + |KeyPart(x)|, g.fieldOffset + |ValuePart(x)|)
    ensures UnpackField(p, x.field, isNull, g) == Some(g')
  {
    if x.data.Some? {
      DecodeEncode(x.data.value, if x.field.key then key else values);
    }
  }

  /** Where field m is found in the collected parts. */
  lemma CollectAt<X, B>(part: X -> seq<B>, r: seq<X>, m: nat)
    requires m < |r|
    ensures |Collect(part, r, 0, m)| <= |Collect(part, r, 0, |r|)|
    ensures Collect(part, r, 0, |r|)[|Collect(part, r, 0, m)|..] == part(r[m]) + Collect(part, r, m + 1, |r|)
  {
    CollectSplit(part, r, 0, m, |r|);
    CollectFront(part, r, m, |r|);
  }

  /** The loop state that reading back the first n fields leads to. */
  function ReadBack(r: Record, n: nat): Progress
    requires n <= |r|
  {
    Progress(r[..n], |Collect(KeyPart, r, 0, n)|, |Collect(ValuePart, r, 0, n)|)
  }

  /** Field m of p is read back as item m of r. */
  ghost predicate ReadsBack(p: Packed, r: Record, m: nat)
    requires m < |r| <= FIELD_LIMIT
  {
    InBounds(p, ReadBack(r, m)) &&
    UnpackField(p, r[m].field, p.nulls[m], ReadBack(r, m)) == Some(ReadBack(r, m + 1))
  }

  lemma ReadBackStep(p: Packed, r: Record, m: nat)
    requires m < |r| && Typed(r) && Packable(r) && p.nulls[m] == r[m].data.None?
    requires p.key == Collect(KeyPart, r, 0, |r|) && p.values == Collect(ValuePart, r, 0, |r|)
    ensures ReadsBack(p, r, m)
  {
    CollectAt(KeyPart, r, m);
    CollectAt(ValuePart, r, m);
    ReadBackNext(r, m);
    UnpackFieldOfPacked(p, r[m], p.nulls[m], ReadBack(r, m), ReadBack(r, m + 1),
                        Collect(KeyPart, r, m + 1, |r|), Collect(ValuePart, r, m + 1, |r|));
  }

  lemma ReadBackNext(r: Record, m: nat)
    requires m < |r|
    ensures ReadBack(r, m + 1) == Progress(r[..m] + [r[m]], |Collect(KeyPart, r, 0, m)| + |KeyPart(r[m])|,
                                           |Collect(ValuePart, r, 0, m)| + |ValuePart(r[m])|)
  {
    assert r[..m + 1] == r[..m] + [r[m]];
  }

  lemma {:induction false} UnpackPrefixReadsBack(p: Packed, r: Record, s: Scheme, n: nat)
    requires n <= |r| == |s| <= FIELD_LIMIT
    requires forall m :: 0 <= m < |r| ==> s[m] == r[m].field
    requires forall m {:trigger ReadsBack(p, r, m)} :: 0 <= m < |r| ==> ReadsBack(p, r, m)
    ensures UnpackPrefix(p, s, n) == Some(ReadBack(r, n))
  {
    if n > 0 {
      UnpackPrefixReadsBack(p, r, s, n - 1);
      assert ReadsBack(p, r, n - 1);
    }
  }

  /** vp_unpack after vp_pack gives the record back: values, nulls and key flags. */
  lemma RoundTrip(r: Record)
    requires Typed(r) && Packable(r)
    ensures UnpackOf(PackOf(r), SchemeOf(r)) == Some(r)
  {
    var p, s := PackOf(r), SchemeOf(r);
    PackedLayout(r, |r|);
    forall m | 0 <= m < |r| ensures ReadsBack(p, r, m) {
      ReadBackStep(p, r, m);
    }
    UnpackPrefixReadsBack(p, r, s, |r|);
    assert r[..|r|] == r;
  }

  // ---------------------------------------------------------------- keys

  /** Two encoded values of one type that start the same memory are the same value. */
  lemma EncodePrefixFree(v1: Value, v2: Value, rest1: seq<byte>, rest2: seq<byte>)
    requires TypeOf(v1) == TypeOf(v2) && Encode(v1) + rest1 == Encode(v2) + rest2
    ensures v1 == v2 && rest1 == rest2
  {
    DecodeEncode(v1, rest1);
    DecodeEncode(v2, rest2);
    assert rest1 == (Encode(v1) + rest1)[|Encode(v1)|..];
    assert rest2 == (Encode(v2) + rest2)[|Encode(v2)|..];
  }

  /** Records of one scheme, field by field. */
  ghost predicate SameScheme(r1: Record, r2: Record) {
    |r1| == |r2| && forall i :: 0 <= i < |r1| ==> r1[i].field == r2[i].field
  }

  lemma KeyPartPrefixFree(x1: Item, x2: Item, rest1: seq<byte>, rest2: seq<byte>)
    requires x1.field == x2.field && TypedItem(x1) && TypedItem(x2)
    requires x1.field.key ==> x1.data.Some? && x2.data.Some?
    requires KeyPart(x1) + rest1 == KeyPart(x2) + rest2
    ensures KeyValue(x1) == KeyValue(x2) && rest1 == rest2
  {
    if x1.field.key {
      EncodePrefixFree(x1.data.value, x2.data.value, rest1, rest2);
    } else {
      assert [] + rest1 == rest1 && [] + rest2 == rest2;
    }
  }

  lemma SplitKey(r: Record, n: nat, tail: seq<byte>)
    requires n < |r|
    ensures Collect(KeyPart, r, n, |r|) + tail == KeyPart(r[n]) + (Collect(KeyPart, r, n + 1, |r|) + tail)
  {
    CollectFront(KeyPart, r, n, |r|);
    assert (KeyPart(r[n]) + Collect(KeyPart, r, n + 1, |r|)) + tail
        == KeyPart(r[n]) + (Collect(KeyPart, r, n + 1, |r|) + tail);
  }

  lemma {:induction false} KeysPrefixFreeFrom(r1: Record, r2: Record, n: nat, tail1: seq<byte>, tail2: seq<byte>)
    requires Typed(r1) && Typed(r2) && KeysSet(r1) && KeysSet(r2) && SameScheme(r1, r2) && n <= |r1|
    requires Collect(KeyPart, r1, n, |r1|) + tail1 == Collect(KeyPart, r2, n, |r2|) + tail2
    ensures Collect(KeyValue, r1, n, |r1|) == Collect(KeyValue, r2, n, |r2|)
    decreases |r1| - n
  {
    if n < |r1| {
      SplitKey(r1, n, tail1);
      SplitKey(r2, n, tail2);
      KeyPartPrefixFree(r1[n], r2[n], Collect(KeyPart, r1, n + 1, |r1|) + tail1,
                        Collect(KeyPart, r2, n + 1, |r2|) + tail2);
      KeysPrefixFreeFrom(r1, r2, n + 1, tail1, tail2);
      CollectFront(KeyValue, r1, n, |r1|);
      CollectFront(KeyValue, r2, n, |r2|);
    }
  }

  /** The packed keys of one scheme form a prefix-free code: two key buffers that start the same
      memory have the same key tuple, whatever follows each of them. */
  lemma KeysPrefixFree(r1: Record, r2: Record, tail1: seq<byte>, tail2: seq<byte>)
    requires Typed(r1) && Typed(r2) && KeysSet(r1) && KeysSet(r2) && SameScheme(r1, r2)
    requires KeyBytes(r1) + tail1 == KeyBytes(r2) + tail2
    ensures KeyTuple(r1) == KeyTuple(r2)
  {
    KeysPrefixFreeFrom(r1, r2, 0, tail1, tail2);
  }

  /** Equal key tuples give equal key buffers. */
  lemma KeyBytesOfTuple(r1: Record, r2: Record)
    requires KeysSet(r1) && KeysSet(r2) && SameScheme(r1, r2) && KeyTuple(r1) == KeyTuple(r2)
    ensures KeyBytes(r1) == KeyBytes(r2)
  {
    KeyBytesOfTupleFrom(r1, r2, |r1|);
  }

  lemma {:induction false} KeyBytesOfTupleFrom(r1: Record, r2: Record, n: nat)
    requires KeysSet(r1) && KeysSet(r2) && SameScheme(r1, r2) && n <= |r1|
    requires Collect(KeyValue, r1, 0, n) == Collect(KeyValue, r2, 0, n)
    ensures Collect(KeyPart, r1, 0, n) == Collect(KeyPart, r2, 0, n)
  {
    if n > 0 {
      var x1, x2 := r1[n - 1], r2[n - 1];
      SameEnd(Collect(KeyValue, r1, 0, n - 1), KeyValue(x1), Collect(KeyValue, r2, 0, n - 1), KeyValue(x2));
      assert x1.field.key ==> x1.data.value == KeyValue(x1)[0] == KeyValue(x2)[0] == x2.data.value;
      KeyBytesOfTupleFrom(r1, r2, n - 1);
    }
  }

  lemma SameEnd<B>(a1: seq<B>, b1: seq<B>, a2: seq<B>, b2: seq<B>)
    requires a1 + b1 == a2 + b2 && |b1| == |b2|
    ensures a1 == a2 && b1 == b2
  {
    assert a1 == (a1 + b1)[..|a1|] && b1 == (a1 + b1)[|a1|..];
    assert a2 == (a2 + b2)[..|a2|] && b2 == (a2 + b2)[|a2|..];
  }
}
