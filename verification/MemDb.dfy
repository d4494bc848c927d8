/** The memdb driver of src/modules/memdb.c: packed records in a hash table, and the janitor's
    walk over them (src/dbt.c). Seen from outside it is a finite map from key tuples to records.
 */
module MemDb {
  import opened Common
  import opened HashTables
  import opened VarPack

  // ---------------------------------------------------------------- matching

  /** The byte at offset i from the start of a key; reads behind the key give whatever the heap
      holds there. */
  function KeyByte(behind: (Packed, nat) -> byte, p: Packed, i: nat): byte {
    if i < |p.key| then p.key[i] else behind(p, i)
  }

  /** memdb_record_match: memcmp over the length of the first key only. */
  predicate RecordMatch(behind: (Packed, nat) -> byte, p1: Packed, p2: Packed) {
    forall i :: 0 <= i < |p1.key| ==> p1.key[i] == KeyByte(behind, p2, i)
  }

  ghost predicate Fits(s: Scheme, r: Record) {
    Typed(r) && Packable(r) && SchemeOf(r) == s
  }

  ghost predicate IsPacked(s: Scheme, p: Packed) {
    exists r :: Fits(s, r) && PackOf(r) == p
  }

  lemma FitsSame(s: Scheme, r1: Record, r2: Record)
    requires SchemeOf(r1) == s && SchemeOf(r2) == s
    ensures SameScheme(r1, r2)
  {
    assert |r1| == |s| == |r2|;
    forall i | 0 <= i < |r1| ensures r1[i].field == r2[i].field {
      assert r1[i].field == s[i] == r2[i].field;
    }
  }

  /** For packed records of one scheme, comparing only the first key's length decides equality
      of the key tuples, whatever lies behind the second key. */
  lemma MatchIsTupleEquality(behind: (Packed, nat) -> byte, s: Scheme, r1: Record, r2: Record)
    requires Fits(s, r1) && Fits(s, r2)
    ensures RecordMatch(behind, PackOf(r1), PackOf(r2)) <==> KeyTuple(r1) == KeyTuple(r2)
    ensures KeyTuple(r1) == KeyTuple(r2) <==> KeyBytes(r1) == KeyBytes(r2)
  {
    FitsSame(s, r1, r2);
    PackedLayout(r1, |r1|);
    PackedLayout(r2, |r2|);
    var k1, k2 := KeyBytes(r1), KeyBytes(r2);
    if KeyTuple(r1) == KeyTuple(r2) {
      KeyBytesOfTuple(r1, r2);
    }
    if k1 == k2 {
      KeysPrefixFree(r1, r2, [], []);
    }
    if RecordMatch(behind, PackOf(r1), PackOf(r2)) {
      if |k1| <= |k2| {
        assert k2 == k1 + k2[|k1|..];
        assert k2 + [] == k2;
        KeysPrefixFree(r1, r2, k2[|k1|..], []);
      } else {
        assert k1 == k2 + k1[|k2|..];
        assert k1 + [] == k1;
        KeysPrefixFree(r1, r2, [], k1[|k2|..]);
      }
    }
  }

  // ---------------------------------------------------------------- the abstraction

  type Store = map<seq<Value>, Record>

  /** The record that a packed one stands for. */
  ghost function RecordOf(s: Scheme, p: Packed): Record {
    var r := UnpackOf(p, s);
    if r.None? then [] else r.value
  }

  ghost function TupleOf(s: Scheme, p: Packed): seq<Value> {
    KeyTuple(RecordOf(s, p))
  }

  ghost function Contents(s: Scheme, m: map<seq<Value>, Packed>): Store {
    map k | k in m :: RecordOf(s, m[k])
  }

  lemma PackedFacts(s: Scheme, r: Record)
    requires Fits(s, r)
    ensures IsPacked(s, PackOf(r)) && RecordOf(s, PackOf(r)) == r && TupleOf(s, PackOf(r)) == KeyTuple(r)
    ensures PackOf(r).key == KeyBytes(r)
  {
    RoundTrip(r);
    PackedLayout(r, |r|);
  }

  lemma MatchIsKeyEquality(behind: (Packed, nat) -> byte, s: Scheme, p1: Packed, p2: Packed)
    requires IsPacked(s, p1) && IsPacked(s, p2)
    ensures RecordMatch(behind, p1, p2) <==> TupleOf(s, p1) == TupleOf(s, p2)
    ensures TupleOf(s, p1) == TupleOf(s, p2) ==> p1.key == p2.key
  {
    var r1 :| Fits(s, r1) && PackOf(r1) == p1;
    var r2 :| Fits(s, r2) && PackOf(r2) == p2;
    PackedFacts(s, r1);
    PackedFacts(s, r2);
    MatchIsTupleEquality(behind, s, r1, r2);
  }

  lemma ContentsSet(s: Scheme, m: map<seq<Value>, Packed>, r: Record)
    requires Fits(s, r)
    ensures Contents(s, m[KeyTuple(r) := PackOf(r)]) == Contents(s, m)[KeyTuple(r) := r]
  {
    PackedFacts(s, r);
  }

  lemma ContentsDel(s: Scheme, m: map<seq<Value>, Packed>, k: seq<Value>)
    ensures Contents(s, m - {k}) == Contents(s, m) - {k}
  {
  }

  // ---------------------------------------------------------------- the driver

  class Database {
    const scheme: Scheme
    const ht: HashTable<Packed, seq<Value>>

    /** The callbacks of the table are those of this driver. The quantifier is instantiated only
        where a proof names HookedAt. */
    ghost predicate Hooked() {
      forall p: Packed {:trigger HookedAt(p)} :: HookedAt(p)
    }

    ghost predicate HookedAt(p: Packed) {
      ht.keyOf(p) == TupleOf(scheme, p) && (ht.dom(p) <==> IsPacked(scheme, p))
    }

    ghost predicate Valid()
      reads ht, ht.table
    {
      ht.Valid() && Hooked()
    }

    /** The finite map that the database stands for. */
    ghost function Store(): Store
      reads ht
    {
      Contents(scheme, ht.M)
    }

    /** memdb_open; the number of buckets and the hash function are arbitrary. */
    constructor (scheme: Scheme, buckets: nat, hash: seq<byte> -> nat, behind: (Packed, nat) -> byte)
      requires buckets > 0
      ensures Valid() && this.scheme == scheme && Store() == map[] && fresh(ht) && fresh(ht.table) && ht.HeadOccupied()
    {
      this.scheme := scheme;
      var h := (p: Packed) => hash(p.key);
      var matches := (p1, p2) => RecordMatch(behind, p1, p2);
      ghost var keyOf := (p: Packed) => TupleOf(scheme, p);
      ghost var dom := (p: Packed) => IsPacked(scheme, p);
      forall p1, p2 ensures CallbacksAgree(h, matches, keyOf, dom, p1, p2) {
        if dom(p1) && dom(p2) {
          MatchIsKeyEquality(behind, scheme, p1, p2);
        }
      }
      ht := new HashTable(buckets, h, matches, keyOf, dom);
    }

    lemma PackedInDom(r: Record)
      requires Hooked() && Fits(scheme, r)
      ensures ht.dom(PackOf(r)) && ht.keyOf(PackOf(r)) == KeyTuple(r)
    {
      assert HookedAt(PackOf(r));
      PackedFacts(scheme, r);
    }

    /** memdb_get */
    method Get(record: Record) returns (ok: bool, result: Option<Record>)
      requires Valid() && Typed(record) && SchemeOf(record) == scheme
      ensures ok <==> Packable(record)
      ensures ok ==> result == if KeyTuple(record) in Store() then Some(Store()[KeyTuple(record)]) else None
    {
      var key := Pack(record);
      if key.None? {
        return false, None;
      }
      PackedInDom(record);
      var data := ht.Lookup(key.value);
      if data.None? {
        return true, None;
      }
      StoredIsPacked(KeyTuple(record));
      result := Unpack(data.value, scheme);
      return true, result;
    }

    lemma StoredIsPacked(k: seq<Value>)
      requires Valid() && k in ht.M
      ensures Fits(scheme, Store()[k]) && PackOf(Store()[k]) == ht.M[k]
      ensures UnpackOf(ht.M[k], scheme) == Some(Store()[k]) && KeyTuple(Store()[k]) == k
    {
      assert ht.Keyed(ht.table[..], ht.M, k);
      assert HookedAt(ht.M[k]);
      var r :| Fits(scheme, r) && PackOf(r) == ht.M[k];
      RoundTrip(r);
    }

    /** memdb_set: remove what has the same key, then insert. A new record does not keep the janitor from
        walking the table. */
    method Set(record: Record) returns (ok: bool)
      requires Valid() && Typed(record) && SchemeOf(record) == scheme
      modifies ht, ht.table
      ensures Valid() && (ht.table == old(ht.table) || fresh(ht.table))
      ensures ok <==> Packable(record)
      ensures Store() == if ok then old(Store())[KeyTuple(record) := record] else old(Store())
      ensures old(ht.HeadOccupied()) && KeyTuple(record) !in old(Store()) ==> ht.HeadOccupied()
    {
      var vp := Pack(record);
      if vp.None? {
        return false;
      }
      PackedInDom(record);
      ContentsSet(scheme, ht.M, record);
      Replace(vp.value);
      return true;
    }

    /** The two table calls of memdb_set. */
    method Replace(p: Packed)
      requires ht.Valid() && ht.dom(p)
      modifies ht, ht.table
      ensures ht.Valid() && (ht.table == old(ht.table) || fresh(ht.table))
      ensures ht.M == old(ht.M)[ht.keyOf(p) := p]
      ensures old(ht.HeadOccupied()) && ht.keyOf(p) !in old(ht.M) ==> ht.HeadOccupied()
    {
      MapReplace(ht.M, ht.keyOf(p), p);
      ht.Remove(p);
      var failed := ht.Insert(p);
    }

    /** memdb_del */
    method Del(record: Record) returns (ok: bool)
      requires Valid() && Typed(record) && SchemeOf(record) == scheme
      modifies ht, ht.table
      ensures Valid() && ht.table == old(ht.table)
      ensures ok <==> Packable(record)
      ensures Store() == if ok then old(Store()) - {KeyTuple(record)} else old(Store())
      ensures ok ==> ht.M == old(ht.M) - {KeyTuple(record)}
      ensures Packable(record) && KeyTuple(record) in old(ht.M) ==>
        ht.Unlinked(old(ht.table[..]), ht.table[..], old(ht.M)[KeyTuple(record)])
    {
      var vp := Pack(record);
      if vp.None? {
        return false;
      }
      PackedInDom(record);
      ContentsDel(scheme, ht.M, KeyTuple(record));
      ht.Remove(vp.value);
      return true;
    }
  }
}
