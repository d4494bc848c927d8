/** The chained hash table of src/ht.c: insertion with automatic doubling, lookup, removal and
    the cursor used to walk it.

    A chain is a sequence stored in a bucket of the array `table`; the element of a node stands
    for the node. The hash and match callbacks are arbitrary functions. The ghost functions
    `keyOf` and `dom` say what they have to mean: on the elements in `dom`, matching is equality
    of keys and equal keys hash alike.
 */
module HashTables {
  import opened Common

  /** The position of a walk: a bucket and the next node to return (src/include/ht.h). */
  datatype Pos<T> = Pos(bucket: nat, record: Option<T>)

  // ---------------------------------------------------------------- chains and buckets

  /** All elements, bucket by bucket, each chain from its head. */
  ghost function Flat<T>(b: seq<seq<T>>): seq<T> {
    if b == [] then [] else b[0] + Flat(b[1..])
  }

  /** The part of a chain that starts at the node of x. */
  ghost function From<T>(chain: seq<T>, x: T): seq<T> {
    if chain == [] then [] else if chain[0] == x then chain else From(chain[1..], x)
  }

  /** The chain after unlinking the node of x. */
  ghost function Without<T>(chain: seq<T>, x: T): seq<T> {
    if chain == [] then [] else if chain[0] == x then chain[1..] else [chain[0]] + Without(chain[1..], x)
  }

  /** What a walk at position pos has still to return. */
  ghost function Remaining<T>(b: seq<seq<T>>, pos: Pos<T>): seq<T>
    requires pos.record.Some? ==> pos.bucket < |b|
  {
    if pos.record.None? then [] else From(b[pos.bucket], pos.record.value) + Flat(b[pos.bucket + 1..])
  }

  lemma {:induction false} FromIndex<T>(chain: seq<T>, j: nat)
    requires j < |chain| && NoDup(chain)
    ensures From(chain, chain[j]) == chain[j..]
  {
    if j > 0 {
      assert chain[1..][j - 1] == chain[j];
      FromIndex(chain[1..], j - 1);
      assert chain[1..][j - 1..] == chain[j..];
    }
  }

  lemma {:induction false} WithoutIndex<T>(chain: seq<T>, j: nat)
    requires j < |chain| && NoDup(chain)
    ensures Without(chain, chain[j]) == chain[..j] + chain[j + 1..]
  {
    if j > 0 {
      assert chain[1..][j - 1] == chain[j];
      WithoutIndex(chain[1..], j - 1);
      assert chain[..j] + chain[j + 1..] == [chain[0]] + (chain[1..][..j - 1] + chain[1..][j..]);
    }
  }

  lemma {:induction false} FlatEmptyPrefix<T>(b: seq<seq<T>>, n: nat)
    requires n <= |b| && forall i :: 0 <= i < n ==> b[i] == []
    ensures Flat(b) == Flat(b[n..])
  {
    if n == 0 {
      assert b[0..] == b;
    } else {
      FlatEmptyPrefix(b[1..], n - 1);
      assert b[1..][n - 1..] == b[n..];
      assert b[0] + Flat(b[1..]) == Flat(b[1..]);
    }
  }

  lemma {:induction false} FlatMembers<T>(b: seq<seq<T>>, x: T)
    ensures x in Flat(b) <==> exists i :: 0 <= i < |b| && x in b[i]
  {
    if b != [] {
      FlatMembers(b[1..], x);
      if x in Flat(b[1..]) {
        var i :| 0 <= i < |b[1..]| && x in b[1..][i];
        assert x in b[i + 1];
      }
      if i :| 0 <= i < |b| && x in b[i] {
        assert i > 0 ==> x in b[1..][i - 1];
      }
    }
  }

  lemma {:induction false} FlatNoDup<T>(b: seq<seq<T>>)
    requires forall i :: 0 <= i < |b| ==> NoDup(b[i])
    requires forall i, j, x :: 0 <= i < j < |b| && x in b[i] ==> x !in b[j]
    ensures NoDup(Flat(b))
  {
    if b != [] {
      var rest := b[1..];
      assert forall i :: 0 <= i < |rest| ==> rest[i] == b[i + 1];
      FlatNoDup(rest);
      forall x | x in b[0] ensures x !in Flat(rest) {
        FlatMembers(rest, x);
      }
      var f := Flat(rest);
      forall i, j | 0 <= i < j < |b[0] + f| ensures (b[0] + f)[i] != (b[0] + f)[j] {
        if i < |b[0]| <= j {
          assert b[0][i] in b[0] && f[j - |b[0]|] in f;
        }
      }
    }
  }

  /** A walk that stands past x does not notice that x is unlinked. */
  lemma {:induction false} RemainingAfterUnlink<T>(b: seq<seq<T>>, pos: Pos<T>, h: nat, x: T)
    requires h < |b| && x in b[h]
    requires forall i :: 0 <= i < |b| ==> NoDup(b[i])
    requires pos.record.Some? ==> pos.bucket < |b| && pos.record.value in b[pos.bucket]
    requires x !in Remaining(b, pos)
    ensures Remaining(b[h := Without(b[h], x)], pos) == Remaining(b, pos)
    ensures pos.record.Some? ==> pos.record.value in b[h := Without(b[h], x)][pos.bucket]
  {
    var b' := b[h := Without(b[h], x)];
    if pos.record.Some? {
      var p, y := pos.bucket, pos.record.value;
      FlatMembers(b[p + 1..], x);
      forall i | p < i < |b| ensures x !in b[i] {
        assert b[i] == b[p + 1..][i - p - 1];
      }
      if h == p {
        FromAfterUnlink(b[p], x, y);
      }
      assert b'[p + 1..] == b[p + 1..];
    }
  }

  lemma {:induction false} FromAfterUnlink<T>(chain: seq<T>, x: T, y: T)
    requires x in chain && y in chain && x !in From(chain, y)
    ensures y in Without(chain, x) && From(Without(chain, x), y) == From(chain, y)
  {
    if chain[0] != y && chain[0] != x {
      FromAfterUnlink(chain[1..], x, y);
      assert Without(chain, x)[1..] == Without(chain[1..], x);
    }
  }

  lemma StepInChain<T>(b: seq<seq<T>>, p: nat, x: T, y: T)
    requires p < |b| && From(b[p], x) == [x] + From(b[p], y)
    ensures Remaining(b, Pos(p, Some(x))) == [x] + Remaining(b, Pos(p, Some(y)))
  {
    assert ([x] + From(b[p], y)) + Flat(b[p + 1..]) == [x] + (From(b[p], y) + Flat(b[p + 1..]));
  }

  lemma StepToBucket<T>(b: seq<seq<T>>, p: nat, x: T, i: nat)
    requires p < i <= |b| && From(b[p], x) == [x] && Flat(b[p + 1..]) == Flat(b[i..])
    requires i < |b| ==> b[i] != []
    ensures i == |b| ==> Remaining(b, Pos(p, Some(x))) == [x]
    ensures i < |b| ==> Remaining(b, Pos(p, Some(x))) == [x] + Remaining(b, Pos(i, Some(b[i][0])))
  {
    if i < |b| {
      FromBucket(b, i);
    }
  }

  lemma FromBucket<T>(b: seq<seq<T>>, i: nat)
    requires i < |b| && b[i] != []
    ensures Remaining(b, Pos(i, Some(b[i][0]))) == Flat(b[i..])
  {
    assert b[i..][0] == b[i] && b[i..][1..] == b[i + 1..];
  }

  lemma NoDupWithout<T>(chain: seq<T>, j: nat)
    requires j < |chain| && NoDup(chain)
    ensures NoDup(chain[..j] + chain[j + 1..])
    ensures chain[j] !in chain[..j] + chain[j + 1..]
  {
  }

  // ---------------------------------------------------------------- the table

  /** What a pair of callbacks must mean: on the elements in dom, matching is equality of keys,
      and equal keys hash alike. */
  ghost predicate CallbacksAgree<T, K>(hash: T -> nat, matches: (T, T) -> bool, keyOf: T -> K, dom: T -> bool,
                                       x: T, y: T) {
    dom(x) && dom(y) ==>
      (matches(x, y) <==> keyOf(x) == keyOf(y)) && (keyOf(x) == keyOf(y) ==> hash(x) == hash(y))
  }

  class HashTable<T(==,!new), K(!new)> {
    const hash: T -> nat
    const matches: (T, T) -> bool
    ghost const keyOf: T -> K
    ghost const dom: T -> bool

    var table: array<seq<T>>
    var records: nat
    var head: nat

    /** The finite map that the table stands for. */
    ghost var M: map<K, T>

    // The invariants are instantiated only where a proof names CallbacksAgree, InPlace or Keyed.

    ghost predicate Coherent() {
      forall x, y {:trigger CallbacksAgree(hash, matches, keyOf, dom, x, y)} ::
        CallbacksAgree(hash, matches, keyOf, dom, x, y)
    }

    /** The element x of bucket i is where it belongs, and the map has it. */
    ghost predicate InPlace(b: seq<seq<T>>, m: map<K, T>, i: nat, x: T)
      requires |b| > 0
    {
      dom(x) && hash(x) % |b| == i && keyOf(x) in m && m[keyOf(x)] == x
    }

    /** The element that the map has for k is in its bucket. */
    ghost predicate Keyed(b: seq<seq<T>>, m: map<K, T>, k: K)
      requires |b| > 0 && k in m
    {
      dom(m[k]) && keyOf(m[k]) == k && m[k] in b[hash(m[k]) % |b|]
    }

    /** The buckets b hold exactly the elements of the map m, each once and in its own bucket. */
    ghost predicate Stored(b: seq<seq<T>>, m: map<K, T>)
      requires |b| > 0
    {
      && (forall i, x {:trigger InPlace(b, m, i, x)} :: 0 <= i < |b| && x in b[i] ==> InPlace(b, m, i, x))
      && (forall i {:trigger NoDup(b[i])} :: 0 <= i < |b| ==> NoDup(b[i]))
      && (forall k {:trigger Keyed(b, m, k)} :: k in m ==> Keyed(b, m, k))
    }

    /** The head field may go stale after removals, but it never skips an occupied bucket. */
    ghost predicate HeadOk(b: seq<seq<T>>)
      reads this
    {
      records > 0 ==> head < |b| && forall i :: 0 <= i < head ==> b[i] == []
    }

    /** Everything but the load bound; this is what holds when ht_resize is entered. */
    ghost predicate WellFormed()
      reads this, table
    {
      && table.Length > 0
      && Coherent()
      && Stored(table[..], M)
      && records == |M|
      && HeadOk(table[..])
    }

    /** HT_LOADFACTOR is at most MAX_LOAD, as a rational: 100 * records / buckets <= 50. */
    ghost predicate LoadOk()
      reads this
    {
      100 * records <= 50 * table.Length
    }

    ghost predicate Valid()
      reads this, table
    {
      WellFormed() && LoadOk()
    }

    /** ht_init */
    constructor (buckets: nat, hash: T -> nat, matches: (T, T) -> bool,
                 ghost keyOf: T -> K, ghost dom: T -> bool)
      requires buckets > 0
      requires forall x, y {:trigger CallbacksAgree(hash, matches, keyOf, dom, x, y)} ::
        CallbacksAgree(hash, matches, keyOf, dom, x, y)
      ensures Valid() && fresh(table) && table.Length == buckets && M == map[] && records == 0 && HeadOccupied()
      ensures this.hash == hash && this.matches == matches && this.keyOf == keyOf && this.dom == dom
    {
      this.hash, this.matches, this.keyOf, this.dom := hash, matches, keyOf, dom;
      table := new seq<T>[buckets](_ => []);
      records, head, M := 0, 0, map[];
    }

    // -------------------------------------------------------------- searching

    /** What the chain of data's bucket tells about data's key. */
    lemma ChainFacts(b: seq<seq<T>>, m: map<K, T>, data: T)
      requires |b| > 0 && Coherent() && Stored(b, m) && dom(data)
      ensures var chain := b[hash(data) % |b|];
        && (forall j :: 0 <= j < |chain| ==>
             (matches(data, chain[j]) <==> keyOf(chain[j]) == keyOf(data)))
        && (forall j :: 0 <= j < |chain| && keyOf(chain[j]) == keyOf(data) ==>
             keyOf(data) in m && m[keyOf(data)] == chain[j] && hash(chain[j]) == hash(data))
        && (keyOf(data) in m ==> m[keyOf(data)] in chain && keyOf(m[keyOf(data)]) == keyOf(data))
    {
      var h := hash(data) % |b|;
      var chain := b[h];
      forall j | 0 <= j < |chain|
        ensures matches(data, chain[j]) <==> keyOf(chain[j]) == keyOf(data)
        ensures keyOf(chain[j]) == keyOf(data) ==>
          keyOf(data) in m && m[keyOf(data)] == chain[j] && hash(chain[j]) == hash(data)
      {
        assert InPlace(b, m, h, chain[j]);
        assert CallbacksAgree(hash, matches, keyOf, dom, data, chain[j]);
      }
      if keyOf(data) in m {
        assert Keyed(b, m, keyOf(data));
        assert CallbacksAgree(hash, matches, keyOf, dom, data, m[keyOf(data)]);
      }
    }

    /** The chain search of ht_lookup and ht_remove: the index of the first matching node, or the
        length of the chain. */
    method FindNode(data: T) returns (j: nat)
      requires WellFormed() && dom(data)
      ensures j <= |table[hash(data) % table.Length]|
      ensures j == |table[hash(data) % table.Length]| <==> keyOf(data) !in M
      ensures keyOf(data) in M ==>
        var x := table[hash(data) % table.Length][j];
        M[keyOf(data)] == x && keyOf(x) == keyOf(data) && hash(x) == hash(data)
    {
      var chain := table[hash(data) % table.Length];
      ChainFacts(table[..], M, data);
      j := 0;
      while j < |chain| && !matches(data, chain[j])
        invariant j <= |chain|
        invariant forall i :: 0 <= i < j ==> keyOf(chain[i]) != keyOf(data)
      {
        j := j + 1;
      }
    }

    /** ht_lookup */
    method Lookup(data: T) returns (r: Option<T>)
      requires WellFormed() && dom(data)
      ensures r == if keyOf(data) in M then Some(M[keyOf(data)]) else None
    {
      var chain := table[hash(data) % table.Length];
      var j := FindNode(data);
      return if j < |chain| then Some(chain[j]) else None;
    }

    // -------------------------------------------------------------- inserting

    lemma OccupiedMeansRecords(b: seq<seq<T>>, m: map<K, T>)
      requires |b| > 0 && Stored(b, m)
      ensures forall i :: 0 <= i < |b| && b[i] != [] ==> |m| > 0
    {
      forall i | 0 <= i < |b| && b[i] != [] ensures |m| > 0 {
        assert InPlace(b, m, i, b[i][0]);
      }
    }

    lemma StoredInsert(b: seq<seq<T>>, m: map<K, T>, h: nat, x: T)
      requires |b| > 0 && Stored(b, m) && dom(x) && keyOf(x) !in m && h == hash(x) % |b|
      ensures Stored(b[h := [x] + b[h]], m[keyOf(x) := x])
    {
      var b', m' := b[h := [x] + b[h]], m[keyOf(x) := x];
      forall y | y in b[h] ensures y != x {
        assert InPlace(b, m, h, y);
      }
      forall i, y | 0 <= i < |b'| && y in b'[i] ensures InPlace(b', m', i, y) {
        if y != x || i != h {
          assert y in b[i];
          assert InPlace(b, m, i, y);
        }
      }
      assert x !in b[h];
      forall i | 0 <= i < |b'| ensures NoDup(b'[i]) {
        assert NoDup(b[i]);
        NoDupPrepend(b[i], x);
      }
      forall k | k in m' ensures Keyed(b', m', k) {
        if k != keyOf(x) {
          assert Keyed(b, m, k);
        } else {
          assert b'[h][0] == x;
        }
      }
    }

    /** The head field after an insertion into a bucket. */
    function NewHead(bucket: nat, head: nat, records: nat): nat {
      if bucket < head || records == 0 then bucket else head
    }

    /** ht_insert: fails on a duplicate, otherwise prepends to the chain and doubles the table
        when the load passes 50%. A table that can be walked from its head stays so. The rank shows that
        the recursion through Resize is one deep. */
    method Insert(data: T) returns (failed: bool)
      requires Valid() && dom(data)
      modifies this, table
      ensures Valid() && (table == old(table) || fresh(table))
      ensures failed <==> keyOf(data) in old(M)
      ensures failed ==> M == old(M) && table == old(table) && table[..] == old(table[..])
      ensures !failed ==> M == old(M)[keyOf(data) := data]
      ensures old(HeadOccupied()) || table != old(table) ==> HeadOccupied()
      ensures 100 * (old(records) + 1) <= 50 * old(table.Length) ==>
        table == old(table) && (failed || head == NewHead(hash(data) % old(table.Length), old(head), old(records)))
      decreases if 100 * (records + 1) <= 50 * table.Length then 0 else 2, 0
    {
      var found := Lookup(data);
      if found.Some? {
        return true;
      }
      Prepend(data);
      if 100 * records > 50 * table.Length {
        Resize();
      }
      return false;
    }

    /** The part of ht_insert between the duplicate check and the load check. */
    method Prepend(data: T)
      requires WellFormed() && dom(data) && keyOf(data) !in M
      modifies this, table
      ensures WellFormed() && table == old(table)
      ensures M == old(M)[keyOf(data) := data] && records == old(records) + 1
      ensures head == NewHead(hash(data) % table.Length, old(head), old(records))
      ensures old(HeadOccupied()) ==> HeadOccupied()
    {
      ghost var b := table[..];
      var bucket := hash(data) % table.Length;
      StoredInsert(b, M, bucket, data);
      OccupiedMeansRecords(b, M);
      head := NewHead(bucket, head, records);
      table[bucket] := [data] + table[bucket];
      records := records + 1;
      M := M[keyOf(data) := data];
      assert table[..] == b[bucket := [data] + b[bucket]];
    }

    // -------------------------------------------------------------- resizing

    /** The insertion that brings on a resize is the first one past the load limit. */
    ghost predicate Overloaded()
      reads this
    {
      records > 0 && 100 * (records - 1) <= 50 * table.Length < 100 * records
    }

    ghost predicate SameHooks(t: HashTable<T, K>) {
      t.hash == hash && t.matches == matches && t.keyOf == keyOf && t.dom == dom
    }

    /** The element comes before position (i, j) of the rehash loops. */
    ghost predicate Before(b: seq<seq<T>>, i: nat, j: nat, x: T)
      requires |b| > 0 && i <= |b| && (i < |b| ==> j <= |b[i]|)
    {
      hash(x) % |b| < i || (i < |b| && hash(x) % |b| == i && x in b[i][..j])
    }

    /** The map m holds what comes before position (i, j). */
    ghost predicate Copied(m: map<K, T>, b: seq<seq<T>>, i: nat, j: nat)
      requires |b| > 0 && i <= |b| && (i < |b| ==> j <= |b[i]|)
      reads this
    {
      && (forall k :: k in m <==> k in M && Before(b, i, j, M[k]))
      && (forall k :: k in m ==> m[k] == M[k])
    }

    ghost predicate Rehashed(t: HashTable<T, K>, b: seq<seq<T>>, i: nat, j: nat)
      requires |b| > 0 && i <= |b| && (i < |b| ==> j <= |b[i]|)
      reads this, t, t.table
    {
      t.Valid() && SameHooks(t) && Copied(t.M, b, i, j) && t.HeadOccupied()
    }

    /** ht_resize: rehash into a table of twice the size. Called only by Insert. */
    method Resize()
      requires WellFormed() && Overloaded()
      modifies this
      ensures Valid() && M == old(M) && records == old(records) && HeadOccupied()
      ensures fresh(table) && table.Length == 2 * old(table.Length)
      decreases 0, 3
    {
      var bigger := Rehash();
      RehashDone(bigger, table[..]);
      table, records, head := bigger.table, bigger.records, bigger.head;
    }

    /** The ht_init call of ht_resize. */
    method NewTable(buckets: nat) returns (t: HashTable<T, K>)
      requires buckets > 0 && Coherent()
      ensures fresh(t) && fresh(t.table) && t.table.Length == buckets
      ensures t.Valid() && t.M == map[] && SameHooks(t) && t.HeadOccupied()
    {
      t := new HashTable(buckets, hash, matches, keyOf, dom);
    }

    /** The outer loop of ht_resize. */
    method Rehash() returns (bigger: HashTable<T, K>)
      requires WellFormed() && Overloaded()
      ensures fresh(bigger) && fresh(bigger.table) && bigger.table.Length == 2 * table.Length
      ensures Rehashed(bigger, table[..], table.Length, 0)
      decreases 0, 2
    {
      var b := table[..];
      bigger := NewTable(2 * table.Length);
      for i := 0 to table.Length
        invariant Rehashed(bigger, b, i, 0)
        invariant bigger.table.Length == 2 * table.Length
        invariant fresh(bigger) && fresh(bigger.table)
      {
        RehashChain(bigger, b, i);
      }
    }

    /** The inner loop of ht_resize: move one chain. */
    method RehashChain(bigger: HashTable<T, K>, b: seq<seq<T>>, i: nat)
      requires WellFormed() && b == table[..] && i < |b| && bigger != this && bigger.table != table
      requires Overloaded()
      requires Rehashed(bigger, b, i, 0) && bigger.table.Length == 2 * table.Length
      modifies bigger, bigger.table
      ensures Rehashed(bigger, b, i + 1, 0) && bigger.table == old(bigger.table)
      decreases 0, 1
    {
      var chain := table[i];
      var j := 0;
      while j < |chain|
        invariant j <= |chain|
        invariant WellFormed() && b == table[..]
        invariant Rehashed(bigger, b, i, j)
        invariant bigger.table == old(bigger.table)
      {
        RehashRoom(bigger, b, i, j);
        ghost var m0 := bigger.M;
        var _ := bigger.Insert(chain[j]);
        RehashStep(m0, b, i, j);
        j := j + 1;
      }
      RehashNextBucket(bigger.M, b, i);
    }

    lemma RehashRoom(t: HashTable<T, K>, b: seq<seq<T>>, i: nat, j: nat)
      requires WellFormed() && b == table[..] && i < |b| && j < |b[i]|
      requires Overloaded()
      requires Rehashed(t, b, i, j) && t.table.Length == 2 * table.Length
      ensures dom(b[i][j]) && keyOf(b[i][j]) !in t.M
      ensures 100 * (t.records + 1) <= 50 * t.table.Length
    {
      var x := b[i][j];
      assert InPlace(b, M, i, x);
      assert NoDup(b[i]);
      assert x !in b[i][..j];
      assert keyOf(x) in M && keyOf(x) !in t.M.Keys;
      SubsetSize(t.M.Keys, M.Keys);
      assert |t.M.Keys| == |t.M| && |M.Keys| == |M|;
    }

    lemma RehashStep(m0: map<K, T>, b: seq<seq<T>>, i: nat, j: nat)
      requires WellFormed() && b == table[..] && i < |b| && j < |b[i]|
      requires Copied(m0, b, i, j)
      ensures Copied(m0[keyOf(b[i][j]) := b[i][j]], b, i, j + 1)
    {
      var x := b[i][j];
      assert InPlace(b, M, i, x);
      forall k | k in M
        ensures Before(b, i, j + 1, M[k]) <==> Before(b, i, j, M[k]) || k == keyOf(x)
      {
        BeforeStep(b, i, j, M[k]);
        assert Keyed(b, M, k);
      }
    }

    lemma BeforeStep(b: seq<seq<T>>, i: nat, j: nat, y: T)
      requires |b| > 0 && i < |b| && j < |b[i]| && hash(b[i][j]) % |b| == i
      ensures Before(b, i, j + 1, y) <==> Before(b, i, j, y) || y == b[i][j]
    {
      assert b[i][..j + 1] == b[i][..j] + [b[i][j]];
    }

    lemma RehashNextBucket(m: map<K, T>, b: seq<seq<T>>, i: nat)
      requires WellFormed() && b == table[..] && i < |b|
      requires Copied(m, b, i, |b[i]|)
      ensures Copied(m, b, i + 1, 0)
    {
      forall k | k in M
        ensures Before(b, i, |b[i]|, M[k]) <==> Before(b, i + 1, 0, M[k])
      {
        assert Keyed(b, M, k);
        assert b[i][..|b[i]|] == b[i];
      }
    }

    lemma RehashDone(t: HashTable<T, K>, b: seq<seq<T>>)
      requires WellFormed() && b == table[..] && Rehashed(t, b, |b|, 0)
      ensures t.M == M && Stored(t.table[..], M) && t.LoadOk() && t.HeadOk(t.table[..]) && t.records == records
    {
      forall k | k in M ensures k in t.M {
        assert Before(b, |b|, 0, M[k]);
      }
      assert t.M == M;
      SameStored(t, t.table[..], M);
    }

    lemma SameStored(t: HashTable<T, K>, b: seq<seq<T>>, m: map<K, T>)
      requires |b| > 0 && SameHooks(t) && t.Stored(b, m)
      ensures Stored(b, m)
    {
      forall i, x | 0 <= i < |b| && x in b[i] ensures InPlace(b, m, i, x) {
        assert t.InPlace(b, m, i, x);
      }
      forall k | k in m ensures Keyed(b, m, k) {
        assert t.Keyed(b, m, k);
      }
    }

    // -------------------------------------------------------------- removing

    /** ht_remove: unlink the first matching node. The head field is left alone. */
    method Remove(data: T)
      requires Valid() && dom(data)
      modifies this, table
      ensures Valid() && table == old(table) && head == old(head)
      ensures M == old(M) - {keyOf(data)}
      ensures keyOf(data) !in old(M) ==> table[..] == old(table[..])
      ensures keyOf(data) in old(M) ==> Unlinked(old(table[..]), table[..], old(M)[keyOf(data)])
    {
      ghost var b := table[..];
      var bucket := hash(data) % table.Length;
      var chain := table[bucket];
      var j := FindNode(data);
      RemovedSize(M, keyOf(data));
      if j == |chain| {
        return;
      }
      StoredRemove(b, M, bucket, j);
      WithoutIndex(b[bucket], j) by { assert NoDup(b[bucket]); }
      table[bucket] := chain[..j] + chain[j + 1..];
      records := records - 1;
      M := M - {keyOf(data)};
      assert table[..] == b[bucket := chain[..j] + chain[j + 1..]];
    }

    /** The buckets b' are b without the node of x. */
    ghost predicate Unlinked(b: seq<seq<T>>, b': seq<seq<T>>, x: T) {
      |b| > 0 && b' == b[hash(x) % |b| := Without(b[hash(x) % |b|], x)]
    }

    lemma RemovedSize(m: map<K, T>, k: K)
      ensures k in m ==> |m - {k}| == |m| - 1
      ensures k !in m ==> m - {k} == m
    {
      if k in m {
        assert m.Keys == (m - {k}).Keys + {k};
        assert |m.Keys| == |m| && |(m - {k}).Keys| == |m - {k}|;
      }
    }

    lemma StoredRemove(b: seq<seq<T>>, m: map<K, T>, h: nat, j: nat)
      requires |b| > 0 && h < |b| && j < |b[h]| && Stored(b, m)
      ensures Stored(b[h := b[h][..j] + b[h][j + 1..]], m - {keyOf(b[h][j])})
    {
      var x := b[h][j];
      assert InPlace(b, m, h, x);
      var b', m' := b[h := b[h][..j] + b[h][j + 1..]], m - {keyOf(x)};
      assert NoDup(b[h]);
      NoDupWithout(b[h], j);
      forall i, y | 0 <= i < |b'| && y in b'[i] ensures InPlace(b', m', i, y) {
        assert y in b[i];
        assert InPlace(b, m, i, y);
        assert y != x;
      }
      forall i | 0 <= i < |b'| ensures NoDup(b'[i]) {
        assert NoDup(b[i]);
      }
      forall k | k in m' ensures Keyed(b', m', k) {
        assert Keyed(b, m, k);
        StillThere(b[h], j, m[k]);
      }
    }

    // -------------------------------------------------------------- walking

    ghost predicate ValidPos(pos: Pos<T>)
      reads this, table
    {
      pos.record.Some? ==> pos.bucket < table.Length && pos.record.value in table[pos.bucket]
    }

    /** A walk can start only from an occupied head bucket. */
    predicate HeadOccupied()
      reads this, table
    {
      records == 0 || (head < table.Length && table[head] != [])
    }

    lemma BucketElement(b: seq<seq<T>>, m: map<K, T>, i: nat)
      requires i < |b| && Stored(b, m) && b[i] != []
      ensures exists k :: k in m && hash(m[k]) % |b| == i
    {
      assert InPlace(b, m, i, b[i][0]);
    }

    lemma FlatNotEmpty(b: seq<seq<T>>, m: map<K, T>)
      requires |b| > 0 && Stored(b, m) && |m| > 0
      ensures Flat(b) != []
    {
      var k :| k in m;
      assert Keyed(b, m, k);
      FlatMembers(b, m[k]);
    }

    /** ht_start: the walk sees everything, or nothing at all when removals have emptied the
        head bucket. */
    method Start() returns (pos: Pos<T>)
      requires Valid()
      ensures ValidPos(pos)
      ensures Remaining(table[..], pos) == if HeadOccupied() then Flat(table[..]) else []
      ensures Remaining(table[..], pos) == Flat(table[..]) <==> HeadOccupied()
      ensures pos.record.None? <==> Remaining(table[..], pos) == []
    {
      ghost var b := table[..];
      OccupiedMeansRecords(b, M);
      if records > 0 {
        FlatEmptyPrefix(b, head);
        FlatNotEmpty(b, M);
        if table[head] == [] {
          pos := Pos(head, None);
        } else {
          pos := Pos(head, Some(table[head][0]));
          FromBucket(b, head);
        }
      } else {
        pos := Pos(0, None);
        FlatEmptyPrefix(b, |b|);
      }
    }

    /** The htr_next link of the node that holds x. */
    method Successor(chain: seq<T>, x: T) returns (next: Option<T>)
      requires NoDup(chain) && x in chain
      ensures next.None? ==> From(chain, x) == [x]
      ensures next.Some? ==> next.value in chain && From(chain, x) == [x] + From(chain, next.value)
    {
      var j := 0;
      while chain[j] != x
        invariant j < |chain|
        invariant forall i :: 0 <= i < j ==> chain[i] != x
        decreases |chain| - j
      {
        j := j + 1;
      }
      FromIndex(chain, j);
      if j + 1 < |chain| {
        FromIndex(chain, j + 1);
        next := Some(chain[j + 1]);
      } else {
        next := None;
      }
    }

    /** ht_next: return the element under the cursor and step over it. */
    method Next(pos: Pos<T>) returns (r: Option<T>, pos': Pos<T>)
      requires Valid() && ValidPos(pos)
      ensures ValidPos(pos')
      ensures r.None? <==> pos.record.None?
      ensures r.None? ==> pos' == pos && Remaining(table[..], pos) == []
      ensures r.Some? ==> Remaining(table[..], pos) == [r.value] + Remaining(table[..], pos')
    {
      if pos.record.None? {
        return None, pos;
      }
      var p, x := pos.bucket, pos.record.value;
      assert NoDup(table[..][p]);
      var next := Successor(table[p], x);
      if next.Some? {
        StepInChain(table[..], p, x, next.value);
        return Some(x), Pos(p, next);
      }
      var i := NextBucket(p);
      StepToBucket(table[..], p, x, i);
      if i == table.Length {
        return Some(x), Pos(0, None);
      }
      return Some(x), Pos(i, Some(table[i][0]));
    }

    /** The loop of ht_next over empty buckets. */
    method NextBucket(p: nat) returns (i: nat)
      requires p < table.Length
      ensures p < i <= table.Length && (i < table.Length ==> table[i] != [])
      ensures Flat(table[..][p + 1..]) == Flat(table[..][i..])
    {
      ghost var b := table[..];
      i := p + 1;
      while i < table.Length && table[i] == []
        invariant p < i <= table.Length
        invariant forall k :: p < k < i ==> table[k] == []
      {
        i := i + 1;
      }
      ghost var rest := b[p + 1..];
      forall k | 0 <= k < i - p - 1 ensures rest[k] == [] {
        assert rest[k] == table[p + 1 + k];
      }
      FlatEmptyPrefix(rest, i - p - 1);
      assert rest[i - p - 1..] == b[i..];
    }

    /** The walk order lists every stored element exactly once. */
    lemma FlatIsMap(b: seq<seq<T>>, m: map<K, T>)
      requires |b| > 0 && Stored(b, m)
      ensures NoDup(Flat(b))
      ensures forall x :: x in Flat(b) ==> dom(x) && keyOf(x) in m && m[keyOf(x)] == x
      ensures forall k :: k in m ==> m[k] in Flat(b)
    {
      forall i, j, x | 0 <= i < j < |b| && x in b[i] ensures x !in b[j] {
        assert InPlace(b, m, i, x);
        assert x in b[j] ==> InPlace(b, m, j, x);
      }
      forall i | 0 <= i < |b| ensures NoDup(b[i]) {
      }
      FlatNoDup(b);
      forall x | x in Flat(b) ensures dom(x) && keyOf(x) in m && m[keyOf(x)] == x {
        FlatMembers(b, x);
        var i :| 0 <= i < |b| && x in b[i];
        assert InPlace(b, m, i, x);
      }
      forall k | k in m ensures m[k] in Flat(b) {
        assert Keyed(b, m, k);
        FlatMembers(b, m[k]);
      }
    }
  }

  lemma NoDupPrepend<T>(chain: seq<T>, x: T)
    requires NoDup(chain)
    ensures x !in chain ==> NoDup([x] + chain)
  {
  }

  lemma StillThere<T>(chain: seq<T>, j: nat, y: T)
    requires j < |chain|
    ensures y in chain && y != chain[j] ==> y in chain[..j] + chain[j + 1..]
  {
    if y in chain && y != chain[j] {
      var l :| 0 <= l < |chain| && chain[l] == y;
      var c := chain[..j] + chain[j + 1..];
      assert c[if l < j then l else l - 1] == y;
    }
  }

  /** Removals can leave the head bucket empty while records remain; a walk then finds none of
      them. */
  method StaleHead() returns (records: nat, pos: Pos<nat>)
    ensures records == 1 && pos.record.None?
  {
    var t := NatTable();
    InsertZeroOne(t);
    RemoveZero(t);
    pos := t.Start();
    records := t.records;
  }

  method NatTable() returns (t: HashTable<nat, nat>)
    ensures fresh(t) && fresh(t.table) && t.Valid() && t.M == map[] && t.records == 0 && t.table.Length == 8
    ensures t.dom(0) && t.dom(1) && t.keyOf(0) == 0 && t.keyOf(1) == 1 && t.hash(0) == 0 && t.hash(1) == 1
  {
    t := new HashTable<nat, nat>(8, x => x, (x, y) => x == y, x => x, x => true);
  }

  method InsertZeroOne(t: HashTable<nat, nat>)
    requires t.Valid() && t.M == map[] && t.records == 0 && t.table.Length == 8
    requires t.dom(0) && t.dom(1) && t.keyOf(0) == 0 && t.keyOf(1) == 1 && t.hash(0) == 0 && t.hash(1) == 1
    modifies t, t.table
    ensures t.Valid() && t.table == old(t.table) && t.head == 0 && t.M == map[0 := 0, 1 := 1]
  {
    var _ := t.Insert(0);
    var _ := t.Insert(1);
  }

  method RemoveZero(t: HashTable<nat, nat>)
    requires t.Valid() && t.M == map[0 := 0, 1 := 1] && t.table.Length == 8 && t.head == 0
    requires t.dom(0) && t.keyOf(0) == 0 && t.hash(1) == 1
    modifies t, t.table
    ensures t.Valid() && t.table == old(t.table) && t.records == 1 && !t.HeadOccupied()
  {
    t.Remove(0);
    SingletonLeft(t.M);
    if t.table[0] != [] {
      t.BucketElement(t.table[..], t.M, 0);
    }
  }

  lemma SingletonLeft(m: map<nat, nat>)
    requires m == map[0 := 0, 1 := 1] - {0}
    ensures m == map[1 := 1] && |m| == 1
  {
  }
}
