/** Whole runs of the memdb driver: any sequence of set, get and del, and the janitor's walk. */
module MemDbRuns {
  import opened Common
  import opened HashTables
  import opened VarPack
  import opened MemDb

  // ---------------------------------------------------------------- set, get and del

  datatype Op = OpSet(r: Record) | OpGet(r: Record) | OpDel(r: Record)

  /** The record last set for key tuple k and not deleted since; operations that vp_pack refuses
      have no effect. */
  ghost function Latest(ops: seq<Op>, n: nat, k: seq<Value>): Option<Record>
    requires n <= |ops|
  {
    if n == 0 then None
    else
      var op := ops[n - 1];
      if !Packable(op.r) || KeyTuple(op.r) != k || op.OpGet? then Latest(ops, n - 1, k)
      else if op.OpSet? then Some(op.r)
      else None
  }

  ghost predicate Agrees(store: Store, ops: seq<Op>, n: nat)
    requires n <= |ops|
  {
    forall k :: Latest(ops, n, k) == if k in store then Some(store[k]) else None
  }

  ghost function Applied(store: Store, op: Op): Store {
    if !Packable(op.r) then store
    else match op
      case OpSet(r) => store[KeyTuple(r) := r]
      case OpGet(_) => store
      case OpDel(r) => store - {KeyTuple(r)}
  }

  lemma AgreesStep(store: Store, ops: seq<Op>, n: nat)
    requires n < |ops| && Agrees(store, ops, n)
    ensures Agrees(Applied(store, ops[n]), ops, n + 1)
  {
  }

  /** One operation on the driver; the answer of a get. */
  method Perform(db: Database, op: Op) returns (answer: Option<Record>)
    requires db.Valid() && Typed(op.r) && SchemeOf(op.r) == db.scheme
    modifies db.ht, db.ht.table
    ensures db.Valid() && (db.ht.table == old(db.ht.table) || fresh(db.ht.table))
    ensures db.Store() == Applied(old(db.Store()), op)
    ensures op.OpGet? && Packable(op.r) ==>
      answer == if KeyTuple(op.r) in old(db.Store()) then Some(old(db.Store())[KeyTuple(op.r)]) else None
  {
    answer := None;
    match op
    case OpSet(r) => var _ := db.Set(r);
    case OpGet(r) => var _, a := db.Get(r); answer := a;
    case OpDel(r) => var _ := db.Del(r);
  }

  /** Each get among the first n operations was answered with the latest record. */
  ghost predicate Answered(ops: seq<Op>, answers: seq<Option<Record>>, n: nat)
    requires n <= |ops| && n <= |answers|
  {
    forall i :: 0 <= i < n && ops[i].OpGet? && Packable(ops[i].r) ==> answers[i] == Latest(ops, i, KeyTuple(ops[i].r))
  }

  lemma AnsweredStep(ops: seq<Op>, answers: seq<Option<Record>>, store: Store, answer: Option<Record>)
    requires |answers| < |ops| && Answered(ops, answers, |answers|) && Agrees(store, ops, |answers|)
    requires var op := ops[|answers|]; op.OpGet? && Packable(op.r) ==>
      answer == if KeyTuple(op.r) in store then Some(store[KeyTuple(op.r)]) else None
    ensures Answered(ops, answers + [answer], |answers| + 1)
  {
  }

  /** memdb refines a finite map: in every run on one scheme, through any number of resizes and
      collisions, each get answers with the record last set for its key tuple. */
  method Run(scheme: Scheme, buckets: nat, hash: seq<byte> -> nat, behind: (Packed, nat) -> byte, ops: seq<Op>)
    returns (answers: seq<Option<Record>>)
    requires buckets > 0
    requires forall i :: 0 <= i < |ops| ==> Typed(ops[i].r) && SchemeOf(ops[i].r) == scheme
    ensures |answers| == |ops| && Answered(ops, answers, |ops|)
  {
    var db := new Database(scheme, buckets, hash, behind);
    answers := [];
    for i := 0 to |ops|
      invariant db.Valid() && db.scheme == scheme && fresh(db.ht) && fresh(db.ht.table)
      invariant Agrees(db.Store(), ops, i)
      invariant |answers| == i && Answered(ops, answers, i)
    {
      ghost var store := db.Store();
      AgreesStep(store, ops, i);
      var answer := Perform(db, ops[i]);
      AnsweredStep(ops, answers, store, answer);
      answers := answers + [answer];
    }
  }

  // ---------------------------------------------------------------- the janitor's walk

  /** dbt_common_validate: the record's expiry field, which must not be null. */
  predicate HasExpire(r: Record, e: nat) {
    e < |r| && r[e].data.Some? && r[e].data.value.VInt?
  }

  function Expire(r: Record, e: nat): int
    requires HasExpire(r, e)
  {
    LongOf(r[e].data.value.image)
  }

  ghost predicate Stale(s: Scheme, p: Packed, e: nat, schedule: int) {
    HasExpire(RecordOf(s, p), e) && schedule > Expire(RecordOf(s, p), e)
  }

  /** The body of memdb_walk with dbt_janitor_validate as its callback: unpack the record, and
      delete it when its expiry lies before the schedule. */
  method Visit(db: Database, p: Packed, ghost k: seq<Value>, e: nat, schedule: int) returns (removed: bool)
    requires db.Valid() && k in db.ht.M && db.ht.M[k] == p && HasExpire(RecordOf(db.scheme, p), e)
    modifies db.ht, db.ht.table
    ensures db.Valid() && db.ht.table == old(db.ht.table)
    ensures removed <==> Stale(db.scheme, p, e, schedule)
    ensures removed ==> db.ht.M == old(db.ht.M) - {k} && db.ht.Unlinked(old(db.ht.table[..]), db.ht.table[..], p)
    ensures !removed ==> db.ht.M == old(db.ht.M) && db.ht.table[..] == old(db.ht.table[..])
  {
    db.StoredIsPacked(k);
    var record := Unpack(p, db.scheme);
    removed := schedule > Expire(record.value, e);
    if removed {
      var _ := db.Del(record.value);
    }
  }

  /** The walk has visited all[..n] of the original map m0 and deleted what was stale. */
  ghost predicate Pruned(s: Scheme, m0: map<seq<Value>, Packed>, m: map<seq<Value>, Packed>,
                         all: seq<Packed>, n: nat, e: nat, schedule: int)
    requires n <= |all|
  {
    m == map k | k in m0 && !(m0[k] in all[..n] && Stale(s, m0[k], e, schedule)) :: m0[k]
  }

  lemma PrunedStep(s: Scheme, m0: map<seq<Value>, Packed>, m: map<seq<Value>, Packed>, m': map<seq<Value>, Packed>,
                   all: seq<Packed>, n: nat, k: seq<Value>, e: nat, schedule: int)
    requires n < |all| && Pruned(s, m0, m, all, n, e, schedule)
    requires k in m0 && m0[k] == all[n] && forall j :: j in m0 && m0[j] == all[n] ==> j == k
    requires m' == if Stale(s, all[n], e, schedule) then m - {k} else m
    ensures Pruned(s, m0, m', all, n + 1, e, schedule)
  {
    assert all[..n + 1] == all[..n] + [all[n]];
  }

  /** What survives a cleanup at the given schedule: exactly the records that expire no earlier. */
  ghost function Survivors(store: Store, e: nat, schedule: int): Store
    requires forall k :: k in store ==> HasExpire(store[k], e)
  {
    map k | k in store && Expire(store[k], e) >= schedule :: store[k]
  }

  /** The elements of all are stored, each under its key, and none is listed twice. */
  ghost predicate Listed(db: Database, m0: map<seq<Value>, Packed>, all: seq<Packed>, e: nat) {
    && NoDup(all)
    && (forall x :: x in all ==> db.ht.keyOf(x) in m0 && m0[db.ht.keyOf(x)] == x)
    && (forall k :: k in m0 ==> db.ht.keyOf(m0[k]) == k && HasExpire(RecordOf(db.scheme, m0[k]), e))
  }

  /** The walk stands before all[n]. */
  ghost predicate Walking(db: Database, pos: Pos<Packed>, m0: map<seq<Value>, Packed>, all: seq<Packed>, n: nat,
                          e: nat, schedule: int)
    reads db.ht, db.ht.table
  {
    && n <= |all| && Listed(db, m0, all, e)
    && db.Valid() && db.ht.ValidPos(pos) && Remaining(db.ht.table[..], pos) == all[n..]
    && Pruned(db.scheme, m0, db.ht.M, all, n, e, schedule)
  }

  /** The callback on p, with the cursor already behind it. */
  method Callback(db: Database, ghost m0: map<seq<Value>, Packed>, ghost all: seq<Packed>, p: Packed, ghost n: nat,
                  ghost pos: Pos<Packed>, e: nat, schedule: int) returns (removed: bool)
    requires db.Valid() && db.ht.ValidPos(pos)
    requires n < |all| && all[n] == p && Listed(db, m0, all, e)
    requires Remaining(db.ht.table[..], pos) == all[n + 1..]
    requires Pruned(db.scheme, m0, db.ht.M, all, n, e, schedule)
    modifies db.ht, db.ht.table
    ensures db.ht.table == old(db.ht.table)
    ensures Walking(db, pos, m0, all, n + 1, e, schedule)
    ensures |db.ht.M| == |old(db.ht.M)| - (if removed then 1 else 0)
  {
    ghost var k := db.ht.keyOf(p);
    ghost var b, m := db.ht.table[..], db.ht.M;
    assert p in all;
    assert p !in all[..n] && p !in all[n + 1..];
    assert k in m && m[k] == p;
    assert db.ht.Keyed(b, m, k);
    removed := Visit(db, p, k, e, schedule);
    PrunedStep(db.scheme, m0, m, db.ht.M, all, n, k, e, schedule);
    if removed {
      RemainingAfterUnlink(b, pos, db.ht.hash(p) % |b|, p);
      db.ht.RemovedSize(m, k);
    }
  }

  /** One turn of the walk: fetch, step the cursor, run the callback. */
  method Turn(db: Database, pos: Pos<Packed>, ghost m0: map<seq<Value>, Packed>, ghost all: seq<Packed>,
              visited: seq<Packed>, e: nat, schedule: int)
    returns (done: bool, pos': Pos<Packed>, visited': seq<Packed>, removed: bool)
    requires Walking(db, pos, m0, all, |visited|, e, schedule) && visited == all[..|visited|]
    modifies db.ht, db.ht.table
    ensures db.ht.table == old(db.ht.table)
    ensures |visited'| <= |all| && Walking(db, pos', m0, all, |visited'|, e, schedule) && visited' == all[..|visited'|]
    ensures if done then visited' == visited == all else |visited'| == |visited| + 1
    ensures |db.ht.M| == |old(db.ht.M)| - (if removed then 1 else 0)
  {
    var r;
    r, pos' := db.ht.Next(pos);
    done, visited', removed := r.None?, visited, false;
    if r.Some? {
      ghost var n := |visited|;
      Advance(all, n, r.value, Remaining(db.ht.table[..], pos'));
      visited' := visited + [r.value];
      removed := Callback(db, m0, all, r.value, n, pos', e, schedule);
    } else {
      assert |all[|visited|..]| == 0;
      PrefixAll(all);
    }
  }

  /** After the whole list, what is left are the survivors. */
  lemma WalkDone(s: Scheme, m0: map<seq<Value>, Packed>, m: map<seq<Value>, Packed>, all: seq<Packed>, e: nat,
                 schedule: int)
    requires Pruned(s, m0, m, all, |all|, e, schedule)
    requires forall k :: k in m0 ==> m0[k] in all && HasExpire(RecordOf(s, m0[k]), e)
    ensures Contents(s, m) == Survivors(Contents(s, m0), e, schedule)
  {
    assert all[..|all|] == all;
  }

  /** dbt_janitor_cleanup_walk on memdb. The callback removes the element just returned, and the
      walk still visits every original element exactly once. If removals have emptied the head
      bucket the walk sees nothing and nothing is deleted. */
  method CleanupWalk(db: Database, e: nat, schedule: int) returns (visited: seq<Packed>, deleted: nat)
    requires db.Valid() && forall k :: k in db.ht.M ==> HasExpire(RecordOf(db.scheme, db.ht.M[k]), e)
    modifies db.ht, db.ht.table
    ensures db.Valid()
    ensures visited == if old(db.ht.HeadOccupied()) then old(Flat(db.ht.table[..])) else []
    ensures NoDup(visited)
    ensures db.Store() == if old(db.ht.HeadOccupied()) then Survivors(old(db.Store()), e, schedule) else old(db.Store())
    ensures |db.ht.M| == |old(db.ht.M)| - deleted
  {
    ghost var m0, occupied := db.ht.M, db.ht.HeadOccupied();
    var pos, all := StartWalk(db, e, schedule);
    visited, deleted := WalkLoop(db, m0, all, pos, e, schedule);
    WalkEnd(db.scheme, m0, db.ht.M, all, occupied, e, schedule);
  }

  /** The walk order of all, or of nothing, from ht_start. */
  method StartWalk(db: Database, e: nat, schedule: int) returns (pos: Pos<Packed>, ghost all: seq<Packed>)
    requires db.Valid() && forall k :: k in db.ht.M ==> HasExpire(RecordOf(db.scheme, db.ht.M[k]), e)
    ensures Walking(db, pos, db.ht.M, all, 0, e, schedule) && NoDup(all)
    ensures all == if db.ht.HeadOccupied() then Flat(db.ht.table[..]) else []
    ensures db.ht.HeadOccupied() ==> forall k :: k in db.ht.M ==> db.ht.M[k] in all
  {
    AllListed(db, e);
    pos := db.ht.Start();
    all := Remaining(db.ht.table[..], pos);
    WalkStart(db.scheme, db.ht.M, all, e, schedule);
  }

  lemma WalkEnd(s: Scheme, m0: map<seq<Value>, Packed>, m: map<seq<Value>, Packed>, all: seq<Packed>, occupied: bool,
                e: nat, schedule: int)
    requires Pruned(s, m0, m, all, |all|, e, schedule)
    requires forall k :: k in m0 ==> HasExpire(RecordOf(s, m0[k]), e)
    requires if occupied then forall k :: k in m0 ==> m0[k] in all else all == []
    ensures Contents(s, m) == if occupied then Survivors(Contents(s, m0), e, schedule) else Contents(s, m0)
  {
    if occupied {
      WalkDone(s, m0, m, all, e, schedule);
    } else {
      assert m == m0;
    }
  }

  lemma WalkStart(s: Scheme, m0: map<seq<Value>, Packed>, all: seq<Packed>, e: nat, schedule: int)
    ensures Pruned(s, m0, m0, all, 0, e, schedule) && all == all[0..]
  {
  }

  /** The walk order lists the whole map. */
  lemma AllListed(db: Database, e: nat)
    requires db.Valid() && forall k :: k in db.ht.M ==> HasExpire(RecordOf(db.scheme, db.ht.M[k]), e)
    ensures Listed(db, db.ht.M, Flat(db.ht.table[..]), e) && Listed(db, db.ht.M, [], e)
    ensures forall k :: k in db.ht.M ==> db.ht.M[k] in Flat(db.ht.table[..])
  {
    db.ht.FlatIsMap(db.ht.table[..], db.ht.M);
    forall k | k in db.ht.M ensures db.ht.keyOf(db.ht.M[k]) == k {
      assert db.ht.Keyed(db.ht.table[..], db.ht.M, k);
    }
  }

  /** The loop of memdb_walk. */
  method WalkLoop(db: Database, ghost m0: map<seq<Value>, Packed>, ghost all: seq<Packed>, start: Pos<Packed>,
                  e: nat, schedule: int) returns (visited: seq<Packed>, deleted: nat)
    requires Walking(db, start, m0, all, 0, e, schedule) && db.ht.M == m0
    modifies db.ht, db.ht.table
    ensures db.Valid() && visited == all
    ensures Pruned(db.scheme, m0, db.ht.M, all, |all|, e, schedule)
    ensures |db.ht.M| == |m0| - deleted
  {
    var pos := start;
    visited, deleted := [], 0;
    var done := false;
    while !done
      invariant db.ht.table == old(db.ht.table)
      invariant |visited| <= |all| && Walking(db, pos, m0, all, |visited|, e, schedule) && visited == all[..|visited|]
      invariant |db.ht.M| == |m0| - deleted && (done ==> visited == all)
      decreases |all| - |visited|, if done then 0 else 1
    {
      var removed;
      done, pos, visited, removed := Turn(db, pos, m0, all, visited, e, schedule);
      deleted := deleted + if removed then 1 else 0;
    }
  }

  lemma PrefixAll<T>(s: seq<T>)
    ensures s[..|s|] == s
  {
  }

  lemma Advance<T>(all: seq<T>, n: nat, x: T, rest: seq<T>)
    requires n <= |all| && all[n..] == [x] + rest
    ensures n < |all| && all[n] == x && all[n + 1..] == rest && all[..n + 1] == all[..n] + [x]
  {
    assert |all[n..]| == 1 + |rest|;
    assert all[n..][0] == x && all[n..][1..] == rest;
  }
}
