/**
CAddrMan::Serialize and Unserialize as loops over the address manager's own maps and bucket arrays
(src/addrman.h:304-457), proved to do what the functions Save and Load of AddrStore say.
*/
module AddrFile {
  import AddrLoad
  import opened AddrTables
  import opened AddrStore
  import opened AddrManager
  import opened Basics

  // ---------------------------------------------------------------------------------------------
  // Walking a map in the order of its keys

  lemma {:induction false} AscendingPush(s: set<int>, x: int)
    requires forall y :: y in s ==> y < x
    ensures Ascending(s + {x}) == Ascending(s) + [x]
    decreases |s|
  {
    var l := Least(s + {x});
    if s == {} {
      assert l == x && s + {x} - {l} == {};
    } else {
      assert l == Least(s);
      assert s + {x} - {l} == (s - {l}) + {x};
      AscendingPush(s - {l}, x);
    }
  }

  /** The keys still ahead are all above those behind. */
  ghost predicate Ahead(keys: set<int>, todo: set<int>) {
    todo <= keys && forall i, j :: i in keys && i !in todo && j in todo ==> i < j
  }

  lemma AheadNext(keys: set<int>, todo: set<int>)
    requires Ahead(keys, todo) && todo != {}
    ensures var x := Least(todo);
      todo <= keys && x in keys && Ahead(keys, todo - {x}) && forall i :: i in keys && i !in todo ==> i < x
  {
  }

  /** The records of some entries, in the order of their ids. */
  ghost predicate Written(m: map<int, Info>, ids: set<int>, records: seq<Record>) {
    && (forall k :: 0 <= k < |Ascending(ids)| ==> Ascending(ids)[k] in m)
    && records == Records(m, Ascending(ids))
  }

  lemma WrittenNext(m: map<int, Info>, ids: set<int>, records: seq<Record>, x: int)
    requires Written(m, ids, records) && x in m && forall y :: y in ids ==> y < x
    ensures Written(m, ids + {x}, records + [ToRecord(m[x])])
  {
    AscendingPush(ids, x);
  }

  // ---------------------------------------------------------------------------------------------
  // Serialize

  /** The entries with references, and the number that stands for each entry. */
  method WriteNew(m: map<int, Info>, nNew: int) returns (news: seq<Record>, mapUnkIds: map<int, int>)
    requires nNew == |Referenced(m)|
    ensures Written(m, Referenced(m), news)
    ensures mapUnkIds.Keys == m.Keys && forall i :: i in m ==> mapUnkIds[i] == NumberOf(m, i)
  {
    hide Ascending, Written, NumberOf, Referenced, Ahead, Numbered;
    news, mapUnkIds := [], map[];
    KeysAhead(m.Keys);
    ReferencedIn(m);
    NumberedNone(m);
    var nIds, todo := 0, m.Keys;
    ghost var seen: set<int> := {};
    WrittenNone(m);
    while todo != {}
      invariant Ahead(m.Keys, todo) && Numbered(m, todo, mapUnkIds)
      invariant seen == Referenced(m) - todo && nIds == |seen| && Written(m, seen, news)
      decreases |todo|
    {
      AheadNext(m.Keys, todo);
      assert forall y :: y in seen ==> y in m.Keys && y !in todo;
      var it := Least(todo);
      NumberedNext(m, todo, mapUnkIds, it);
      mapUnkIds := mapUnkIds[it := nIds];
      if m[it].nRefCount != 0 {
        FewerThan(seen, Referenced(m), it);
        assert nIds != nNew;
        WrittenNext(m, seen, news, it);
        news := news + [ToRecord(m[it])];
        nIds := nIds + 1;
        seen := seen + {it};
      }
      todo := todo - {it};
    }
    assert seen == Referenced(m);
    NumberedAll(m, mapUnkIds);
  }

  /** Every key behind has its number. */
  ghost predicate Numbered(m: map<int, Info>, todo: set<int>, numbers: map<int, int>) {
    && (forall i :: i in numbers <==> i in m && i !in todo)
    && (forall i :: i in numbers ==> numbers[i] == NumberOf(m, i))
  }

  lemma NumberedNext(m: map<int, Info>, todo: set<int>, numbers: map<int, int>, x: int)
    requires Numbered(m, todo, numbers) && Ahead(m.Keys, todo) && x in todo && forall y :: y in todo ==> x <= y
    ensures Numbered(m, todo - {x}, numbers[x := |Referenced(m) - todo|])
  {
    NumberReached(m, todo, x);
    hide NumberOf, Referenced;
  }

  lemma NumberedAll(m: map<int, Info>, numbers: map<int, int>)
    requires Numbered(m, {}, numbers)
    ensures numbers.Keys == m.Keys && forall i :: i in m ==> numbers[i] == NumberOf(m, i)
  {
    hide NumberOf;
    forall i ensures i in numbers.Keys <==> i in m.Keys {
    }
  }

  lemma NumberedNone(m: map<int, Info>)
    ensures Numbered(m, m.Keys, map[])
  {
  }

  lemma KeysAhead(keys: set<int>)
    ensures Ahead(keys, keys)
  {
  }

  lemma ReferencedIn(m: map<int, Info>)
    ensures Referenced(m) <= m.Keys && forall i :: i in m ==> (i in Referenced(m) <==> m[i].nRefCount != 0)
  {
  }

  lemma WrittenNone(m: map<int, Info>)
    ensures Written(m, {}, [])
  {
  }

  /** At its turn, the references counted so far are the entry's number. */
  lemma NumberReached(m: map<int, Info>, todo: set<int>, x: int)
    requires Ahead(m.Keys, todo) && x in todo && forall y :: y in todo ==> x <= y
    ensures |Referenced(m) - todo| == NumberOf(m, x)
  {
    var below := set j | j in Referenced(m) && j < x;
    forall j ensures j in Referenced(m) - todo <==> j in below {
      assert j in Referenced(m) ==> j in m.Keys;
    }
    assert Referenced(m) - todo == below;
  }

  lemma FewerThan(a: set<int>, b: set<int>, x: int)
    requires a <= b && x in b && x !in a
    ensures |a| < |b|
  {
    SubsetSize(a + {x}, b);
  }

  method WriteTried(m: map<int, Info>, nTried: int) returns (trieds: seq<Record>)
    requires nTried == |TriedIds(m)|
    ensures Written(m, TriedIds(m), trieds)
  {
    hide Ascending, Written, Ahead;
    trieds := [];
    KeysAhead(m.Keys);
    var nIds, todo := 0, m.Keys;
    ghost var seen: set<int> := {};
    WrittenNone(m);
    while todo != {}
      invariant Ahead(m.Keys, todo)
      invariant seen == TriedIds(m) - todo && nIds == |seen| && Written(m, seen, trieds)
      decreases |todo|
    {
      AheadNext(m.Keys, todo);
      assert forall y :: y in seen ==> y in m.Keys && y !in todo;
      var it := Least(todo);
      if m[it].fInTried {
        FewerThan(seen, TriedIds(m), it);
        assert nIds != nTried;
        WrittenNext(m, seen, trieds, it);
        trieds := trieds + [ToRecord(m[it])];
        nIds := nIds + 1;
        seen := seen + {it};
      }
      todo := todo - {it};
    }
    assert seen == TriedIds(m);
  }

  /** The entry numbers of one bucket, after their number. */
  method WriteBucket(a: AddrMan, mapUnkIds: map<int, int>, bucket: nat) returns (list: seq<int>)
    requires a.Shaped() && bucket < NEW_BUCKET_COUNT
    requires forall i :: i in mapUnkIds ==> mapUnkIds[i] == NumberOf(a.mapInfo, i)
    requires forall s :: s in a.T().news ==> a.T().news[s] in mapUnkIds
    ensures list == BucketBelow(a.T(), bucket, BUCKET_SIZE)
  {
    hide NumberOf;
    var nSize := 0;
    for i := 0 to BUCKET_SIZE
      invariant nSize == |BucketBelow(a.T(), bucket, i)|
    {
      if a.vvNew[bucket, i] != EMPTY_SLOT {
        nSize := nSize + 1;
      }
    }
    list := [];
    for i := 0 to BUCKET_SIZE
      invariant list == BucketBelow(a.T(), bucket, i)
    {
      ghost var s := Slot(bucket, i);
      assert s in a.T().news <==> a.vvNew[bucket, i] != EMPTY_SLOT;
      if a.vvNew[bucket, i] != EMPTY_SLOT {
        assert a.T().news[s] == a.vvNew[bucket, i];
        list := list + [mapUnkIds[a.vvNew[bucket, i]]];
      }
    }
    assert nSize == |list|;
  }

  method Serialize(a: AddrMan) returns (s: Saved)
    requires a.Shaped() && Consistent(a.h, a.T())
    ensures s == Save(a.T())
  {
    hide Consistent, BucketBelow, NumberOf, Ascending, Occupied;
    ghost var t := a.T();
    StoredCounts(a.h, t);
    var news, mapUnkIds := WriteNew(a.mapInfo, a.nNew);
    var trieds := WriteTried(a.mapInfo, a.nTried);
    var buckets: seq<seq<int>> := [];
    for bucket := 0 to NEW_BUCKET_COUNT
      invariant |buckets| == bucket && forall b :: 0 <= b < bucket ==> buckets[b] == BucketBelow(t, b, BUCKET_SIZE)
    {
      var list := WriteBucket(a, mapUnkIds, bucket);
      buckets := buckets + [list];
    }
    s := Saved(VERSION, KEY_SIZE, news, trieds, buckets);
    assert buckets == Save(t).buckets;
  }

  lemma StoredCounts(h: Hasher, t: Tables)
    requires Consistent(h, t)
    ensures t.nNew == |Referenced(t.mapInfo)| && t.nTried == |TriedIds(t.mapInfo)|
    ensures forall s :: s in t.news ==> t.news[s] in t.mapInfo
  {
    StoredInOrder(h, t);
    AscendingExact(Referenced(t.mapInfo));
    AscendingExact(TriedIds(t.mapInfo));
    SlotEntries(h, t, {}, 0);
  }

  // ---------------------------------------------------------------------------------------------
  // What holds while tables are being loaded, whatever was stored

  /** Ids are below nIdCount, those of the new entries all exist, and the random order is exact. */
  ghost predicate Loading(t: Tables, count: nat) {
    && RandomOk(t.mapInfo, t.vRandom) && t.nNew == count
    && count <= t.nIdCount && (forall i :: i in t.mapInfo ==> 0 <= i < t.nIdCount)
    && (forall i :: 0 <= i < count ==> i in t.mapInfo)
  }

  lemma RandomPush(m: map<int, Info>, v: seq<int>, k: int, e: Info)
    requires RandomOk(m, v) && k !in m && e.nRandomPos == |v|
    ensures RandomOk(m[k := e], v + [k])
  {
    forall p | 0 <= p < |v| ensures v[p] in m {
    }
  }

  lemma {:induction false} NewLoading(h: Hasher, s: Saved, n: nat)
    requires n <= |s.news|
    ensures var t := LoadNew(h, s, n); Loading(t, n) && t.nIdCount == n && t.nTried == 0
  {
    hide Loading, PutHome, OneNew;
    if n == 0 {
      NothingLoading();
    } else {
      NewLoading(h, s, n - 1);
      var t, k := LoadNew(h, s, n - 1), n - 1;
      OneLoading(t, k, s.news[k]);
      HomeLoading(h, OneNew(t, k, s.news[k]), k, n);
    }
  }

  lemma NothingLoading()
    ensures Loading(EMPTY, 0)
  {
  }

  lemma OneLoading(t: Tables, k: nat, r: Record)
    requires Loading(t, k) && t.nIdCount == k
    ensures var u := OneNew(t, k, r);
      Loading(u, k + 1) && k in u.mapInfo && u.nIdCount == k + 1 && u.nTried == t.nTried
  {
    hide RandomOk;
    RandomPush(t.mapInfo, t.vRandom, k, FromRecord(r).(nRandomPos := |t.vRandom|));
  }

  lemma HomeLoading(h: Hasher, t: Tables, k: int, count: nat)
    requires Loading(t, count) && k in t.mapInfo
    ensures var u := PutHome(h, t, k); Loading(u, count) && u.nIdCount == t.nIdCount && u.nTried == t.nTried
  {
    hide RandomOk;
    SamePositions(t.mapInfo, PutHome(h, t, k).mapInfo, t.vRandom);
  }

  lemma {:induction false} TriedLoading(h: Hasher, s: Saved, n: nat)
    requires n <= |s.trieds|
    ensures Loading(LoadTried(h, s, n), |s.news|)
  {
    if n == 0 {
      NewLoading(h, s, |s.news|);
    } else {
      TriedLoading(h, s, n - 1);
      var t, r := LoadTried(h, s, n - 1), s.trieds[n - 1];
      RandomPush(t.mapInfo, t.vRandom, t.nIdCount, FromRecord(r).(nRandomPos := |t.vRandom|, fInTried := true));
    }
  }

  lemma IndexLoading(h: Hasher, t: Tables, bucket: nat, index: int, count: nat)
    requires Loading(t, count)
    ensures Loading(LoadIndex(h, t, bucket, index, count), count)
  {
    var u := LoadIndex(h, t, bucket, index, count);
    SamePositions(t.mapInfo, u.mapInfo, t.vRandom);
  }

  lemma {:induction false} BucketLoading(h: Hasher, t: Tables, bucket: nat, list: seq<int>, count: nat)
    requires Loading(t, count)
    ensures Loading(LoadBucket(h, t, bucket, list, count), count)
  {
    if list != [] {
      var init := list[..|list| - 1];
      BucketLoading(h, t, bucket, init, count);
      IndexLoading(h, LoadBucket(h, t, bucket, init, count), bucket, list[|list| - 1], count);
    }
  }

  lemma {:induction false} BucketsLoading(h: Hasher, s: Saved, n: nat)
    requires n <= |s.buckets|
    ensures Loading(LoadBuckets(h, s, n), |s.news|)
  {
    if n == 0 {
      TriedLoading(h, s, |s.trieds|);
    } else {
      BucketsLoading(h, s, n - 1);
      BucketLoading(h, LoadBuckets(h, s, n - 1), n - 1, s.buckets[n - 1], |s.news|);
    }
  }

  // ---------------------------------------------------------------------------------------------
  // Unserialize

  /** The new entries; the two counters have been read. */
  method ReadNew(a: AddrMan, s: Saved)
    requires a.Shaped() && a.T() == EMPTY.(nNew := |s.news|, nTried := |s.trieds|)
    modifies a`mapInfo, a`mapAddr, a`vRandom, a`nIdCount, a.vvNew
    ensures a.T() == LoadNew(a.h, s, |s.news|).(nTried := |s.trieds|)
  {
    hide Occupied, PutHome;
    var n := 0;
    while n < a.nNew
      invariant 0 <= n <= |s.news|
      invariant a.T() == LoadNew(a.h, s, n).(nNew := |s.news|, nTried := |s.trieds|, nIdCount := 0)
    {
      ghost var was := LoadNew(a.h, s, n);
      NewLoading(a.h, s, n);
      var info := FromRecord(s.news[n]);
      a.mapAddr := a.mapAddr[info.addr.svc.ip := n];
      a.mapInfo := a.mapInfo[n := info.(nRandomPos := |a.vRandom|)];
      a.vRandom := a.vRandom + [n];
      if s.version != VERSION || |s.buckets| != NEW_BUCKET_COUNT {
        HomeAlike(a.h, OneNew(was, n, s.news[n]), n, |s.news|, |s.trieds|);
        PlaceAtHome(a, n);
      }
      n := n + 1;
    }
    a.nIdCount := a.nNew;
    NewLoading(a.h, s, |s.news|);
  }

  lemma HomeAlike(h: Hasher, t: Tables, k: int, nNew: int, nTried: int)
    requires k in t.mapInfo
    ensures var u := PutHome(h, t, k);
      PutHome(h, t.(nNew := nNew, nTried := nTried, nIdCount := 0), k) ==
        u.(nNew := nNew, nTried := nTried, nIdCount := 0)
  {
  }

  /** A place in the new table that only depends on where the entry was heard of. */
  method PlaceAtHome(a: AddrMan, n: nat)
    requires a.Shaped() && n in a.mapInfo
    modifies a`mapInfo, a.vvNew
    ensures a.T() == PutHome(a.h, old(a.T()), n)
  {
    var info := a.mapInfo[n];
    var nUBucket := a.h.NewBucket(info.addr.svc, info.source);
    var nUBucketPos := a.h.BucketPosition(true, nUBucket, info.addr.svc);
    assert Slot(nUBucket, nUBucketPos) in a.T().news <==> a.vvNew[nUBucket, nUBucketPos] != EMPTY_SLOT;
    hide Occupied;
    if a.vvNew[nUBucket, nUBucketPos] == EMPTY_SLOT {
      SetSlot(a.vvNew, Slot(nUBucket, nUBucketPos), n);
      a.mapInfo := a.mapInfo[n := info.(nRefCount := info.nRefCount + 1)];
    }
  }

  /** The tried entries, each put into its slot unless that is taken. */
  method ReadTried(a: AddrMan, s: Saved)
    requires a.Shaped() && a.T() == LoadNew(a.h, s, |s.news|).(nTried := |s.trieds|)
    modifies a`mapInfo, a`mapAddr, a`vRandom, a`nIdCount, a`nTried, a.vvTried
    ensures a.T() == LoadTried(a.h, s, |s.trieds|)
  {
    hide Occupied, LoadNew, LoadTried, OneTried;
    TriedStart(a.h, s);
    var n, nLost := 0, 0;
    while n < a.nTried
      invariant 0 <= n <= |s.trieds| && nLost == n - LoadTried(a.h, s, n).nTried
      invariant a.T() == LoadTried(a.h, s, n).(nTried := |s.trieds|)
    {
      TriedNext(a.h, s, n, |s.trieds|);
      var lost := ReadOneTried(a, s.trieds[n]);
      if lost {
        nLost := nLost + 1;
      }
      n := n + 1;
    }
    a.nTried := a.nTried - nLost;
  }

  lemma TriedStart(h: Hasher, s: Saved)
    ensures LoadTried(h, s, 0) == LoadNew(h, s, |s.news|) && LoadTried(h, s, 0).nTried == 0
  {
    NewLoading(h, s, |s.news|);
  }

  lemma TriedNext(h: Hasher, s: Saved, n: nat, count: nat)
    requires n < |s.trieds|
    ensures var t, r := LoadTried(h, s, n), s.trieds[n];
      var u, v := t.(nTried := count), LoadTried(h, s, n + 1);
      if h.TriedSlot(r.addr.svc) in u.tried then v == t
      else v.(nTried := count) == OneTried(h, u, r).(nTried := count) && v.nTried == t.nTried + 1
    ensures LoadTried(h, s, n).nIdCount >= 0
  {
    TriedLoading(h, s, n);
  }

  method ReadOneTried(a: AddrMan, r: Record) returns (lost: bool)
    requires a.Shaped() && a.nIdCount >= 0
    modifies a`mapInfo, a`mapAddr, a`vRandom, a`nIdCount, a.vvTried
    ensures var t, k := old(a.T()), a.h.TriedSlot(r.addr.svc);
      && (lost <==> k in t.tried) && (lost ==> a.T() == t)
      && (!lost ==> a.T() == OneTried(a.h, t, r).(nTried := t.nTried))
  {
    var info := FromRecord(r);
    var nKBucket := a.h.TriedBucket(info.addr.svc);
    var nKBucketPos := a.h.BucketPosition(false, nKBucket, info.addr.svc);
    assert Slot(nKBucket, nKBucketPos) in a.T().tried <==> a.vvTried[nKBucket, nKBucketPos] != EMPTY_SLOT;
    hide Occupied;
    if a.vvTried[nKBucket, nKBucketPos] == EMPTY_SLOT {
      info := info.(nRandomPos := |a.vRandom|, fInTried := true);
      a.vRandom := a.vRandom + [a.nIdCount];
      a.mapInfo := a.mapInfo[a.nIdCount := info];
      a.mapAddr := a.mapAddr[info.addr.svc.ip := a.nIdCount];
      SetSlot(a.vvTried, Slot(nKBucket, nKBucketPos), a.nIdCount);
      a.nIdCount := a.nIdCount + 1;
      lost := false;
    } else {
      lost := true;
    }
  }

  /** The positions in the new table. */
  method ReadBuckets(a: AddrMan, s: Saved)
    requires a.Shaped() && a.T() == LoadTried(a.h, s, |s.trieds|)
    modifies a`mapInfo, a.vvNew
    ensures a.T() == LoadBuckets(a.h, s, |s.buckets|)
  {
    hide Occupied, LoadBucket, LoadTried, Loading;
    var bucket := 0;
    while bucket < |s.buckets|
      invariant 0 <= bucket <= |s.buckets| && a.T() == LoadBuckets(a.h, s, bucket)
    {
      BucketsLoading(a.h, s, bucket);
      CountIs(a.h, s, bucket);
      if s.version == VERSION && |s.buckets| == NEW_BUCKET_COUNT {
        ReadBucket(a, bucket, s.buckets[bucket]);
      }
      bucket := bucket + 1;
    }
  }

  lemma CountIs(h: Hasher, s: Saved, n: nat)
    requires n <= |s.buckets|
    ensures LoadBuckets(h, s, n).nNew == |s.news|
  {
    BucketsLoading(h, s, n);
  }

  method ReadBucket(a: AddrMan, bucket: nat, list: seq<int>)
    requires a.Shaped() && bucket < NEW_BUCKET_COUNT && a.nNew >= 0 && Loading(a.T(), a.nNew)
    modifies a`mapInfo, a.vvNew
    ensures a.T() == LoadBucket(a.h, old(a.T()), bucket, list, a.nNew)
  {
    hide Occupied, Loading, LoadIndex;
    ghost var t := a.T();
    var nSize := |list|;
    var n := 0;
    while n < nSize
      invariant 0 <= n <= nSize && a.T() == LoadBucket(a.h, t, bucket, list[..n], a.nNew)
    {
      BucketLoading(a.h, t, bucket, list[..n], a.nNew);
      ReadIndex(a, bucket, list[n]);
      assert list[..n + 1][..n] == list[..n];
      n := n + 1;
    }
    assert list[..n] == list;
  }

  method ReadIndex(a: AddrMan, bucket: nat, nIndex: int)
    requires a.Shaped() && bucket < NEW_BUCKET_COUNT && a.nNew >= 0 && Loading(a.T(), a.nNew)
    modifies a`mapInfo, a.vvNew
    ensures a.T() == LoadIndex(a.h, old(a.T()), bucket, nIndex, a.nNew)
  {
    hide RandomOk;
    if nIndex >= 0 && nIndex < a.nNew {
      assert nIndex in a.T().mapInfo;
      var info := a.mapInfo[nIndex];
      var nUBucketPos := a.h.BucketPosition(true, bucket, info.addr.svc);
      assert Slot(bucket, nUBucketPos) in a.T().news <==> a.vvNew[bucket, nUBucketPos] != EMPTY_SLOT;
      hide Occupied;
      if a.vvNew[bucket, nUBucketPos] == EMPTY_SLOT && info.nRefCount < NEW_BUCKETS_PER_ADDRESS {
        a.mapInfo := a.mapInfo[nIndex := info.(nRefCount := info.nRefCount + 1)];
        SetSlot(a.vvNew, Slot(bucket, nUBucketPos), nIndex);
      }
    }
  }

  /** The entries still ahead are as they were, up to their place in the random order. */
  ghost predicate Untouched(was: map<int, Info>, now: map<int, Info>, todo: set<int>) {
    forall i :: i in todo ==> i in was && i in now && now[i] == was[i].(nRandomPos := now[i].nRandomPos)
  }

  lemma PruneNext(t: Tables, ids: set<int>, x: int)
    requires forall y :: y in ids ==> y < x
    ensures var u := Prune(t, Ascending(ids));
      Prune(t, Ascending(ids + {x})) == if CanDelete(u, x) then Delete(u, x) else u
  {
    AscendingPush(ids, x);
    var list := Ascending(ids) + [x];
    assert list[..|list| - 1] == Ascending(ids);
  }

  lemma DeleteNext(t: Tables, u: Tables, x: int, todo: set<int>)
    requires RandomOk(u.mapInfo, u.vRandom) && Untouched(t.mapInfo, u.mapInfo, todo) && x in todo
    requires !u.mapInfo[x].fInTried && u.mapInfo[x].nRefCount == 0
    ensures CanDelete(u, x)
    ensures var v := Delete(u, x); RandomOk(v.mapInfo, v.vRandom) && Untouched(t.mapInfo, v.mapInfo, todo - {x})
  {
    hide RandomOk, CanDelete, Delete;
    DeleteRandom(u, x);
  }

  /** Deletes the entries that got no slot; the asserts of Delete hold. */
  method PruneUnplaced(a: AddrMan)
    requires a.Shaped() && RandomOk(a.mapInfo, a.vRandom)
    modifies a`mapInfo, a`vRandom, a`mapAddr, a`nNew
    ensures a.T() == Prune(old(a.T()), Ascending(Unplaced(old(a.mapInfo))))
  {
    hide Occupied, RandomOk, CanDelete, Delete, Prune, Ascending, Ahead, Untouched;
    ghost var t := a.T();
    var todo := a.mapInfo.Keys;
    ghost var seen: set<int> := {};
    KeysAhead(todo);
    PruneStart(t);
    while todo != {}
      invariant Ahead(t.mapInfo.Keys, todo) && seen == Unplaced(t.mapInfo) - todo
      invariant a.T() == Prune(t, Ascending(seen))
      invariant RandomOk(a.mapInfo, a.vRandom) && Untouched(t.mapInfo, a.mapInfo, todo)
      decreases |todo|
    {
      AheadNext(t.mapInfo.Keys, todo);
      var it := Least(todo);
      UntouchedAt(t.mapInfo, a.mapInfo, todo, it);
      if a.mapInfo[it].fInTried == false && a.mapInfo[it].nRefCount == 0 {
        PruneNext(t, seen, it);
        DeleteNext(t, a.T(), it, todo);
        a.Delete(it);
        seen := seen + {it};
      }
      todo := todo - {it};
    }
    assert seen == Unplaced(t.mapInfo);
  }

  lemma PruneStart(t: Tables)
    ensures Prune(t, Ascending({})) == t && Untouched(t.mapInfo, t.mapInfo, t.mapInfo.Keys)
  {
  }

  lemma UntouchedAt(was: map<int, Info>, now: map<int, Info>, todo: set<int>, x: int)
    requires Untouched(was, now, todo) && x in todo
    ensures x in was && x in now && now[x] == was[x].(nRandomPos := now[x].nRandomPos)
    ensures Untouched(was, now, todo - {x})
  {
  }

  /** Reads into a new manager; false stands for the exceptions. */
  method Unserialize(a: AddrMan, s: Saved) returns (ok: bool)
    requires a.Shaped() && a.T() == EMPTY
    modifies a, a.vvTried, a.vvNew
    ensures ok <==> Load(a.h, s).Some?
    ensures ok ==> a.T() == Load(a.h, s).value
    ensures ok && AddrLoad.Sound(s) ==> Consistent(a.h, a.T())
  {
    hide Occupied, Consistent, AddrLoad.Sound, AddrLoad.From, LoadNew, LoadTried, LoadBuckets, Prune, Ascending,
      Unplaced, RandomOk;
    if s.keySize != KEY_SIZE {
      return false;
    }
    a.nNew, a.nTried := |s.news|, |s.trieds|;
    if a.nNew > NEW_BUCKET_COUNT * BUCKET_SIZE {
      return false;
    }
    if a.nTried > TRIED_BUCKET_COUNT * BUCKET_SIZE {
      return false;
    }
    ReadNew(a, s);
    ReadTried(a, s);
    ReadBuckets(a, s);
    BucketsLoading(a.h, s, |s.buckets|);
    PruneUnplaced(a);
    ok := true;
    if AddrLoad.Sound(s) {
      AddrLoad.LoadConsistent(a.h, s);
    }
  }

  /** One manager saves itself, and a new one loads what was saved. */
  method Reload(a: AddrMan) returns (b: AddrMan)
    requires a.Shaped() && Consistent(a.h, a.T())
    ensures fresh(b) && b.Shaped() && b.h == a.h
    ensures Renumbered(a.T(), b.T(), Stored(a.mapInfo)) && Consistent(b.h, b.T())
  {
    hide Occupied, Consistent, Save, Load, Renumbered;
    ghost var t := a.T();
    var s := Serialize(a);
    b := new AddrMan(a.h);
    RoundTrip(a.h, t);
    var ok := Unserialize(b, s);
    assert a.T() == t;
  }
}
