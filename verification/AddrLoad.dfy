/**
What loading makes of a file that this program need not have written (src/addrman.h:354-457): the format
is meant to survive another version and other table sizes.
*/
module AddrLoad {
  import opened AddrTables
  import opened AddrStore
  import opened Basics

  function AllRecords(s: Saved): seq<Record> { s.news + s.trieds }

  /** No address twice, and times as an address manager leaves them. */
  ghost predicate Sound(s: Saved) {
    var rs := AllRecords(s);
    && (forall j, k :: 0 <= j < k < |rs| ==> rs[j].addr.svc.ip != rs[k].addr.svc.ip)
    && (forall k :: 0 <= k < |rs| ==> rs[k].nLastSuccess >= 0)
    && (forall k :: 0 <= k < |s.trieds| ==> s.trieds[k].nLastSuccess != 0)
  }

  /** Every entry is one of the first n that are stored. */
  ghost predicate From(rs: seq<Record>, n: nat, m: map<int, Info>) {
    n <= |rs| && forall i :: i in m ==> exists k :: 0 <= k < n && ToRecord(m[i]) == rs[k]
  }

  /** While loading, only entries without a slot are wrong, and the new ones come first. */
  ghost predicate Halfway(h: Hasher, t: Tables, rs: seq<Record>, n: nat, count: nat) {
    && Nearly(h, t, Unplaced(t.mapInfo), 0) && From(rs, n, t.mapInfo)
    && forall i :: 0 <= i < count ==> i in t.mapInfo && !t.mapInfo[i].fInTried
  }

  lemma Loosen(h: Hasher, t: Tables, loose: set<int>, more: set<int>, off: int)
    requires Nearly(h, t, loose, off) && loose <= more
    ensures Nearly(h, t, more, off)
  {
    hide RandomOk, AddrOk, NewOk, TriedOk, Counted;
    forall i | i in t.mapInfo ensures EntryOk(t.mapInfo[i], |Occurrences(t.news, i)|, i in more) {
      assert EntryOk(t.mapInfo[i], |Occurrences(t.news, i)|, i in loose);
    }
  }

  /** The address of the next entry is not there yet. */
  lemma NextIsNew(h: Hasher, t: Tables, s: Saved, n: nat, count: nat)
    requires Halfway(h, t, AllRecords(s), n, count) && Sound(s) && n < |AllRecords(s)|
    ensures AllRecords(s)[n].addr.svc.ip !in t.mapAddr
  {
    hide RandomOk, EntriesOk, NewOk, TriedOk, Counted;
    var rs := AllRecords(s);
    forall x | x in t.mapAddr ensures x != rs[n].addr.svc.ip {
      var i := t.mapAddr[x];
      var k :| 0 <= k < n && ToRecord(t.mapInfo[i]) == rs[k];
      assert rs[k].addr.svc.ip == x;
    }
  }

  lemma FromMore(rs: seq<Record>, n: nat, m: map<int, Info>, i: int, e: Info)
    requires From(rs, n, m) && n < |rs| && ToRecord(e) == rs[n]
    ensures From(rs, n + 1, m[i := e])
  {
    var k := m[i := e];
    forall j | j in k ensures exists p :: 0 <= p < n + 1 && ToRecord(k[j]) == rs[p] {
      if j == i {
        assert ToRecord(k[j]) == rs[n];
      } else {
        var p :| 0 <= p < n && ToRecord(m[j]) == rs[p];
        assert ToRecord(k[j]) == rs[p];
      }
    }
  }

  /** A changed reference count does not change what is stored of an entry. */
  lemma FromSame(rs: seq<Record>, n: nat, m: map<int, Info>, k: map<int, Info>)
    requires From(rs, n, m) && forall i :: i in k ==> i in m && ToRecord(k[i]) == ToRecord(m[i])
    ensures From(rs, n, k)
  {
    forall i | i in k ensures exists p :: 0 <= p < n && ToRecord(k[i]) == rs[p] {
      var p :| 0 <= p < n && ToRecord(m[i]) == rs[p];
      assert ToRecord(k[i]) == rs[p];
    }
  }

  // ---------------------------------------------------------------------------------------------
  // The new entries

  /** One new entry. */
  lemma EnterHalfway(h: Hasher, t: Tables, s: Saved, k: nat)
    requires Halfway(h, t, AllRecords(s), k, k) && Sound(s) && k < |s.news| && t.nIdCount == k == t.nNew
    ensures Halfway(h, OneNew(t, k, s.news[k]), AllRecords(s), k + 1, k + 1)
  {
    hide Nearly, From, Sound;
    var e := FromRecord(s.news[k]).(nRandomPos := |t.vRandom|);
    var u := OneNew(t, k, s.news[k]);
    NextIsNew(h, t, s, k, k);
    SoundTime(s, k);
    EnterKeeps(h, t, Unplaced(t.mapInfo), 0, e);
    assert u == Entered(t, e).(nNew := k + 1);
    OneLater(h, Entered(t, e), Unplaced(t.mapInfo) + {k});
    assert Unplaced(u.mapInfo) == Unplaced(t.mapInfo) + {k};
    FromMore(AllRecords(s), k, t.mapInfo, k, e);
  }

  lemma SoundTime(s: Saved, k: nat)
    requires Sound(s) && k < |AllRecords(s)|
    ensures AllRecords(s)[k].nLastSuccess >= 0
    ensures k < |s.news| ==> AllRecords(s)[k] == s.news[k]
    ensures k >= |s.news| ==> AllRecords(s)[k] == s.trieds[k - |s.news|] && AllRecords(s)[k].nLastSuccess != 0
  {
  }

  lemma OneLater(h: Hasher, t: Tables, loose: set<int>)
    requires Nearly(h, t, loose, 1)
    ensures Nearly(h, t.(nNew := t.nNew + 1), loose, 0)
  {
    hide RandomOk, AddrOk, EntriesOk, NewOk, TriedOk;
  }

  /** An untried entry takes a slot of its own that is free. */
  lemma PutHalfway(h: Hasher, t: Tables, rs: seq<Record>, n: nat, count: nat, i: int, s: Slot)
    requires Halfway(h, t, rs, n, count) && 0 <= i < count && t.mapInfo[i].nRefCount < NEW_BUCKETS_PER_ADDRESS
    requires s !in t.news && s.bucket < NEW_BUCKET_COUNT && s == h.NewSlot(t.mapInfo[i].addr.svc, s.bucket)
    ensures Halfway(h, PutNew(t, i, s), rs, n, count)
  {
    hide Nearly, From;
    var loose, u := Unplaced(t.mapInfo) - {i}, PutNew(t, i, s);
    Loosen(h, t, Unplaced(t.mapInfo), loose + {i}, 0);
    NotNegative(h, t, i);
    PutNewKeeps(h, t, loose, 0, i, s);
    assert Unplaced(u.mapInfo) == loose;
    FromSame(rs, n, t.mapInfo, u.mapInfo);
  }

  lemma NotNegative(h: Hasher, t: Tables, i: int)
    requires Nearly(h, t, Unplaced(t.mapInfo), 0) && i in t.mapInfo
    ensures t.mapInfo[i].nRefCount >= 0
  {
    hide RandomOk, AddrOk, NewOk, TriedOk, Counted;
    assert EntryOk(t.mapInfo[i], |Occurrences(t.news, i)|, i in Unplaced(t.mapInfo));
  }

  /** All the new entries, with a slot from their source if the stored slots cannot be used. */
  lemma {:induction false} NewHalfway(h: Hasher, s: Saved, n: nat)
    requires Sound(s) && n <= |s.news|
    ensures var t := LoadNew(h, s, n);
      && Halfway(h, t, AllRecords(s), n, n) && t.nIdCount == n == t.nNew && t.tried == map[]
      && (!Usable(s) ==> forall k :: 0 <= k < n ==> HomeSlot(h, FromRecord(s.news[k])) in t.news)
  {
    hide Nearly, From, Sound;
    if n == 0 {
      NothingHalfway(h, AllRecords(s));
    } else {
      var k := n - 1;
      NewHalfway(h, s, k);
      var t := LoadNew(h, s, k);
      EnterHalfway(h, t, s, k);
      var u := OneNew(t, k, s.news[k]);
      if !Usable(s) && HomeSlot(h, u.mapInfo[k]) !in u.news {
        PutHalfway(h, u, AllRecords(s), n, n, k, HomeSlot(h, u.mapInfo[k]));
      }
    }
  }

  lemma NothingHalfway(h: Hasher, rs: seq<Record>)
    ensures Halfway(h, EMPTY, rs, 0, 0)
  {
    EmptyConsistent(h);
    assert Unplaced(EMPTY.mapInfo) == {};
  }

  // ---------------------------------------------------------------------------------------------
  // The tried entries and the slots

  /** One tried entry whose slot is free. */
  lemma TriedHalfway(h: Hasher, t: Tables, s: Saved, n: nat)
    requires n < |s.trieds| && Halfway(h, t, AllRecords(s), |s.news| + n, |s.news|) && Sound(s)
    requires |s.news| <= t.nIdCount && h.TriedSlot(s.trieds[n].addr.svc) !in t.tried
    ensures Halfway(h, OneTried(h, t, s.trieds[n]), AllRecords(s), |s.news| + n + 1, |s.news|)
  {
    hide Nearly, From, Sound;
    var rs, p := AllRecords(s), |s.news| + n;
    var i, e := t.nIdCount, FromRecord(s.trieds[n]).(nRandomPos := |t.vRandom|);
    var k := h.TriedSlot(s.trieds[n].addr.svc);
    NextIsNew(h, t, s, p, |s.news|);
    SoundTime(s, p);
    EnterKeeps(h, t, Unplaced(t.mapInfo), 0, e);
    var v := Entered(t, e);
    PromoteKeeps(h, v, Unplaced(t.mapInfo), 1, i, k);
    var u := Promote(v, i, k);
    assert u == OneTried(h, t, s.trieds[n]) && u.mapInfo == t.mapInfo[i := e.(fInTried := true)];
    assert Unplaced(u.mapInfo) == Unplaced(t.mapInfo);
    FromMore(rs, p, t.mapInfo, i, e.(fInTried := true));
  }

  lemma {:induction false} TriedsHalfway(h: Hasher, s: Saved, n: nat)
    requires Sound(s) && n <= |s.trieds|
    ensures var t := LoadTried(h, s, n);
      && Halfway(h, t, AllRecords(s), |s.news| + n, |s.news|) && |s.news| <= t.nIdCount
      && (forall k :: 0 <= k < n ==> h.TriedSlot(s.trieds[k].addr.svc) in t.tried)
      && t.news == LoadNew(h, s, |s.news|).news
  {
    hide Halfway, Sound, OneTried, LoadNew;
    if n == 0 {
      NewHalfway(h, s, |s.news|);
    } else {
      TriedsHalfway(h, s, n - 1);
      var t := LoadTried(h, s, n - 1);
      if h.TriedSlot(s.trieds[n - 1].addr.svc) in t.tried {
        HalfwayLater(h, t, AllRecords(s), |s.news| + n - 1, |s.news|);
      } else {
        TriedHalfway(h, t, s, n - 1);
        TriedEffect(h, t, s.trieds[n - 1]);
      }
    }
  }

  lemma TriedEffect(h: Hasher, t: Tables, r: Record)
    ensures var u := OneTried(h, t, r);
      u.news == t.news && u.nIdCount == t.nIdCount + 1 && u.tried.Keys == t.tried.Keys + {h.TriedSlot(r.addr.svc)}
  {
  }

  lemma HalfwayLater(h: Hasher, t: Tables, rs: seq<Record>, n: nat, count: nat)
    requires Halfway(h, t, rs, n, count) && n < |rs|
    ensures Halfway(h, t, rs, n + 1, count)
  {
    hide Nearly;
    forall i | i in t.mapInfo ensures exists k :: 0 <= k < n + 1 && ToRecord(t.mapInfo[i]) == rs[k] {
      var k :| 0 <= k < n && ToRecord(t.mapInfo[i]) == rs[k];
    }
  }

  lemma {:induction false} BucketHalfway(h: Hasher, t: Tables, rs: seq<Record>, n: nat, count: nat, b: nat,
                                         list: seq<int>)
    requires Halfway(h, t, rs, n, count) && b < NEW_BUCKET_COUNT
    ensures var u := LoadBucket(h, t, b, list, count); Halfway(h, u, rs, n, count) && u.tried == t.tried
  {
    hide Nearly, From;
    if list != [] {
      var init, i := list[..|list| - 1], list[|list| - 1];
      BucketHalfway(h, t, rs, n, count, b, init);
      var v := LoadBucket(h, t, b, init, count);
      if 0 <= i < count {
        var k := h.NewSlot(v.mapInfo[i].addr.svc, b);
        if k !in v.news && v.mapInfo[i].nRefCount < NEW_BUCKETS_PER_ADDRESS {
          PutHalfway(h, v, rs, n, count, i, k);
        }
      }
    }
  }

  lemma {:induction false} BucketsHalfway(h: Hasher, s: Saved, n: nat)
    requires Sound(s) && n <= |s.buckets|
    ensures var t := LoadBuckets(h, s, n); var u := LoadTried(h, s, |s.trieds|);
      && Halfway(h, t, AllRecords(s), |AllRecords(s)|, |s.news|) && t.tried == u.tried
      && (!Usable(s) ==> t == u)
  {
    hide Nearly, From, Sound, LoadBucket, LoadTried;
    if n == 0 {
      TriedsHalfway(h, s, |s.trieds|);
    } else {
      BucketsHalfway(h, s, n - 1);
      if Usable(s) {
        BucketHalfway(h, LoadBuckets(h, s, n - 1), AllRecords(s), |AllRecords(s)|, |s.news|, n - 1, s.buckets[n - 1]);
      }
    }
  }

  // ---------------------------------------------------------------------------------------------
  // Pruning

  /** The entries of a list are gone, and the others are as they were. */
  ghost predicate Without(t: Tables, u: Tables, gone: seq<int>) {
    && (forall i :: i in u.mapInfo <==> i in t.mapInfo && i !in gone)
    && (forall i :: i in u.mapInfo && i in t.mapInfo ==>
         u.mapInfo[i] == t.mapInfo[i].(nRandomPos := u.mapInfo[i].nRandomPos))
    && u.news == t.news && u.tried == t.tried
  }

  lemma {:induction false} PruneKeeps(h: Hasher, t: Tables, ids: seq<int>)
    requires Nearly(h, t, Unplaced(t.mapInfo), 0)
    requires (forall k :: 0 <= k < |ids| ==> ids[k] in Unplaced(t.mapInfo))
    requires forall j, k :: 0 <= j < k < |ids| ==> ids[j] != ids[k]
    ensures var u := Prune(t, ids); Nearly(h, u, Unplaced(t.mapInfo), 0) && Without(t, u, ids)
  {
    hide Nearly, Delete;
    if ids != [] {
      var n := |ids| - 1;
      var init, i := ids[..n], ids[n];
      PruneKeeps(h, t, init);
      var u := Prune(t, init);
      assert i in Unplaced(t.mapInfo) && i !in init;
      DeleteKeeps(h, u, Unplaced(t.mapInfo), 0, i);
      assert ids == init + [i];
    }
  }

  /** Once the loose entries are gone, the rest is consistent. */
  lemma AllGone(h: Hasher, t: Tables, loose: set<int>)
    requires Nearly(h, t, loose, 0) && forall i :: i in loose ==> i !in t.mapInfo
    ensures Consistent(h, t)
  {
    hide RandomOk, AddrOk, NewOk, TriedOk, Counted;
    forall i | i in t.mapInfo ensures EntryOk(t.mapInfo[i], |Occurrences(t.news, i)|, i in {}) {
      assert EntryOk(t.mapInfo[i], |Occurrences(t.news, i)|, i in loose);
    }
  }

  /**
  Whatever version and table sizes a file has, loading it gives a consistent manager, as long as no address
  is in it twice.  It holds nothing but entries of the file; every tried entry's slot is in use, and where
  the stored slots cannot be used, so is the slot that each new entry's source gives it.
  */
  lemma LoadConsistent(h: Hasher, s: Saved)
    requires Sound(s) && Load(h, s).Some?
    ensures var t := Load(h, s).value;
      && Consistent(h, t) && From(AllRecords(s), |AllRecords(s)|, t.mapInfo)
      && (forall k :: 0 <= k < |s.trieds| ==> h.TriedSlot(s.trieds[k].addr.svc) in t.tried)
      && (!Usable(s) ==> forall k :: 0 <= k < |s.news| ==> HomeSlot(h, FromRecord(s.news[k])) in t.news)
  {
    hide Nearly, Consistent, From, Sound, LoadBuckets, LoadTried, LoadNew, Prune, Ascending;
    NewHalfway(h, s, |s.news|);
    TriedsHalfway(h, s, |s.trieds|);
    BucketsHalfway(h, s, |s.buckets|);
    var u := LoadBuckets(h, s, |s.buckets|);
    var loose := Unplaced(u.mapInfo);
    AscendingExact(loose);
    PruneKeeps(h, u, Ascending(loose));
    var t := Prune(u, Ascending(loose));
    AllGone(h, t, loose);
    FromSame(AllRecords(s), |AllRecords(s)|, u.mapInfo, t.mapInfo);
  }

  /** The entries of a consistent manager make a sound file. */
  lemma SavedSound(h: Hasher, t: Tables, s: Saved)
    requires Consistent(h, t) && s.news == Save(t).news && s.trieds == Save(t).trieds
    ensures Sound(s)
  {
    hide Consistent, InOrder, Apart, IsList, Ascending, Referenced, Save;
    var m, ids, split := t.mapInfo, Stored(t.mapInfo), |Ascending(Referenced(t.mapInfo))|;
    StoredInOrder(h, t);
    StoredApart(h, t, ids, split);
    SavedIs(t);
    var rs := AllRecords(s);
    assert forall k :: 0 <= k < |rs| ==> rs[k] == ToRecord(m[ids[k]]);
    ApartSound(h, t, ids, split, s);
  }

  lemma ApartSound(h: Hasher, t: Tables, ids: seq<int>, split: nat, s: Saved)
    requires Consistent(h, t) && InOrder(t.mapInfo, ids, split) && Apart(h, t.mapInfo, ids, split)
    requires |ids| == |AllRecords(s)| && |s.news| == split
    requires forall k :: 0 <= k < |ids| ==> AllRecords(s)[k] == ToRecord(t.mapInfo[ids[k]])
    ensures Sound(s)
  {
    hide Consistent, IsList;
    var rs := AllRecords(s);
    forall k | 0 <= k < |ids|
      ensures rs[k].nLastSuccess >= 0 && (k >= split ==> rs[k].nLastSuccess != 0)
    {
      EntryFacts(h, t, ids[k]);
    }
    forall k | 0 <= k < |s.trieds| ensures s.trieds[k].nLastSuccess != 0 {
      assert rs[split + k] == s.trieds[k];
    }
  }

  /**
  What any consistent manager saved can be loaded by a program with another version or other tables, and
  gives it a consistent manager.
  */
  lemma ForeignLoads(h0: Hasher, h: Hasher, t: Tables, s: Saved)
    requires Consistent(h0, t) && s.news == Save(t).news && s.trieds == Save(t).trieds && s.keySize == KEY_SIZE
    ensures Load(h, s).Some? && Consistent(h, Load(h, s).value)
  {
    hide Consistent, InOrder, Ascending, Referenced, Save, Load, Sound;
    SavedSound(h0, t, s);
    WithinLimits(h0, t);
    StoredInOrder(h0, t);
    SavedIs(t);
    SmallLoads(h, s);
    LoadConsistent(h, s);
  }

  lemma SmallLoads(h: Hasher, s: Saved)
    requires s.keySize == KEY_SIZE
    requires |s.news| <= NEW_BUCKET_COUNT * BUCKET_SIZE && |s.trieds| <= TRIED_BUCKET_COUNT * BUCKET_SIZE
    ensures Load(h, s).Some?
  {
  }
}
