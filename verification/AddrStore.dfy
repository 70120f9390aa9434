/**
Saving and loading the address manager (CAddrMan::Serialize and Unserialize, src/addrman.h:304-457).

Entries are written without their ids, tried slots not at all, and the slots of the new table as one
list of entry numbers per bucket, without positions.
*/
module AddrStore {
  import opened AddrTables
  import opened Basics

  // ---------------------------------------------------------------------------------------------
  // Ids in ascending order

  function Ascending(s: set<int>): seq<int>
    decreases |s|
  {
    if s == {} then [] else [Least(s)] + Ascending(s - {Least(s)})
  }

  lemma {:induction false} AscendingExact(s: set<int>)
    ensures |Ascending(s)| == |s| && (forall x :: x in Ascending(s) <==> x in s)
    ensures forall j, k :: 0 <= j < k < |Ascending(s)| ==> Ascending(s)[j] < Ascending(s)[k]
    ensures forall k :: 0 <= k < |Ascending(s)| ==> Ascending(s)[k] in s
    decreases |s|
  {
    if s != {} {
      var x := Least(s);
      AscendingExact(s - {x});
      var rest := Ascending(s - {x});
      assert Ascending(s) == [x] + rest;
      hide Ascending;
      LeastFirst(s, x, rest);
    }
  }

  /** A least member in front of the others in order. */
  lemma LeastFirst(s: set<int>, x: int, rest: seq<int>)
    requires x in s && (forall y :: y in s ==> x <= y) && (forall y :: y in rest <==> y in s - {x})
    requires forall k :: 0 <= k < |rest| ==> rest[k] in s - {x}
    requires forall j, k :: 0 <= j < k < |rest| ==> rest[j] < rest[k]
    ensures var all := [x] + rest;
      && (forall y :: y in all <==> y in s) && (forall k :: 0 <= k < |all| ==> all[k] in s)
      && (forall j, k :: 0 <= j < k < |all| ==> all[j] < all[k])
  {
    var all := [x] + rest;
    forall y ensures y in all <==> y in s {
      assert y in all <==> y == x || y in rest;
    }
    forall j, k | 0 <= j < k < |all| ensures all[j] < all[k] {
      assert all[k] == rest[k - 1];
      if j > 0 {
        assert all[j] == rest[j - 1];
      }
    }
  }

  // ---------------------------------------------------------------------------------------------
  // What is stored

  datatype Record = Record(addr: Address, source: NetAddr, nLastSuccess: int, nAttempts: int)

  function ToRecord(e: Info): Record { Record(e.addr, e.source, e.nLastSuccess, e.nAttempts) }

  function FromRecord(r: Record): Info { Info(r.addr, r.source, 0, 0, r.nLastSuccess, r.nAttempts, 0, false, -1) }

  const VERSION := 1
  const KEY_SIZE := 32

  /** A version and the size of the key come first; the lengths of the lists are stored too. */
  datatype Saved = Saved(version: nat, keySize: nat, news: seq<Record>, trieds: seq<Record>, buckets: seq<seq<int>>)

  /** Whether the stored places in the new table mean anything to this program. */
  predicate Usable(s: Saved) { s.version == VERSION && |s.buckets| == NEW_BUCKET_COUNT }

  function Records(m: map<int, Info>, ids: seq<int>): seq<Record>
    requires forall k :: 0 <= k < |ids| ==> ids[k] in m
  {
    seq(|ids|, k requires 0 <= k < |ids| => ToRecord(m[ids[k]]))
  }

  /** The entries that are written first: those with references in the new table. */
  function Referenced(m: map<int, Info>): set<int> { set i | i in m && m[i].nRefCount != 0 }

  /** The number that stands for an entry: how many referenced ones were written before it. */
  function NumberOf(m: map<int, Info>, id: int): int { |set j | j in Referenced(m) && j < id| }

  /** The entry numbers of a bucket's slots below a position, in order. */
  function BucketBelow(t: Tables, bucket: nat, pos: nat): seq<int> {
    if pos == 0 then []
    else
      var s := Slot(bucket, pos - 1);
      BucketBelow(t, bucket, pos - 1) + if s in t.news then [NumberOf(t.mapInfo, t.news[s])] else []
  }

  lemma ListsIn(m: map<int, Info>)
    ensures forall k :: 0 <= k < |Ascending(Referenced(m))| ==> Ascending(Referenced(m))[k] in m
    ensures forall k :: 0 <= k < |Ascending(TriedIds(m))| ==> Ascending(TriedIds(m))[k] in m
  {
    AscendingExact(Referenced(m));
    AscendingExact(TriedIds(m));
    forall k | 0 <= k < |Ascending(Referenced(m))| ensures Ascending(Referenced(m))[k] in m {
      var i := Ascending(Referenced(m))[k];
      assert i in Referenced(m);
    }
    forall k | 0 <= k < |Ascending(TriedIds(m))| ensures Ascending(TriedIds(m))[k] in m {
      var i := Ascending(TriedIds(m))[k];
      assert i in TriedIds(m);
    }
  }

  ghost function Save(t: Tables): Saved {
    ListsIn(t.mapInfo);
    Saved(VERSION, KEY_SIZE,
          Records(t.mapInfo, Ascending(Referenced(t.mapInfo))), Records(t.mapInfo, Ascending(TriedIds(t.mapInfo))),
          seq(NEW_BUCKET_COUNT, b requires 0 <= b < NEW_BUCKET_COUNT => BucketBelow(t, b, BUCKET_SIZE)))
  }

  // ---------------------------------------------------------------------------------------------
  // Loading into a new address manager

  /** One new entry, without a slot. */
  function OneNew(t: Tables, k: nat, r: Record): Tables {
    t.(mapInfo := t.mapInfo[k := FromRecord(r).(nRandomPos := |t.vRandom|)],
       mapAddr := t.mapAddr[r.addr.svc.ip := k], vRandom := t.vRandom + [k], nIdCount := k + 1, nNew := k + 1)
  }

  /** An entry takes the slot that its source gives it, if that is free. */
  function PutHome(h: Hasher, t: Tables, k: int): Tables
    requires k in t.mapInfo
  {
    var home := HomeSlot(h, t.mapInfo[k]);
    if home in t.news then t else PutNew(t, k, home)
  }

  function LoadNew(h: Hasher, s: Saved, n: nat): Tables
    requires n <= |s.news|
  {
    if n == 0 then EMPTY
    else
      var t := OneNew(LoadNew(h, s, n - 1), n - 1, s.news[n - 1]);
      if Usable(s) then t else PutHome(h, t, n - 1)
  }

  /** One tried entry, in the slot that its address gives it. */
  function OneTried(h: Hasher, t: Tables, r: Record): Tables {
    t.(mapInfo := t.mapInfo[t.nIdCount := FromRecord(r).(nRandomPos := |t.vRandom|, fInTried := true)],
       mapAddr := t.mapAddr[r.addr.svc.ip := t.nIdCount], vRandom := t.vRandom + [t.nIdCount],
       tried := t.tried[h.TriedSlot(r.addr.svc) := t.nIdCount], nIdCount := t.nIdCount + 1, nTried := t.nTried + 1)
  }

  /** A tried entry whose slot is taken is lost. */
  function LoadTried(h: Hasher, s: Saved, n: nat): Tables
    requires n <= |s.trieds|
  {
    if n == 0 then LoadNew(h, s, |s.news|)
    else
      var t, r := LoadTried(h, s, n - 1), s.trieds[n - 1];
      if h.TriedSlot(r.addr.svc) in t.tried then t else OneTried(h, t, r)
  }

  /** One entry number of a bucket. */
  function LoadIndex(h: Hasher, t: Tables, bucket: nat, index: int, count: nat): Tables {
    if 0 <= index < count && index in t.mapInfo then
      var e := t.mapInfo[index];
      var k := h.NewSlot(e.addr.svc, bucket);
      if k !in t.news && e.nRefCount < NEW_BUCKETS_PER_ADDRESS then PutNew(t, index, k) else t
    else t
  }

  function LoadBucket(h: Hasher, t: Tables, bucket: nat, list: seq<int>, count: nat): Tables {
    if list == [] then t
    else LoadIndex(h, LoadBucket(h, t, bucket, list[..|list| - 1], count), bucket, list[|list| - 1], count)
  }

  function LoadBuckets(h: Hasher, s: Saved, n: nat): Tables
    requires n <= |s.buckets|
  {
    if n == 0 then LoadTried(h, s, |s.trieds|)
    else if Usable(s) then LoadBucket(h, LoadBuckets(h, s, n - 1), n - 1, s.buckets[n - 1], |s.news|)
    else LoadBuckets(h, s, n - 1)
  }

  /** The entries to prune: untried and without a slot. */
  function Unplaced(m: map<int, Info>): set<int> { set i | i in m && !m[i].fInTried && m[i].nRefCount == 0 }

  function Prune(t: Tables, ids: seq<int>): Tables {
    if ids == [] then t
    else
      var u := Prune(t, ids[..|ids| - 1]);
      var i := ids[|ids| - 1];
      if CanDelete(u, i) then Delete(u, i) else u
  }

  /** None stands for the exceptions on a key of another size and on counts that no table can have. */
  function Load(h: Hasher, s: Saved): Option<Tables> {
    if s.keySize != KEY_SIZE then None
    else if |s.news| > NEW_BUCKET_COUNT * BUCKET_SIZE || |s.trieds| > TRIED_BUCKET_COUNT * BUCKET_SIZE then None
    else
      var t := LoadBuckets(h, s, |s.buckets|);
      Some(Prune(t, Ascending(Unplaced(t.mapInfo))))
  }

  // ---------------------------------------------------------------------------------------------
  // The same tables with other ids

  /** What is stored of an entry, and what is reconstructed. */
  predicate SameEntry(e: Info, f: Info) {
    ToRecord(e) == ToRecord(f) && e.nRefCount == f.nRefCount && e.fInTried == f.fInTried
  }

  ghost predicate IsList(m: map<int, Info>, ids: seq<int>) {
    && (forall j, k :: 0 <= j < k < |ids| ==> ids[j] != ids[k])
    && (forall i :: i in m <==> i in ids)
    && (forall k :: 0 <= k < |ids| ==> ids[k] in m)
  }

  /** The same keys, and what was ids[n] is n. */
  ghost predicate SameTable<Key(!new)>(was: map<Key, int>, now: map<Key, int>, ids: seq<int>) {
    && (forall k :: k in now <==> k in was)
    && (forall k :: k in now ==> 0 <= now[k] < |ids| && was[k] == ids[now[k]])
  }

  /** Entry n of u is entry ids[n] of t. */
  ghost predicate Renumbered(t: Tables, u: Tables, ids: seq<int>) {
    && IsList(t.mapInfo, ids)
    && (forall n :: n in u.mapInfo <==> 0 <= n < |ids|)
    && (forall n :: 0 <= n < |ids| ==> SameEntry(t.mapInfo[ids[n]], u.mapInfo[n]))
    && SameTable(t.news, u.news, ids) && SameTable(t.tried, u.tried, ids) && SameTable(t.mapAddr, u.mapAddr, ids)
    && u.nNew == t.nNew && u.nTried == t.nTried && u.nIdCount == |ids|
    && |u.vRandom| == |ids| && (forall n :: 0 <= n < |ids| ==> u.vRandom[n] == n && u.mapInfo[n].nRandomPos == n)
  }

  // ---------------------------------------------------------------------------------------------
  // The ids in the order in which entries are stored

  ghost function Stored(m: map<int, Info>): seq<int> {
    Ascending(Referenced(m)) + Ascending(TriedIds(m))
  }

  /** Referenced first, then tried; each entry once. */
  ghost predicate InOrder(m: map<int, Info>, ids: seq<int>, split: nat) {
    && split <= |ids| && IsList(m, ids)
    && (forall k :: 0 <= k < |ids| ==> ids[k] in m && (m[ids[k]].fInTried <==> k >= split))
    && (forall j, k :: 0 <= j < k < split ==> ids[j] < ids[k])
    && (forall k :: 0 <= k < split ==> m[ids[k]].nRefCount != 0)
  }

  lemma StoredInOrder(h: Hasher, t: Tables)
    requires Consistent(h, t)
    ensures InOrder(t.mapInfo, Stored(t.mapInfo), |Ascending(Referenced(t.mapInfo))|)
    ensures |Ascending(Referenced(t.mapInfo))| == t.nNew && |Stored(t.mapInfo)| == t.nNew + t.nTried
  {
    var m := t.mapInfo;
    forall i | i in m ensures m[i].nRefCount != 0 <==> !m[i].fInTried {
      EntryFacts(h, t, i);
    }
    assert Referenced(m) == UntriedIds(m);
    AscendingExact(Referenced(m));
    AscendingExact(TriedIds(m));
    ListsIn(m);
    var u, v := Ascending(Referenced(m)), Ascending(TriedIds(m));
    StoredLists(m, u, v);
  }

  lemma StoredLists(m: map<int, Info>, u: seq<int>, v: seq<int>)
    requires (forall x :: x in u <==> x in m && !m[x].fInTried) && (forall x :: x in v <==> x in m && m[x].fInTried)
    requires forall j, k :: 0 <= j < k < |u| ==> u[j] < u[k]
    requires forall j, k :: 0 <= j < k < |v| ==> v[j] < v[k]
    requires forall x :: x in m && !m[x].fInTried ==> m[x].nRefCount != 0
    ensures InOrder(m, u + v, |u|)
  {
    var ids := u + v;
    forall k | 0 <= k < |ids| ensures ids[k] in m && (m[ids[k]].fInTried <==> k >= |u|) {
      assert if k < |u| then ids[k] in u else ids[k] in v;
    }
    forall j, k | 0 <= j < k < |ids| ensures ids[j] != ids[k] {
      assert j < |u| ==> ids[j] in u;
      assert k >= |u| ==> ids[k] in v;
    }
    forall i ensures i in m <==> i in ids {
      assert i in ids <==> i in u || i in v;
    }
    forall k | 0 <= k < |u| ensures m[ids[k]].nRefCount != 0 {
      assert ids[k] in u;
    }
  }

  // ---------------------------------------------------------------------------------------------
  // Loading the entries

  function Fresh(e: Info, k: nat, tried: bool): Info {
    FromRecord(ToRecord(e)).(nRandomPos := k, fInTried := tried)
  }

  ghost predicate AllIn(m: map<int, Info>, ids: seq<int>) {
    forall k :: 0 <= k < |ids| ==> ids[k] in m
  }

  ghost predicate InfosLoaded(m: map<int, Info>, ids: seq<int>, split: nat, n: nat, infos: map<int, Info>, v: seq<int>)
    requires n <= |ids| && AllIn(m, ids)
  {
    && (forall k :: k in infos <==> 0 <= k < n)
    && (forall k :: 0 <= k < n ==> infos[k] == Fresh(m[ids[k]], k, k >= split))
    && |v| == n && (forall k :: 0 <= k < n ==> v[k] == k)
  }

  ghost predicate AddrsLoaded(m: map<int, Info>, ids: seq<int>, n: nat, a: map<NetAddr, int>)
    requires n <= |ids| && AllIn(m, ids)
  {
    && (forall k :: 0 <= k < n ==> m[ids[k]].addr.svc.ip in a && a[m[ids[k]].addr.svc.ip] == k)
    && (forall x :: x in a ==> 0 <= a[x] < n && m[ids[a[x]]].addr.svc.ip == x)
  }

  ghost predicate SlotsLoaded(h: Hasher, m: map<int, Info>, ids: seq<int>, split: nat, n: nat, tried: Table)
    requires n <= |ids| && AllIn(m, ids)
  {
    && (forall k :: split <= k < n ==>
         h.TriedSlot(m[ids[k]].addr.svc) in tried && tried[h.TriedSlot(m[ids[k]].addr.svc)] == k)
    && (forall s :: s in tried ==> split <= tried[s] < n && h.TriedSlot(m[ids[tried[s]]].addr.svc) == s)
  }

  /** The first n entries are there, under their new ids. */
  ghost predicate EntriesLoaded(h: Hasher, m: map<int, Info>, ids: seq<int>, split: nat, n: nat, u: Tables)
    requires n <= |ids| && AllIn(m, ids)
  {
    && InfosLoaded(m, ids, split, n, u.mapInfo, u.vRandom)
    && AddrsLoaded(m, ids, n, u.mapAddr)
    && SlotsLoaded(h, m, ids, split, n, u.tried)
    && u.news == map[] && u.nIdCount == n
    && u.nNew == (if n <= split then n else split) && u.nTried == (if n <= split then 0 else n - split)
  }

  lemma InfosStep(m: map<int, Info>, ids: seq<int>, split: nat, n: nat, infos: map<int, Info>, v: seq<int>)
    requires n < |ids| && AllIn(m, ids) && InfosLoaded(m, ids, split, n, infos, v)
    ensures InfosLoaded(m, ids, split, n + 1, infos[n := Fresh(m[ids[n]], n, n >= split)], v + [n])
  {
  }

  lemma AddrsStep(h: Hasher, m: map<int, Info>, ids: seq<int>, split: nat, n: nat, a: map<NetAddr, int>)
    requires n < |ids| && AllIn(m, ids) && AddrsLoaded(m, ids, n, a) && Apart(h, m, ids, split)
    ensures AddrsLoaded(m, ids, n + 1, a[m[ids[n]].addr.svc.ip := n])
  {
  }

  lemma SlotsStep(h: Hasher, m: map<int, Info>, ids: seq<int>, split: nat, n: nat, tried: Table)
    requires n < |ids| && AllIn(m, ids) && SlotsLoaded(h, m, ids, split, n, tried) && Apart(h, m, ids, split)
    ensures n < split ==> SlotsLoaded(h, m, ids, split, n + 1, tried)
    ensures n >= split ==> var k := h.TriedSlot(m[ids[n]].addr.svc);
      k !in tried && SlotsLoaded(h, m, ids, split, n + 1, tried[k := n])
  {
  }

  /** Different entries have different addresses, and different tried ones different slots. */
  ghost predicate Apart(h: Hasher, m: map<int, Info>, ids: seq<int>, split: nat)
    requires AllIn(m, ids)
  {
    && (forall j, k :: 0 <= j < k < |ids| ==> m[ids[j]].addr.svc.ip != m[ids[k]].addr.svc.ip)
    && (forall j, k :: split <= j < k < |ids| ==> h.TriedSlot(m[ids[j]].addr.svc) != h.TriedSlot(m[ids[k]].addr.svc))
  }

  lemma StoredApart(h: Hasher, t: Tables, ids: seq<int>, split: nat)
    requires Consistent(h, t) && InOrder(t.mapInfo, ids, split)
    ensures Apart(h, t.mapInfo, ids, split)
  {
    hide RandomOk, EntriesOk, NewOk, Counted;
    var m := t.mapInfo;
    forall j, k | 0 <= j < k < |ids| ensures m[ids[j]].addr.svc.ip != m[ids[k]].addr.svc.ip {
      var a, b := ids[j], ids[k];
      assert t.mapAddr[m[a].addr.svc.ip] == a && t.mapAddr[m[b].addr.svc.ip] == b;
    }
    forall j, k | split <= j < k < |ids| ensures h.TriedSlot(m[ids[j]].addr.svc) != h.TriedSlot(m[ids[k]].addr.svc) {
      var a, b := ids[j], ids[k];
      assert t.tried[h.TriedSlot(m[a].addr.svc)] == a && t.tried[h.TriedSlot(m[b].addr.svc)] == b;
    }
  }

  lemma InfosSize(m: map<int, Info>, ids: seq<int>, split: nat, n: nat, infos: map<int, Info>, v: seq<int>)
    requires n <= |ids| && AllIn(m, ids) && InfosLoaded(m, ids, split, n, infos, v)
    ensures |v| == n
  {
  }

  lemma NothingLoaded(h: Hasher, m: map<int, Info>, ids: seq<int>, split: nat)
    requires AllIn(m, ids)
    ensures EntriesLoaded(h, m, ids, split, 0, EMPTY)
  {
  }

  lemma {:induction false} NewLoaded(h: Hasher, t: Tables, ids: seq<int>, split: nat, s: Saved, n: nat)
    requires InOrder(t.mapInfo, ids, split) && Apart(h, t.mapInfo, ids, split)
    requires n <= split == |s.news| && forall k :: 0 <= k < split ==> s.news[k] == ToRecord(t.mapInfo[ids[k]])
    requires Usable(s)
    ensures EntriesLoaded(h, t.mapInfo, ids, split, n, LoadNew(h, s, n))
  {
    hide InfosLoaded, AddrsLoaded, SlotsLoaded, Apart, IsList;
    if n == 0 {
      NothingLoaded(h, t.mapInfo, ids, split);
    } else {
      var k := n - 1;
      NewLoaded(h, t, ids, split, s, k);
      var u := LoadNew(h, s, k);
      InfosSize(t.mapInfo, ids, split, k, u.mapInfo, u.vRandom);
      InfosStep(t.mapInfo, ids, split, k, u.mapInfo, u.vRandom);
      AddrsStep(h, t.mapInfo, ids, split, k, u.mapAddr);
      SlotsStep(h, t.mapInfo, ids, split, k, u.tried);
    }
  }

  lemma {:induction false} TriedLoaded(h: Hasher, t: Tables, ids: seq<int>, split: nat, s: Saved, n: nat)
    requires InOrder(t.mapInfo, ids, split) && Apart(h, t.mapInfo, ids, split)
    requires split == |s.news| && split + |s.trieds| == |ids| && n <= |s.trieds|
    requires forall k :: 0 <= k < split ==> s.news[k] == ToRecord(t.mapInfo[ids[k]])
    requires forall k :: 0 <= k < |s.trieds| ==> s.trieds[k] == ToRecord(t.mapInfo[ids[split + k]])
    requires Usable(s)
    ensures EntriesLoaded(h, t.mapInfo, ids, split, split + n, LoadTried(h, s, n))
  {
    hide InfosLoaded, AddrsLoaded, SlotsLoaded, Apart, IsList;
    if n == 0 {
      NewLoaded(h, t, ids, split, s, split);
    } else {
      TriedLoaded(h, t, ids, split, s, n - 1);
      TriedNext(h, t.mapInfo, ids, split, split + n - 1, LoadTried(h, s, n - 1));
    }
  }

  /** One more tried entry. */
  lemma TriedNext(h: Hasher, m: map<int, Info>, ids: seq<int>, split: nat, k: nat, u: Tables)
    requires InOrder(m, ids, split) && Apart(h, m, ids, split) && split <= k < |ids|
    requires EntriesLoaded(h, m, ids, split, k, u)
    ensures var r := ToRecord(m[ids[k]]);
      h.TriedSlot(r.addr.svc) !in u.tried && EntriesLoaded(h, m, ids, split, k + 1, OneTried(h, u, r))
  {
    hide InfosLoaded, AddrsLoaded, SlotsLoaded, Apart, IsList;
    InfosSize(m, ids, split, k, u.mapInfo, u.vRandom);
    InfosStep(m, ids, split, k, u.mapInfo, u.vRandom);
    AddrsStep(h, m, ids, split, k, u.mapAddr);
    SlotsStep(h, m, ids, split, k, u.tried);
  }

  // ---------------------------------------------------------------------------------------------
  // Loading the slots of the new table

  /** The occupied slots that come before a position of a bucket. */
  function Earlier(news: Table, bucket: nat, pos: nat): set<Slot> {
    set s | s in news && (s.bucket < bucket || (s.bucket == bucket && s.pos < pos))
  }

  function Among(news: Table, done: set<Slot>, id: int): set<Slot> {
    set s | s in done && s in news && news[s] == id
  }

  ghost predicate SlotsIn(ids: seq<int>, split: nat, news: Table, done: set<Slot>, now: Table) {
    && (forall s :: s in now <==> s in done)
    && (forall s :: s in done ==> s in news && s in now && 0 <= now[s] < split <= |ids| && ids[now[s]] == news[s])
  }

  ghost predicate RefsCounted(ids: seq<int>, news: Table, done: set<Slot>, was: map<int, Info>, now: map<int, Info>) {
    && (forall k :: k in now <==> 0 <= k < |ids|)
    && (forall k :: 0 <= k < |ids| ==> k in was && now[k] == was[k].(nRefCount := |Among(news, done, ids[k])|))
  }

  /** The slots in done are there, and every entry counts its own. */
  ghost predicate NewsLoaded(m: map<int, Info>, ids: seq<int>, split: nat, news: Table, base: Tables, done: set<Slot>,
                             u: Tables) {
    && u == base.(mapInfo := u.mapInfo, news := u.news)
    && SlotsIn(ids, split, news, done, u.news)
    && RefsCounted(ids, news, done, base.mapInfo, u.mapInfo)
  }

  lemma AmongMore(news: Table, done: set<Slot>, s: Slot, id: int)
    requires s in news && s !in done
    ensures |Among(news, done + {s}, id)| == |Among(news, done, id)| + if news[s] == id then 1 else 0
  {
    if news[s] == id {
      assert Among(news, done + {s}, id) == Among(news, done, id) + {s};
    } else {
      assert Among(news, done + {s}, id) == Among(news, done, id);
    }
  }

  lemma AmongBelow(news: Table, done: set<Slot>, s: Slot)
    requires s in news && s !in done
    ensures |Among(news, done, news[s])| < |Occurrences(news, news[s])|
  {
    AmongMore(news, done, s, news[s]);
    SubsetSize(Among(news, done + {s}, news[s]), Occurrences(news, news[s]));
  }

  /** One slot more. */
  lemma NewsStep(h: Hasher, t: Tables, ids: seq<int>, split: nat, base: Tables, done: set<Slot>, u: Tables, s: Slot,
                 k: nat)
    requires Consistent(h, t) && AllIn(t.mapInfo, ids) && NewsLoaded(t.mapInfo, ids, split, t.news, base, done, u)
    requires s in t.news && s !in done && k < split <= |ids| && ids[k] == t.news[s]
    requires forall j :: 0 <= j < |ids| && j != k ==> ids[j] != ids[k]
    requires k in base.mapInfo && base.mapInfo[k].addr == t.mapInfo[ids[k]].addr
    ensures NewsLoaded(t.mapInfo, ids, split, t.news, base, done + {s}, LoadIndex(h, u, s.bucket, k, split))
  {
    hide Consistent, Among, Occurrences, SlotsIn, RefsCounted;
    NewEntry(h, t, s);
    AmongBelow(t.news, done, s);
    FewOccurrences(h, t, t.news[s]);
    RefsAt(ids, t.news, done, base.mapInfo, u.mapInfo, k);
    RefsStep(ids, t.news, done, base.mapInfo, u.mapInfo, s, k);
    SlotsInStep(ids, split, t.news, done, u.news, s, k);
  }

  lemma FewOccurrences(h: Hasher, t: Tables, i: int)
    requires Consistent(h, t) && i in t.mapInfo && !t.mapInfo[i].fInTried
    ensures |Occurrences(t.news, i)| <= NEW_BUCKETS_PER_ADDRESS
  {
    EntryFacts(h, t, i);
  }

  lemma RefsAt(ids: seq<int>, news: Table, done: set<Slot>, was: map<int, Info>, now: map<int, Info>, k: nat)
    requires RefsCounted(ids, news, done, was, now) && k < |ids|
    ensures k in was && k in now && now[k] == was[k].(nRefCount := |Among(news, done, ids[k])|)
  {
  }

  lemma RefsStep(ids: seq<int>, news: Table, done: set<Slot>, was: map<int, Info>, now: map<int, Info>, s: Slot, k: nat)
    requires RefsCounted(ids, news, done, was, now) && s in news && s !in done && k < |ids| && ids[k] == news[s]
    requires forall j :: 0 <= j < |ids| && j != k ==> ids[j] != ids[k]
    requires k in now
    ensures RefsCounted(ids, news, done + {s}, was, now[k := now[k].(nRefCount := now[k].nRefCount + 1)])
  {
    hide Among;
    forall j | 0 <= j < |ids|
      ensures |Among(news, done + {s}, ids[j])| == |Among(news, done, ids[j])| + if j == k then 1 else 0
    {
      AmongMore(news, done, s, ids[j]);
    }
  }

  lemma SlotsInStep(ids: seq<int>, split: nat, news: Table, done: set<Slot>, now: Table, s: Slot, k: nat)
    requires SlotsIn(ids, split, news, done, now) && s in news && s !in done && k < split <= |ids| && ids[k] == news[s]
    ensures s !in now && SlotsIn(ids, split, news, done + {s}, now[s := k])
  {
  }

  lemma NewEntry(h: Hasher, t: Tables, s: Slot)
    requires Consistent(h, t) && s in t.news
    ensures var i := t.news[s];
      i in t.mapInfo && !t.mapInfo[i].fInTried && s == h.NewSlot(t.mapInfo[i].addr.svc, s.bucket)
    ensures s.bucket < NEW_BUCKET_COUNT && s.pos < BUCKET_SIZE
  {
    var i := t.news[s];
    assert i in t.mapInfo && s == h.NewSlot(t.mapInfo[i].addr.svc, s.bucket);
  }

  function FirstIds(ids: seq<int>, k: nat): set<int>
    requires k <= |ids|
  {
    set j | 0 <= j < k :: ids[j]
  }

  lemma {:induction false} FirstIdsSize(ids: seq<int>, k: nat)
    requires k <= |ids| && forall i, j :: 0 <= i < j < |ids| ==> ids[i] != ids[j]
    ensures |FirstIds(ids, k)| == k
  {
    if k > 0 {
      FirstIdsSize(ids, k - 1);
      assert FirstIds(ids, k) == FirstIds(ids, k - 1) + {ids[k - 1]};
    }
  }

  /** The number that stands for an entry is its place in the list. */
  lemma NumberIs(h: Hasher, t: Tables, ids: seq<int>, split: nat, k: nat)
    requires Consistent(h, t) && InOrder(t.mapInfo, ids, split) && k < split
    ensures NumberOf(t.mapInfo, ids[k]) == k
  {
    hide Consistent, Occurrences;
    var m := t.mapInfo;
    FirstIdsSize(ids, k);
    var smaller := set j | j in Referenced(m) && j < ids[k];
    forall j ensures j in smaller <==> j in FirstIds(ids, k) {
      if j in m {
        EntryFacts(h, t, j);
        assert j in ids;
        var n :| 0 <= n < |ids| && ids[n] == j;
      }
    }
    assert smaller == FirstIds(ids, k);
  }

  lemma PlaceOf(m: map<int, Info>, ids: seq<int>, split: nat, i: int) returns (k: nat)
    requires InOrder(m, ids, split) && i in m && !m[i].fInTried
    ensures k < split && ids[k] == i && forall j :: 0 <= j < |ids| && j != k ==> ids[j] != ids[k]
  {
    assert i in ids;
    k :| 0 <= k < |ids| && ids[k] == i;
  }

  /** What the loaded entries and the stored ones have in common. */
  ghost predicate BaseOk(m: map<int, Info>, ids: seq<int>, base: Tables)
    requires AllIn(m, ids)
  {
    forall k :: 0 <= k < |ids| ==> k in base.mapInfo && base.mapInfo[k].addr == m[ids[k]].addr
  }

  lemma {:induction false} BucketLoaded(h: Hasher, t: Tables, ids: seq<int>, split: nat, base: Tables, b: nat, p: nat,
                                        u: Tables)
    requires Consistent(h, t) && InOrder(t.mapInfo, ids, split) && BaseOk(t.mapInfo, ids, base)
    requires NewsLoaded(t.mapInfo, ids, split, t.news, base, Earlier(t.news, b, 0), u)
    ensures NewsLoaded(t.mapInfo, ids, split, t.news, base, Earlier(t.news, b, p),
      LoadBucket(h, u, b, BucketBelow(t, b, p), split))
  {
    hide Consistent, NewsLoaded, LoadIndex, NumberOf, IsList;
    if p > 0 {
      BucketLoaded(h, t, ids, split, base, b, p - 1, u);
      var s := Slot(b, p - 1);
      var list := BucketBelow(t, b, p - 1);
      if s in t.news {
        NewEntry(h, t, s);
        var k := PlaceOf(t.mapInfo, ids, split, t.news[s]);
        NumberIs(h, t, ids, split, k);
        NewsStep(h, t, ids, split, base, Earlier(t.news, b, p - 1), LoadBucket(h, u, b, list, split), s, k);
        assert Earlier(t.news, b, p) == Earlier(t.news, b, p - 1) + {s};
        assert (list + [k])[..|list|] == list;
      } else {
        assert Earlier(t.news, b, p) == Earlier(t.news, b, p - 1);
        assert list + [] == list;
      }
    }
  }

  lemma {:induction false} BucketsLoaded(h: Hasher, t: Tables, ids: seq<int>, split: nat, s: Saved, n: nat)
    requires Consistent(h, t) && InOrder(t.mapInfo, ids, split) && split == |s.news|
    requires n <= |s.buckets| && forall b :: 0 <= b < |s.buckets| ==> s.buckets[b] == BucketBelow(t, b, BUCKET_SIZE)
    requires Usable(s)
    requires EntriesLoaded(h, t.mapInfo, ids, split, |ids|, LoadTried(h, s, |s.trieds|))
    ensures NewsLoaded(t.mapInfo, ids, split, t.news, LoadTried(h, s, |s.trieds|), Earlier(t.news, n, 0),
      LoadBuckets(h, s, n))
  {
    hide Consistent, NewsLoaded, EntriesLoaded, LoadBucket, LoadTried, BaseOk, IsList, BucketBelow;
    var base := LoadTried(h, s, |s.trieds|);
    StartNews(h, t, ids, split, base);
    if n == 0 {
      assert Earlier(t.news, 0, 0) == {};
    } else {
      var b := n - 1;
      BucketsLoaded(h, t, ids, split, s, b);
      BucketLoaded(h, t, ids, split, base, b, BUCKET_SIZE, LoadBuckets(h, s, b));
      NextBucket(h, t, b);
    }
  }

  lemma StartNews(h: Hasher, t: Tables, ids: seq<int>, split: nat, base: Tables)
    requires AllIn(t.mapInfo, ids) && EntriesLoaded(h, t.mapInfo, ids, split, |ids|, base)
    ensures NewsLoaded(t.mapInfo, ids, split, t.news, base, {}, base) && BaseOk(t.mapInfo, ids, base)
  {
    forall k | 0 <= k < |ids| ensures base.mapInfo[k] == base.mapInfo[k].(nRefCount := |Among(t.news, {}, ids[k])|) {
      assert Among(t.news, {}, ids[k]) == {};
    }
  }

  lemma NextBucket(h: Hasher, t: Tables, b: nat)
    requires Consistent(h, t)
    ensures Earlier(t.news, b, BUCKET_SIZE) == Earlier(t.news, b + 1, 0)
  {
    forall s | s in t.news ensures s.pos < BUCKET_SIZE {
      NewEntry(h, t, s);
    }
  }

  // ---------------------------------------------------------------------------------------------
  // The round trip

  lemma AllPlaced(h: Hasher, t: Tables, ids: seq<int>, split: nat, base: Tables, u: Tables)
    requires Consistent(h, t) && InOrder(t.mapInfo, ids, split) && EntriesLoaded(h, t.mapInfo, ids, split, |ids|, base)
    requires NewsLoaded(t.mapInfo, ids, split, t.news, base, Earlier(t.news, NEW_BUCKET_COUNT, 0), u)
    ensures forall k :: 0 <= k < |ids| ==>
      && k in u.mapInfo && SameEntry(t.mapInfo[ids[k]], u.mapInfo[k])
      && u.mapInfo[k].nRandomPos == k && u.mapInfo[k].nLastTry == 0
    ensures forall s :: s in u.news <==> s in t.news
    ensures Unplaced(u.mapInfo) == {}
  {
    hide Consistent, EntriesLoaded, NewsLoaded, SameEntry;
    EverySlot(h, t, ids, split, base, u);
    forall k | 0 <= k < |ids|
      ensures k in u.mapInfo && SameEntry(t.mapInfo[ids[k]], u.mapInfo[k]) && u.mapInfo[k].nRandomPos == k
      ensures u.mapInfo[k].nLastTry == 0
      ensures !u.mapInfo[k].fInTried ==> u.mapInfo[k].nRefCount != 0
    {
      OnePlaced(h, t, ids, split, base, u, k);
    }
    OnlyThose(t, ids, split, base, u);
  }

  lemma OnlyThose(t: Tables, ids: seq<int>, split: nat, base: Tables, u: Tables)
    requires NewsLoaded(t.mapInfo, ids, split, t.news, base, Earlier(t.news, NEW_BUCKET_COUNT, 0), u)
    requires forall k :: 0 <= k < |ids| ==> k in u.mapInfo && (!u.mapInfo[k].fInTried ==> u.mapInfo[k].nRefCount != 0)
    ensures Unplaced(u.mapInfo) == {}
  {
    forall i ensures i !in Unplaced(u.mapInfo) {
      assert i in u.mapInfo ==> 0 <= i < |ids|;
    }
  }

  lemma EverySlot(h: Hasher, t: Tables, ids: seq<int>, split: nat, base: Tables, u: Tables)
    requires Consistent(h, t)
    requires NewsLoaded(t.mapInfo, ids, split, t.news, base, Earlier(t.news, NEW_BUCKET_COUNT, 0), u)
    ensures (forall s :: s in u.news <==> s in t.news) && Earlier(t.news, NEW_BUCKET_COUNT, 0) == t.news.Keys
  {
    hide Consistent, RefsCounted;
    forall s | s in t.news ensures s in Earlier(t.news, NEW_BUCKET_COUNT, 0) {
      NewEntry(h, t, s);
    }
  }

  lemma OnePlaced(h: Hasher, t: Tables, ids: seq<int>, split: nat, base: Tables, u: Tables, k: nat)
    requires Consistent(h, t) && InOrder(t.mapInfo, ids, split) && EntriesLoaded(h, t.mapInfo, ids, split, |ids|, base)
    requires NewsLoaded(t.mapInfo, ids, split, t.news, base, Earlier(t.news, NEW_BUCKET_COUNT, 0), u) && k < |ids|
    ensures k in u.mapInfo && SameEntry(t.mapInfo[ids[k]], u.mapInfo[k]) && u.mapInfo[k].nRandomPos == k
    ensures u.mapInfo[k].nLastTry == 0
    ensures !u.mapInfo[k].fInTried ==> u.mapInfo[k].nRefCount != 0
  {
    hide Consistent, AddrsLoaded, SlotsLoaded, SlotsIn, RefsCounted, IsList;
    var all := Earlier(t.news, NEW_BUCKET_COUNT, 0);
    EverySlot(h, t, ids, split, base, u);
    EntryFacts(h, t, ids[k]);
    RefsAt(ids, t.news, all, base.mapInfo, u.mapInfo, k);
    assert Among(t.news, all, ids[k]) == Occurrences(t.news, ids[k]);
  }

  lemma IsRenumbered(h: Hasher, t: Tables, ids: seq<int>, split: nat, base: Tables, u: Tables)
    requires Consistent(h, t) && InOrder(t.mapInfo, ids, split) && EntriesLoaded(h, t.mapInfo, ids, split, |ids|, base)
    requires NewsLoaded(t.mapInfo, ids, split, t.news, base, Earlier(t.news, NEW_BUCKET_COUNT, 0), u)
    requires split == t.nNew && |ids| == t.nNew + t.nTried
    ensures Renumbered(t, u, ids)
  {
    hide Consistent, SameEntry, Earlier, InfosLoaded, AddrsLoaded, SlotsLoaded, SlotsIn, Among, RefsCounted, SameTable;
    RefsKeys(t, ids, split, base, u);
    AllPlaced(h, t, ids, split, base, u);
    SameNews(t, ids, split, base, u);
    SameAddrs(h, t, ids, split, base);
    SameTried(h, t, ids, split, base);
    InfosOrder(t.mapInfo, ids, split, base);
  }

  lemma RefsKeys(t: Tables, ids: seq<int>, split: nat, base: Tables, u: Tables)
    requires NewsLoaded(t.mapInfo, ids, split, t.news, base, Earlier(t.news, NEW_BUCKET_COUNT, 0), u)
    ensures forall k :: k in u.mapInfo <==> 0 <= k < |ids|
  {
  }

  lemma InfosOrder(m: map<int, Info>, ids: seq<int>, split: nat, base: Tables)
    requires AllIn(m, ids) && InfosLoaded(m, ids, split, |ids|, base.mapInfo, base.vRandom)
    ensures |base.vRandom| == |ids| && forall n :: 0 <= n < |ids| ==> base.vRandom[n] == n
  {
  }

  lemma SameNews(t: Tables, ids: seq<int>, split: nat, base: Tables, u: Tables)
    requires split <= |ids| && (forall s :: s in u.news <==> s in t.news)
    requires NewsLoaded(t.mapInfo, ids, split, t.news, base, Earlier(t.news, NEW_BUCKET_COUNT, 0), u)
    ensures SameTable(t.news, u.news, ids)
  {
    hide Earlier, RefsCounted;
  }

  lemma SameAddrs(h: Hasher, t: Tables, ids: seq<int>, split: nat, base: Tables)
    requires Consistent(h, t) && InOrder(t.mapInfo, ids, split) && AddrsLoaded(t.mapInfo, ids, |ids|, base.mapAddr)
    ensures SameTable(t.mapAddr, base.mapAddr, ids)
  {
    hide RandomOk, EntriesOk, NewOk, TriedOk, Counted;
    forall x | x in base.mapAddr ensures x in t.mapAddr && t.mapAddr[x] == ids[base.mapAddr[x]] {
      var i := ids[base.mapAddr[x]];
      assert i in t.mapInfo;
    }
    forall x | x in t.mapAddr ensures x in base.mapAddr {
      var i := t.mapAddr[x];
      assert i in t.mapInfo && i in ids;
      var k :| 0 <= k < |ids| && ids[k] == i;
    }
  }

  lemma SameTried(h: Hasher, t: Tables, ids: seq<int>, split: nat, base: Tables)
    requires Consistent(h, t) && InOrder(t.mapInfo, ids, split)
    requires SlotsLoaded(h, t.mapInfo, ids, split, |ids|, base.tried)
    ensures SameTable(t.tried, base.tried, ids)
  {
    hide Consistent, InOrder, SlotsLoaded;
    forall s | s in base.tried
      ensures s in t.tried && 0 <= base.tried[s] < |ids| && t.tried[s] == ids[base.tried[s]]
    {
      TriedBefore(h, t, ids, split, base.tried, s);
    }
    forall s | s in t.tried ensures s in base.tried {
      TriedAfter(h, t, ids, split, base.tried, s);
    }
  }

  lemma TriedBefore(h: Hasher, t: Tables, ids: seq<int>, split: nat, tried: Table, s: Slot)
    requires Consistent(h, t) && InOrder(t.mapInfo, ids, split) && SlotsLoaded(h, t.mapInfo, ids, split, |ids|, tried)
    requires s in tried
    ensures s in t.tried && 0 <= tried[s] < |ids| && t.tried[s] == ids[tried[s]]
  {
    hide RandomOk, EntriesOk, NewOk, AddrOk, Counted;
    var i := ids[tried[s]];
    assert i in t.mapInfo && t.mapInfo[i].fInTried;
  }

  lemma TriedAfter(h: Hasher, t: Tables, ids: seq<int>, split: nat, tried: Table, s: Slot)
    requires Consistent(h, t) && InOrder(t.mapInfo, ids, split) && SlotsLoaded(h, t.mapInfo, ids, split, |ids|, tried)
    requires s in t.tried
    ensures s in tried
  {
    hide RandomOk, EntriesOk, NewOk, AddrOk, Counted;
    var i := t.tried[s];
    assert i in t.mapInfo && i in ids;
    var k :| 0 <= k < |ids| && ids[k] == i;
    assert k >= split;
  }

  lemma {:induction false} ImageSize(a: set<int>, ids: seq<int>, b: set<int>)
    requires forall n :: n in a ==> 0 <= n < |ids|
    requires forall j, k :: 0 <= j < k < |ids| ==> ids[j] != ids[k]
    requires (forall n :: n in a ==> ids[n] in b) && (forall i :: i in b ==> exists n :: n in a && ids[n] == i)
    ensures |a| == |b|
    decreases |a|
  {
    if a == {} {
      forall i ensures i !in b {}
      assert b == {};
    } else {
      var n := Least(a);
      forall i | i in b - {ids[n]} ensures exists k :: k in a - {n} && ids[k] == i {
        var k :| k in a && ids[k] == i;
        assert k in a - {n};
      }
      forall k | k in a - {n} ensures ids[k] in b - {ids[n]} {}
      ImageSize(a - {n}, ids, b - {ids[n]});
    }
  }

  /** Renumbered tables are as consistent as the ones they come from. */
  lemma RenumberedConsistent(h: Hasher, t: Tables, u: Tables, ids: seq<int>)
    requires Consistent(h, t) && Renumbered(t, u, ids)
    requires forall n :: 0 <= n < |ids| ==> u.mapInfo[n].nLastTry >= 0
    ensures Consistent(h, u)
  {
    hide RandomOk, AddrOk, EntriesOk, NewOk, TriedOk, Counted;
    RenumberedOrder(t, u, ids);
    RenumberedAddrs(h, t, u, ids);
    RenumberedEntries(h, t, u, ids);
    RenumberedNews(h, t, u, ids);
    RenumberedTried(h, t, u, ids);
    RenumberedCounts(h, t, u, ids);
  }

  lemma RenumberedOrder(t: Tables, u: Tables, ids: seq<int>)
    requires Renumbered(t, u, ids)
    ensures RandomOk(u.mapInfo, u.vRandom)
  {
  }

  lemma RenumberedAddrs(h: Hasher, t: Tables, u: Tables, ids: seq<int>)
    requires Consistent(h, t) && Renumbered(t, u, ids)
    ensures AddrOk(u.mapInfo, u.mapAddr, u.nIdCount)
  {
    hide Consistent, SameTable;
    forall n | n in u.mapInfo
      ensures u.mapInfo[n].addr.svc.ip in u.mapAddr && u.mapAddr[u.mapInfo[n].addr.svc.ip] == n
    {
      AddrStays(h, t, u, ids, n);
    }
    forall x | x in u.mapAddr ensures u.mapAddr[x] in u.mapInfo && u.mapInfo[u.mapAddr[x]].addr.svc.ip == x {
      AddrLeads(h, t, u, ids, x);
    }
  }

  lemma AddrStays(h: Hasher, t: Tables, u: Tables, ids: seq<int>, n: nat)
    requires Consistent(h, t) && Renumbered(t, u, ids) && n < |ids|
    ensures var x := u.mapInfo[n].addr.svc.ip; x in u.mapAddr && u.mapAddr[x] == n
  {
    hide RandomOk, EntriesOk, NewOk, TriedOk, Counted;
    var i, x := ids[n], u.mapInfo[n].addr.svc.ip;
    assert SameEntry(t.mapInfo[i], u.mapInfo[n]);
    assert i in t.mapInfo && x in t.mapAddr && t.mapAddr[x] == i;
    var k := u.mapAddr[x];
    assert ids[k] == ids[n];
  }

  lemma AddrLeads(h: Hasher, t: Tables, u: Tables, ids: seq<int>, x: NetAddr)
    requires Consistent(h, t) && Renumbered(t, u, ids) && x in u.mapAddr
    ensures u.mapAddr[x] in u.mapInfo && u.mapInfo[u.mapAddr[x]].addr.svc.ip == x
  {
    hide RandomOk, EntriesOk, NewOk, TriedOk, Counted;
    var n := u.mapAddr[x];
    assert x in t.mapAddr && t.mapAddr[x] == ids[n];
    assert SameEntry(t.mapInfo[ids[n]], u.mapInfo[n]);
  }

  lemma RenumberedEntries(h: Hasher, t: Tables, u: Tables, ids: seq<int>)
    requires Consistent(h, t) && Renumbered(t, u, ids)
    requires forall n :: 0 <= n < |ids| ==> u.mapInfo[n].nLastTry >= 0
    ensures EntriesOk(u.mapInfo, u.news, {})
  {
    hide Consistent, SameTable, Occurrences;
    forall n | n in u.mapInfo ensures EntryOk(u.mapInfo[n], |Occurrences(u.news, n)|, n in {}) {
      assert SameEntry(t.mapInfo[ids[n]], u.mapInfo[n]);
      EntryFacts(h, t, ids[n]);
      SameOccurrences(t.mapInfo, t.news, u.news, ids, n);
    }
  }

  lemma SameOccurrences(m: map<int, Info>, was: Table, now: Table, ids: seq<int>, n: nat)
    requires IsList(m, ids) && SameTable(was, now, ids) && n < |ids|
    ensures Occurrences(now, n) == Occurrences(was, ids[n])
  {
    forall s ensures s in Occurrences(now, n) <==> s in Occurrences(was, ids[n]) {
      if s in was {
        var k := now[s];
        assert was[s] == ids[k];
      }
    }
  }

  lemma RenumberedNews(h: Hasher, t: Tables, u: Tables, ids: seq<int>)
    requires Consistent(h, t) && Renumbered(t, u, ids)
    ensures NewOk(h, u.mapInfo, u.news)
  {
    hide RandomOk, AddrOk, EntriesOk, Counted, TriedOk;
    forall s | s in u.news
      ensures u.news[s] in u.mapInfo && !u.mapInfo[u.news[s]].fInTried
      ensures s.bucket < NEW_BUCKET_COUNT && s == h.NewSlot(u.mapInfo[u.news[s]].addr.svc, s.bucket)
    {
      NewEntry(h, t, s);
      var n := u.news[s];
      assert SameEntry(t.mapInfo[ids[n]], u.mapInfo[n]);
    }
  }

  lemma RenumberedTried(h: Hasher, t: Tables, u: Tables, ids: seq<int>)
    requires Consistent(h, t) && Renumbered(t, u, ids)
    ensures TriedOk(h, u.mapInfo, u.tried)
  {
    hide Consistent;
    TriedSlots(h, t);
    forall s | s in u.tried
      ensures u.tried[s] in u.mapInfo && u.mapInfo[u.tried[s]].fInTried
      ensures s == h.TriedSlot(u.mapInfo[u.tried[s]].addr.svc)
    {
      var n := u.tried[s];
      assert SameEntry(t.mapInfo[ids[n]], u.mapInfo[n]);
      assert t.tried[s] == ids[n];
    }
    forall n | n in u.mapInfo && u.mapInfo[n].fInTried
      ensures h.TriedSlot(u.mapInfo[n].addr.svc) in u.tried && u.tried[h.TriedSlot(u.mapInfo[n].addr.svc)] == n
    {
      TriedStays(h, t, u, ids, n);
    }
  }

  lemma TriedSlots(h: Hasher, t: Tables)
    requires Consistent(h, t)
    ensures forall s :: s in t.tried ==>
      var i := t.tried[s]; i in t.mapInfo && t.mapInfo[i].fInTried && s == h.TriedSlot(t.mapInfo[i].addr.svc)
  {
    hide RandomOk, AddrOk, EntriesOk, Counted, NewOk;
  }

  lemma TriedStays(h: Hasher, t: Tables, u: Tables, ids: seq<int>, n: int)
    requires Consistent(h, t) && Renumbered(t, u, ids) && n in u.mapInfo && u.mapInfo[n].fInTried
    ensures h.TriedSlot(u.mapInfo[n].addr.svc) in u.tried && u.tried[h.TriedSlot(u.mapInfo[n].addr.svc)] == n
  {
    hide RandomOk, AddrOk, EntriesOk, Counted, NewOk;
    assert SameEntry(t.mapInfo[ids[n]], u.mapInfo[n]);
    var i, k := ids[n], h.TriedSlot(u.mapInfo[n].addr.svc);
    assert i in t.mapInfo && t.tried[k] == i;
    assert ids[u.tried[k]] == ids[n];
  }

  lemma RenumberedCounts(h: Hasher, t: Tables, u: Tables, ids: seq<int>)
    requires Consistent(h, t) && Renumbered(t, u, ids)
    ensures Counted(u.mapInfo, u.nTried, u.nNew)
  {
    hide RandomOk, AddrOk, EntriesOk, NewOk, TriedOk;
    forall n | 0 <= n < |ids| ensures u.mapInfo[n].fInTried == t.mapInfo[ids[n]].fInTried {
      assert SameEntry(t.mapInfo[ids[n]], u.mapInfo[n]);
    }
    forall i | i in t.mapInfo ensures exists n :: 0 <= n < |ids| && ids[n] == i {
      assert i in ids;
    }
    forall i | i in TriedIds(t.mapInfo) ensures exists n :: n in TriedIds(u.mapInfo) && ids[n] == i {
      var n :| 0 <= n < |ids| && ids[n] == i;
      assert n in TriedIds(u.mapInfo);
    }
    forall i | i in UntriedIds(t.mapInfo) ensures exists n :: n in UntriedIds(u.mapInfo) && ids[n] == i {
      var n :| 0 <= n < |ids| && ids[n] == i;
      assert n in UntriedIds(u.mapInfo);
    }
    forall n | n in TriedIds(u.mapInfo) ensures 0 <= n < |ids| && ids[n] in TriedIds(t.mapInfo) {
      var i := ids[n];
      assert i in ids;
    }
    forall n | n in UntriedIds(u.mapInfo) ensures 0 <= n < |ids| && ids[n] in UntriedIds(t.mapInfo) {
      var i := ids[n];
      assert i in ids;
    }
    ImageSize(TriedIds(u.mapInfo), ids, TriedIds(t.mapInfo));
    ImageSize(UntriedIds(u.mapInfo), ids, UntriedIds(t.mapInfo));
  }

  // ---------------------------------------------------------------------------------------------
  // The counts are within the limits that loading checks

  function SlotSpace(n: nat): set<Slot> {
    set b, p | 0 <= b < n && 0 <= p < BUCKET_SIZE :: Slot(b, p)
  }

  function BucketSpace(b: nat, n: nat): set<Slot> {
    set p | 0 <= p < n :: Slot(b, p)
  }

  lemma {:induction false} BucketSpaceSize(b: nat, n: nat)
    ensures |BucketSpace(b, n)| == n
  {
    if n > 0 {
      BucketSpaceSize(b, n - 1);
      assert BucketSpace(b, n) == BucketSpace(b, n - 1) + {Slot(b, n - 1)};
    }
  }

  lemma {:induction false} SlotSpaceSize(n: nat)
    ensures |SlotSpace(n)| == n * BUCKET_SIZE
  {
    if n > 0 {
      SlotSpaceSize(n - 1);
      BucketSpaceSize(n - 1, BUCKET_SIZE);
      assert SlotSpace(n) == SlotSpace(n - 1) + BucketSpace(n - 1, BUCKET_SIZE);
      assert SlotSpace(n - 1) !! BucketSpace(n - 1, BUCKET_SIZE);
    }
  }

  /** Entries that each hold a slot are no more than the slots. */
  lemma {:induction false} HoldersSize(a: set<int>, table: Table, space: set<Slot>)
    requires forall i :: i in a ==> exists s :: s in space && s in table && table[s] == i
    ensures |a| <= |space|
    decreases |a|
  {
    if a != {} {
      var i := Least(a);
      var s :| s in space && s in table && table[s] == i;
      forall j | j in a - {i} ensures exists r :: r in space - {s} && r in table && table[r] == j {
        var r :| r in space && r in table && table[r] == j;
        assert r in space - {s};
      }
      HoldersSize(a - {i}, table, space - {s});
    }
  }

  lemma WithinLimits(h: Hasher, t: Tables)
    requires Consistent(h, t)
    ensures t.nNew <= NEW_BUCKET_COUNT * BUCKET_SIZE && t.nTried <= TRIED_BUCKET_COUNT * BUCKET_SIZE
  {
    hide RandomOk, AddrOk;
    forall i | i in UntriedIds(t.mapInfo)
      ensures exists s :: s in SlotSpace(NEW_BUCKET_COUNT) && s in t.news && t.news[s] == i
    {
      EntryFacts(h, t, i);
      var s :| s in Occurrences(t.news, i);
      NewEntry(h, t, s);
      assert s == Slot(s.bucket, s.pos);
    }
    forall i | i in TriedIds(t.mapInfo)
      ensures exists s :: s in SlotSpace(TRIED_BUCKET_COUNT) && s in t.tried && t.tried[s] == i
    {
      var s := h.TriedSlot(t.mapInfo[i].addr.svc);
      assert s in t.tried && t.tried[s] == i;
    }
    HoldersSize(UntriedIds(t.mapInfo), t.news, SlotSpace(NEW_BUCKET_COUNT));
    HoldersSize(TriedIds(t.mapInfo), t.tried, SlotSpace(TRIED_BUCKET_COUNT));
    SlotSpaceSize(NEW_BUCKET_COUNT);
    SlotSpaceSize(TRIED_BUCKET_COUNT);
  }

  /**
  Loading what was saved gives back the same tables with other ids, and loses no entry, although tried
  slots and positions in the new buckets are not stored.
  */
  lemma RoundTrip(h: Hasher, t: Tables)
    requires Consistent(h, t)
    ensures var r := Load(h, Save(t));
      r.Some? && Renumbered(t, r.value, Stored(t.mapInfo)) && Consistent(h, r.value)
  {
    hide Consistent, InOrder, EntriesLoaded, NewsLoaded, Renumbered, LoadTried, LoadBuckets, Earlier, Apart, IsList,
      Ascending, Referenced;
    var m, s := t.mapInfo, Save(t);
    var ids, split := Stored(m), |Ascending(Referenced(m))|;
    WithinLimits(h, t);
    StoredInOrder(h, t);
    StoredApart(h, t, ids, split);
    SavedIs(t);
    TriedLoaded(h, t, ids, split, s, |s.trieds|);
    var base := LoadTried(h, s, |s.trieds|);
    BucketsLoaded(h, t, ids, split, s, NEW_BUCKET_COUNT);
    var u := LoadBuckets(h, s, NEW_BUCKET_COUNT);
    AllPlaced(h, t, ids, split, base, u);
    IsRenumbered(h, t, ids, split, base, u);
    RenumberedConsistent(h, t, u, ids);
    NothingPruned(u);
  }

  lemma SavedIs(t: Tables)
    ensures var m, s := t.mapInfo, Save(t);
      var ids, split := Stored(m), |Ascending(Referenced(m))|;
      && AllIn(m, ids) && |s.news| == split && split + |s.trieds| == |ids|
      && Usable(s) && |s.buckets| == NEW_BUCKET_COUNT && s.keySize == KEY_SIZE
      && (forall k :: 0 <= k < split ==> s.news[k] == ToRecord(m[ids[k]]))
      && (forall k :: 0 <= k < |s.trieds| ==> s.trieds[k] == ToRecord(m[ids[split + k]]))
      && (forall b :: 0 <= b < |s.buckets| ==> s.buckets[b] == BucketBelow(t, b, BUCKET_SIZE))
  {
    ListsIn(t.mapInfo);
  }

  lemma NothingPruned(u: Tables)
    requires Unplaced(u.mapInfo) == {}
    ensures Prune(u, Ascending(Unplaced(u.mapInfo))) == u
  {
  }
}
