/**
The address manager of src/addrman.cpp and src/addrman.h: five mutually redundant indexes over the
known peers -- entries by id, ids by address, a random order, and the "new" and "tried" tables of
bucket slots -- with counters and reference counts.

AddrTables holds the tables as one value, the operations on them, and the proof that every reachable
table satisfies every condition of CAddrMan::Check_.  AddrManager is the code.
*/
module AddrTables {
  import opened Basics

  // ---------------------------------------------------------------------------------------------
  // Addresses, entries and hashing

  const TRIED_BUCKET_COUNT := 256
  const NEW_BUCKET_COUNT := 1024
  const BUCKET_SIZE := 64
  const TRIED_BUCKETS_PER_GROUP := 8
  const NEW_BUCKETS_PER_SOURCE_GROUP := 64
  const NEW_BUCKETS_PER_ADDRESS := 8
  const HORIZON_DAYS := 30
  const RETRIES := 3
  const MAX_FAILURES := 10
  const MIN_FAIL_DAYS := 7
  const GETADDR_MAX_PCT := 23
  const GETADDR_MAX := 2500

  /** A network address (CNetAddr). */
  type NetAddr = nat

  datatype Service = Service(ip: NetAddr, port: nat)

  datatype Address = Address(svc: Service, services: bv64, nTime: int)

  datatype Info = Info(
    addr: Address, source: NetAddr,
    nLastTry: int, nLastCountAttempt: int, nLastSuccess: int, nAttempts: int,
    nRefCount: int, fInTried: bool, nRandomPos: int)

  /** What is fed to the hash writer. */
  datatype Preimage =
    | TriedKey(svc: Service)
    | TriedGroup(group: nat, n: nat)
    | NewGroups(group: nat, sourceGroup: nat)
    | NewSource(sourceGroup: nat, n: nat)
    | Position(isNew: bool, bucket: nat, svc: Service)

  /** The keyed hash and the grouping of addresses: any functions at all. */
  datatype Hasher = Hasher(hash: Preimage -> nat, group: NetAddr -> nat) {

    function TriedBucket(svc: Service): (b: nat)
      ensures b < TRIED_BUCKET_COUNT
    {
      hash(TriedGroup(group(svc.ip), hash(TriedKey(svc)) % TRIED_BUCKETS_PER_GROUP)) % TRIED_BUCKET_COUNT
    }

    function NewBucket(svc: Service, source: NetAddr): (b: nat)
      ensures b < NEW_BUCKET_COUNT
    {
      var s := group(source);
      hash(NewSource(s, hash(NewGroups(group(svc.ip), s)) % NEW_BUCKETS_PER_SOURCE_GROUP)) % NEW_BUCKET_COUNT
    }

    function BucketPosition(isNew: bool, bucket: nat, svc: Service): (p: nat)
      ensures p < BUCKET_SIZE
    {
      hash(Position(isNew, bucket, svc)) % BUCKET_SIZE
    }

    function TriedSlot(svc: Service): Slot {
      var b := TriedBucket(svc);
      Slot(b, BucketPosition(false, b, svc))
    }

    /** The only slot of a new bucket that an address may occupy. */
    function NewSlot(svc: Service, bucket: nat): Slot {
      Slot(bucket, BucketPosition(true, bucket, svc))
    }
  }

  datatype Slot = Slot(bucket: nat, pos: nat)

  /** The occupied slots of a table of buckets; an absent slot is one that holds -1. */
  type Table = map<Slot, int>

  predicate IsTerrible(i: Info, now: int) {
    if i.nLastTry != 0 && i.nLastTry >= now - 60 then false
    else
      || i.addr.nTime > now + 10 * 60
      || i.addr.nTime == 0 || now - i.addr.nTime > HORIZON_DAYS * 24 * 60 * 60
      || (i.nLastSuccess == 0 && i.nAttempts >= RETRIES)
      || (now - i.nLastSuccess > MIN_FAIL_DAYS * 24 * 60 * 60 && i.nAttempts >= MAX_FAILURES)
  }

  datatype Tables = Tables(
    nIdCount: int, mapInfo: map<int, Info>, mapAddr: map<NetAddr, int>, vRandom: seq<int>,
    nTried: int, tried: Table, nNew: int, news: Table, nLastGood: int)

  // ---------------------------------------------------------------------------------------------
  // Check_

  function Occurrences(news: Table, id: int): set<Slot> {
    set s | s in news && news[s] == id
  }

  function TriedIds(m: map<int, Info>): set<int> {
    set i | i in m && m[i].fInTried
  }

  function UntriedIds(m: map<int, Info>): set<int> {
    set i | i in m && !m[i].fInTried
  }

  /** The random order lists every entry once, and each entry knows its place (error -14). */
  ghost predicate RandomOk(m: map<int, Info>, v: seq<int>) {
    && (forall i :: i in m ==> 0 <= m[i].nRandomPos < |v| && v[m[i].nRandomPos] == i)
    && (forall k :: 0 <= k < |v| ==> v[k] in m && m[v[k]].nRandomPos == k)
  }

  /** The address index leads to exactly the entries (error -5), whose ids were all handed out. */
  ghost predicate AddrOk(m: map<int, Info>, a: map<NetAddr, int>, n: int) {
    && 0 <= n && (forall i :: i in m ==> 0 <= i < n && m[i].addr.svc.ip in a && a[m[i].addr.svc.ip] == i)
    && (forall x :: x in a ==> a[x] in m && m[a[x]].addr.svc.ip == x)
  }

  /** What Check_ asks of one entry (errors -1, -2, -3, -4, -6 and -8); a loose entry may have no slot yet. */
  ghost predicate EntryOk(e: Info, slots: nat, loose: bool) {
    && e.nRefCount == slots
    && (e.fInTried ==> e.nLastSuccess != 0 && slots == 0)
    && (!e.fInTried ==> slots <= NEW_BUCKETS_PER_ADDRESS && (!loose ==> slots >= 1))
    && e.nLastTry >= 0 && e.nLastSuccess >= 0
  }

  ghost predicate EntriesOk(m: map<int, Info>, news: Table, loose: set<int>) {
    forall i :: i in m ==> EntryOk(m[i], |Occurrences(news, i)|, i in loose)
  }

  /** Every occupied new slot holds an untried entry at its place in that bucket (errors -12 and -19). */
  ghost predicate NewOk(h: Hasher, m: map<int, Info>, news: Table) {
    forall s :: s in news ==>
      && news[s] in m && !m[news[s]].fInTried
      && s.bucket < NEW_BUCKET_COUNT && s == h.NewSlot(m[news[s]].addr.svc, s.bucket)
  }

  /** The tried table holds exactly the tried entries, each in its slot (errors -11, -13, -17 and -18). */
  ghost predicate TriedOk(h: Hasher, m: map<int, Info>, tried: Table) {
    && (forall s :: s in tried ==> tried[s] in m && m[tried[s]].fInTried && s == h.TriedSlot(m[tried[s]].addr.svc))
    && (forall i :: i in m && m[i].fInTried ==>
          h.TriedSlot(m[i].addr.svc) in tried && tried[h.TriedSlot(m[i].addr.svc)] == i)
  }

  /** The counters (errors -9 and -10). */
  ghost predicate Counted(m: map<int, Info>, nTried: int, nNew: int) {
    nTried == |TriedIds(m)| && nNew == |UntriedIds(m)|
  }

  /** The invariant; inside operations some entries are loose, and nNew lags off behind. */
  ghost predicate Nearly(h: Hasher, t: Tables, loose: set<int>, off: int) {
    && RandomOk(t.mapInfo, t.vRandom)
    && AddrOk(t.mapInfo, t.mapAddr, t.nIdCount)
    && EntriesOk(t.mapInfo, t.news, loose)
    && NewOk(h, t.mapInfo, t.news)
    && TriedOk(h, t.mapInfo, t.tried)
    && Counted(t.mapInfo, t.nTried, t.nNew + off)
  }

  /** Between operations. */
  ghost predicate Consistent(h: Hasher, t: Tables) {
    Nearly(h, t, {}, 0)
  }

  // ---------------------------------------------------------------------------------------------
  // The table operations

  const EMPTY := Tables(0, map[], map[], [], 0, map[], 0, map[], 1)

  function Put(t: Tables, i: int, e: Info): Tables {
    t.(mapInfo := t.mapInfo[i := e])
  }

  function Find(t: Tables, ip: NetAddr): (r: Option<int>)
    ensures r.Some? ==> r.value in t.mapInfo
  {
    if ip in t.mapAddr && t.mapAddr[ip] in t.mapInfo then Some(t.mapAddr[ip]) else None
  }

  function Create(t: Tables, addr: Address, source: NetAddr): Tables {
    t.(nIdCount := t.nIdCount + 1,
       mapInfo := t.mapInfo[t.nIdCount := Info(addr, source, 0, 0, 0, 0, 0, false, |t.vRandom|)],
       mapAddr := t.mapAddr[addr.svc.ip := t.nIdCount],
       vRandom := t.vRandom + [t.nIdCount])
  }

  /** Both ids are entries: what the asserts of SwapRandom check. */
  predicate CanSwap(t: Tables, k: nat, l: nat) {
    k < |t.vRandom| && l < |t.vRandom| && t.vRandom[k] in t.mapInfo && t.vRandom[l] in t.mapInfo
  }

  function SwapRandom(t: Tables, k: nat, l: nat): Tables
    requires CanSwap(t, k, l)
  {
    if k == l then t
    else
      var i, j := t.vRandom[k], t.vRandom[l];
      var m := t.mapInfo[i := t.mapInfo[i].(nRandomPos := l)];
      t.(mapInfo := m[j := m[j].(nRandomPos := k)], vRandom := t.vRandom[k := j][l := i])
  }

  /** What the asserts of Delete check. */
  predicate CanDelete(t: Tables, i: int) {
    && i in t.mapInfo && !t.mapInfo[i].fInTried && t.mapInfo[i].nRefCount == 0
    && 0 <= t.mapInfo[i].nRandomPos && t.vRandom != [] && CanSwap(t, t.mapInfo[i].nRandomPos, |t.vRandom| - 1)
  }

  /** The rest of Delete, once the entry is last in the random order. */
  function PopEntry(t: Tables, i: int): Tables
    requires i in t.mapInfo && t.vRandom != []
  {
    t.(vRandom := t.vRandom[..|t.vRandom| - 1], mapAddr := t.mapAddr - {t.mapInfo[i].addr.svc.ip},
       mapInfo := t.mapInfo - {i}, nNew := t.nNew - 1)
  }

  function Delete(t: Tables, i: int): Tables
    requires CanDelete(t, i)
  {
    PopEntry(SwapRandom(t, t.mapInfo[i].nRandomPos, |t.vRandom| - 1), i)
  }

  /** An entry with one reference less. */
  function OneLess(e: Info): Info { e.(nRefCount := e.nRefCount - 1) }

  /** ClearNew before a possible Delete. */
  function Unref(t: Tables, s: Slot): Tables
    requires s in t.news && t.news[s] in t.mapInfo
  {
    var i := t.news[s];
    t.(mapInfo := t.mapInfo[i := OneLess(t.mapInfo[i])], news := t.news - {s})
  }

  predicate CanClear(t: Tables, s: Slot) {
    s in t.news ==>
      && t.news[s] in t.mapInfo && t.mapInfo[t.news[s]].nRefCount > 0
      && (t.mapInfo[t.news[s]].nRefCount == 1 ==> CanDelete(Unref(t, s), t.news[s]))
  }

  function ClearNew(t: Tables, s: Slot): Tables
    requires CanClear(t, s)
  {
    if s !in t.news then t
    else if t.mapInfo[t.news[s]].nRefCount == 1 then Delete(Unref(t, s), t.news[s])
    else Unref(t, s)
  }

  /** An entry takes a free new slot. */
  function PutNew(t: Tables, i: int, s: Slot): Tables
    requires i in t.mapInfo
  {
    t.(mapInfo := t.mapInfo[i := t.mapInfo[i].(nRefCount := t.mapInfo[i].nRefCount + 1)], news := t.news[s := i])
  }

  // ---------------------------------------------------------------------------------------------
  // Changes that move no entry

  /** The same entries, at the same addresses, tried or not as before. */
  ghost predicate SameShape(m: map<int, Info>, k: map<int, Info>) {
    && (forall i :: i in m <==> i in k)
    && (forall i :: i in m && i in k ==> k[i].addr.svc == m[i].addr.svc && k[i].fInTried == m[i].fInTried)
  }

  lemma ShapeSets(m: map<int, Info>, k: map<int, Info>)
    requires SameShape(m, k)
    ensures TriedIds(k) == TriedIds(m) && UntriedIds(k) == UntriedIds(m)
  {
    forall i: int ensures i in TriedIds(k) <==> i in TriedIds(m) {
      assert i in m <==> i in k;
    }
    forall i: int ensures i in UntriedIds(k) <==> i in UntriedIds(m) {
      assert i in m <==> i in k;
    }
  }

  lemma ShapeCounted(m: map<int, Info>, k: map<int, Info>, nTried: int, nNew: int)
    requires SameShape(m, k) && Counted(m, nTried, nNew)
    ensures Counted(k, nTried, nNew)
  {
    ShapeSets(m, k);
  }

  lemma SamePositions(m: map<int, Info>, k: map<int, Info>, v: seq<int>)
    requires RandomOk(m, v) && forall i :: i in m <==> i in k
    requires forall i :: i in m && i in k ==> k[i].nRandomPos == m[i].nRandomPos
    ensures RandomOk(k, v)
  {
    forall p | 0 <= p < |v| ensures v[p] in k && k[v[p]].nRandomPos == p {
      var i := v[p];
      assert i in m;
    }
  }

  lemma ShapeAddr(m: map<int, Info>, k: map<int, Info>, a: map<NetAddr, int>, n: int)
    requires AddrOk(m, a, n) && (forall i :: i in m <==> i in k)
    requires forall i :: i in m && i in k ==> k[i].addr.svc == m[i].addr.svc
    ensures AddrOk(k, a, n)
  {
    forall x | x in a ensures a[x] in k && k[a[x]].addr.svc.ip == x {
      var i := a[x];
      assert i in m;
    }
  }

  lemma ShapeSlots(h: Hasher, m: map<int, Info>, k: map<int, Info>, news: Table, tried: Table)
    requires SameShape(m, k) && NewOk(h, m, news) && TriedOk(h, m, tried)
    ensures NewOk(h, k, news) && TriedOk(h, k, tried)
  {
    forall s | s in news
      ensures news[s] in k && !k[news[s]].fInTried
      ensures s.bucket < NEW_BUCKET_COUNT && s == h.NewSlot(k[news[s]].addr.svc, s.bucket)
    {
      var i := news[s];
      assert i in m;
    }
    forall s | s in tried
      ensures tried[s] in k && k[tried[s]].fInTried && s == h.TriedSlot(k[tried[s]].addr.svc)
    {
      var i := tried[s];
      assert i in m;
    }
  }

  /** Replacing times, services and attempts of one entry. */
  lemma PutKeeps(h: Hasher, t: Tables, loose: set<int>, off: int, i: int, e: Info)
    requires Nearly(h, t, loose, off) && i in t.mapInfo
    requires var o := t.mapInfo[i];
      && e.addr.svc == o.addr.svc && e.nRefCount == o.nRefCount && e.fInTried == o.fInTried
      && e.nRandomPos == o.nRandomPos
      && e.nLastTry >= 0 && e.nLastSuccess >= 0 && (e.fInTried ==> e.nLastSuccess != 0)
    ensures Nearly(h, Put(t, i, e), loose, off)
  {
    hide RandomOk, AddrOk, EntriesOk, NewOk, TriedOk;
    var u := Put(t, i, e);
    ShapeSets(t.mapInfo, u.mapInfo);
    ShapeAddr(t.mapInfo, u.mapInfo, t.mapAddr, t.nIdCount);
    ShapeSlots(h, t.mapInfo, u.mapInfo, t.news, t.tried);
    SamePositions(t.mapInfo, u.mapInfo, t.vRandom);
    PutEntry(t.mapInfo, t.news, loose, i, e);
  }

  lemma PutEntry(m: map<int, Info>, news: Table, loose: set<int>, i: int, e: Info)
    requires EntriesOk(m, news, loose) && i in m
    requires e.nRefCount == m[i].nRefCount && e.fInTried == m[i].fInTried
    requires e.nLastTry >= 0 && e.nLastSuccess >= 0 && (e.fInTried ==> e.nLastSuccess != 0)
    ensures EntriesOk(m[i := e], news, loose)
  {
  }

  lemma SwapKeeps(h: Hasher, t: Tables, loose: set<int>, off: int, k: nat, l: nat)
    requires Nearly(h, t, loose, off) && k < |t.vRandom| && l < |t.vRandom|
    ensures CanSwap(t, k, l) && Nearly(h, SwapRandom(t, k, l), loose, off)
    ensures SameBut(t, SwapRandom(t, k, l))
  {
    var u := SwapRandom(t, k, l);
    SwapRandomOk(t, k, l);
    ReorderKeeps(h, t, u, loose, off);
  }

  lemma ReorderKeeps(h: Hasher, t: Tables, u: Tables, loose: set<int>, off: int)
    requires Nearly(h, t, loose, off) && SameBut(t, u) && RandomOk(u.mapInfo, u.vRandom)
    ensures Nearly(h, u, loose, off)
  {
    ShapeSets(t.mapInfo, u.mapInfo);
    ShapeAddr(t.mapInfo, u.mapInfo, t.mapAddr, t.nIdCount);
    ShapeSlots(h, t.mapInfo, u.mapInfo, t.news, t.tried);
    ReorderEntries(t.mapInfo, u.mapInfo, t.news, loose);
  }

  lemma ReorderEntries(m: map<int, Info>, k: map<int, Info>, news: Table, loose: set<int>)
    requires Reordered(m, k) && EntriesOk(m, news, loose)
    ensures EntriesOk(k, news, loose)
  {
  }

  lemma SwapRandomOk(t: Tables, k: nat, l: nat)
    requires CanSwap(t, k, l) && RandomOk(t.mapInfo, t.vRandom)
    ensures RandomOk(SwapRandom(t, k, l).mapInfo, SwapRandom(t, k, l).vRandom)
    ensures SameBut(t, SwapRandom(t, k, l))
  {
    if k != l {
      var i, j, u := t.vRandom[k], t.vRandom[l], SwapRandom(t, k, l);
      assert i in t.mapInfo && t.mapInfo[i].nRandomPos == k;
      assert j in t.mapInfo && t.mapInfo[j].nRandomPos == l;
      forall p | 0 <= p < |u.vRandom| ensures u.vRandom[p] in u.mapInfo && u.mapInfo[u.vRandom[p]].nRandomPos == p {
        var x := t.vRandom[p];
        assert x in t.mapInfo && t.mapInfo[x].nRandomPos == p;
      }
      forall x | x in u.mapInfo
        ensures 0 <= u.mapInfo[x].nRandomPos < |u.vRandom| && u.vRandom[u.mapInfo[x].nRandomPos] == x
      {
        var p := t.mapInfo[x].nRandomPos;
        assert t.vRandom[p] == x;
      }
    }
  }

  ghost predicate Reordered(m: map<int, Info>, k: map<int, Info>) {
    && (forall i :: i in m <==> i in k)
    && (forall i :: i in m && i in k ==> k[i] == m[i].(nRandomPos := k[i].nRandomPos))
  }

  /** Two tables that differ only in the random order. */
  ghost predicate SameBut(t: Tables, u: Tables) {
    && Reordered(t.mapInfo, u.mapInfo)
    && u == t.(mapInfo := u.mapInfo, vRandom := u.vRandom)
    && |u.vRandom| == |t.vRandom|
  }

  // ---------------------------------------------------------------------------------------------
  // Create, Delete, ClearNew and taking a slot

  lemma NoOccurrences(h: Hasher, m: map<int, Info>, news: Table, i: int)
    requires NewOk(h, m, news) && (i !in m || m[i].fInTried)
    ensures Occurrences(news, i) == {}
  {
    forall s | s in news ensures news[s] != i {
      var j := news[s];
      assert j in m && !m[j].fInTried;
    }
  }

  /** An entry that is new to every index. */
  function Entered(t: Tables, e: Info): Tables {
    t.(nIdCount := t.nIdCount + 1, mapInfo := t.mapInfo[t.nIdCount := e],
       mapAddr := t.mapAddr[e.addr.svc.ip := t.nIdCount], vRandom := t.vRandom + [t.nIdCount])
  }

  /** It is loose until it gets a slot. */
  lemma EnterKeeps(h: Hasher, t: Tables, loose: set<int>, off: int, e: Info)
    requires Nearly(h, t, loose, off) && e.addr.svc.ip !in t.mapAddr && e.nRandomPos == |t.vRandom|
    requires !e.fInTried && e.nRefCount == 0 && e.nLastTry >= 0 && e.nLastSuccess >= 0
    ensures t.nIdCount !in t.mapInfo && Nearly(h, Entered(t, e), loose + {t.nIdCount}, off + 1)
  {
    hide RandomOk, EntriesOk, NewOk, TriedOk;
    var n, m := t.nIdCount, t.mapInfo;
    assert n !in m;
    NoOccurrences(h, m, t.news, n);
    EnterSets(m, n, e);
    CreateSlots(h, t, Entered(t, e), n);
    EnterIndexes(t, e);
    EnterEntries(m, t.news, loose, n, e);
  }

  lemma EnterSets(m: map<int, Info>, n: int, e: Info)
    requires n !in m && !e.fInTried
    ensures TriedIds(m[n := e]) == TriedIds(m) && |UntriedIds(m[n := e])| == |UntriedIds(m)| + 1
  {
    assert UntriedIds(m[n := e]) == UntriedIds(m) + {n};
  }

  lemma EnterEntries(m: map<int, Info>, news: Table, loose: set<int>, n: int, e: Info)
    requires EntriesOk(m, news, loose) && n !in m && Occurrences(news, n) == {}
    requires !e.fInTried && e.nRefCount == 0 && e.nLastTry >= 0 && e.nLastSuccess >= 0
    ensures EntriesOk(m[n := e], news, loose + {n})
  {
    var k := m[n := e];
    forall i | i in k ensures EntryOk(k[i], |Occurrences(news, i)|, i in loose + {n}) {
      if i != n { assert i in m; }
    }
  }

  /** A new entry is loose until it gets a slot. */
  lemma CreateKeeps(h: Hasher, t: Tables, addr: Address, source: NetAddr)
    requires Consistent(h, t) && addr.svc.ip !in t.mapAddr
    ensures t.nIdCount !in t.mapInfo
    ensures var u := Create(t, addr, source); Nearly(h, u.(nNew := t.nNew + 1), {t.nIdCount}, 0)
  {
    hide RandomOk, AddrOk, EntriesOk, NewOk, TriedOk;
    var e := Info(addr, source, 0, 0, 0, 0, 0, false, |t.vRandom|);
    EnterKeeps(h, t, {}, 0, e);
    assert Entered(t, e) == Create(t, addr, source) && {} + {t.nIdCount} == {t.nIdCount};
  }

  lemma CreateSlots(h: Hasher, t: Tables, u: Tables, n: int)
    requires NewOk(h, t.mapInfo, t.news) && TriedOk(h, t.mapInfo, t.tried) && n !in t.mapInfo
    requires n in u.mapInfo && u.mapInfo == t.mapInfo[n := u.mapInfo[n]] && !u.mapInfo[n].fInTried
    ensures NewOk(h, u.mapInfo, t.news) && TriedOk(h, u.mapInfo, t.tried)
  {
    forall s | s in t.news
      ensures t.news[s] in u.mapInfo && !u.mapInfo[t.news[s]].fInTried
      ensures s.bucket < NEW_BUCKET_COUNT && s == h.NewSlot(u.mapInfo[t.news[s]].addr.svc, s.bucket)
    {
      var i := t.news[s];
      assert i in t.mapInfo;
    }
    forall s | s in t.tried
      ensures t.tried[s] in u.mapInfo && u.mapInfo[t.tried[s]].fInTried
      ensures s == h.TriedSlot(u.mapInfo[t.tried[s]].addr.svc)
    {
      var i := t.tried[s];
      assert i in t.mapInfo;
    }
  }

  lemma EnterIndexes(t: Tables, e: Info)
    requires RandomOk(t.mapInfo, t.vRandom) && AddrOk(t.mapInfo, t.mapAddr, t.nIdCount)
    requires t.nIdCount !in t.mapInfo && e.addr.svc.ip !in t.mapAddr && e.nRandomPos == |t.vRandom|
    ensures var u := Entered(t, e); RandomOk(u.mapInfo, u.vRandom) && AddrOk(u.mapInfo, u.mapAddr, u.nIdCount)
  {
    var u := Entered(t, e);
    forall k | 0 <= k < |u.vRandom| ensures u.vRandom[k] in u.mapInfo && u.mapInfo[u.vRandom[k]].nRandomPos == k {
      if k < |t.vRandom| {
        var i := t.vRandom[k];
        assert i in t.mapInfo;
      }
    }
    forall x | x in u.mapAddr ensures u.mapAddr[x] in u.mapInfo && u.mapInfo[u.mapAddr[x]].addr.svc.ip == x {
      if x != e.addr.svc.ip {
        var i := t.mapAddr[x];
        assert i in t.mapInfo;
      }
    }
  }

  /** All but one entry, up to the random order. */
  ghost predicate WithoutEntry(m: map<int, Info>, k: map<int, Info>, i: int) {
    && (forall j :: j in k <==> j in m && j != i)
    && (forall j :: j in k && j in m ==> k[j] == m[j].(nRandomPos := k[j].nRandomPos))
  }

  /** One entry is gone; the others only moved in the random order. */
  ghost predicate Dropped(t: Tables, u: Tables, i: int) {
    && WithoutEntry(t.mapInfo, u.mapInfo, i)
    && u.news == t.news && u.tried == t.tried && u.nTried == t.nTried && u.nNew == t.nNew - 1
    && u.nIdCount == t.nIdCount && u.nLastGood == t.nLastGood
  }

  lemma DeleteKeeps(h: Hasher, t: Tables, loose: set<int>, off: int, i: int)
    requires Nearly(h, t, loose, off) && i in t.mapInfo && !t.mapInfo[i].fInTried && t.mapInfo[i].nRefCount == 0
    ensures CanDelete(t, i) && Nearly(h, Delete(t, i), loose, off) && Dropped(t, Delete(t, i), i)
  {
    DeleteRandom(t, i);
    var u := Delete(t, i);
    DropAddr(t.mapInfo, u.mapInfo, t.mapAddr, t.nIdCount, i);
    DropEntries(t.mapInfo, u.mapInfo, t.news, loose, i);
    DropSlots(h, t.mapInfo, u.mapInfo, t.news, t.tried, i);
    DropSets(t.mapInfo, u.mapInfo, i);
  }

  lemma DeleteRandom(t: Tables, i: int)
    requires RandomOk(t.mapInfo, t.vRandom) && i in t.mapInfo && !t.mapInfo[i].fInTried && t.mapInfo[i].nRefCount == 0
    ensures CanDelete(t, i)
    ensures var u := Delete(t, i);
      && RandomOk(u.mapInfo, u.vRandom) && Dropped(t, u, i)
      && u.mapAddr == t.mapAddr - {t.mapInfo[i].addr.svc.ip}
  {
    hide RandomOk, SwapRandom, SameBut, Dropped;
    DeleteAllowed(t, i);
    var k, last := t.mapInfo[i].nRandomPos, |t.vRandom| - 1;
    SwapRandomOk(t, k, last);
    SwapLast(t, k);
    var s := SwapRandom(t, k, last);
    PopRandom(s.mapInfo, s.vRandom, i);
    PopEffect(t, s, i);
  }

  lemma SwapLast(t: Tables, k: nat)
    requires t.vRandom != [] && CanSwap(t, k, |t.vRandom| - 1)
    ensures var s := SwapRandom(t, k, |t.vRandom| - 1);
      |s.vRandom| == |t.vRandom| && s.vRandom[|s.vRandom| - 1] == t.vRandom[k] && s.mapInfo.Keys == t.mapInfo.Keys
  {
  }

  lemma DeleteAllowed(t: Tables, i: int)
    requires RandomOk(t.mapInfo, t.vRandom) && i in t.mapInfo && !t.mapInfo[i].fInTried && t.mapInfo[i].nRefCount == 0
    ensures CanDelete(t, i) && t.vRandom[t.mapInfo[i].nRandomPos] == i
  {
    var j := t.vRandom[|t.vRandom| - 1];
    assert j in t.mapInfo;
  }

  lemma PopEffect(t: Tables, s: Tables, i: int)
    requires SameBut(t, s) && i in t.mapInfo && i in s.mapInfo && s.vRandom != []
    ensures Dropped(t, PopEntry(s, i), i) && PopEntry(s, i).mapAddr == t.mapAddr - {t.mapInfo[i].addr.svc.ip}
  {
  }

  lemma PopRandom(m: map<int, Info>, v: seq<int>, i: int)
    requires RandomOk(m, v) && v != [] && v[|v| - 1] == i
    ensures RandomOk(m - {i}, v[..|v| - 1])
  {
    assert m[i].nRandomPos == |v| - 1;
    forall k | 0 <= k < |v| - 1 ensures v[k] in m - {i} && (m - {i})[v[k]].nRandomPos == k {
      var j := v[k];
      assert j in m && m[j].nRandomPos == k;
    }
    forall j | j in m - {i} ensures 0 <= m[j].nRandomPos < |v| - 1 && v[m[j].nRandomPos] == j {
      assert j in m;
    }
  }

  lemma DropAddr(m: map<int, Info>, k: map<int, Info>, a: map<NetAddr, int>, n: int, i: int)
    requires AddrOk(m, a, n) && i in m && WithoutEntry(m, k, i)
    ensures AddrOk(k, a - {m[i].addr.svc.ip}, n)
  {
    var c := a - {m[i].addr.svc.ip};
    forall x | x in c ensures c[x] in k && k[c[x]].addr.svc.ip == x {
      var j := a[x];
      assert j in m;
    }
    forall j | j in k ensures 0 <= j < n && k[j].addr.svc.ip in c && c[k[j].addr.svc.ip] == j {
      assert j in m;
    }
  }

  lemma DropEntries(m: map<int, Info>, k: map<int, Info>, news: Table, loose: set<int>, i: int)
    requires EntriesOk(m, news, loose) && WithoutEntry(m, k, i)
    ensures EntriesOk(k, news, loose)
  {
    forall j | j in k ensures EntryOk(k[j], |Occurrences(news, j)|, j in loose) { assert j in m; }
  }

  lemma DropSets(m: map<int, Info>, k: map<int, Info>, i: int)
    requires i in m && !m[i].fInTried && WithoutEntry(m, k, i)
    ensures TriedIds(k) == TriedIds(m) && |UntriedIds(k)| == |UntriedIds(m)| - 1
  {
    forall j: int ensures j in TriedIds(k) <==> j in TriedIds(m) { assert j in k <==> j in m && j != i; }
    forall j: int ensures j in UntriedIds(k) <==> j in UntriedIds(m) - {i} { assert j in k <==> j in m && j != i; }
    assert UntriedIds(k) == UntriedIds(m) - {i};
  }

  lemma DropSlots(h: Hasher, m: map<int, Info>, k: map<int, Info>, news: Table, tried: Table, i: int)
    requires NewOk(h, m, news) && TriedOk(h, m, tried) && WithoutEntry(m, k, i)
    requires i in m && !m[i].fInTried && |Occurrences(news, i)| == 0
    ensures NewOk(h, k, news) && TriedOk(h, k, tried)
  {
    forall c | c in news
      ensures news[c] in k && !k[news[c]].fInTried
      ensures c.bucket < NEW_BUCKET_COUNT && c == h.NewSlot(k[news[c]].addr.svc, c.bucket)
    {
      var j := news[c];
      assert j in m && c in Occurrences(news, j);
    }
    forall c | c in tried
      ensures tried[c] in k && k[tried[c]].fInTried && c == h.TriedSlot(k[tried[c]].addr.svc)
    {
      var j := tried[c];
      assert j in m;
    }
    forall j | j in k && k[j].fInTried
      ensures h.TriedSlot(k[j].addr.svc) in tried && tried[h.TriedSlot(k[j].addr.svc)] == j
    {
      assert j in m;
    }
  }

  lemma OccurrencesDrop(news: Table, s: Slot, j: int)
    requires s in news
    ensures Occurrences(news - {s}, j) == Occurrences(news, j) - {s}
    ensures news[s] == j ==> |Occurrences(news - {s}, j)| == |Occurrences(news, j)| - 1
    ensures news[s] != j ==> Occurrences(news - {s}, j) == Occurrences(news, j)
  {
    if news[s] == j { assert s in Occurrences(news, j); }
  }

  lemma UnrefKeeps(h: Hasher, t: Tables, loose: set<int>, off: int, s: Slot)
    requires Nearly(h, t, loose, off) && s in t.news
    ensures t.news[s] in t.mapInfo && !t.mapInfo[t.news[s]].fInTried && t.mapInfo[t.news[s]].nRefCount >= 1
    ensures Nearly(h, Unref(t, s), loose + {t.news[s]}, off)
  {
    hide RandomOk, AddrOk, EntriesOk, NewOk, TriedOk, Counted;
    SlotHolder(h, t, loose, off, s);
    var u := Unref(t, s);
    UnrefShape(t, s);
    hide SameShape;
    ShapeCounted(t.mapInfo, u.mapInfo, t.nTried, t.nNew + off);
    ShapeAddr(t.mapInfo, u.mapInfo, t.mapAddr, t.nIdCount);
    ShapeSlots(h, t.mapInfo, u.mapInfo, t.news, t.tried);
    FewerSlots(h, u.mapInfo, t.news, s);
    SamePositions(t.mapInfo, u.mapInfo, t.vRandom);
    UnrefEntries(t.mapInfo, t.news, loose, s);
  }

  lemma FewerSlots(h: Hasher, m: map<int, Info>, news: Table, s: Slot)
    requires NewOk(h, m, news)
    ensures NewOk(h, m, news - {s})
  {
    forall c | c in news - {s}
      ensures news[c] in m && !m[news[c]].fInTried
      ensures c.bucket < NEW_BUCKET_COUNT && c == h.NewSlot(m[news[c]].addr.svc, c.bucket)
    {
      assert c in news;
    }
  }

  /** A new slot holds an untried entry with a reference. */
  lemma SlotHolder(h: Hasher, t: Tables, loose: set<int>, off: int, s: Slot)
    requires Nearly(h, t, loose, off) && s in t.news
    ensures t.news[s] in t.mapInfo && !t.mapInfo[t.news[s]].fInTried && t.mapInfo[t.news[s]].nRefCount >= 1
  {
    hide RandomOk, AddrOk, TriedOk, Counted;
    var i := t.news[s];
    assert i in t.mapInfo && s in Occurrences(t.news, i);
  }

  lemma UnrefShape(t: Tables, s: Slot)
    requires s in t.news && t.news[s] in t.mapInfo
    ensures var m, k := t.mapInfo, Unref(t, s).mapInfo;
      && SameShape(m, k) && (forall i :: i in m <==> i in k)
      && forall i :: i in m && i in k ==> k[i].addr.svc == m[i].addr.svc && k[i].nRandomPos == m[i].nRandomPos
  {
  }

  lemma UnrefEntries(m: map<int, Info>, news: Table, loose: set<int>, s: Slot)
    requires EntriesOk(m, news, loose) && s in news && news[s] in m && !m[news[s]].fInTried
    ensures var i := news[s]; EntriesOk(m[i := m[i].(nRefCount := m[i].nRefCount - 1)], news - {s}, loose + {i})
  {
    var i := news[s];
    var k := m[i := m[i].(nRefCount := m[i].nRefCount - 1)];
    forall j | j in k ensures EntryOk(k[j], |Occurrences(news - {s}, j)|, j in loose + {i}) {
      assert j in m;
      OccurrencesDrop(news, s, j);
    }
  }

  /** Clearing a slot: its holder loses one reference, and is dropped with the last. */
  ghost predicate Cleared(t: Tables, u: Tables, s: Slot) {
    && u.news == t.news - {s} && u.tried == t.tried && u.nTried == t.nTried
    && u.nIdCount == t.nIdCount && u.nLastGood == t.nLastGood
    && (forall j :: j in u.mapInfo ==> j in t.mapInfo)
    && (forall j :: j in t.mapInfo && !(s in t.news && t.news[s] == j) ==>
          j in u.mapInfo && u.mapInfo[j] == t.mapInfo[j].(nRandomPos := u.mapInfo[j].nRandomPos))
    && (s in t.news && t.news[s] in t.mapInfo ==>
          var i := t.news[s];
          if t.mapInfo[i].nRefCount == 1 then i !in u.mapInfo
          else i in u.mapInfo && u.mapInfo[i] == OneLess(t.mapInfo[i]).(nRandomPos := u.mapInfo[i].nRandomPos))
  }

  lemma ClearKeeps(h: Hasher, t: Tables, loose: set<int>, off: int, s: Slot)
    requires Nearly(h, t, loose, off) && (s in t.news ==> t.news[s] !in loose)
    ensures CanClear(t, s) && Nearly(h, ClearNew(t, s), loose, off) && Cleared(t, ClearNew(t, s), s)
  {
    hide Nearly;
    if s in t.news {
      var i := t.news[s];
      UnrefKeeps(h, t, loose, off, s);
      var u := Unref(t, s);
      if t.mapInfo[i].nRefCount == 1 {
        DeleteKeeps(h, u, loose + {i}, off, i);
        Tighten(h, Delete(u, i), loose, off, i);
      } else {
        Tighten(h, u, loose, off, i);
      }
    } else {
      assert t.news - {s} == t.news;
    }
  }

  /** An entry with a slot, or without existence, need not be loose. */
  lemma Tighten(h: Hasher, t: Tables, loose: set<int>, off: int, i: int)
    requires Nearly(h, t, loose + {i}, off) && (i in t.mapInfo ==> t.mapInfo[i].fInTried || t.mapInfo[i].nRefCount >= 1)
    ensures Nearly(h, t, loose, off)
  {
    forall j | j in t.mapInfo ensures EntryOk(t.mapInfo[j], |Occurrences(t.news, j)|, j in loose) {
      assert EntryOk(t.mapInfo[j], |Occurrences(t.news, j)|, j in loose + {i});
    }
  }

  lemma OccurrencesPut(news: Table, s: Slot, i: int, j: int)
    requires s !in news
    ensures Occurrences(news[s := i], j) == if j == i then Occurrences(news, j) + {s} else Occurrences(news, j)
  {
  }

  lemma PutNewKeeps(h: Hasher, t: Tables, loose: set<int>, off: int, i: int, s: Slot)
    requires Nearly(h, t, loose + {i}, off) && i in t.mapInfo && !t.mapInfo[i].fInTried
    requires t.mapInfo[i].nRefCount < NEW_BUCKETS_PER_ADDRESS
    requires s !in t.news && s.bucket < NEW_BUCKET_COUNT && s == h.NewSlot(t.mapInfo[i].addr.svc, s.bucket)
    ensures Nearly(h, PutNew(t, i, s), loose, off)
  {
    hide RandomOk, AddrOk, EntriesOk, NewOk, TriedOk;
    var u := PutNew(t, i, s);
    ShapeSets(t.mapInfo, u.mapInfo);
    ShapeAddr(t.mapInfo, u.mapInfo, t.mapAddr, t.nIdCount);
    ShapeSlots(h, t.mapInfo, u.mapInfo, t.news, t.tried);
    OneMoreSlot(h, u.mapInfo, t.news, i, s);
    SamePositions(t.mapInfo, u.mapInfo, t.vRandom);
    RefEntries(t.mapInfo, t.news, loose, i, s);
  }

  lemma OneMoreSlot(h: Hasher, m: map<int, Info>, news: Table, i: int, s: Slot)
    requires NewOk(h, m, news) && i in m && !m[i].fInTried
    requires s.bucket < NEW_BUCKET_COUNT && s == h.NewSlot(m[i].addr.svc, s.bucket)
    ensures NewOk(h, m, news[s := i])
  {
    forall c | c in news[s := i]
      ensures news[s := i][c] in m && !m[news[s := i][c]].fInTried
      ensures c.bucket < NEW_BUCKET_COUNT && c == h.NewSlot(m[news[s := i][c]].addr.svc, c.bucket)
    {
      if c != s { assert c in news; }
    }
  }

  lemma RefEntries(m: map<int, Info>, news: Table, loose: set<int>, i: int, s: Slot)
    requires EntriesOk(m, news, loose + {i}) && i in m && !m[i].fInTried && m[i].nRefCount < NEW_BUCKETS_PER_ADDRESS
    requires s !in news
    ensures EntriesOk(m[i := m[i].(nRefCount := m[i].nRefCount + 1)], news[s := i], loose)
  {
    var k := m[i := m[i].(nRefCount := m[i].nRefCount + 1)];
    forall j | j in k ensures EntryOk(k[j], |Occurrences(news[s := i], j)|, j in loose) {
      assert EntryOk(m[j], |Occurrences(news, j)|, j in loose + {i});
      OccurrencesPut(news, s, i, j);
    }
  }

  // ---------------------------------------------------------------------------------------------
  // MakeTried

  /** The slots that MakeTried's loop over the new buckets finds. */
  function Linked(h: Hasher, t: Tables, i: int): set<Slot>
    requires i in t.mapInfo
  {
    set s | s in t.news && t.news[s] == i && s.bucket < NEW_BUCKET_COUNT
            && s == h.NewSlot(t.mapInfo[i].addr.svc, s.bucket)
  }

  function Unlink(h: Hasher, t: Tables, i: int): Tables
    requires i in t.mapInfo
  {
    Without(t, i, Linked(h, t, i))
  }

  function Without(t: Tables, i: int, found: set<Slot>): Tables
    requires i in t.mapInfo
  {
    t.(mapInfo := t.mapInfo[i := t.mapInfo[i].(nRefCount := t.mapInfo[i].nRefCount - |found|)], news := t.news - found)
  }

  lemma WithoutMore(t: Tables, i: int, a: set<Slot>, s: Slot)
    requires i in t.mapInfo && s !in a
    ensures var u := Without(t, i, a);
      Without(t, i, a + {s}) ==
        u.(mapInfo := u.mapInfo[i := u.mapInfo[i].(nRefCount := u.mapInfo[i].nRefCount - 1)], news := u.news - {s})
  {
    assert t.news - (a + {s}) == (t.news - a) - {s};
  }

  /** The same after the buckets below n. */
  function LinkedBelow(h: Hasher, t: Tables, i: int, n: nat): set<Slot>
    requires i in t.mapInfo
  {
    set s | s in Linked(h, t, i) && s.bucket < n
  }

  function UnlinkBelow(h: Hasher, t: Tables, i: int, n: nat): Tables
    requires i in t.mapInfo
  {
    Without(t, i, LinkedBelow(h, t, i, n))
  }

  lemma UnlinkNone(h: Hasher, t: Tables, i: int)
    requires i in t.mapInfo
    ensures UnlinkBelow(h, t, i, 0) == t
  {
    assert LinkedBelow(h, t, i, 0) == {};
    assert t.news - {} == t.news;
    assert t.mapInfo[i := t.mapInfo[i].(nRefCount := t.mapInfo[i].nRefCount - 0)] == t.mapInfo;
  }

  /** One bucket more: it holds the entry at its only possible place, or not at all. */
  lemma UnlinkStep(h: Hasher, t: Tables, i: int, n: nat)
    requires i in t.mapInfo && n < NEW_BUCKET_COUNT
    ensures var s, u := h.NewSlot(t.mapInfo[i].addr.svc, n), UnlinkBelow(h, t, i, n);
      && i in u.mapInfo && u.mapInfo[i].addr == t.mapInfo[i].addr
      && (s in u.news <==> s in t.news) && (s in t.news ==> u.news[s] == t.news[s])
      && UnlinkBelow(h, t, i, n + 1) ==
         if s in t.news && t.news[s] == i
         then u.(mapInfo := u.mapInfo[i := OneLess(u.mapInfo[i])], news := u.news - {s})
         else u
  {
    LinkedStep(h, t, i, n);
    var s := h.NewSlot(t.mapInfo[i].addr.svc, n);
    var a := LinkedBelow(h, t, i, n);
    hide Linked, LinkedBelow;
    if s in t.news && t.news[s] == i {
      WithoutMore(t, i, a, s);
      hide Without;
    }
  }

  lemma LinkedStep(h: Hasher, t: Tables, i: int, n: nat)
    requires i in t.mapInfo && n < NEW_BUCKET_COUNT
    ensures var s, a, b := h.NewSlot(t.mapInfo[i].addr.svc, n), LinkedBelow(h, t, i, n), LinkedBelow(h, t, i, n + 1);
      s !in a && b == if s in t.news && t.news[s] == i then a + {s} else a
  {
    forall c: Slot | c in Linked(h, t, i) && c.bucket == n ensures c == h.NewSlot(t.mapInfo[i].addr.svc, n) {}
  }

  lemma UnlinkAll(h: Hasher, t: Tables, i: int)
    requires i in t.mapInfo
    ensures UnlinkBelow(h, t, i, NEW_BUCKET_COUNT) == Unlink(h, t, i)
  {
    assert LinkedBelow(h, t, i, NEW_BUCKET_COUNT) == Linked(h, t, i);
  }

  lemma IdsNonNegative(h: Hasher, t: Tables, i: int)
    requires Consistent(h, t) && i in t.mapInfo
    ensures i >= 0
  {
  }

  lemma LinkedAll(h: Hasher, t: Tables, i: int)
    requires NewOk(h, t.mapInfo, t.news) && i in t.mapInfo
    ensures Linked(h, t, i) == Occurrences(t.news, i)
  {
    forall s | s in t.news && t.news[s] == i ensures s in Linked(h, t, i) {}
  }

  lemma OccurrencesGone(news: Table, i: int, j: int)
    ensures Occurrences(news - Occurrences(news, i), j) == if j == i then {} else Occurrences(news, j)
  {
  }

  /** The loop finds every reference: none is left, and the assert after it holds. */
  lemma UnlinkKeeps(h: Hasher, t: Tables, i: int)
    requires Consistent(h, t) && i in t.mapInfo && !t.mapInfo[i].fInTried
    ensures Nearly(h, Unlink(h, t, i), {i}, 0) && Unlink(h, t, i).mapInfo[i].nRefCount == 0
    ensures Occurrences(Unlink(h, t, i).news, i) == {}
  {
    LinkedAll(h, t, i);
    OccurrencesGone(t.news, i, i);
    var u := Unlink(h, t, i);
    ShapeSets(t.mapInfo, u.mapInfo);
    ShapeAddr(t.mapInfo, u.mapInfo, t.mapAddr, t.nIdCount);
    ShapeSlots(h, t.mapInfo, u.mapInfo, t.news, t.tried);
    SamePositions(t.mapInfo, u.mapInfo, t.vRandom);
    UnlinkEntries(t.mapInfo, t.news, i);
    assert NewOk(h, u.mapInfo, u.news) by {
      forall c | c in u.news
        ensures u.news[c] in u.mapInfo && !u.mapInfo[u.news[c]].fInTried
        ensures c.bucket < NEW_BUCKET_COUNT && c == h.NewSlot(u.mapInfo[u.news[c]].addr.svc, c.bucket)
      {
        assert c in t.news;
      }
    }
  }

  lemma UnlinkEntries(m: map<int, Info>, news: Table, i: int)
    requires EntriesOk(m, news, {}) && i in m && !m[i].fInTried
    ensures EntriesOk(m[i := m[i].(nRefCount := 0)], news - Occurrences(news, i), {i})
  {
    var k := m[i := m[i].(nRefCount := 0)];
    forall j | j in k ensures EntryOk(k[j], |Occurrences(news - Occurrences(news, i), j)|, j in {i}) {
      OccurrencesGone(news, i, j);
      assert EntryOk(m[j], |Occurrences(news, j)|, j in {});
    }
  }

  /** One entry becomes tried. */
  lemma FlipSets(m: map<int, Info>, k: map<int, Info>, i: int)
    requires i in m && !m[i].fInTried && k == m[i := m[i].(fInTried := true)]
    ensures |TriedIds(k)| == |TriedIds(m)| + 1 && |UntriedIds(k)| == |UntriedIds(m)| - 1
  {
    assert TriedIds(k) == TriedIds(m) + {i};
    assert UntriedIds(k) == UntriedIds(m) - {i};
  }

  /** The holder of a tried slot leaves the tried set. */
  function Evict(t: Tables, k: Slot): Tables
    requires k in t.tried && t.tried[k] in t.mapInfo
  {
    var e := t.tried[k];
    t.(mapInfo := t.mapInfo[e := t.mapInfo[e].(fInTried := false)], tried := t.tried - {k}, nTried := t.nTried - 1)
  }

  lemma EvictKeeps(h: Hasher, t: Tables, loose: set<int>, off: int, k: Slot)
    requires Nearly(h, t, loose, off) && k in t.tried
    ensures t.tried[k] in t.mapInfo && t.mapInfo[t.tried[k]].fInTried && t.mapInfo[t.tried[k]].nRefCount == 0
    ensures Occurrences(t.news, t.tried[k]) == {}
    ensures Nearly(h, Evict(t, k), loose + {t.tried[k]}, off + 1)
  {
    var e := t.tried[k];
    assert e in t.mapInfo;
    NoOccurrences(h, t.mapInfo, t.news, e);
    var u := Evict(t, k);
    FlipSets(u.mapInfo, t.mapInfo, e);
    ShapeAddr(t.mapInfo, u.mapInfo, t.mapAddr, t.nIdCount);
    SamePositions(t.mapInfo, u.mapInfo, t.vRandom);
    EvictSlots(h, t.mapInfo, t.news, t.tried, k);
    EvictEntries(t.mapInfo, t.news, loose, e);
  }

  lemma EvictEntries(m: map<int, Info>, news: Table, loose: set<int>, e: int)
    requires EntriesOk(m, news, loose) && e in m && Occurrences(news, e) == {}
    ensures EntriesOk(m[e := m[e].(fInTried := false)], news, loose + {e})
  {
    var k := m[e := m[e].(fInTried := false)];
    forall j | j in k ensures EntryOk(k[j], |Occurrences(news, j)|, j in loose + {e}) {
      assert EntryOk(m[j], |Occurrences(news, j)|, j in loose);
    }
  }

  lemma EvictSlots(h: Hasher, m: map<int, Info>, news: Table, tried: Table, k: Slot)
    requires NewOk(h, m, news) && TriedOk(h, m, tried) && k in tried && tried[k] in m
    ensures var e := tried[k];
      NewOk(h, m[e := m[e].(fInTried := false)], news) && TriedOk(h, m[e := m[e].(fInTried := false)], tried - {k})
  {
    var e := tried[k];
    var n := m[e := m[e].(fInTried := false)];
    forall s | s in news
      ensures news[s] in n && !n[news[s]].fInTried
      ensures s.bucket < NEW_BUCKET_COUNT && s == h.NewSlot(n[news[s]].addr.svc, s.bucket)
    {
      var j := news[s];
      assert j in m;
    }
    forall s | s in tried - {k}
      ensures tried[s] in n && n[tried[s]].fInTried && s == h.TriedSlot(n[tried[s]].addr.svc)
    {
      var j := tried[s];
      assert j in m && s == h.TriedSlot(m[j].addr.svc);
      assert k == h.TriedSlot(m[e].addr.svc);
    }
  }

  /** The last step of MakeTried. */
  function Promote(t: Tables, i: int, k: Slot): Tables
    requires i in t.mapInfo
  {
    t.(mapInfo := t.mapInfo[i := t.mapInfo[i].(fInTried := true)], tried := t.tried[k := i], nTried := t.nTried + 1)
  }

  lemma PromoteKeeps(h: Hasher, t: Tables, loose: set<int>, off: int, i: int, k: Slot)
    requires Nearly(h, t, loose + {i}, off) && i in t.mapInfo && !t.mapInfo[i].fInTried && t.mapInfo[i].nRefCount == 0
    requires t.mapInfo[i].nLastSuccess != 0 && k == h.TriedSlot(t.mapInfo[i].addr.svc) && k !in t.tried
    ensures Nearly(h, Promote(t, i, k), loose, off - 1)
  {
    hide RandomOk, AddrOk, NewOk, TriedOk;
    var u := Promote(t, i, k);
    assert EntryOk(t.mapInfo[i], |Occurrences(t.news, i)|, i in loose + {i});
    hide EntriesOk;
    FlipSets(t.mapInfo, u.mapInfo, i);
    ShapeAddr(t.mapInfo, u.mapInfo, t.mapAddr, t.nIdCount);
    SamePositions(t.mapInfo, u.mapInfo, t.vRandom);
    PromoteSlots(h, t.mapInfo, t.news, t.tried, i, k);
    PromoteEntries(t.mapInfo, t.news, loose, i);
  }

  lemma PromoteEntries(m: map<int, Info>, news: Table, loose: set<int>, i: int)
    requires EntriesOk(m, news, loose + {i}) && i in m && m[i].nRefCount == 0 && m[i].nLastSuccess != 0
    ensures EntriesOk(m[i := m[i].(fInTried := true)], news, loose)
  {
    var k := m[i := m[i].(fInTried := true)];
    forall j | j in k ensures EntryOk(k[j], |Occurrences(news, j)|, j in loose) {
      assert EntryOk(m[j], |Occurrences(news, j)|, j in loose + {i});
    }
  }

  lemma PromoteSlots(h: Hasher, m: map<int, Info>, news: Table, tried: Table, i: int, k: Slot)
    requires NewOk(h, m, news) && TriedOk(h, m, tried) && i in m && |Occurrences(news, i)| == 0
    requires k == h.TriedSlot(m[i].addr.svc) && k !in tried
    ensures NewOk(h, m[i := m[i].(fInTried := true)], news)
    ensures TriedOk(h, m[i := m[i].(fInTried := true)], tried[k := i])
  {
    var n, after := m[i := m[i].(fInTried := true)], tried[k := i];
    forall s | s in news
      ensures news[s] in n && !n[news[s]].fInTried
      ensures s.bucket < NEW_BUCKET_COUNT && s == h.NewSlot(n[news[s]].addr.svc, s.bucket)
    {
      var j := news[s];
      assert j in m && s in Occurrences(news, j);
    }
    forall s | s in after
      ensures after[s] in n && n[after[s]].fInTried && s == h.TriedSlot(n[after[s]].addr.svc)
    {
      if s != k {
        var j := tried[s];
        assert j in m;
      }
    }
  }

  /** An evicted entry goes back to its new slot, clearing whatever is there. */
  ghost function Demote(h: Hasher, t: Tables, loose: set<int>, off: int, k: Slot): (u: Tables)
    requires Nearly(h, t, loose, off) && k in t.tried && (forall i :: i in loose ==> Occurrences(t.news, i) == {})
  {
    EvictKeeps(h, t, loose, off, k);
    DemoteCanClear(h, t, loose, off, k);
    var e := t.tried[k];
    var s := HomeSlot(h, t.mapInfo[e]);
    var c := ClearNew(Evict(t, k), s);
    c.(mapInfo := c.mapInfo[e := c.mapInfo[e].(nRefCount := 1)], news := c.news[s := e], nNew := c.nNew + 1)
  }

  /** The new slot an entry takes on its own account. */
  function HomeSlot(h: Hasher, e: Info): Slot {
    h.NewSlot(e.addr.svc, h.NewBucket(e.addr.svc, e.source))
  }

  lemma DemoteCanClear(h: Hasher, t: Tables, loose: set<int>, off: int, k: Slot)
    requires Nearly(h, t, loose, off) && k in t.tried && (forall i :: i in loose ==> Occurrences(t.news, i) == {})
    requires t.tried[k] in t.mapInfo
    ensures var e, x := t.tried[k], Evict(t, k);
      var s := HomeSlot(h, t.mapInfo[e]);
      && CanClear(x, s) && e in ClearNew(x, s).mapInfo && Cleared(x, ClearNew(x, s), s)
      && Nearly(h, ClearNew(x, s), loose + {e}, off + 1)
  {
    EvictKeeps(h, t, loose, off, k);
    var e, x := t.tried[k], Evict(t, k);
    var s := HomeSlot(h, t.mapInfo[e]);
    if s in x.news {
      var j := x.news[s];
      assert s in Occurrences(t.news, j);
    }
    ClearKeeps(h, x, loose + {e}, off + 1, s);
  }

  lemma DemoteKeeps(h: Hasher, t: Tables, loose: set<int>, off: int, k: Slot)
    requires Nearly(h, t, loose, off) && k in t.tried && (forall i :: i in loose ==> Occurrences(t.news, i) == {})
    requires t.tried[k] !in loose
    ensures Nearly(h, Demote(h, t, loose, off, k), loose, off)
  {
    hide RandomOk, AddrOk, EntriesOk, NewOk, TriedOk, Counted;
    EvictKeeps(h, t, loose, off, k);
    DemoteCanClear(h, t, loose, off, k);
    var e, x := t.tried[k], Evict(t, k);
    var s := HomeSlot(h, t.mapInfo[e]);
    var c := ClearNew(x, s);
    assert c.mapInfo[e].nRefCount == 0 && !c.mapInfo[e].fInTried && c.mapInfo[e].addr == t.mapInfo[e].addr;
    PutNewKeeps(h, c, loose, off + 1, e, s);
    assert Demote(h, t, loose, off, k) == PutNew(c, e, s).(nNew := c.nNew + 1);
  }

  /**
  What an eviction does: the evicted entry keeps its identity and gets one new slot, the entry that
  held the slot may be lost, and every other entry stays as it was.
  */
  ghost predicate Demoted(h: Hasher, t: Tables, u: Tables, k: Slot)
    requires k in t.tried && t.tried[k] in t.mapInfo
  {
    var e := t.tried[k];
    var s := HomeSlot(h, t.mapInfo[e]);
    && u.tried == t.tried - {k} && u.news == t.news[s := e]
    && e in u.mapInfo
    && u.mapInfo[e] == t.mapInfo[e].(fInTried := false, nRefCount := 1, nRandomPos := u.mapInfo[e].nRandomPos)
    && (forall j :: j in u.mapInfo ==> j in t.mapInfo)
    && (forall j :: j in t.mapInfo && j != e && !(s in t.news && t.news[s] == j) ==>
          j in u.mapInfo && u.mapInfo[j] == t.mapInfo[j].(nRandomPos := u.mapInfo[j].nRandomPos))
  }

  lemma DemoteEffect(h: Hasher, t: Tables, loose: set<int>, off: int, k: Slot)
    requires Nearly(h, t, loose, off) && k in t.tried && (forall i :: i in loose ==> Occurrences(t.news, i) == {})
    ensures t.tried[k] in t.mapInfo && Demoted(h, t, Demote(h, t, loose, off, k), k)
  {
    EvictKeeps(h, t, loose, off, k);
    DemoteCanClear(h, t, loose, off, k);
    var s := HomeSlot(h, t.mapInfo[t.tried[k]]);
    ClearedDemotes(h, t, ClearNew(Evict(t, k), s), k);
  }

  lemma ClearedDemotes(h: Hasher, t: Tables, c: Tables, k: Slot)
    requires k in t.tried && t.tried[k] in t.mapInfo && t.tried[k] in c.mapInfo
    requires var e := t.tried[k]; var s := HomeSlot(h, t.mapInfo[e]);
      Cleared(Evict(t, k), c, s) && Occurrences(t.news, e) == {}
    ensures var e := t.tried[k]; var s := HomeSlot(h, t.mapInfo[e]);
      Demoted(h, t,
        c.(mapInfo := c.mapInfo[e := c.mapInfo[e].(nRefCount := 1)], news := c.news[s := e], nNew := c.nNew + 1), k)
  {
    var e := t.tried[k];
    var s := HomeSlot(h, t.mapInfo[e]);
    assert c.news[s := e] == t.news[s := e];
    if s in t.news {
      var j := t.news[s];
      assert s in Occurrences(t.news, j);
    }
  }

  /** An entry without a slot of its own survives an eviction unchanged. */
  lemma DemoteSpares(h: Hasher, t: Tables, u: Tables, k: Slot, i: int)
    requires k in t.tried && t.tried[k] in t.mapInfo && Demoted(h, t, u, k)
    requires i in t.mapInfo && i != t.tried[k] && Occurrences(t.news, i) == {}
    ensures i in u.mapInfo && u.mapInfo[i] == t.mapInfo[i].(nRandomPos := u.mapInfo[i].nRandomPos)
  {
    var s := HomeSlot(h, t.mapInfo[t.tried[k]]);
    if s in t.news {
      var j := t.news[s];
      assert s in Occurrences(t.news, j);
    }
  }

  /** MakeTried up to the point where the tried slot is free. */
  ghost function MadeRoom(h: Hasher, t: Tables, i: int): Tables
    requires Consistent(h, t) && i in t.mapInfo && !t.mapInfo[i].fInTried
  {
    UnlinkKeeps(h, t, i);
    var a := Unlink(h, t, i);
    var b := a.(nNew := a.nNew - 1);
    var k := h.TriedSlot(t.mapInfo[i].addr.svc);
    if k in b.tried then Demote(h, b, {i}, 1, k) else b
  }

  lemma MadeRoomKeeps(h: Hasher, t: Tables, i: int)
    requires Consistent(h, t) && i in t.mapInfo && !t.mapInfo[i].fInTried
    ensures var c := MadeRoom(h, t, i);
      && i in c.mapInfo && c.mapInfo[i] == t.mapInfo[i].(nRefCount := 0, nRandomPos := c.mapInfo[i].nRandomPos)
      && h.TriedSlot(t.mapInfo[i].addr.svc) !in c.tried
      && Nearly(h, c, {i}, 1)
  {
    hide RandomOk, AddrOk, EntriesOk, NewOk, TriedOk, Counted;
    UnlinkKeeps(h, t, i);
    var a := Unlink(h, t, i);
    var b := a.(nNew := a.nNew - 1);
    var k := h.TriedSlot(t.mapInfo[i].addr.svc);
    if k in b.tried {
      EvictKeeps(h, b, {i}, 1, k);
      DemoteEffect(h, b, {i}, 1, k);
      DemoteSpares(h, b, Demote(h, b, {i}, 1, k), k, i);
      DemoteKeeps(h, b, {i}, 1, k);
    }
  }

  /** MakeTried step by step. */
  lemma MadeRoomSteps(h: Hasher, t: Tables, i: int, b: Tables)
    requires Consistent(h, t) && i in t.mapInfo && !t.mapInfo[i].fInTried
    requires b == Unlink(h, t, i).(nNew := t.nNew - 1)
    ensures i in b.mapInfo && b.mapInfo[i].nRefCount == 0 && b.mapInfo[i].addr == t.mapInfo[i].addr
    ensures b.tried == t.tried
    ensures Nearly(h, b, {i}, 1) && Occurrences(b.news, i) == {}
    ensures var k := h.TriedSlot(t.mapInfo[i].addr.svc);
      MadeRoom(h, t, i) == if k in b.tried then Demote(h, b, {i}, 1, k) else b
  {
    UnlinkKeeps(h, t, i);
  }

  ghost function MakeTried(h: Hasher, t: Tables, i: int): Tables
    requires Consistent(h, t) && i in t.mapInfo && !t.mapInfo[i].fInTried
  {
    MadeRoomKeeps(h, t, i);
    Promote(MadeRoom(h, t, i), i, h.TriedSlot(t.mapInfo[i].addr.svc))
  }

  lemma MakeTriedKeeps(h: Hasher, t: Tables, i: int)
    requires Consistent(h, t) && i in t.mapInfo && !t.mapInfo[i].fInTried && t.mapInfo[i].nLastSuccess != 0
    ensures Consistent(h, MakeTried(h, t, i))
  {
    hide Nearly, MadeRoom;
    MadeRoomKeeps(h, t, i);
    assert {} + {i} == {i};
    PromoteKeeps(h, MadeRoom(h, t, i), {}, 1, i, h.TriedSlot(t.mapInfo[i].addr.svc));
  }

  /** Every entry but possibly one is still there. */
  ghost predicate AllBut(m: map<int, Info>, k: map<int, Info>, v: int) {
    forall j :: j in m && j != v ==> j in k
  }

  ghost predicate LosesOnly(m: map<int, Info>, k: map<int, Info>, v: int) {
    (forall j :: j in k ==> j in m) && AllBut(m, k, v)
  }

  /**
  Moving an entry to the tried table: it is tried, in its slot, and in no new bucket; the entry it
  displaced there is back in one new slot; no other tried entry moves, and at most one entry of the
  whole manager is lost.
  */
  ghost predicate TriedMove(h: Hasher, t: Tables, u: Tables, i: int)
    requires i in t.mapInfo
  {
    var k := h.TriedSlot(t.mapInfo[i].addr.svc);
    && i in u.mapInfo
    && u.mapInfo[i] == t.mapInfo[i].(fInTried := true, nRefCount := 0, nRandomPos := u.mapInfo[i].nRandomPos)
    && k in u.tried && u.tried[k] == i
    && (forall s :: s in t.tried && s != k ==> s in u.tried && u.tried[s] == t.tried[s])
    && (k in t.tried ==>
          var e := t.tried[k];
          && e in t.mapInfo && e in u.mapInfo
          && u.mapInfo[e] == t.mapInfo[e].(fInTried := false, nRefCount := 1, nRandomPos := u.mapInfo[e].nRandomPos))
    && (exists v :: LosesOnly(t.mapInfo, u.mapInfo, v))
  }

  lemma MakeTriedEffect(h: Hasher, t: Tables, i: int)
    requires Consistent(h, t) && i in t.mapInfo && !t.mapInfo[i].fInTried
    ensures TriedMove(h, t, MakeTried(h, t, i), i)
  {
    hide RandomOk, AddrOk, EntriesOk, NewOk, TriedOk, Counted, Demoted, TriedMove;
    MadeRoomKeeps(h, t, i);
    var k := h.TriedSlot(t.mapInfo[i].addr.svc);
    UnlinkKeeps(h, t, i);
    var a := Unlink(h, t, i);
    var b := a.(nNew := a.nNew - 1);
    if k in b.tried {
      DemoteEffect(h, b, {i}, 1, k);
      EvictKeeps(h, b, {i}, 1, k);
      MoveWithEviction(h, t, b, Demote(h, b, {i}, 1, k), i, k);
    } else {
      MoveWithoutEviction(h, t, b, i, k);
    }
  }

  lemma MoveWithEviction(h: Hasher, t: Tables, b: Tables, d: Tables, i: int, k: Slot)
    requires i in t.mapInfo && !t.mapInfo[i].fInTried && k == h.TriedSlot(t.mapInfo[i].addr.svc)
    requires b.mapInfo == t.mapInfo[i := t.mapInfo[i].(nRefCount := 0)] && b.tried == t.tried
    requires k in b.tried && b.tried[k] in b.mapInfo && b.tried[k] != i && Demoted(h, b, d, k)
    requires i in d.mapInfo && d.mapInfo[i] == t.mapInfo[i].(nRefCount := 0, nRandomPos := d.mapInfo[i].nRandomPos)
    ensures TriedMove(h, t, Promote(d, i, k), i)
  {
    var e, u := b.tried[k], Promote(d, i, k);
    var s := HomeSlot(h, b.mapInfo[e]);
    var v := if s in b.news then b.news[s] else -1;
    forall j | j in t.mapInfo && j != v ensures j in u.mapInfo {}
    assert LosesOnly(t.mapInfo, u.mapInfo, v);
  }

  lemma MoveWithoutEviction(h: Hasher, t: Tables, b: Tables, i: int, k: Slot)
    requires i in t.mapInfo && !t.mapInfo[i].fInTried && k == h.TriedSlot(t.mapInfo[i].addr.svc)
    requires b.mapInfo == t.mapInfo[i := t.mapInfo[i].(nRefCount := 0)] && b.tried == t.tried && k !in t.tried
    ensures TriedMove(h, t, Promote(b, i, k), i)
  {
    assert LosesOnly(t.mapInfo, Promote(b, i, k).mapInfo, -1);
  }

  // ---------------------------------------------------------------------------------------------
  // The public operations.  Times and random numbers are parameters.

  /** RandomInt(max), from an arbitrary number. */
  function RandomInt(r: nat, max: nat): (n: nat)
    requires max > 0
    ensures n < max
  {
    r % max
  }

  /** Finds the entry of a service, if the port matches too. */
  function FindService(t: Tables, svc: Service): (r: Option<int>)
    ensures r.Some? ==> r.value in t.mapInfo && t.mapInfo[r.value].addr.svc == svc
  {
    var f := Find(t, svc.ip);
    if f.Some? && t.mapInfo[f.value].addr.svc == svc then f else None
  }

  function MarkGood(e: Info, nTime: int): Info {
    e.(nLastSuccess := nTime, nLastTry := nTime, nAttempts := 0)
  }

  ghost function Good(h: Hasher, t: Tables, svc: Service, nTime: int): Tables
    requires Consistent(h, t) && nTime > 0
  {
    var a := t.(nLastGood := nTime);
    match FindService(t, svc)
    case None => a
    case Some(i) =>
      PutKeeps(h, a, {}, 0, i, MarkGood(t.mapInfo[i], nTime));
      var b := Put(a, i, MarkGood(t.mapInfo[i], nTime));
      if t.mapInfo[i].fInTried then b else MakeTried(h, b, i)
  }

  lemma GoodSteps(h: Hasher, t: Tables, svc: Service, nTime: int, i: int, b: Tables)
    requires Consistent(h, t) && nTime > 0 && FindService(t, svc) == Some(i)
    requires b == Put(t.(nLastGood := nTime), i, MarkGood(t.mapInfo[i], nTime))
    ensures Consistent(h, b) && Good(h, t, svc, nTime) == if t.mapInfo[i].fInTried then b else MakeTried(h, b, i)
    ensures !t.mapInfo[i].fInTried ==> Linked(h, b, i) != {}
  {
    PutKeeps(h, t.(nLastGood := nTime), {}, 0, i, MarkGood(t.mapInfo[i], nTime));
    if !t.mapInfo[i].fInTried {
      EntryFacts(h, b, i);
      LinkedAll(h, b, i);
    }
  }

  lemma GoodKeeps(h: Hasher, t: Tables, svc: Service, nTime: int)
    requires Consistent(h, t) && nTime > 0
    ensures Consistent(h, Good(h, t, svc, nTime))
  {
    hide RandomOk, AddrOk, EntriesOk, NewOk, TriedOk, Counted;
    var a := t.(nLastGood := nTime);
    assert Consistent(h, a);
    var f := FindService(t, svc);
    if f.Some? {
      var b := Put(a, f.value, MarkGood(t.mapInfo[f.value], nTime));
      PutKeeps(h, a, {}, 0, f.value, MarkGood(t.mapInfo[f.value], nTime));
      if !t.mapInfo[f.value].fInTried { MakeTriedKeeps(h, b, f.value); }
    }
  }

  /** Good on a known service always leaves it in the tried table: some new bucket held it. */
  lemma GoodTries(h: Hasher, t: Tables, svc: Service, nTime: int)
    requires Consistent(h, t) && nTime > 0 && FindService(t, svc).Some?
    ensures var i, u := FindService(t, svc).value, Good(h, t, svc, nTime);
      && (!t.mapInfo[i].fInTried ==> Linked(h, t, i) != {})
      && i in u.mapInfo && u.mapInfo[i].fInTried && u.mapInfo[i].nLastSuccess == nTime
      && h.TriedSlot(svc) in u.tried && u.tried[h.TriedSlot(svc)] == i
  {
    var i := FindService(t, svc).value;
    var a := t.(nLastGood := nTime);
    var b := Put(a, i, MarkGood(t.mapInfo[i], nTime));
    PutKeeps(h, a, {}, 0, i, MarkGood(t.mapInfo[i], nTime));
    if !t.mapInfo[i].fInTried {
      LinkedAll(h, t, i);
      MakeTriedEffect(h, b, i);
    }
  }

  /** Add_ on a known entry: time and services. */
  function Refresh(e: Info, addr: Address, penalty: int, now: int): Info {
    var interval := if now - addr.nTime < 24 * 60 * 60 then 60 * 60 else 24 * 60 * 60;
    var time :=
      if addr.nTime != 0 && (e.addr.nTime == 0 || e.addr.nTime < addr.nTime - interval - penalty)
      then (if addr.nTime - penalty > 0 then addr.nTime - penalty else 0)
      else e.addr.nTime;
    e.(addr := e.addr.(nTime := time, services := AllServices(e.addr.services, addr.services)))
  }

  function AllServices(a: bv64, b: bv64): bv64 {
    a | b
  }

  function Pow2(n: nat): (p: nat)
    ensures p >= 1
  {
    if n == 0 then 1 else 2 * Pow2(n-1)
  }

  /** Add_ stops early on a known, refreshed entry. */
  predicate NothingNew(e: Info, addr: Address, r: nat) {
    || addr.nTime == 0 || (e.addr.nTime != 0 && addr.nTime <= e.addr.nTime)
    || e.fInTried
    || e.nRefCount == NEW_BUCKETS_PER_ADDRESS
    || (e.nRefCount >= 0 && Pow2(e.nRefCount) > 1 && RandomInt(r, Pow2(e.nRefCount)) != 0)
  }

  /** Whether Add_ may take the slot. */
  predicate MayInsert(t: Tables, i: int, s: Slot, now: int)
    requires i in t.mapInfo
  {
    s in t.news && t.news[s] in t.mapInfo ==>
      var e := t.mapInfo[t.news[s]];
      IsTerrible(e, now) || (e.nRefCount > 1 && t.mapInfo[i].nRefCount == 0)
  }

  lemma SlotEntries(h: Hasher, t: Tables, loose: set<int>, off: int)
    requires Nearly(h, t, loose, off)
    ensures forall s :: s in t.news ==> t.news[s] in t.mapInfo
  {
  }

  /** The last part of Add_: an entry looks for a slot, and is deleted if it has none. */
  ghost function Place(h: Hasher, t: Tables, i: int, source: NetAddr, now: int): Tables
    requires Nearly(h, t, {i}, 0) && i in t.mapInfo && !t.mapInfo[i].fInTried
  {
    var s := h.NewSlot(t.mapInfo[i].addr.svc, h.NewBucket(t.mapInfo[i].addr.svc, source));
    if s in t.news && t.news[s] == i then t
    else if MayInsert(t, i, s, now) then
      ClearKeeps(h, t, {i}, 0, s);
      PutNew(ClearNew(t, s), i, s)
    else if t.mapInfo[i].nRefCount == 0 then
      DeleteKeeps(h, t, {i}, 0, i);
      Delete(t, i)
    else t
  }

  lemma PlaceKeeps(h: Hasher, t: Tables, i: int, source: NetAddr, now: int)
    requires Nearly(h, t, {i}, 0) && i in t.mapInfo && !t.mapInfo[i].fInTried
    requires t.mapInfo[i].nRefCount < NEW_BUCKETS_PER_ADDRESS
    ensures Consistent(h, Place(h, t, i, source, now))
  {
    var s := h.NewSlot(t.mapInfo[i].addr.svc, h.NewBucket(t.mapInfo[i].addr.svc, source));
    assert {} + {i} == {i};
    if s in t.news && t.news[s] == i {
      assert s in Occurrences(t.news, i);
      Tighten(h, t, {}, 0, i);
    } else if MayInsert(t, i, s, now) {
      PlaceInserts(h, t, i, s);
    } else if t.mapInfo[i].nRefCount == 0 {
      DeleteKeeps(h, t, {i}, 0, i);
      Tighten(h, Delete(t, i), {}, 0, i);
    } else {
      assert EntryOk(t.mapInfo[i], |Occurrences(t.news, i)|, true);
      Tighten(h, t, {}, 0, i);
    }
  }

  lemma PlaceInserts(h: Hasher, t: Tables, i: int, s: Slot)
    requires Nearly(h, t, {i}, 0) && i in t.mapInfo && !t.mapInfo[i].fInTried
    requires t.mapInfo[i].nRefCount < NEW_BUCKETS_PER_ADDRESS && !(s in t.news && t.news[s] == i)
    requires s.bucket < NEW_BUCKET_COUNT && s == h.NewSlot(t.mapInfo[i].addr.svc, s.bucket)
    ensures CanClear(t, s) && i in ClearNew(t, s).mapInfo && Consistent(h, PutNew(ClearNew(t, s), i, s))
  {
    hide RandomOk, AddrOk, EntriesOk, NewOk, TriedOk, Counted;
    ClearKeeps(h, t, {i}, 0, s);
    assert {} + {i} == {i};
    PutNewKeeps(h, ClearNew(t, s), {}, 0, i, s);
  }

  /** Add_ on a new address: the entry exists, has no slot yet, and is counted. */
  function Enroll(t: Tables, addr: Address, source: NetAddr, penalty: int): Tables {
    var a := Create(t, addr, source);
    var e := a.mapInfo[t.nIdCount];
    var time := if e.addr.nTime - penalty > 0 then e.addr.nTime - penalty else 0;
    Put(a, t.nIdCount, e.(addr := e.addr.(nTime := time))).(nNew := t.nNew + 1)
  }

  lemma EnrollKeeps(h: Hasher, t: Tables, addr: Address, source: NetAddr, penalty: int)
    requires Consistent(h, t) && Find(t, addr.svc.ip) == None
    ensures var u := Enroll(t, addr, source, penalty);
      && Nearly(h, u, {t.nIdCount}, 0) && 0 <= t.nIdCount && t.nIdCount !in t.mapInfo && t.nIdCount in u.mapInfo
      && !u.mapInfo[t.nIdCount].fInTried && u.mapInfo[t.nIdCount].nRefCount == 0
  {
    hide RandomOk, AddrOk, EntriesOk, NewOk, TriedOk, Counted;
    NotFound(h, t, addr.svc.ip);
    CreateKeeps(h, t, addr, source);
    var a := Create(t, addr, source).(nNew := t.nNew + 1);
    var e := a.mapInfo[t.nIdCount];
    var time := if e.addr.nTime - penalty > 0 then e.addr.nTime - penalty else 0;
    PutKeeps(h, a, {t.nIdCount}, 0, t.nIdCount, e.(addr := e.addr.(nTime := time)));
  }

  lemma NotFound(h: Hasher, t: Tables, ip: NetAddr)
    requires Consistent(h, t)
    ensures 0 <= t.nIdCount && (Find(t, ip) == None <==> ip !in t.mapAddr)
  {
  }

  /** Add_: the new tables, and whether the address was new. */
  ghost function Add(h: Hasher, t: Tables, routable: bool, addr: Address, source: NetAddr, penalty: int, now: int,
                     r: nat): (Tables, bool)
    requires Consistent(h, t)
  {
    var p := if addr.svc.ip == source then 0 else penalty;
    if !routable then (t, false)
    else match Find(t, addr.svc.ip)
      case Some(i) =>
        var e := Refresh(t.mapInfo[i], addr, p, now);
        RefreshKeeps(h, t, i, addr, p, now);
        var a := Put(t, i, e);
        if NothingNew(e, addr, r) then (a, false) else (Place(h, a, i, source, now), false)
      case None =>
        EnrollKeeps(h, t, addr, source, p);
        (Place(h, Enroll(t, addr, source, p), t.nIdCount, source, now), true)
  }

  lemma RefreshKeeps(h: Hasher, t: Tables, i: int, addr: Address, penalty: int, now: int)
    requires Consistent(h, t) && i in t.mapInfo
    ensures var a := Put(t, i, Refresh(t.mapInfo[i], addr, penalty, now)); Consistent(h, a) && Nearly(h, a, {i}, 0)
  {
    PutKeeps(h, t, {}, 0, i, Refresh(t.mapInfo[i], addr, penalty, now));
    var a := Put(t, i, Refresh(t.mapInfo[i], addr, penalty, now));
    forall j | j in a.mapInfo ensures EntryOk(a.mapInfo[j], |Occurrences(a.news, j)|, j in {i}) {
      assert EntryOk(a.mapInfo[j], |Occurrences(a.news, j)|, j in {});
    }
  }

  lemma AddKeeps(h: Hasher, t: Tables, routable: bool, addr: Address, source: NetAddr, penalty: int, now: int, r: nat)
    requires Consistent(h, t)
    ensures Consistent(h, Add(h, t, routable, addr, source, penalty, now, r).0)
  {
    hide RandomOk, AddrOk, EntriesOk, NewOk, TriedOk, Counted;
    var p := if addr.svc.ip == source then 0 else penalty;
    var f := Find(t, addr.svc.ip);
    if f.Some? {
      var i := f.value;
      RefreshKeeps(h, t, i, addr, p, now);
      var e := Refresh(t.mapInfo[i], addr, p, now);
      if !NothingNew(e, addr, r) {
        RefBound(h, Put(t, i, e), i);
        PlaceKeeps(h, Put(t, i, e), i, source, now);
      }
    } else {
      EnrollKeeps(h, t, addr, source, p);
      PlaceKeeps(h, Enroll(t, addr, source, p), t.nIdCount, source, now);
    }
  }

  lemma RefBound(h: Hasher, t: Tables, i: int)
    requires Consistent(h, t) && i in t.mapInfo
    ensures t.mapInfo[i].nRefCount <= NEW_BUCKETS_PER_ADDRESS
  {
    assert EntryOk(t.mapInfo[i], |Occurrences(t.news, i)|, false);
  }

  /**
  Add never touches the tried table, keeps every entry but possibly the one whose slot it takes, and adds at
  most one.
  */
  lemma AddEffect(h: Hasher, t: Tables, routable: bool, addr: Address, source: NetAddr, penalty: int, now: int, r: nat)
    requires Consistent(h, t)
    ensures var u := Add(h, t, routable, addr, source, penalty, now, r);
      && (u.1 <==> routable && Find(t, addr.svc.ip) == None)
      && u.0.tried == t.tried
      && (forall j :: j in u.0.mapInfo ==> j in t.mapInfo || (u.1 && j == t.nIdCount))
      && (exists v :: AllBut(t.mapInfo, u.0.mapInfo, v))
  {
    hide RandomOk, AddrOk, EntriesOk, NewOk, TriedOk, Counted;
    var p := if addr.svc.ip == source then 0 else penalty;
    var f := Find(t, addr.svc.ip);
    var u := Add(h, t, routable, addr, source, penalty, now, r).0;
    if !routable {
      assert AllBut(t.mapInfo, u.mapInfo, -1);
    } else if f.Some? {
      var i := f.value;
      RefreshKeeps(h, t, i, addr, p, now);
      var a := Put(t, i, Refresh(t.mapInfo[i], addr, p, now));
      if NothingNew(a.mapInfo[i], addr, r) {
        assert AllBut(t.mapInfo, u.mapInfo, -1);
      } else {
        var v := PlaceEffect(h, a, i, source, now);
        assert AllBut(t.mapInfo, u.mapInfo, v);
      }
    } else {
      EnrollKeeps(h, t, addr, source, p);
      var v := PlaceEffect(h, Enroll(t, addr, source, p), t.nIdCount, source, now);
      assert AllBut(t.mapInfo, u.mapInfo, v);
    }
  }

  lemma PlaceEffect(h: Hasher, t: Tables, i: int, source: NetAddr, now: int) returns (v: int)
    requires Nearly(h, t, {i}, 0) && i in t.mapInfo && !t.mapInfo[i].fInTried
    ensures var u := Place(h, t, i, source, now);
      && u.tried == t.tried && (forall j :: j in u.mapInfo ==> j in t.mapInfo)
      && (forall j :: j in t.mapInfo && j != v ==> j in u.mapInfo)
  {
    hide RandomOk, AddrOk, EntriesOk, NewOk, TriedOk, Counted;
    var s := h.NewSlot(t.mapInfo[i].addr.svc, h.NewBucket(t.mapInfo[i].addr.svc, source));
    if s in t.news && t.news[s] == i {
      v := -1;
    } else if MayInsert(t, i, s, now) {
      ClearKeeps(h, t, {i}, 0, s);
      v := if s in t.news then t.news[s] else -1;
    } else if t.mapInfo[i].nRefCount == 0 {
      DeleteKeeps(h, t, {i}, 0, i);
      v := i;
    } else {
      v := -1;
    }
  }

  function Attempt(t: Tables, svc: Service, countFailure: bool, nTime: int): Tables {
    match FindService(t, svc)
    case None => t
    case Some(i) =>
      var e := t.mapInfo[i].(nLastTry := nTime);
      Put(t, i, if countFailure && e.nLastCountAttempt < t.nLastGood
                then e.(nLastCountAttempt := nTime, nAttempts := e.nAttempts + 1) else e)
  }

  function Connected(t: Tables, svc: Service, nTime: int): Tables {
    match FindService(t, svc)
    case None => t
    case Some(i) =>
      var e := t.mapInfo[i];
      if nTime - e.addr.nTime > 20 * 60 then Put(t, i, e.(addr := e.addr.(nTime := nTime))) else t
  }

  function SetServices(t: Tables, svc: Service, services: bv64): Tables {
    match FindService(t, svc)
    case None => t
    case Some(i) => Put(t, i, t.mapInfo[i].(addr := t.mapInfo[i].addr.(services := services)))
  }

  /** The updates of one entry's fields keep every condition. */
  lemma AttemptKeeps(h: Hasher, t: Tables, svc: Service, countFailure: bool, nTime: int)
    requires Consistent(h, t) && nTime >= 0
    ensures Consistent(h, Attempt(t, svc, countFailure, nTime))
  {
    hide RandomOk, AddrOk, EntriesOk, NewOk, TriedOk, Counted;
    var f := FindService(t, svc);
    if f.Some? {
      EntryFacts(h, t, f.value);
      PutKeeps(h, t, {}, 0, f.value, Attempt(t, svc, countFailure, nTime).mapInfo[f.value]);
    }
  }

  lemma ConnectedKeeps(h: Hasher, t: Tables, svc: Service, nTime: int)
    requires Consistent(h, t)
    ensures Consistent(h, Connected(t, svc, nTime))
  {
    hide RandomOk, AddrOk, EntriesOk, NewOk, TriedOk, Counted;
    var f := FindService(t, svc);
    if f.Some? {
      EntryFacts(h, t, f.value);
      var e := t.mapInfo[f.value];
      PutKeeps(h, t, {}, 0, f.value, e.(addr := e.addr.(nTime := nTime)));
    }
  }

  lemma SetServicesKeeps(h: Hasher, t: Tables, svc: Service, services: bv64)
    requires Consistent(h, t)
    ensures Consistent(h, SetServices(t, svc, services))
  {
    hide RandomOk, AddrOk, EntriesOk, NewOk, TriedOk, Counted;
    var f := FindService(t, svc);
    if f.Some? {
      EntryFacts(h, t, f.value);
      var e := t.mapInfo[f.value];
      PutKeeps(h, t, {}, 0, f.value, e.(addr := e.addr.(services := services)));
    }
  }

  lemma EntryFacts(h: Hasher, t: Tables, i: int)
    requires Consistent(h, t) && i in t.mapInfo
    ensures EntryOk(t.mapInfo[i], |Occurrences(t.news, i)|, false)
  {
    assert EntryOk(t.mapInfo[i], |Occurrences(t.news, i)|, i in {});
  }

  // ---------------------------------------------------------------------------------------------
  // GetAddr_: a partial shuffle of the random order

  /** The loop of GetAddr_ from position n on; picks(n) is the n-th random number. */
  ghost function Gather(h: Hasher, t: Tables, n: nat, got: seq<Address>, nNodes: nat, picks: nat -> nat,
                        now: int): (r: (Tables, seq<Address>))
    requires Consistent(h, t)
    decreases |t.vRandom| - n
  {
    if n >= |t.vRandom| || |got| >= nNodes then (t, got)
    else
      var l := RandomInt(picks(n), |t.vRandom| - n) + n;
      SwapKeeps(h, t, {}, 0, n, l);
      var u := SwapRandom(t, n, l);
      var e := u.mapInfo[u.vRandom[n]];
      Gather(h, u, n + 1, if IsTerrible(e, now) then got else got + [e.addr], nNodes, picks, now)
  }

  function GetAddrLimit(t: Tables): nat {
    var n := GETADDR_MAX_PCT * |t.vRandom| / 100;
    if n > GETADDR_MAX then GETADDR_MAX else n
  }

  /** The addresses of the entries in a list of ids that are not terrible. */
  ghost function GoodOnes(m: map<int, Info>, ids: seq<int>, now: int): seq<Address> {
    if ids == [] then []
    else
      var i := ids[|ids| - 1];
      GoodOnes(m, ids[..|ids| - 1], now) + (if i in m && !IsTerrible(m[i], now) then [m[i].addr] else [])
  }

  lemma {:induction false} GoodOnesReordered(m: map<int, Info>, k: map<int, Info>, ids: seq<int>, now: int)
    requires Reordered(m, k)
    ensures GoodOnes(k, ids, now) == GoodOnes(m, ids, now)
  {
    if ids != [] {
      GoodOnesReordered(m, k, ids[..|ids| - 1], now);
      var i := ids[|ids| - 1];
      assert i in m <==> i in k;
    }
  }

  /** One turn of the loop. */
  lemma GatherStep(h: Hasher, t: Tables, n: nat, l: nat, now: int)
    requires Consistent(h, t) && n <= l < |t.vRandom|
    ensures CanSwap(t, n, l)
    ensures var u := SwapRandom(t, n, l);
      && Consistent(h, u) && SameBut(t, u) && |u.vRandom| == |t.vRandom| && u.vRandom[n] in u.mapInfo
      && var e := u.mapInfo[u.vRandom[n]];
         GoodOnes(u.mapInfo, u.vRandom[..n+1], now) ==
         GoodOnes(t.mapInfo, t.vRandom[..n], now) + if IsTerrible(e, now) then [] else [e.addr]
  {
    hide AddrOk, EntriesOk, NewOk, TriedOk, Counted, IsTerrible;
    SwapKeeps(h, t, {}, 0, n, l);
    var u := SwapRandom(t, n, l);
    assert u.vRandom[..n+1][..n] == t.vRandom[..n];
    assert u.vRandom[n] in u.mapInfo;
    GoodOnesReordered(t.mapInfo, u.mapInfo, t.vRandom[..n], now);
  }

  /**
  GetAddr only reorders, and returns the good entries among the first m of the final order -- so no
  entry twice -- at most nNodes of them, and fewer only if it went through all.
  */
  lemma {:induction false} GatherCorrect(h: Hasher, t: Tables, n: nat, got: seq<Address>, nNodes: nat,
                                         picks: nat -> nat, now: int) returns (m: nat)
    requires Consistent(h, t) && n <= |t.vRandom| && |got| <= nNodes
    requires got == GoodOnes(t.mapInfo, t.vRandom[..n], now)
    ensures var r := Gather(h, t, n, got, nNodes, picks, now);
      && Consistent(h, r.0) && SameBut(t, r.0)
      && m <= |r.0.vRandom| && r.1 == GoodOnes(r.0.mapInfo, r.0.vRandom[..m], now)
      && |r.1| <= nNodes && (|r.1| == nNodes || m == |t.vRandom|)
    decreases |t.vRandom| - n
  {
    hide Consistent, SameBut, GoodOnes, IsTerrible, SwapRandom, Gather;
    GatherTurn(h, t, n, got, nNodes, picks, now);
    if n >= |t.vRandom| || |got| >= nNodes {
      m := n;
      SameButRefl(t);
    } else {
      var l := RandomInt(picks(n), |t.vRandom| - n) + n;
      GatherStep(h, t, n, l, now);
      var u := SwapRandom(t, n, l);
      var e := u.mapInfo[u.vRandom[n]];
      m := GatherCorrect(h, u, n + 1, if IsTerrible(e, now) then got else got + [e.addr], nNodes, picks, now);
      SameButTrans(t, u, Gather(h, t, n, got, nNodes, picks, now).0);
    }
  }

  /** One turn of the loop, and its end. */
  lemma GatherTurn(h: Hasher, t: Tables, n: nat, got: seq<Address>, nNodes: nat, picks: nat -> nat, now: int)
    requires Consistent(h, t)
    ensures n >= |t.vRandom| || |got| >= nNodes ==> Gather(h, t, n, got, nNodes, picks, now) == (t, got)
    ensures n < |t.vRandom| && |got| < nNodes ==>
      var l := RandomInt(picks(n), |t.vRandom| - n) + n;
      && l < |t.vRandom| && CanSwap(t, n, l) && Consistent(h, SwapRandom(t, n, l))
      && var u := SwapRandom(t, n, l);
         && |u.vRandom| == |t.vRandom| && u.vRandom[n] in u.mapInfo
         && var e := u.mapInfo[u.vRandom[n]];
            Gather(h, t, n, got, nNodes, picks, now) ==
            Gather(h, u, n + 1, if IsTerrible(e, now) then got else got + [e.addr], nNodes, picks, now)
  {
    hide Consistent, IsTerrible, SwapRandom, GoodOnes;
    if n < |t.vRandom| && |got| < nNodes {
      GatherStep(h, t, n, RandomInt(picks(n), |t.vRandom| - n) + n, now);
    }
  }

  lemma GatherAll(h: Hasher, t: Tables, nNodes: nat, picks: nat -> nat, now: int) returns (m: nat)
    requires Consistent(h, t)
    ensures var r := Gather(h, t, 0, [], nNodes, picks, now);
      && Consistent(h, r.0) && SameBut(t, r.0) && |r.0.vRandom| == |t.vRandom|
      && m <= |r.0.vRandom| && r.1 == GoodOnes(r.0.mapInfo, r.0.vRandom[..m], now)
      && |r.1| <= nNodes && (|r.1| == nNodes || m == |t.vRandom|)
  {
    m := GatherCorrect(h, t, 0, [], nNodes, picks, now);
    SameButRefl(t);
    SameButTrans(t, t, Gather(h, t, 0, [], nNodes, picks, now).0);
  }

  lemma SameButRefl(t: Tables)
    ensures SameBut(t, t)
  {
  }

  lemma SameButTrans(t: Tables, u: Tables, w: Tables)
    requires SameBut(t, u) && SameBut(u, w)
    ensures SameBut(t, w) && |w.vRandom| == |t.vRandom|
  {
  }

  // ---------------------------------------------------------------------------------------------
  // Runs

  datatype Op =
    | OpAdd(routable: bool, address: Address, from: NetAddr, penalty: int, clock: int, random: nat)
    | OpGood(svc: Service, time: int)
    | OpAttempt(svc: Service, countFailure: bool, time: int)
    | OpConnected(svc: Service, time: int)
    | OpSetServices(svc: Service, services: bv64)
    | OpGetAddr(picks: nat -> nat, clock: int)

  /** Times are read from a clock that does not run before the epoch. */
  predicate Legal(op: Op) {
    match op
    case OpGood(_, time) => time > 0
    case OpAttempt(_, _, time) => time >= 0
    case _ => true
  }

  ghost function Step(h: Hasher, t: Tables, op: Op): Tables
    requires Consistent(h, t) && Legal(op)
  {
    match op
    case OpAdd(routable, addr, source, penalty, now, r) => Add(h, t, routable, addr, source, penalty, now, r).0
    case OpGood(svc, time) => Good(h, t, svc, time)
    case OpAttempt(svc, count, time) => Attempt(t, svc, count, time)
    case OpConnected(svc, time) => Connected(t, svc, time)
    case OpSetServices(svc, services) => SetServices(t, svc, services)
    case OpGetAddr(picks, now) => Gather(h, t, 0, [], GetAddrLimit(t), picks, now).0
  }

  lemma StepKeeps(h: Hasher, t: Tables, op: Op)
    requires Consistent(h, t) && Legal(op)
    ensures Consistent(h, Step(h, t, op))
  {
    hide Consistent;
    match op
    case OpAdd(routable, addr, source, penalty, now, r) => AddKeeps(h, t, routable, addr, source, penalty, now, r);
    case OpGood(svc, time) => GoodKeeps(h, t, svc, time);
    case OpAttempt(svc, count, time) => AttemptKeeps(h, t, svc, count, time);
    case OpConnected(svc, time) => ConnectedKeeps(h, t, svc, time);
    case OpSetServices(svc, services) => SetServicesKeeps(h, t, svc, services);
    case OpGetAddr(picks, now) => var _ := GatherCorrect(h, t, 0, [], GetAddrLimit(t), picks, now);
  }

  lemma EmptyConsistent(h: Hasher)
    ensures Consistent(h, EMPTY)
  {
    assert TriedIds(EMPTY.mapInfo) == {} && UntriedIds(EMPTY.mapInfo) == {};
  }

  ghost predicate IsRun(h: Hasher, trace: seq<Tables>, ops: seq<Op>) {
    && |trace| == |ops| + 1 && trace[0] == EMPTY
    && forall k :: 0 <= k < |ops| ==> Legal(ops[k]) && Follows(h, trace[k], ops[k], trace[k+1])
  }

  ghost predicate Follows(h: Hasher, t: Tables, op: Op, u: Tables) {
    Consistent(h, t) && Legal(op) ==> u == Step(h, t, op)
  }

  /** Every manager reached from construction satisfies every condition of Check_. */
  lemma {:induction false} RunConsistent(h: Hasher, trace: seq<Tables>, ops: seq<Op>, k: nat)
    requires IsRun(h, trace, ops) && k < |trace|
    ensures Consistent(h, trace[k])
  {
    if k == 0 {
      EmptyConsistent(h);
    } else {
      RunConsistent(h, trace, ops, k-1);
      assert Follows(h, trace[k-1], ops[k-1], trace[k]);
      StepKeeps(h, trace[k-1], ops[k-1]);
    }
  }

  /** The check -7 of Check_: the random order is as long as the two counters say. */
  lemma RandomCounts(h: Hasher, t: Tables)
    requires Consistent(h, t)
    ensures |t.vRandom| == t.nTried + t.nNew
  {
    hide RandomOk, AddrOk, EntriesOk, NewOk, TriedOk;
    assert t.mapInfo.Keys == TriedIds(t.mapInfo) + UntriedIds(t.mapInfo);
    RandomSize(t.mapInfo, t.vRandom);
  }

  lemma RandomSize(m: map<int, Info>, v: seq<int>)
    requires RandomOk(m, v)
    ensures |v| == |m.Keys|
  {
    assert m.Keys == Elements(v) by {
      forall i | i in m ensures i in Elements(v) { assert v[m[i].nRandomPos] == i; }
    }
    forall j, k | 0 <= j < k < |v| ensures v[j] != v[k] {
      assert m[v[j]].nRandomPos == j && m[v[k]].nRandomPos == k;
    }
    DistinctSize(v);
  }

  function Elements(v: seq<int>): set<int> {
    set x | x in v
  }

  lemma {:induction false} DistinctSize(v: seq<int>)
    requires forall j, k :: 0 <= j < k < |v| ==> v[j] != v[k]
    ensures |Elements(v)| == |v|
  {
    if v != [] {
      var w := v[..|v|-1];
      DistinctSize(w);
      assert Elements(v) == Elements(w) + {v[|v|-1]};
    }
  }
  // ---------------------------------------------------------------------------------------------
  // What CAddrMan::Check_ looks at

  /** mapAddr[ip]: a missing key reads as 0. */
  function Lookup(a: map<NetAddr, int>, ip: NetAddr): int {
    if ip in a then a[ip] else 0
  }

  /** Check_ on one entry. */
  predicate EntryPasses(e: Info, n: int, a: map<NetAddr, int>, v: seq<int>) {
    && (if e.fInTried then e.nLastSuccess != 0 && e.nRefCount == 0 else 0 < e.nRefCount <= NEW_BUCKETS_PER_ADDRESS)
    && Lookup(a, e.addr.svc.ip) == n
    && 0 <= e.nRandomPos < |v| && v[e.nRandomPos] == n
    && e.nLastTry >= 0 && e.nLastSuccess >= 0
  }

  ghost predicate EntriesPass(m: map<int, Info>, a: map<NetAddr, int>, v: seq<int>) {
    forall n :: n in m ==> EntryPasses(m[n], n, a, v)
  }

  /** Every untried entry is in as many new slots as it counts. */
  ghost predicate References(m: map<int, Info>, news: Table) {
    forall i :: i in m && !m[i].fInTried ==> m[i].nRefCount == |Occurrences(news, i)|
  }

  /** All that Check_ verifies. */
  ghost predicate Passes(h: Hasher, t: Tables) {
    && |t.vRandom| == t.nTried + t.nNew
    && EntriesPass(t.mapInfo, t.mapAddr, t.vRandom)
    && Counted(t.mapInfo, t.nTried, t.nNew)
    && TriedOk(h, t.mapInfo, t.tried)
    && NewOk(h, t.mapInfo, t.news) && References(t.mapInfo, t.news)
  }

  /** The invariant of the operations is as strong as Check_, so Check_ passes in every reachable state. */
  lemma ConsistentPasses(h: Hasher, t: Tables)
    requires Consistent(h, t)
    ensures Passes(h, t)
  {
    RandomCounts(h, t);
    forall i | i in t.mapInfo ensures EntryPasses(t.mapInfo[i], i, t.mapAddr, t.vRandom) {
      EntryFacts(h, t, i);
    }
    forall i | i in t.mapInfo && !t.mapInfo[i].fInTried ensures t.mapInfo[i].nRefCount == |Occurrences(t.news, i)| {
      EntryFacts(h, t, i);
    }
  }

  /** One more slot. */
  lemma OneMoreOccurrence(v: Table, s: Slot, x: int, i: int)
    requires s !in v
    ensures |Occurrences(v[s := x], i)| == |Occurrences(v, i)| + if i == x then 1 else 0
  {
    if i == x {
      assert Occurrences(v[s := x], i) == Occurrences(v, i) + {s};
    } else {
      assert Occurrences(v[s := x], i) == Occurrences(v, i);
    }
  }

  lemma FewerOccurrences(v: Table, news: Table, i: int)
    requires forall s :: s in v ==> s in news && v[s] == news[s]
    ensures |Occurrences(v, i)| <= |Occurrences(news, i)|
  {
    SubsetSize(Occurrences(v, i), Occurrences(news, i));
  }
}
