/**
What each operation of the address manager changes, entry by entry and slot by slot (src/addrman.cpp), in
terms of the maps before and after and not of the steps in between.
*/
module AddrEffects {
  import opened AddrTables
  import opened Basics

  // ---------------------------------------------------------------------------------------------
  // Add_

  /** The slot an address takes when a source tells of it. */
  function SlotFrom(h: Hasher, svc: Service, source: NetAddr): Slot {
    h.NewSlot(svc, h.NewBucket(svc, source))
  }

  /** A slot that an entry may take: free, or its holder is terrible, or it has other slots and the entry none. */
  predicate Open(m: map<int, Info>, news: Table, s: Slot, refs: int, now: int) {
    || s !in news || news[s] !in m
    || IsTerrible(m[news[s]], now) || (m[news[s]].nRefCount > 1 && refs == 0)
  }

  /** How many slots more an entry has when slot s goes to entry i. */
  function Gain(news: Table, i: int, s: Slot, j: int): int {
    if j == i then 1 else if s in news && news[s] == j then -1 else 0
  }

  /** The holder of a slot loses it, and with its last slot it is gone. */
  predicate Loses(m: map<int, Info>, news: Table, i: int, s: Slot, j: int) {
    s in news && news[s] == j && j != i && j in m && m[j].nRefCount == 1
  }

  /** From the entries m and the slots news to u, slot s went to entry i and nothing else happened. */
  ghost predicate Took(m: map<int, Info>, news: Table, u: Tables, i: int, s: Slot) {
    && u.news == news[s := i]
    && (forall j :: j in u.mapInfo <==> j in m && !Loses(m, news, i, s, j))
    && (forall j :: j in u.mapInfo && j in m ==>
          u.mapInfo[j] ==
            m[j].(nRefCount := m[j].nRefCount + Gain(news, i, s, j), nRandomPos := u.mapInfo[j].nRandomPos))
  }

  /** The same entries but for their places in the random order. */
  ghost predicate SameEntries(m: map<int, Info>, k: map<int, Info>) {
    && (forall j :: j in k <==> j in m)
    && (forall j :: j in k && j in m ==> k[j] == m[j].(nRandomPos := k[j].nRandomPos))
  }

  /** What Add_ never touches. */
  ghost predicate SameRest(t: Tables, u: Tables) {
    u.tried == t.tried && u.nTried == t.nTried && u.nLastGood == t.nLastGood
  }

  /** The last part of Add_, for an entry with or without slots. */
  lemma PlaceExact(h: Hasher, t: Tables, i: int, source: NetAddr, now: int)
    requires Nearly(h, t, {i}, 0) && i in t.mapInfo && !t.mapInfo[i].fInTried
    ensures var u := Place(h, t, i, source, now); var s := SlotFrom(h, t.mapInfo[i].addr.svc, source);
      && SameRest(t, u) && u.nIdCount == t.nIdCount
      && (if s in t.news && t.news[s] == i then u == t
          else if Open(t.mapInfo, t.news, s, t.mapInfo[i].nRefCount, now) then Took(t.mapInfo, t.news, u, i, s)
          else if t.mapInfo[i].nRefCount == 0 then WithoutEntry(t.mapInfo, u.mapInfo, i) && u.news == t.news
          else u == t)
  {
    hide RandomOk, AddrOk, EntriesOk, TriedOk, Counted;
    var s := SlotFrom(h, t.mapInfo[i].addr.svc, source);
    if s in t.news && t.news[s] == i {
    } else if MayInsert(t, i, s, now) {
      ClearKeeps(h, t, {i}, 0, s);
      ClearedTook(t, ClearNew(t, s), i, s);
    } else if t.mapInfo[i].nRefCount == 0 {
      DeleteKeeps(h, t, {i}, 0, i);
    }
  }

  lemma ClearedTook(t: Tables, c: Tables, i: int, s: Slot)
    requires Cleared(t, c, s) && i in t.mapInfo && i in c.mapInfo && !(s in t.news && t.news[s] == i)
    requires s in t.news ==> t.news[s] in t.mapInfo
    ensures Took(t.mapInfo, t.news, PutNew(c, i, s), i, s)
  {
    assert (t.news - {s})[s := i] == t.news[s := i];
  }

  function Penalty(addr: Address, source: NetAddr, penalty: int): int {
    if addr.svc.ip == source then 0 else penalty
  }

  /** The entry of an address just heard of. */
  function Heard(addr: Address, source: NetAddr, penalty: int): Info {
    Info(addr.(nTime := Max(0, addr.nTime - Penalty(addr, source, penalty))), source, 0, 0, 0, 0, 0, false, 0)
  }

  /**
  An unknown address is stored, in the slot that its source gives it, exactly when that slot is open; the
  holder loses the slot, and is lost itself only with its last one.  Otherwise everything is as it was.
  */
  lemma AddUnknown(h: Hasher, t: Tables, addr: Address, source: NetAddr, penalty: int, now: int, r: nat)
    requires Consistent(h, t) && addr.svc.ip !in t.mapAddr
    ensures var (u, fNew) := Add(h, t, true, addr, source, penalty, now, r);
      var n, s := t.nIdCount, SlotFrom(h, addr.svc, source);
      && fNew && n !in t.mapInfo && u.nIdCount == n + 1 && SameRest(t, u)
      && (if Open(t.mapInfo, t.news, s, 0, now)
          then Took(t.mapInfo[n := Heard(addr, source, penalty)], t.news, u, n, s)
               && addr.svc.ip in u.mapAddr && u.mapAddr[addr.svc.ip] == n
          else SameEntries(t.mapInfo, u.mapInfo) && u.news == t.news && addr.svc.ip !in u.mapAddr)
  {
    hide RandomOk, EntriesOk, TriedOk, Counted, Place, Enroll, Open;
    var p, n, s := Penalty(addr, source, penalty), t.nIdCount, SlotFrom(h, addr.svc, source);
    EnrollKeeps(h, t, addr, source, p);
    var a := Enroll(t, addr, source, p);
    var u := Place(h, a, n, source, now);
    EnrolledIs(h, t, addr, source, penalty);
    PlaceExact(h, a, n, source, now);
    HoldersKnown(h, t);
    OpenSame(t, a, n, s, now);
    AddKeeps(h, t, true, addr, source, penalty, now, r);
    var m := t.mapInfo[n := Heard(addr, source, penalty)];
    if Open(t.mapInfo, t.news, s, 0, now) {
      TookAnyPos(m, |t.vRandom|, t.news, u, n, s);
      FoundBack(h, u, n, addr.svc.ip);
    } else {
      assert forall j :: j in u.mapInfo ==>
        u.mapInfo[j].addr.svc.ip != addr.svc.ip by { OthersDiffer(h, t, u, addr.svc.ip); }
      NotIndexed(h, u, addr.svc.ip);
    }
  }

  /** The tables with the new entry, before it has a slot. */
  lemma EnrolledIs(h: Hasher, t: Tables, addr: Address, source: NetAddr, penalty: int)
    requires Consistent(h, t)
    ensures var a := Enroll(t, addr, source, Penalty(addr, source, penalty)); var n := t.nIdCount;
      && n !in t.mapInfo && a.nIdCount == n + 1 && a.news == t.news && SameRest(t, a)
      && var m := t.mapInfo[n := Heard(addr, source, penalty)]; a.mapInfo == m[n := m[n].(nRandomPos := |t.vRandom|)]
  {
    hide RandomOk, NewOk, TriedOk, Counted;
    var a, n := Enroll(t, addr, source, Penalty(addr, source, penalty)), t.nIdCount;
    var m := t.mapInfo[n := Heard(addr, source, penalty)];
    assert a.mapInfo == m[n := m[n].(nRandomPos := |t.vRandom|)];
  }

  lemma OpenSame(t: Tables, a: Tables, n: int, s: Slot, now: int)
    requires forall s :: s in t.news ==> t.news[s] in t.mapInfo && t.news[s] != n
    requires n in a.mapInfo && a.mapInfo == t.mapInfo[n := a.mapInfo[n]] && a.news == t.news
    ensures Open(a.mapInfo, a.news, s, 0, now) <==> Open(t.mapInfo, t.news, s, 0, now)
  {
    hide IsTerrible;
  }

  lemma HoldersKnown(h: Hasher, t: Tables)
    requires Consistent(h, t)
    ensures forall s :: s in t.news ==> t.news[s] in t.mapInfo && t.news[s] != t.nIdCount
  {
    hide RandomOk, EntriesOk, TriedOk, Counted;
  }

  lemma TookAnyPos(m: map<int, Info>, pos: int, news: Table, u: Tables, i: int, s: Slot)
    requires i in m && Took(m[i := m[i].(nRandomPos := pos)], news, u, i, s)
    ensures Took(m, news, u, i, s)
  {
  }

  lemma FoundBack(h: Hasher, u: Tables, i: int, ip: NetAddr)
    requires Consistent(h, u) && i in u.mapInfo && u.mapInfo[i].addr.svc.ip == ip
    ensures ip in u.mapAddr && u.mapAddr[ip] == i
  {
    hide RandomOk, EntriesOk, NewOk, TriedOk, Counted;
  }

  lemma OthersDiffer(h: Hasher, t: Tables, u: Tables, ip: NetAddr)
    requires Consistent(h, t) && ip !in t.mapAddr && SameEntries(t.mapInfo, u.mapInfo)
    ensures forall j :: j in u.mapInfo ==> u.mapInfo[j].addr.svc.ip != ip
  {
    hide RandomOk, EntriesOk, NewOk, TriedOk, Counted;
    forall j | j in u.mapInfo ensures u.mapInfo[j].addr.svc.ip != ip {
      assert j in t.mapInfo;
    }
  }

  lemma NotIndexed(h: Hasher, u: Tables, ip: NetAddr)
    requires Consistent(h, u) && forall j :: j in u.mapInfo ==> u.mapInfo[j].addr.svc.ip != ip
    ensures ip !in u.mapAddr
  {
    hide RandomOk, EntriesOk, NewOk, TriedOk, Counted;
    forall x | x in u.mapAddr ensures x != ip {
      var i := u.mapAddr[x];
      assert i in u.mapInfo;
    }
  }

  /** Whether a known entry may get one more slot: news of it, not tried, slots left, and one chance in 2^refs. */
  predicate Wanted(e: Info, addr: Address, r: nat) {
    && addr.nTime != 0 && (e.addr.nTime == 0 || addr.nTime > e.addr.nTime)
    && !e.fInTried && 0 <= e.nRefCount < NEW_BUCKETS_PER_ADDRESS && r % Pow2(e.nRefCount) == 0
  }

  /** A known address updates its entry, which gets one slot more exactly when it is wanted and the slot is open. */
  lemma AddKnown(h: Hasher, t: Tables, addr: Address, source: NetAddr, penalty: int, now: int, r: nat)
    requires Consistent(h, t) && addr.svc.ip in t.mapAddr
    ensures var (u, fNew) := Add(h, t, true, addr, source, penalty, now, r);
      var i := t.mapAddr[addr.svc.ip];
      && i in t.mapInfo
      && var e := Refresh(t.mapInfo[i], addr, Penalty(addr, source, penalty), now);
         var s := SlotFrom(h, e.addr.svc, source);
         var m := t.mapInfo[i := e];
         && !fNew && u.nIdCount == t.nIdCount && SameRest(t, u)
         && (if Wanted(e, addr, r) && !(s in t.news && t.news[s] == i) && Open(m, t.news, s, e.nRefCount, now)
             then Took(m, t.news, u, i, s)
             else u == t.(mapInfo := m))
  {
    hide RandomOk, EntriesOk, NewOk, TriedOk, Counted, Place;
    NotFound(h, t, addr.svc.ip);
    var i, p := t.mapAddr[addr.svc.ip], Penalty(addr, source, penalty);
    RefreshKeeps(h, t, i, addr, p, now);
    var e := Refresh(t.mapInfo[i], addr, p, now);
    EntryFacts(h, t, i);
    WantedIs(e, addr, r);
    if !NothingNew(e, addr, r) {
      PlaceExact(h, Put(t, i, e), i, source, now);
    }
  }

  lemma WantedIs(e: Info, addr: Address, r: nat)
    requires 0 <= e.nRefCount <= NEW_BUCKETS_PER_ADDRESS
    ensures Wanted(e, addr, r) <==> !NothingNew(e, addr, r)
  {
    Pow2One(e.nRefCount);
  }

  lemma Pow2One(n: nat)
    ensures Pow2(n) == 1 <==> n == 0
  {
  }

  /** An address that is not routable changes nothing. */
  lemma AddUnroutable(h: Hasher, t: Tables, addr: Address, source: NetAddr, penalty: int, now: int, r: nat)
    requires Consistent(h, t)
    ensures Add(h, t, false, addr, source, penalty, now, r) == (t, false)
  {
  }

  /**
  Hearing of a known entry: its services grow, and its time only moves forward, by more than an hour or a
  day beyond the penalty; nothing else of it changes.
  */
  lemma RefreshExact(e: Info, addr: Address, penalty: int, now: int)
    ensures var f := Refresh(e, addr, penalty, now);
      var interval := if now - addr.nTime < 24 * 60 * 60 then 60 * 60 else 24 * 60 * 60;
      var late := addr.nTime != 0 && (e.addr.nTime == 0 || addr.nTime - penalty > e.addr.nTime + interval);
      && f == e.(addr := e.addr.(nTime := f.addr.nTime, services := e.addr.services | addr.services))
      && f.addr.nTime == (if late then Max(0, addr.nTime - penalty) else e.addr.nTime)
      && (e.addr.nTime >= 0 ==> f.addr.nTime >= e.addr.nTime)
  {
  }

  // ---------------------------------------------------------------------------------------------
  // The operations on a service that is known with its port

  predicate Knows(t: Tables, svc: Service) {
    && svc.ip in t.mapAddr && t.mapAddr[svc.ip] in t.mapInfo
    && t.mapInfo[t.mapAddr[svc.ip]].addr.svc == svc
  }

  /** An attempt is noted with its time, and counted as a failure at most once since the last success anywhere. */
  lemma AttemptExact(t: Tables, svc: Service, countFailure: bool, nTime: int)
    ensures var u := Attempt(t, svc, countFailure, nTime);
      if !Knows(t, svc) then u == t
      else
        var i := t.mapAddr[svc.ip]; var e := t.mapInfo[i];
        var counts := countFailure && e.nLastCountAttempt < t.nLastGood;
        u == t.(mapInfo := t.mapInfo[i := e.(nLastTry := nTime,
                                             nLastCountAttempt := if counts then nTime else e.nLastCountAttempt,
                                             nAttempts := e.nAttempts + if counts then 1 else 0)])
  {
  }

  /** A connection moves the time of an entry forward if that is more than twenty minutes old. */
  lemma ConnectedExact(t: Tables, svc: Service, nTime: int)
    ensures var u := Connected(t, svc, nTime);
      if !Knows(t, svc) || t.mapInfo[t.mapAddr[svc.ip]].addr.nTime + 20 * 60 >= nTime then u == t
      else
        var i := t.mapAddr[svc.ip]; var a := t.mapInfo[i].addr;
        u == t.(mapInfo := t.mapInfo[i := t.mapInfo[i].(addr := Address(svc, a.services, nTime))])
  {
  }

  /** The services of an entry are replaced. */
  lemma SetServicesExact(t: Tables, svc: Service, services: bv64)
    ensures var u := SetServices(t, svc, services);
      if !Knows(t, svc) then u == t
      else
        var i := t.mapAddr[svc.ip]; var a := t.mapInfo[i].addr;
        u == t.(mapInfo := t.mapInfo[i := t.mapInfo[i].(addr := Address(svc, services, a.nTime))])
  {
  }

  // ---------------------------------------------------------------------------------------------
  // Good_

  /** The entry of a service that was reached. */
  function Reached(e: Info, nTime: int): Info {
    e.(nLastSuccess := nTime, nLastTry := nTime, nAttempts := 0, fInTried := true, nRefCount := 0)
  }

  /**
  A reached service that was not tried leaves all its new slots for its tried slot.  The entry it displaces
  there goes back, untried, to the one new slot that its source gives it, taking it from whoever holds it.
  */
  ghost predicate Moved(h: Hasher, t: Tables, u: Tables, i: int, nTime: int)
    requires i in t.mapInfo
  {
    var k := h.TriedSlot(t.mapInfo[i].addr.svc);
    var m := t.mapInfo[i := Reached(t.mapInfo[i], nTime)];
    var news := t.news - Occurrences(t.news, i);
    && u.tried == t.tried[k := i] && u.nIdCount == t.nIdCount && u.nLastGood == nTime
    && (if k !in t.tried then u.news == news && SameEntries(m, u.mapInfo)
        else
          var e := t.tried[k];
          && e in t.mapInfo && e != i
          && Took(m[e := t.mapInfo[e].(fInTried := false, nRefCount := 0)], news, u, e,
                  SlotFrom(h, t.mapInfo[e].addr.svc, t.mapInfo[e].source)))
  }

  lemma GoodExact(h: Hasher, t: Tables, svc: Service, nTime: int)
    requires Consistent(h, t) && nTime > 0
    ensures var u := Good(h, t, svc, nTime);
      if !Knows(t, svc) then u == t.(nLastGood := nTime)
      else
        var i := t.mapAddr[svc.ip];
        if t.mapInfo[i].fInTried then
          u == t.(nLastGood := nTime, mapInfo := t.mapInfo[i := Reached(t.mapInfo[i], nTime)])
        else Moved(h, t, u, i, nTime)
  {
    hide RandomOk, AddrOk, EntriesOk, NewOk, TriedOk, Counted, Moved, MakeTried;
    if Knows(t, svc) {
      var i, a := t.mapAddr[svc.ip], t.(nLastGood := nTime);
      EntryFacts(h, t, i);
      PutKeeps(h, a, {}, 0, i, MarkGood(t.mapInfo[i], nTime));
      if !t.mapInfo[i].fInTried {
        MoveExact(h, t, Put(a, i, MarkGood(t.mapInfo[i], nTime)), i, nTime);
      }
    }
  }

  lemma MoveExact(h: Hasher, t: Tables, b: Tables, i: int, nTime: int)
    requires Consistent(h, b) && i in t.mapInfo && !t.mapInfo[i].fInTried
    requires b == t.(nLastGood := nTime, mapInfo := t.mapInfo[i := MarkGood(t.mapInfo[i], nTime)])
    ensures Moved(h, t, MakeTried(h, b, i), i, nTime)
  {
    hide Consistent, Nearly, MakeTried, Demote, Took, SameEntries, Moved;
    var k := h.TriedSlot(t.mapInfo[i].addr.svc);
    var x := b.(mapInfo := b.mapInfo[i := b.mapInfo[i].(nRefCount := 0)], news := b.news - Occurrences(b.news, i),
                nNew := b.nNew - 1);
    MakeTriedIs(h, b, x, i);
    if k in t.tried {
      EvictKeeps(h, x, {i}, 1, k);
      DemoteExact(h, x, i, k);
      MovedBack(h, t, x, Demote(h, x, {i}, 1, k), i, nTime);
    } else {
      MovedThere(h, t, x, i, nTime);
    }
  }

  lemma MakeTriedIs(h: Hasher, b: Tables, x: Tables, i: int)
    requires Consistent(h, b) && i in b.mapInfo && !b.mapInfo[i].fInTried
    requires x == b.(mapInfo := b.mapInfo[i := b.mapInfo[i].(nRefCount := 0)],
                     news := b.news - Occurrences(b.news, i), nNew := b.nNew - 1)
    ensures Nearly(h, x, {i}, 1) && Occurrences(x.news, i) == {}
    ensures var k := h.TriedSlot(b.mapInfo[i].addr.svc);
      && (k in x.tried ==> i in Demote(h, x, {i}, 1, k).mapInfo)
      && MakeTried(h, b, i) == Promote(if k in x.tried then Demote(h, x, {i}, 1, k) else x, i, k)
  {
    hide RandomOk, AddrOk, EntriesOk, NewOk, TriedOk, Demote;
    UnlinkKeeps(h, b, i);
    UnlinkedCount(h, b, i);
    MadeRoomKeeps(h, b, i);
    assert x == Unlink(h, b, i).(nNew := b.nNew - 1);
    forall s ensures s !in Occurrences(x.news, i) {
    }
  }

  lemma MovedThere(h: Hasher, t: Tables, x: Tables, i: int, nTime: int)
    requires i in t.mapInfo && h.TriedSlot(t.mapInfo[i].addr.svc) !in t.tried
    requires x.mapInfo == t.mapInfo[i := MarkGood(t.mapInfo[i], nTime).(nRefCount := 0)] && x.tried == t.tried
    requires x.news == t.news - Occurrences(t.news, i) && x.nIdCount == t.nIdCount && x.nLastGood == nTime
    ensures Moved(h, t, Promote(x, i, h.TriedSlot(t.mapInfo[i].addr.svc)), i, nTime)
  {
  }

  lemma MovedBack(h: Hasher, t: Tables, x: Tables, d: Tables, i: int, nTime: int)
    requires i in t.mapInfo && h.TriedSlot(t.mapInfo[i].addr.svc) in t.tried && i in d.mapInfo
    requires x.mapInfo == t.mapInfo[i := MarkGood(t.mapInfo[i], nTime).(nRefCount := 0)] && x.tried == t.tried
    requires x.news == t.news - Occurrences(t.news, i) && x.nLastGood == nTime && x.nIdCount == t.nIdCount
    requires var k := h.TriedSlot(t.mapInfo[i].addr.svc); var e := t.tried[k];
      && e in x.mapInfo && e != i && x.mapInfo[e].nRefCount == 0
      && d.tried == t.tried - {k} && d.nIdCount == x.nIdCount && d.nLastGood == nTime
      && Took(x.mapInfo[e := x.mapInfo[e].(fInTried := false)], x.news, d, e,
              SlotFrom(h, x.mapInfo[e].addr.svc, x.mapInfo[e].source))
    ensures Moved(h, t, Promote(d, i, h.TriedSlot(t.mapInfo[i].addr.svc)), i, nTime)
  {
    hide Took;
    var k := h.TriedSlot(t.mapInfo[i].addr.svc);
    var e := t.tried[k];
    assert forall s :: s !in Occurrences(x.news, i);
    TriedTook(h, x, d, i, k, e);
    assert (t.tried - {k})[k := i] == t.tried[k := i];
    assert x.mapInfo[i := x.mapInfo[i].(fInTried := true)] == t.mapInfo[i := Reached(t.mapInfo[i], nTime)];
    assert x.mapInfo[e] == t.mapInfo[e];
  }

  /** Unlinking takes all the references. */
  lemma UnlinkedCount(h: Hasher, t: Tables, i: int)
    requires Consistent(h, t) && i in t.mapInfo && !t.mapInfo[i].fInTried
    ensures Unlink(h, t, i) ==
      t.(mapInfo := t.mapInfo[i := t.mapInfo[i].(nRefCount := 0)], news := t.news - Occurrences(t.news, i))
  {
    hide RandomOk, AddrOk, EntriesOk, TriedOk, Counted;
    UnlinkKeeps(h, t, i);
    LinkedAll(h, t, i);
  }

  /** The displaced entry takes its slot. */
  lemma DemoteExact(h: Hasher, t: Tables, i: int, k: Slot)
    requires Nearly(h, t, {i}, 1) && k in t.tried && Occurrences(t.news, i) == {} && t.tried[k] in t.mapInfo
    ensures var e, u := t.tried[k], Demote(h, t, {i}, 1, k);
      && u.tried == t.tried - {k} && u.nIdCount == t.nIdCount && u.nLastGood == t.nLastGood
      && Took(t.mapInfo[e := t.mapInfo[e].(fInTried := false)], t.news, u, e,
              SlotFrom(h, t.mapInfo[e].addr.svc, t.mapInfo[e].source))
  {
    hide RandomOk, AddrOk, EntriesOk, TriedOk, Counted, Took;
    EvictKeeps(h, t, {i}, 1, k);
    DemoteCanClear(h, t, {i}, 1, k);
    var e, x := t.tried[k], Evict(t, k);
    var s := HomeSlot(h, t.mapInfo[e]);
    var c := ClearNew(x, s);
    NotHeldBy(t.news, s, e);
    SlotEntries(h, x, {i} + {e}, 2);
    assert c.mapInfo[e].nRefCount == 0;
    ClearedTook(x, c, e, s);
    assert Demote(h, t, {i}, 1, k) == PutNew(c, e, s).(nNew := c.nNew + 1);
    TookCount(x.mapInfo, x.news, PutNew(c, e, s), e, s, c.nNew + 1);
  }

  lemma NotHeldBy(news: Table, s: Slot, e: int)
    requires Occurrences(news, e) == {}
    ensures !(s in news && news[s] == e)
  {
    assert s in news && news[s] == e ==> s in Occurrences(news, e);
  }

  lemma TookCount(m: map<int, Info>, news: Table, u: Tables, i: int, s: Slot, nNew: int)
    requires Took(m, news, u, i, s)
    ensures Took(m, news, u.(nNew := nNew), i, s)
  {
  }

  lemma TriedTook(h: Hasher, x: Tables, d: Tables, i: int, k: Slot, e: int)
    requires i in x.mapInfo && i in d.mapInfo && e in x.mapInfo && e != i && Occurrences(x.news, i) == {}
    requires var s := SlotFrom(h, x.mapInfo[e].addr.svc, x.mapInfo[e].source);
      Took(x.mapInfo[e := x.mapInfo[e].(fInTried := false)], x.news, d, e, s)
    requires x.mapInfo[e].nRefCount == 0
    ensures var s := SlotFrom(h, x.mapInfo[e].addr.svc, x.mapInfo[e].source);
      var m := x.mapInfo[i := x.mapInfo[i].(fInTried := true)];
      Took(m[e := x.mapInfo[e].(fInTried := false, nRefCount := 0)], x.news, Promote(d, i, k), e, s)
  {
    var s := SlotFrom(h, x.mapInfo[e].addr.svc, x.mapInfo[e].source);
    NotHeldBy(x.news, s, i);
  }
}
