/**
The code of CAddrMan (src/addrman.cpp): an object that updates its maps, its random order, its two
bucket arrays and its counters in place.  Every method is proved to do to the tables what the
operation of the same name in AddrTables does; the assert statements are those of the source.
*/
module AddrManager {
  import opened AddrTables
  import Spec = AddrTables
  import opened Basics

  const EMPTY_SLOT := -1

  function AllSlots(buckets: nat): set<Slot> {
    set b, p | 0 <= b < buckets && 0 <= p < BUCKET_SIZE :: Slot(b, p)
  }

  /** The occupied slots of a bucket array. */
  ghost function Occupied(a: array2<int>): (t: Table)
    requires a.Length1 == BUCKET_SIZE
    reads a
    ensures forall b, p :: 0 <= b < a.Length0 && 0 <= p < a.Length1 ==>
      (Slot(b, p) in t <==> a[b, p] != EMPTY_SLOT) && (Slot(b, p) in t ==> t[Slot(b, p)] == a[b, p])
    ensures forall s :: s in t ==> s.bucket < a.Length0 && s.pos < a.Length1
  {
    map s | s in AllSlots(a.Length0) && a[s.bucket, s.pos] != EMPTY_SLOT :: a[s.bucket, s.pos]
  }

  method SetSlot(a: array2<int>, s: Slot, id: int)
    requires a.Length1 == BUCKET_SIZE && s.bucket < a.Length0 && s.pos < a.Length1
    modifies a
    ensures Occupied(a) == if id == EMPTY_SLOT then old(Occupied(a)) - {s} else old(Occupied(a))[s := id]
  {
    a[s.bucket, s.pos] := id;
    ghost var want := if id == EMPTY_SLOT then old(Occupied(a)) - {s} else old(Occupied(a))[s := id];
    forall c: Slot
      ensures c in Occupied(a) <==> c in want
      ensures c in want && c in Occupied(a) ==> Occupied(a)[c] == want[c]
    {
      assert c in old(Occupied(a)) ==> c == Slot(c.bucket, c.pos);
    }
    assert Occupied(a) == want;
  }

  /** The n-th bucket of a scan that starts at a random one. */
  function BucketFrom(n: nat, start: nat): (b: nat)
    ensures b < NEW_BUCKET_COUNT
  {
    (n + start) % NEW_BUCKET_COUNT
  }

  lemma BucketReached(b: nat, start: nat) returns (n: nat)
    requires b < NEW_BUCKET_COUNT && start < NEW_BUCKET_COUNT
    ensures n < NEW_BUCKET_COUNT && BucketFrom(n, start) == b
  {
    n := if b >= start then b - start else b + NEW_BUCKET_COUNT - start;
  }

  class AddrMan {
    const h: Hasher
    var nIdCount: int
    var mapInfo: map<int, Info>
    var mapAddr: map<NetAddr, int>
    var vRandom: seq<int>
    var nTried: int
    const vvTried: array2<int>
    var nNew: int
    const vvNew: array2<int>
    var nLastGood: int

    ghost predicate Shaped() {
      && vvTried.Length0 == TRIED_BUCKET_COUNT && vvTried.Length1 == BUCKET_SIZE
      && vvNew.Length0 == NEW_BUCKET_COUNT && vvNew.Length1 == BUCKET_SIZE
      && vvTried != vvNew
    }

    /** The tables this object holds. */
    ghost function T(): Tables
      requires Shaped()
      reads this, vvTried, vvNew
    {
      Tables(nIdCount, mapInfo, mapAddr, vRandom, nTried, Occupied(vvTried), nNew, Occupied(vvNew), nLastGood)
    }

    constructor (h: Hasher)
      ensures Shaped() && this.h == h && T() == EMPTY && Consistent(h, T())
      ensures fresh(vvTried) && fresh(vvNew)
    {
      this.h := h;
      nIdCount, mapInfo, mapAddr, vRandom := 0, map[], map[], [];
      nTried, nNew, nLastGood := 0, 0, 1;
      vvTried := new int[TRIED_BUCKET_COUNT, BUCKET_SIZE]((_, _) => EMPTY_SLOT);
      vvNew := new int[NEW_BUCKET_COUNT, BUCKET_SIZE]((_, _) => EMPTY_SLOT);
      new;
      assert Occupied(vvTried) == map[] && Occupied(vvNew) == map[];
      EmptyConsistent(h);
    }

    method SwapRandom(nRndPos1: nat, nRndPos2: nat)
      requires Shaped() && CanSwap(T(), nRndPos1, nRndPos2)
      modifies this`mapInfo, this`vRandom
      ensures T() == Spec.SwapRandom(old(T()), nRndPos1, nRndPos2)
    {
      hide Occupied;
      if nRndPos1 == nRndPos2 {
        return;
      }
      assert nRndPos1 < |vRandom| && nRndPos2 < |vRandom|;
      var nId1, nId2 := vRandom[nRndPos1], vRandom[nRndPos2];
      assert nId1 in mapInfo;
      assert nId2 in mapInfo;
      mapInfo := mapInfo[nId1 := mapInfo[nId1].(nRandomPos := nRndPos2)];
      mapInfo := mapInfo[nId2 := mapInfo[nId2].(nRandomPos := nRndPos1)];
      vRandom := vRandom[nRndPos1 := nId2];
      vRandom := vRandom[nRndPos2 := nId1];
    }

    method Delete(nId: int)
      requires Shaped() && CanDelete(T(), nId)
      modifies this`mapInfo, this`vRandom, this`mapAddr, this`nNew
      ensures T() == Spec.Delete(old(T()), nId)
    {
      hide Occupied;
      assert nId in mapInfo;
      assert !mapInfo[nId].fInTried;
      assert mapInfo[nId].nRefCount == 0;
      SwapRandom(mapInfo[nId].nRandomPos, |vRandom| - 1);
      vRandom := vRandom[..|vRandom| - 1];
      mapAddr := mapAddr - {mapInfo[nId].addr.svc.ip};
      mapInfo := mapInfo - {nId};
      nNew := nNew - 1;
    }

    method ClearNew(nUBucket: nat, nUBucketPos: nat)
      requires Shaped() && nUBucket < NEW_BUCKET_COUNT && nUBucketPos < BUCKET_SIZE
      requires CanClear(T(), Slot(nUBucket, nUBucketPos))
      modifies this`mapInfo, this`vRandom, this`mapAddr, this`nNew, vvNew
      ensures T() == Spec.ClearNew(old(T()), Slot(nUBucket, nUBucketPos))
    {
      if vvNew[nUBucket, nUBucketPos] != EMPTY_SLOT {
        ghost var s := Slot(nUBucket, nUBucketPos);
        assert s in T().news && T().news[s] == vvNew[nUBucket, nUBucketPos];
        var nIdDelete := vvNew[nUBucket, nUBucketPos];
        assert mapInfo[nIdDelete].nRefCount > 0;
        mapInfo := mapInfo[nIdDelete := mapInfo[nIdDelete].(nRefCount := mapInfo[nIdDelete].nRefCount - 1)];
        SetSlot(vvNew, Slot(nUBucket, nUBucketPos), EMPTY_SLOT);
        assert T() == Unref(old(T()), s);
        if mapInfo[nIdDelete].nRefCount == 0 {
          Delete(nIdDelete);
        }
      }
    }

    /** The loop of MakeTried that takes an entry out of every new bucket. */
    method RemoveFromNew(nId: int)
      requires Shaped() && nId in mapInfo && nId >= 0
      modifies this`mapInfo, vvNew
      ensures T() == Unlink(h, old(T()), nId)
    {
      hide Occupied, UnlinkBelow, Unlink;
      ghost var t := T();
      UnlinkNone(h, t, nId);
      var bucket := 0;
      while bucket < NEW_BUCKET_COUNT
        invariant 0 <= bucket <= NEW_BUCKET_COUNT
        invariant T() == UnlinkBelow(h, t, nId, bucket)
      {
        UnlinkStep(h, t, nId, bucket);
        var pos := h.BucketPosition(true, bucket, mapInfo[nId].addr.svc);
        assert Slot(bucket, pos) in T().news <==> vvNew[bucket, pos] != EMPTY_SLOT;
        if vvNew[bucket, pos] == nId {
          SetSlot(vvNew, Slot(bucket, pos), EMPTY_SLOT);
          mapInfo := mapInfo[nId := mapInfo[nId].(nRefCount := mapInfo[nId].nRefCount - 1)];
        }
        bucket := bucket + 1;
      }
      UnlinkAll(h, t, nId);
    }

    method MakeTried(nId: int)
      requires Shaped() && Consistent(h, T()) && nId in mapInfo && !mapInfo[nId].fInTried
      modifies this, vvTried, vvNew
      ensures T() == Spec.MakeTried(h, old(T()), nId)
    {
      hide Occupied, Consistent, Nearly, Occurrences, Unlink, MadeRoom, Demote;
      ghost var t := T();
      IdsNonNegative(h, t, nId);
      RemoveFromNew(nId);
      assert T() == Unlink(h, t, nId);
      nNew := nNew - 1;
      ghost var b := T();
      MadeRoomSteps(h, t, nId, b);
      assert mapInfo[nId].nRefCount == 0;

      var nKBucket := h.TriedBucket(mapInfo[nId].addr.svc);
      var nKBucketPos := h.BucketPosition(false, nKBucket, mapInfo[nId].addr.svc);
      ghost var k := Slot(nKBucket, nKBucketPos);
      assert k in b.tried <==> vvTried[nKBucket, nKBucketPos] != EMPTY_SLOT;
      if vvTried[nKBucket, nKBucketPos] != EMPTY_SLOT {
        EvictToNew(nKBucket, nKBucketPos, {nId}, 1);
      }
      MadeRoomKeeps(h, t, nId);
      assert T() == MadeRoom(h, t, nId);
      assert k !in T().tried;
      assert vvTried[nKBucket, nKBucketPos] == EMPTY_SLOT;

      EnterTried(nId, nKBucket, nKBucketPos);
    }

    /** The holder of a tried slot leaves it. */
    method LeaveTried(nKBucket: nat, nKBucketPos: nat) returns (nIdEvict: int)
      requires Shaped() && nKBucket < TRIED_BUCKET_COUNT && nKBucketPos < BUCKET_SIZE
      requires var k := Slot(nKBucket, nKBucketPos); k in T().tried && T().tried[k] in mapInfo
      modifies this`mapInfo, this`nTried, vvTried
      ensures nIdEvict == old(T().tried[Slot(nKBucket, nKBucketPos)]) && nIdEvict != EMPTY_SLOT
      ensures T() == Evict(old(T()), Slot(nKBucket, nKBucketPos))
    {
      nIdEvict := vvTried[nKBucket, nKBucketPos];
      hide Occupied;
      mapInfo := mapInfo[nIdEvict := mapInfo[nIdEvict].(fInTried := false)];
      SetSlot(vvTried, Slot(nKBucket, nKBucketPos), EMPTY_SLOT);
      nTried := nTried - 1;
    }

    /** An entry takes a free tried slot. */
    method EnterTried(nId: int, nKBucket: nat, nKBucketPos: nat)
      requires Shaped() && nKBucket < TRIED_BUCKET_COUNT && nKBucketPos < BUCKET_SIZE && nId in mapInfo
      requires nId != EMPTY_SLOT
      modifies this`mapInfo, this`nTried, vvTried
      ensures T() == Promote(old(T()), nId, Slot(nKBucket, nKBucketPos))
    {
      hide Occupied;
      SetSlot(vvTried, Slot(nKBucket, nKBucketPos), nId);
      nTried := nTried + 1;
      mapInfo := mapInfo[nId := mapInfo[nId].(fInTried := true)];
    }

    /** The holder of a tried slot moves to the new table, deleting whatever is in its way. */
    method EvictToNew(nKBucket: nat, nKBucketPos: nat, ghost loose: set<int>, ghost off: int)
      requires Shaped() && nKBucket < TRIED_BUCKET_COUNT && nKBucketPos < BUCKET_SIZE
      requires Nearly(h, T(), loose, off) && Slot(nKBucket, nKBucketPos) in T().tried
      requires forall i :: i in loose ==> Occurrences(T().news, i) == {}
      modifies this, vvTried, vvNew
      ensures T() == Demote(h, old(T()), loose, off, Slot(nKBucket, nKBucketPos))
    {
      hide Occupied, Nearly, Occurrences, Spec.ClearNew;
      ghost var t, k := T(), Slot(nKBucket, nKBucketPos);
      EvictKeeps(h, t, loose, off, k);
      DemoteCanClear(h, t, loose, off, k);
      var nIdEvict := LeaveTried(nKBucket, nKBucketPos);

      var nUBucket := h.NewBucket(mapInfo[nIdEvict].addr.svc, mapInfo[nIdEvict].source);
      var nUBucketPos := h.BucketPosition(true, nUBucket, mapInfo[nIdEvict].addr.svc);
      ClearNew(nUBucket, nUBucketPos);
      assert vvNew[nUBucket, nUBucketPos] == EMPTY_SLOT;

      ReturnToNew(nIdEvict, nUBucket, nUBucketPos);
    }

    /** An evicted entry takes a free new slot. */
    method ReturnToNew(nIdEvict: int, nUBucket: nat, nUBucketPos: nat)
      requires Shaped() && nUBucket < NEW_BUCKET_COUNT && nUBucketPos < BUCKET_SIZE
      requires nIdEvict in mapInfo && nIdEvict != EMPTY_SLOT
      modifies this`mapInfo, this`nNew, vvNew
      ensures var t := old(T());
        T() == t.(mapInfo := t.mapInfo[nIdEvict := t.mapInfo[nIdEvict].(nRefCount := 1)],
                  news := t.news[Slot(nUBucket, nUBucketPos) := nIdEvict], nNew := t.nNew + 1)
    {
      hide Occupied;
      mapInfo := mapInfo[nIdEvict := mapInfo[nIdEvict].(nRefCount := 1)];
      SetSlot(vvNew, Slot(nUBucket, nUBucketPos), nIdEvict);
      nNew := nNew + 1;
    }

    /** Looks through the new buckets, from a random one on, for a bucket that holds an entry. */
    method FindNewBucket(nId: int, random: nat) returns (nUBucket: int)
      requires Shaped() && nId in mapInfo && nId >= 0
      ensures nUBucket == -1 <==> Linked(h, T(), nId) == {}
    {
      var nRnd := RandomInt(random, NEW_BUCKET_COUNT);
      nUBucket := -1;
      var n := 0;
      while n < NEW_BUCKET_COUNT
        invariant 0 <= n <= NEW_BUCKET_COUNT
        invariant forall m :: 0 <= m < n ==> !Holds(nId, BucketFrom(m, nRnd))
      {
        var nB := BucketFrom(n, nRnd);
        var nBpos := h.BucketPosition(true, nB, mapInfo[nId].addr.svc);
        assert Slot(nB, nBpos) in T().news <==> vvNew[nB, nBpos] != EMPTY_SLOT;
        if vvNew[nB, nBpos] == nId {
          assert Slot(nB, nBpos) in Linked(h, T(), nId);
          return nB;
        }
        n := n + 1;
      }
      forall b | 0 <= b < NEW_BUCKET_COUNT ensures !Holds(nId, b) {
        var m := BucketReached(b, nRnd);
        assert !Holds(nId, BucketFrom(m, nRnd));
      }
      assert forall s :: s in Linked(h, T(), nId) ==> Holds(nId, s.bucket);
    }

    ghost predicate Holds(nId: int, bucket: nat)
      requires Shaped() && nId in mapInfo && bucket < NEW_BUCKET_COUNT
      reads this, vvNew
    {
      vvNew[bucket, h.BucketPosition(true, bucket, mapInfo[nId].addr.svc)] == nId
    }

    method Good(addr: Service, nTime: int, random: nat)
      requires Shaped() && Consistent(h, T()) && nTime > 0
      modifies this, vvTried, vvNew
      ensures T() == Spec.Good(h, old(T()), addr, nTime) && Consistent(h, T())
    {
      hide Consistent, Linked, Spec.MakeTried;
      ghost var t := T();
      GoodKeeps(h, t, addr, nTime);
      nLastGood := nTime;
      if addr.ip !in mapAddr || mapAddr[addr.ip] !in mapInfo {
        return;
      }
      var nId := mapAddr[addr.ip];
      if mapInfo[nId].addr.svc != addr {
        return;
      }
      mapInfo := mapInfo[nId := mapInfo[nId].(nLastSuccess := nTime, nLastTry := nTime, nAttempts := 0)];
      ghost var b := T();
      GoodSteps(h, t, addr, nTime, nId, b);
      if mapInfo[nId].fInTried {
        return;
      }
      IdsNonNegative(h, b, nId);
      var nUBucket := FindNewBucket(nId, random);
      if nUBucket == -1 {
        return;
      }
      MakeTried(nId);
    }

    /** The branch of Add_ that inserts: the slot is freed and the entry takes it. */
    method PutInNew(nId: int, nUBucket: nat, nUBucketPos: nat)
      requires Shaped() && nId >= 0 && nUBucket < NEW_BUCKET_COUNT && nUBucketPos < BUCKET_SIZE
      requires CanClear(T(), Slot(nUBucket, nUBucketPos))
      requires nId in Spec.ClearNew(T(), Slot(nUBucket, nUBucketPos)).mapInfo
      modifies this`mapInfo, this`vRandom, this`mapAddr, this`nNew, vvNew
      ensures T() == PutNew(Spec.ClearNew(old(T()), Slot(nUBucket, nUBucketPos)), nId, Slot(nUBucket, nUBucketPos))
    {
      hide Occupied, Spec.ClearNew, CanClear;
      ClearNew(nUBucket, nUBucketPos);
      mapInfo := mapInfo[nId := mapInfo[nId].(nRefCount := mapInfo[nId].nRefCount + 1)];
      SetSlot(vvNew, Slot(nUBucket, nUBucketPos), nId);
    }

    /** The end of Add_: an entry takes its slot in a new bucket if it may, and goes if it then has none. */
    method PlaceInNew(nId: int, source: NetAddr, now: int)
      requires Shaped() && nId in mapInfo && !mapInfo[nId].fInTried && nId >= 0
      requires Nearly(h, T(), {nId}, 0)
      modifies this, vvNew
      ensures T() == Place(h, old(T()), nId, source, now)
    {
      hide Occupied, Nearly, Spec.ClearNew, Spec.Delete, IsTerrible;
      ghost var t := T();
      var nUBucket := h.NewBucket(mapInfo[nId].addr.svc, source);
      var nUBucketPos := h.BucketPosition(true, nUBucket, mapInfo[nId].addr.svc);
      ghost var s := Slot(nUBucket, nUBucketPos);
      assert s in t.news <==> vvNew[nUBucket, nUBucketPos] != EMPTY_SLOT;
      SlotEntries(h, t, {nId}, 0);
      if vvNew[nUBucket, nUBucketPos] != nId {
        var fInsert := vvNew[nUBucket, nUBucketPos] == EMPTY_SLOT;
        if !fInsert {
          assert s in t.news && t.news[s] == vvNew[nUBucket, nUBucketPos];
          var infoExisting := mapInfo[vvNew[nUBucket, nUBucketPos]];
          if IsTerrible(infoExisting, now) || (infoExisting.nRefCount > 1 && mapInfo[nId].nRefCount == 0) {
            fInsert := true;
          }
        }
        assert fInsert <==> MayInsert(t, nId, s, now);
        if fInsert {
          ClearKeeps(h, t, {nId}, 0, s);
          PutInNew(nId, nUBucket, nUBucketPos);
        } else {
          if mapInfo[nId].nRefCount == 0 {
            DeleteKeeps(h, t, {nId}, 0, nId);
            Delete(nId);
          }
        }
      }
    }

    method Create(addr: Address, source: NetAddr) returns (nId: int)
      requires Shaped()
      modifies this`nIdCount, this`mapInfo, this`mapAddr, this`vRandom
      ensures nId == old(nIdCount) && T() == Spec.Create(old(T()), addr, source)
    {
      nId := nIdCount;
      nIdCount := nIdCount + 1;
      mapInfo := mapInfo[nId := Info(addr, source, 0, 0, 0, 0, 0, false, -1)];
      mapAddr := mapAddr[addr.svc.ip := nId];
      mapInfo := mapInfo[nId := mapInfo[nId].(nRandomPos := |vRandom|)];
      vRandom := vRandom + [nId];
    }

    /** routable is what IsRoutable says of the address, now the adjusted time, random the random number. */
    method Add(routable: bool, addr: Address, source: NetAddr, penalty: int, now: int, random: nat) returns (fNew: bool)
      requires Shaped() && Consistent(h, T())
      modifies this, vvNew
      ensures (T(), fNew) == Spec.Add(h, old(T()), routable, addr, source, penalty, now, random) && Consistent(h, T())
    {
      hide Consistent, Nearly, Place, NothingNew, Refresh, Enroll;
      ghost var t := T();
      AddKeeps(h, t, routable, addr, source, penalty, now, random);
      if !routable {
        return false;
      }
      fNew := false;
      var nTimePenalty := if addr.svc.ip == source then 0 else penalty;
      var nId: int;
      if addr.svc.ip in mapAddr && mapAddr[addr.svc.ip] in mapInfo {
        nId := mapAddr[addr.svc.ip];
        RefreshKeeps(h, t, nId, addr, nTimePenalty, now);
        UpdateEntry(nId, addr, nTimePenalty, now);
        IdsNonNegative(h, T(), nId);
        RefBound(h, T(), nId);
        var done := IsNothingNew(mapInfo[nId], addr, random);
        if done {
          return false;
        }
      } else {
        EnrollKeeps(h, t, addr, source, nTimePenalty);
        nId := EnrollNew(addr, source, nTimePenalty);
        fNew := true;
      }
      PlaceInNew(nId, source, now);
    }

    /** Add_ on a known address: the entry's time and services. */
    method UpdateEntry(nId: int, addr: Address, nTimePenalty: int, now: int)
      requires Shaped() && nId in mapInfo
      modifies this`mapInfo
      ensures T() == Put(old(T()), nId, Refresh(old(mapInfo[nId]), addr, nTimePenalty, now))
    {
      hide AllServices;
      var pinfo := mapInfo[nId];
      var fCurrentlyOnline := now - addr.nTime < 24 * 60 * 60;
      var nUpdateInterval := if fCurrentlyOnline then 60 * 60 else 24 * 60 * 60;
      if addr.nTime != 0 && (pinfo.addr.nTime == 0 || pinfo.addr.nTime < addr.nTime - nUpdateInterval - nTimePenalty) {
        pinfo := pinfo.(addr := pinfo.addr.(nTime := Max(0, addr.nTime - nTimePenalty)));
      }
      pinfo := pinfo.(addr := pinfo.addr.(services := AllServices(pinfo.addr.services, addr.services)));
      mapInfo := mapInfo[nId := pinfo];
    }

    /** Add_ on a known address: the four reasons to stop. */
    method IsNothingNew(info: Info, addr: Address, random: nat) returns (b: bool)
      ensures b == NothingNew(info, addr, random) && (info.fInTried ==> b)
    {
      if addr.nTime == 0 || (info.addr.nTime != 0 && addr.nTime <= info.addr.nTime) {
        return true;
      }
      if info.fInTried || info.nRefCount == NEW_BUCKETS_PER_ADDRESS {
        return true;
      }
      var nFactor := 1;
      var n := 0;
      while n < info.nRefCount
        invariant 0 <= n && (n <= info.nRefCount || n == 0) && nFactor == Pow2(n)
      {
        nFactor := nFactor * 2;
        n := n + 1;
      }
      return nFactor > 1 && RandomInt(random, nFactor) != 0;
    }

    method EnrollNew(addr: Address, source: NetAddr, nTimePenalty: int) returns (nId: int)
      requires Shaped()
      modifies this
      ensures nId == old(nIdCount) && T() == Enroll(old(T()), addr, source, nTimePenalty)
    {
      nId := Create(addr, source);
      var pinfo := mapInfo[nId];
      mapInfo := mapInfo[nId := pinfo.(addr := pinfo.addr.(nTime := Max(0, pinfo.addr.nTime - nTimePenalty)))];
      nNew := nNew + 1;
    }

    method Attempt(addr: Service, fCountFailure: bool, nTime: int)
      requires Shaped() && Consistent(h, T()) && nTime >= 0
      modifies this`mapInfo
      ensures T() == Spec.Attempt(old(T()), addr, fCountFailure, nTime) && Consistent(h, T())
    {
      hide Consistent;
      AttemptKeeps(h, T(), addr, fCountFailure, nTime);
      if addr.ip !in mapAddr || mapAddr[addr.ip] !in mapInfo {
        return;
      }
      var nId := mapAddr[addr.ip];
      if mapInfo[nId].addr.svc != addr {
        return;
      }
      var info := mapInfo[nId].(nLastTry := nTime);
      if fCountFailure && info.nLastCountAttempt < nLastGood {
        info := info.(nLastCountAttempt := nTime, nAttempts := info.nAttempts + 1);
      }
      mapInfo := mapInfo[nId := info];
    }

    method Connected(addr: Service, nTime: int)
      requires Shaped() && Consistent(h, T())
      modifies this`mapInfo
      ensures T() == Spec.Connected(old(T()), addr, nTime) && Consistent(h, T())
    {
      hide Consistent;
      ConnectedKeeps(h, T(), addr, nTime);
      if addr.ip !in mapAddr || mapAddr[addr.ip] !in mapInfo {
        return;
      }
      var nId := mapAddr[addr.ip];
      var info := mapInfo[nId];
      if info.addr.svc != addr {
        return;
      }
      var nUpdateInterval := 20 * 60;
      if nTime - info.addr.nTime > nUpdateInterval {
        mapInfo := mapInfo[nId := info.(addr := info.addr.(nTime := nTime))];
      }
    }

    method SetServices(addr: Service, nServices: bv64)
      requires Shaped() && Consistent(h, T())
      modifies this`mapInfo
      ensures T() == Spec.SetServices(old(T()), addr, nServices) && Consistent(h, T())
    {
      hide Consistent;
      SetServicesKeeps(h, T(), addr, nServices);
      if addr.ip !in mapAddr || mapAddr[addr.ip] !in mapInfo {
        return;
      }
      var nId := mapAddr[addr.ip];
      var info := mapInfo[nId];
      if info.addr.svc != addr {
        return;
      }
      mapInfo := mapInfo[nId := info.(addr := info.addr.(services := nServices))];
    }

    /**
    The good entries among the first m of the order it leaves, at most 23% of all and at most 2500,
    and fewer than that only when it has looked at every entry.
    */
    method GetAddr(picks: nat -> nat, now: int) returns (vAddr: seq<Address>, ghost m: nat)
      requires Shaped() && Consistent(h, T())
      modifies this`mapInfo, this`vRandom
      ensures Consistent(h, T()) && SameBut(old(T()), T())
      ensures (T(), vAddr) == Gather(h, old(T()), 0, [], GetAddrLimit(old(T())), picks, now)
      ensures m <= |vRandom| && vAddr == GoodOnes(mapInfo, vRandom[..m], now)
      ensures |vAddr| <= GetAddrLimit(old(T())) && (|vAddr| == GetAddrLimit(old(T())) || m == |vRandom|)
    {
      hide Occupied, Consistent, SameBut, GoodOnes, IsTerrible, Gather, Spec.SwapRandom, RandomInt;
      ghost var t := T();
      var nNodes := GETADDR_MAX_PCT * |vRandom| / 100;
      if nNodes > GETADDR_MAX {
        nNodes := GETADDR_MAX;
      }
      m := GatherAll(h, t, nNodes, picks, now);
      vAddr := [];
      var n := 0;
      while n < |vRandom|
        invariant 0 <= n <= |vRandom| == |t.vRandom|
        invariant Consistent(h, T())
        invariant Gather(h, T(), n, vAddr, nNodes, picks, now) == Gather(h, t, 0, [], nNodes, picks, now)
      {
        GatherTurn(h, T(), n, vAddr, nNodes, picks, now);
        if |vAddr| >= nNodes {
          break;
        }
        var nRndPos := RandomInt(picks(n), |vRandom| - n) + n;
        SwapRandom(n, nRndPos);
        assert vRandom[n] in mapInfo;
        var ai := mapInfo[vRandom[n]];
        if !IsTerrible(ai, now) {
          vAddr := vAddr + [ai.addr];
        }
        n := n + 1;
      }
      GatherTurn(h, T(), n, vAddr, nNodes, picks, now);
    }
    /**
    Check_, which returns 0 exactly when nothing is wrong.  Reading mapAddr with a missing key stores
    a 0 there, which no later reading can tell from a missing key.
    */
    method Check(keyIsNull: bool) returns (err: int)
      requires Shaped()
      modifies this`mapAddr
      ensures err == 0 <==> Passes(h, old(T())) && !keyIsNull
      ensures Consistent(h, old(T())) ==> T() == old(T())
      ensures Consistent(h, old(T())) && !keyIsNull ==> err == 0
    {
      hide Consistent, TriedOk, NewOk, References, TriedIds;
      ghost var t := T();
      if Consistent(h, t) {
        ConsistentPasses(h, t);
        KnownAddresses(h, t);
      }
      if |vRandom| != nTried + nNew {
        return -7;
      }
      var setTried, mapNew;
      err, setTried, mapNew := CheckEntries();
      if err != 0 {
        return;
      }
      if |setTried| != nTried {
        return -9;
      }
      if |mapNew| != nNew {
        return -10;
      }
      err := CheckTried(setTried);
      if err != 0 {
        return;
      }
      assert forall i :: i in mapNew && i in mapInfo ==> EntryPasses(mapInfo[i], i, t.mapAddr, vRandom);
      err := CheckNew(mapNew);
      if err != 0 {
        return;
      }
      if keyIsNull {
        return -16;
      }
    }

    ghost predicate AllKnown() reads this {
      forall i :: i in mapInfo ==> mapInfo[i].addr.svc.ip in mapAddr
    }

    lemma KnownAddresses(h: Hasher, t: Tables)
      requires Shaped() && t == T() && Consistent(h, t)
      ensures AllKnown()
    {
    }

    /** One turn of the loop of Check_ over the entries; an address that is missing from the index is entered as 0. */
    method CheckEntry(n: int, info: Info) returns (err: int)
      modifies this`mapAddr
      ensures err == 0 <==> EntryPasses(info, n, old(mapAddr), vRandom)
      ensures forall ip :: Lookup(mapAddr, ip) == Lookup(old(mapAddr), ip)
      ensures info.addr.svc.ip in old(mapAddr) ==> mapAddr == old(mapAddr)
    {
      if info.fInTried {
        if info.nLastSuccess == 0 {
          return -1;
        }
        if info.nRefCount != 0 {
          return -2;
        }
      } else {
        if info.nRefCount < 0 || info.nRefCount > NEW_BUCKETS_PER_ADDRESS {
          return -3;
        }
        if info.nRefCount == 0 {
          return -4;
        }
      }
      if info.addr.svc.ip !in mapAddr {
        mapAddr := mapAddr[info.addr.svc.ip := 0];
      }
      if mapAddr[info.addr.svc.ip] != n {
        return -5;
      }
      if info.nRandomPos < 0 || info.nRandomPos >= |vRandom| || vRandom[info.nRandomPos] != n {
        return -14;
      }
      if info.nLastTry < 0 {
        return -6;
      }
      if info.nLastSuccess < 0 {
        return -8;
      }
      return 0;
    }

    /** The loop of Check_ over the entries. */
    method CheckEntries() returns (err: int, setTried: set<int>, mapNew: map<int, int>)
      modifies this`mapAddr
      ensures err == 0 <==> EntriesPass(mapInfo, old(mapAddr), vRandom)
      ensures err == 0 ==> setTried == TriedIds(mapInfo) && mapNew.Keys == UntriedIds(mapInfo)
      ensures err == 0 ==> forall i :: i in mapNew && i in mapInfo ==> mapNew[i] == mapInfo[i].nRefCount
      ensures old(AllKnown()) ==> mapAddr == old(mapAddr)
    {
      setTried, mapNew := {}, map[];
      var todo := mapInfo.Keys;
      while todo != {}
        invariant todo <= mapInfo.Keys
        invariant forall ip :: Lookup(mapAddr, ip) == Lookup(old(mapAddr), ip)
        invariant old(AllKnown()) ==> mapAddr == old(mapAddr)
        invariant forall i :: i in mapInfo && i !in todo ==> EntryPasses(mapInfo[i], i, old(mapAddr), vRandom)
        invariant forall i :: i in setTried <==> i in mapInfo && i !in todo && mapInfo[i].fInTried
        invariant forall i :: i in mapNew <==> i in mapInfo && i !in todo && !mapInfo[i].fInTried
        invariant forall i :: i in mapNew && i in mapInfo ==> mapNew[i] == mapInfo[i].nRefCount
      {
        ghost var some := OneOf(todo);
        var n :| n in todo;
        todo := todo - {n};
        var info := mapInfo[n];
        err := CheckEntry(n, info);
        if err != 0 {
          return;
        }
        if info.fInTried {
          setTried := setTried + {n};
        } else {
          mapNew := mapNew[n := info.nRefCount];
        }
      }
      assert todo == {};
      assert forall i :: i in setTried <==> i in TriedIds(mapInfo);
      assert forall i :: i in mapNew <==> i in UntriedIds(mapInfo);
      err := 0;
    }

    /** The loop of Check_ over the tried slots. */
    method CheckTried(ids: set<int>) returns (err: int)
      requires Shaped() && ids == TriedIds(mapInfo)
      ensures err == 0 <==> TriedOk(h, mapInfo, T().tried)
    {
      hide TriedSeen, TriedOk, Seen;
      var setTried := ids;
      ghost var tried, seen := T().tried, map[];
      StartTried(h, mapInfo, tried, setTried);
      var n := 0;
      while n < TRIED_BUCKET_COUNT
        invariant 0 <= n <= TRIED_BUCKET_COUNT
        invariant Seen(tried, seen, n, 0) && TriedSeen(h, mapInfo, seen, setTried)
      {
        var i := 0;
        while i < BUCKET_SIZE
          invariant 0 <= i <= BUCKET_SIZE
          invariant Seen(tried, seen, n, i) && TriedSeen(h, mapInfo, seen, setTried)
        {
          ghost var s := Slot(n, i);
          SeenStep(tried, seen, n, i);
          assert s in tried <==> vvTried[n, i] != EMPTY_SLOT;
          if vvTried[n, i] != EMPTY_SLOT {
            var id := vvTried[n, i];
            assert tried[s] == id;
            TriedStep(h, mapInfo, tried, seen, setTried, n, i);
            if id !in setTried {
              return -11;
            }
            if h.TriedBucket(mapInfo[id].addr.svc) != n {
              return -17;
            }
            if h.BucketPosition(false, n, mapInfo[id].addr.svc) != i {
              return -18;
            }
            setTried := setTried - {id};
            seen := seen[s := id];
          }
          i := i + 1;
        }
        SeenRow(tried, seen, n);
        n := n + 1;
      }
      SeenAll(tried, seen, n);
      TriedEnd(h, mapInfo, tried, setTried);
      if setTried != {} {
        return -13;
      }
      err := 0;
    }

    /** The loop of Check_ over the new slots. */
    method CheckNew(counts: map<int, int>) returns (err: int)
      requires Shaped() && counts.Keys == UntriedIds(mapInfo)
      requires forall i :: i in counts && i in mapInfo ==> counts[i] == mapInfo[i].nRefCount > 0
      ensures err == 0 <==> NewOk(h, mapInfo, T().news) && References(mapInfo, T().news)
    {
      hide NewSeen, NewOk, References, Seen;
      var mapNew := counts;
      ghost var news, seen := T().news, map[];
      StartNew(h, mapInfo, news, mapNew);
      var n := 0;
      while n < NEW_BUCKET_COUNT
        invariant 0 <= n <= NEW_BUCKET_COUNT
        invariant Seen(news, seen, n, 0) && NewSeen(h, mapInfo, seen, mapNew)
      {
        var i := 0;
        while i < BUCKET_SIZE
          invariant 0 <= i <= BUCKET_SIZE
          invariant Seen(news, seen, n, i) && NewSeen(h, mapInfo, seen, mapNew)
        {
          ghost var s := Slot(n, i);
          SeenStep(news, seen, n, i);
          assert s in news <==> vvNew[n, i] != EMPTY_SLOT;
          if vvNew[n, i] != EMPTY_SLOT {
            var id := vvNew[n, i];
            assert news[s] == id;
            NewStep(h, mapInfo, news, seen, mapNew, n, i);
            if id !in mapNew {
              return -12;
            }
            if h.BucketPosition(true, n, mapInfo[id].addr.svc) != i {
              return -19;
            }
            ghost var was := mapNew;
            mapNew := mapNew[id := mapNew[id] - 1];
            if mapNew[id] == 0 {
              mapNew := mapNew - {id};
              assert mapNew == was - {id};
            }
            seen := seen[s := id];
          }
          i := i + 1;
        }
        SeenRow(news, seen, n);
        n := n + 1;
      }
      SeenAll(news, seen, n);
      NewEnd(h, mapInfo, news, mapNew);
      if |mapNew| != 0 {
        return -15;
      }
      err := 0;
    }
  }

  /** The slots of a table that a scan has passed at bucket n, position i. */
  ghost predicate Seen(t: Table, seen: Table, n: nat, i: nat) {
    && (forall s :: s in seen <==> s in t && (s.bucket < n || (s.bucket == n && s.pos < i)))
    && (forall s :: s in seen && s in t ==> seen[s] == t[s])
  }

  /** The scanned tried slots are right, and setTried holds the tried entries not met yet. */
  ghost predicate TriedSeen(h: Hasher, m: map<int, Info>, seen: Table, setTried: set<int>) {
    && (forall s :: s in seen ==> seen[s] in m && m[seen[s]].fInTried && s == h.TriedSlot(m[seen[s]].addr.svc))
    && (forall i :: i in setTried ==> i in m && m[i].fInTried && !Met(seen, i))
    && (forall i :: i in m && m[i].fInTried && i !in setTried ==> Met(seen, i))
  }

  ghost predicate Met(seen: Table, i: int) {
    exists s :: s in seen && seen[s] == i
  }

  lemma SeenStep(t: Table, seen: Table, n: nat, i: nat)
    requires Seen(t, seen, n, i)
    ensures var s := Slot(n, i); s !in seen && Seen(t, if s in t then seen[s := t[s]] else seen, n, i + 1)
  {
  }

  lemma SeenRow(t: Table, seen: Table, n: nat)
    requires Seen(t, seen, n, BUCKET_SIZE) && forall s :: s in t ==> s.pos < BUCKET_SIZE
    ensures Seen(t, seen, n + 1, 0)
  {
  }

  lemma SeenAll(t: Table, seen: Table, n: nat)
    requires Seen(t, seen, n, 0) && forall s :: s in t ==> s.bucket < n
    ensures seen == t
  {
  }

  lemma StartTried(h: Hasher, m: map<int, Info>, tried: Table, setTried: set<int>)
    requires setTried == TriedIds(m)
    ensures Seen(tried, map[], 0, 0) && TriedSeen(h, m, map[], setTried)
  {
  }

  /** Meeting one tried slot: an unexpected or misplaced holder is an error, any other is ticked off. */
  lemma TriedStep(h: Hasher, m: map<int, Info>, tried: Table, seen: Table, setTried: set<int>, n: nat, i: nat)
    requires Seen(tried, seen, n, i) && TriedSeen(h, m, seen, setTried) && Slot(n, i) in tried
    ensures var s, id := Slot(n, i), tried[Slot(n, i)];
      && (id !in setTried ==> !TriedOk(h, m, tried))
      && (id in setTried ==> id in m)
      && (id in setTried && s != h.TriedSlot(m[id].addr.svc) ==> !TriedOk(h, m, tried))
      && (id in setTried && s == h.TriedSlot(m[id].addr.svc) ==> TriedSeen(h, m, seen[s := id], setTried - {id}))
  {
    var s, id := Slot(n, i), tried[Slot(n, i)];
    if id !in setTried {
      assert id in m && m[id].fInTried ==> Met(seen, id);
    } else if s == h.TriedSlot(m[id].addr.svc) {
      forall j | j in m && m[j].fInTried && j !in setTried - {id} ensures Met(seen[s := id], j) {
        if j == id {
          assert s in seen[s := id];
        } else {
          assert Met(seen, j);
          var c :| c in seen && seen[c] == j;
          assert c in seen[s := id] && seen[s := id][c] == j;
        }
      }
    }
  }

  lemma TriedEnd(h: Hasher, m: map<int, Info>, tried: Table, setTried: set<int>)
    requires TriedSeen(h, m, tried, setTried)
    ensures TriedOk(h, m, tried) <==> setTried == {}
  {
    if setTried == {} {
      forall i | i in m && m[i].fInTried
        ensures h.TriedSlot(m[i].addr.svc) in tried && tried[h.TriedSlot(m[i].addr.svc)] == i
      {
        assert Met(tried, i);
      }
    } else {
      var i := OneOf(setTried);
      assert !Met(tried, i);
    }
  }

  /** The scanned new slots are right, and mapNew holds for each untried entry how many slots are still missing. */
  ghost predicate NewSeen(h: Hasher, m: map<int, Info>, seen: Table, mapNew: map<int, int>) {
    && NewOk(h, m, seen)
    && (forall i :: i in mapNew ==> i in m && !m[i].fInTried)
    && (forall i :: i in m && !m[i].fInTried ==> Missing(seen, mapNew, i, m[i].nRefCount))
  }

  ghost predicate Missing(seen: Table, mapNew: map<int, int>, i: int, refs: int) {
    if i in mapNew then mapNew[i] > 0 && mapNew[i] + |Occurrences(seen, i)| == refs
    else |Occurrences(seen, i)| == refs
  }

  lemma StartNew(h: Hasher, m: map<int, Info>, news: Table, mapNew: map<int, int>)
    requires mapNew.Keys == UntriedIds(m)
    requires forall i :: i in mapNew && i in m ==> mapNew[i] == m[i].nRefCount > 0
    ensures Seen(news, map[], 0, 0) && NewSeen(h, m, map[], mapNew)
  {
    forall i | i in m && !m[i].fInTried ensures Missing(map[], mapNew, i, m[i].nRefCount) {
      assert i in UntriedIds(m);
      assert Occurrences(map[], i) == {};
    }
    forall i | i in mapNew ensures i in m && !m[i].fInTried {
      assert i in UntriedIds(m);
    }
  }

  lemma CountOne(h: Hasher, m: map<int, Info>, seen: Table, mapNew: map<int, int>, s: Slot, id: int)
    requires NewSeen(h, m, seen, mapNew) && s !in seen && id in mapNew
    requires s.bucket < NEW_BUCKET_COUNT && s == h.NewSlot(m[id].addr.svc, s.bucket)
    ensures var k := if mapNew[id] == 1 then mapNew - {id} else mapNew[id := mapNew[id] - 1];
      NewSeen(h, m, seen[s := id], k)
  {
    var k := if mapNew[id] == 1 then mapNew - {id} else mapNew[id := mapNew[id] - 1];
    forall i | i in m && !m[i].fInTried ensures Missing(seen[s := id], k, i, m[i].nRefCount) {
      OneMoreOccurrence(seen, s, id, i);
      assert Missing(seen, mapNew, i, m[i].nRefCount);
    }
  }

  /** Meeting one new slot. */
  lemma NewStep(h: Hasher, m: map<int, Info>, news: Table, seen: Table, mapNew: map<int, int>, n: nat, i: nat)
    requires n < NEW_BUCKET_COUNT && Seen(news, seen, n, i) && NewSeen(h, m, seen, mapNew) && Slot(n, i) in news
    ensures var s, id := Slot(n, i), news[Slot(n, i)];
      && (id !in mapNew ==> !(NewOk(h, m, news) && References(m, news)))
      && (id in mapNew ==> id in m)
      && (id in mapNew && s != h.NewSlot(m[id].addr.svc, n) ==> !NewOk(h, m, news))
      && (id in mapNew && s == h.NewSlot(m[id].addr.svc, n) ==>
            NewSeen(h, m, seen[s := id], if mapNew[id] == 1 then mapNew - {id} else mapNew[id := mapNew[id] - 1]))
  {
    var s, id := Slot(n, i), news[Slot(n, i)];
    if id !in mapNew {
      TooMany(h, m, news, seen, mapNew, s);
    } else if s == h.NewSlot(m[id].addr.svc, n) {
      CountOne(h, m, seen, mapNew, s, id);
    }
  }

  lemma NewEnd(h: Hasher, m: map<int, Info>, news: Table, mapNew: map<int, int>)
    requires NewSeen(h, m, news, mapNew)
    ensures NewOk(h, m, news) && (References(m, news) <==> |mapNew| == 0)
  {
    if |mapNew| == 0 {
      forall i | i in m && !m[i].fInTried ensures m[i].nRefCount == |Occurrences(news, i)| {
        assert Missing(news, mapNew, i, m[i].nRefCount);
      }
    } else {
      var i := OneOf(mapNew.Keys);
      assert Missing(news, mapNew, i, m[i].nRefCount);
    }
  }

  lemma TooMany(h: Hasher, m: map<int, Info>, news: Table, seen: Table, mapNew: map<int, int>, s: Slot)
    requires NewSeen(h, m, seen, mapNew) && s in news && s !in seen && news[s] !in mapNew
    requires forall c :: c in seen ==> c in news && seen[c] == news[c]
    ensures !(NewOk(h, m, news) && References(m, news))
  {
    var id := news[s];
    if id in m && !m[id].fInTried {
      assert Missing(seen, mapNew, id, m[id].nRefCount);
      OneMoreOccurrence(seen, s, id, id);
      FewerOccurrences(seen[s := id], news, id);
    }
  }
}
