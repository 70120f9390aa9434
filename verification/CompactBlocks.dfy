/**
Compact block relay (src/blockencodings.cpp, src/blockencodings.h): a block is sent as short ids and
a few full transactions, and put together from the receiver's memory pool.
*/
module CompactBlocks {
  import opened Basics

  // ---------------------------------------------------------------------------------------------
  // Differential index coding of BlockTransactionsRequest

  const MAX16 := 0xFFFF

  ghost predicate Increasing(ix: seq<nat>) {
    forall j :: 0 < j < |ix| ==> Before(ix, j)
  }

  ghost predicate Before(ix: seq<nat>, j: nat)
    requires 0 < j < |ix|
  {
    ix[j - 1] < ix[j]
  }

  ghost predicate Short(ix: seq<nat>) {
    forall j :: 0 <= j < |ix| ==> ix[j] <= MAX16
  }

  /** What is written for one index: the distance from the one before it, as a 64-bit number. */
  function Delta(ix: seq<nat>, j: nat): nat
    requires j < |ix|
  {
    var d: int := (ix[j] as int) - (if j == 0 then 0 else ix[j - 1] + 1);
    if d >= 0 then d else if d >= -0x1_0000_0000_0000_0000 then d + 0x1_0000_0000_0000_0000 else 0
  }

  function Deltas(ix: seq<nat>): seq<nat> {
    seq(|ix|, j requires 0 <= j < |ix| => Delta(ix, j))
  }

  /** The offset after an index, in 16 bits. */
  function After(x: nat): (r: nat)
    ensures x <= MAX16 ==> r == if x == MAX16 then 0 else x + 1
  {
    (x + 1) % 0x10000
  }

  /** Reading back: None stands for the exception on an index that does not fit into 16 bits. */
  function FromDeltas(ds: seq<nat>): (r: Option<seq<nat>>)
    ensures r.Some? ==> |r.value| == |ds| && Short(r.value)
  {
    if ds == [] then Some([])
    else
      var n := |ds| - 1;
      var init := FromDeltas(ds[..n]);
      if init.None? then None
      else
        var offset := if n == 0 then 0 else After(init.value[n - 1]);
        if ds[n] > MAX16 || ds[n] + offset > MAX16 then None else Some(init.value + [ds[n] + offset])
  }

  method ReadIndexes(ds: seq<nat>) returns (r: Option<seq<nat>>)
    ensures r == FromDeltas(ds)
  {
    hide FromDeltas;
    var indexes: seq<nat> := [];
    var i := 0;
    while |indexes| < |ds|
      invariant |indexes| <= |ds| && i == |indexes| && forall k :: 0 <= k < i ==> indexes[k] == ds[k] <= MAX16
      decreases |ds| - |indexes|
    {
      var size := Min(1000 + |indexes|, |ds|);
      indexes := indexes + seq(size - |indexes|, _ => 0);
      while i < |indexes|
        invariant 0 <= i <= |indexes| == size && forall k :: 0 <= k < i ==> indexes[k] == ds[k] <= MAX16
      {
        if ds[i] > MAX16 {
          TooLarge(ds, i);
          return None;
        }
        indexes := indexes[i := ds[i]];
        i := i + 1;
      }
    }
    DeltasNone(ds);
    var offset := 0;
    var j := 0;
    while j < |ds|
      invariant 0 <= j <= |ds| == |indexes| && FromDeltas(ds[..j]) == Some(indexes[..j])
      invariant offset == if j == 0 then 0 else After(indexes[j - 1])
      invariant forall k :: j <= k < |ds| ==> indexes[k] == ds[k] <= MAX16
    {
      DeltasNext(ds, j, indexes[..j]);
      if indexes[j] + offset > MAX16 {
        Fails(ds, j + 1);
        return None;
      }
      ghost var before := indexes[..j];
      indexes := indexes[j := indexes[j] + offset];
      assert indexes[..j + 1] == before + [indexes[j]];
      offset := After(indexes[j]);
      j := j + 1;
    }
    assert ds[..j] == ds && indexes[..j] == indexes;
    return Some(indexes);
  }

  lemma DeltasNone(ds: seq<nat>)
    ensures FromDeltas(ds[..0]) == Some([])
  {
  }

  lemma DeltasNext(ds: seq<nat>, j: nat, init: seq<nat>)
    requires j < |ds| && FromDeltas(ds[..j]) == Some(init) && |init| == j && ds[j] <= MAX16
    ensures var offset := if j == 0 then 0 else After(init[j - 1]);
      FromDeltas(ds[..j + 1]) == if ds[j] + offset > MAX16 then None else Some(init + [ds[j] + offset])
  {
    assert ds[..j + 1][..j] == ds[..j];
  }

  /** What fails on a part fails on the whole. */
  lemma {:induction false} Fails(ds: seq<nat>, n: nat)
    requires n <= |ds| && FromDeltas(ds[..n]).None?
    ensures FromDeltas(ds).None?
    decreases |ds| - n
  {
    if n == |ds| {
      assert ds[..n] == ds;
    } else {
      assert ds[..n + 1][..n] == ds[..n];
      Fails(ds, n + 1);
    }
  }

  lemma TooLarge(ds: seq<nat>, i: nat)
    requires i < |ds| && ds[i] > MAX16
    ensures FromDeltas(ds).None?
  {
    assert ds[..i + 1][i] == ds[i];
    Fails(ds, i + 1);
  }

  /** An increasing list of 16-bit indexes survives. */
  lemma {:induction false} IndexRoundTrip(ix: seq<nat>)
    requires Increasing(ix) && Short(ix)
    ensures FromDeltas(Deltas(ix)) == Some(ix)
  {
    hide FromDeltas, After, Deltas, Increasing, Short;
    if ix == [] {
      NoIndexes();
    } else {
      var n := |ix| - 1;
      var init, ds := ix[..n], Deltas(ix);
      InitIncreasing(ix);
      IndexRoundTrip(init);
      LastDelta(ix);
      DeltasNext(ds, n, init);
      assert ds[..n + 1] == ds && ix == init + [ix[n]];
    }
  }

  lemma NoIndexes()
    ensures FromDeltas(Deltas([])) == Some([])
  {
  }

  lemma InitIncreasing(ix: seq<nat>)
    requires Increasing(ix) && Short(ix) && ix != []
    ensures Increasing(ix[..|ix| - 1]) && Short(ix[..|ix| - 1])
  {
    var init := ix[..|ix| - 1];
    forall j | 0 < j < |init| ensures Before(init, j) {
      assert Before(ix, j);
    }
  }

  lemma LastDelta(ix: seq<nat>)
    requires Increasing(ix) && Short(ix) && ix != []
    ensures var n := |ix| - 1; var ds := Deltas(ix);
      && |ds| == n + 1 && ds[..n] == Deltas(ix[..n]) && ds[n] <= MAX16 && ix[n] <= MAX16
      && (if n == 0 then ds[n] == ix[n] else ix[n - 1] < MAX16 && ix[n] == ds[n] + ix[n - 1] + 1)
  {
    var n := |ix| - 1;
    if n > 0 {
      assert Before(ix, n);
    }
  }

  /** The index that the first differences up to the j-th lead to, if no offset wraps. */
  function Reach(ds: seq<nat>, j: nat): nat
    requires j < |ds|
  {
    ds[j] + if j == 0 then 0 else Reach(ds, j - 1) + 1
  }

  lemma {:induction false} ReachPrefix(ds: seq<nat>, n: nat, j: nat)
    requires j < n <= |ds|
    ensures Reach(ds[..n], j) == Reach(ds, j)
  {
    if j > 0 {
      ReachPrefix(ds, n, j - 1);
    }
  }

  /**
  What is read is increasing exactly when the differences before the last lead to an index below 65535,
  after which the 16-bit offset starts again at 0; it is then what they lead to.
  */
  lemma {:induction false} ReadIncreasing(ds: seq<nat>)
    requires FromDeltas(ds).Some?
    ensures var ix := FromDeltas(ds).value;
      && (Increasing(ix) <==> |ds| < 2 || Reach(ds, |ds| - 2) < MAX16)
      && (Increasing(ix) ==> forall j :: 0 <= j < |ds| ==> ix[j] == Reach(ds, j))
  {
    if ds != [] {
      var n := |ds| - 1;
      var init, ix := FromDeltas(ds[..n]).value, FromDeltas(ds).value;
      ReadIncreasing(ds[..n]);
      ReachInit(ds, n);
      LastRead(ds);
      hide FromDeltas, Increasing;
      IncreasingInit(init, ix);
    }
  }

  lemma ReachInit(ds: seq<nat>, n: nat)
    requires n <= |ds|
    ensures forall j :: 0 <= j < n ==> Reach(ds[..n], j) == Reach(ds, j)
  {
    forall j | 0 <= j < n ensures Reach(ds[..n], j) == Reach(ds, j) {
      ReachPrefix(ds, n, j);
    }
  }

  lemma LastRead(ds: seq<nat>)
    requires ds != [] && FromDeltas(ds).Some?
    ensures var n := |ds| - 1; var init, ix := FromDeltas(ds[..n]), FromDeltas(ds).value;
      && init.Some? && (forall j :: 0 <= j < n ==> ix[j] == init.value[j])
      && ix[n] == ds[n] + if n == 0 || ix[n - 1] == MAX16 then 0 else ix[n - 1] + 1
  {
    hide After;
  }

  lemma IncreasingInit(init: seq<nat>, ix: seq<nat>)
    requires |ix| == |init| + 1 && forall j :: 0 <= j < |init| ==> init[j] == ix[j]
    ensures Increasing(ix) <==> Increasing(init) && (init != [] ==> Before(ix, |init|))
  {
    if Increasing(ix) {
      forall j | 0 < j < |init| ensures Before(init, j) {
        assert Before(ix, j);
      }
    } else if Increasing(init) {
      var j :| 0 < j < |ix| && !Before(ix, j);
      assert j < |init| ==> Before(init, j);
    }
  }

  /** After 65535 the next index is read from 0 again. */
  lemma ReadWraps()
    ensures FromDeltas([65535, 0]) == Some([65535, 0]) && !Increasing([65535, 0])
  {
    hide FromDeltas, Increasing, After;
    var ds := [65535, 0];
    DeltasNone(ds);
    DeltasNext(ds, 0, []);
    assert [] + [65535 as nat] == [65535];
    DeltasNext(ds, 1, [65535]);
    assert [65535 as nat] + [0] == ds && ds[..2] == ds;
    WrapsDown(ds);
  }

  lemma WrapsDown(ix: seq<nat>)
    requires |ix| == 2 && ix[1] < ix[0]
    ensures !Increasing(ix)
  {
    assert !Before(ix, 1);
  }

  // ---------------------------------------------------------------------------------------------
  // Slots of a block

  datatype Tx = Tx(hash: nat, isNull: bool)

  datatype Prefilled = Prefilled(index: nat, tx: Tx)

  datatype Compact = Compact(headerIsNull: bool, shorttxids: seq<nat>, prefilledtxn: seq<Prefilled>)

  datatype ReadStatus = Ok | Invalid | Failed | CheckBlockFailed

  const MAX_BLOCK_BASE_SIZE := 4000000

  function TxCount(c: Compact): nat { |c.shorttxids| + |c.prefilledtxn| }

  /** The slot of the i-th prefilled transaction: indexes are distances from the one before. */
  function PrefilledSlot(c: Compact, i: nat): nat
    requires i < |c.prefilledtxn|
  {
    (if i == 0 then 0 else PrefilledSlot(c, i - 1) + 1) + c.prefilledtxn[i].index
  }

  /** The positions before n that are free, in order. */
  function FreeSlots(slots: seq<Option<Tx>>, n: nat): (r: seq<nat>)
    requires n <= |slots|
    ensures |r| <= n && forall k :: 0 <= k < |r| ==> r[k] < n
  {
    if n == 0 then []
    else if slots[n - 1].None? then FreeSlots(slots, n - 1) + [n - 1]
    else FreeSlots(slots, n - 1)
  }

  lemma {:induction false} FreeSlotsExact(slots: seq<Option<Tx>>, n: nat)
    requires n <= |slots|
    ensures forall j, k :: 0 <= j < k < |FreeSlots(slots, n)| ==> FreeSlots(slots, n)[j] < FreeSlots(slots, n)[k]
    ensures forall p :: p in FreeSlots(slots, n) <==> 0 <= p < n && slots[p].None?
  {
    if n > 0 {
      FreeSlotsExact(slots, n - 1);
    }
  }

  function CountFull(slots: seq<Option<Tx>>, n: nat): nat
    requires n <= |slots|
  {
    if n == 0 then 0 else CountFull(slots, n - 1) + if slots[n - 1].Some? then 1 else 0
  }

  lemma {:induction false} FreeAndFull(slots: seq<Option<Tx>>, n: nat)
    requires n <= |slots|
    ensures |FreeSlots(slots, n)| + CountFull(slots, n) == n
  {
    if n > 0 {
      FreeAndFull(slots, n - 1);
    }
  }

  lemma {:induction false} CountOneMore(slots: seq<Option<Tx>>, p: nat, tx: Tx, n: nat)
    requires n <= |slots| && p < |slots| && slots[p].None?
    ensures CountFull(slots[p := Some(tx)], n) == CountFull(slots, n) + if p < n then 1 else 0
  {
    if n > 0 {
      CountOneMore(slots, p, tx, n - 1);
    }
  }

  /** What InitData checks of the prefilled transactions. */
  ghost predicate PrefilledOk(c: Compact) {
    forall i :: 0 <= i < |c.prefilledtxn| ==> OneOk(c, i)
  }

  ghost predicate OneOk(c: Compact, i: nat)
    requires i < |c.prefilledtxn|
  {
    !c.prefilledtxn[i].tx.isNull && PrefilledSlot(c, i) <= MAX16 && PrefilledSlot(c, i) <= |c.shorttxids| + i
  }

  ghost predicate Acceptable(c: Compact, minSize: nat)
    requires minSize > 0
  {
    && !c.headerIsNull && !(c.shorttxids == [] && c.prefilledtxn == [])
    && TxCount(c) <= MAX_BLOCK_BASE_SIZE / minSize && PrefilledOk(c)
  }

  lemma {:induction false} PrefilledIncrease(c: Compact, i: nat, j: nat)
    requires i < j < |c.prefilledtxn|
    ensures PrefilledSlot(c, i) < PrefilledSlot(c, j)
  {
    if i < j - 1 {
      PrefilledIncrease(c, i, j - 1);
    }
  }

  /** Exactly the prefilled transactions are in their slots. */
  ghost predicate Placed(c: Compact, slots: seq<Option<Tx>>, n: nat) {
    && n <= |c.prefilledtxn| && |slots| == TxCount(c)
    && (forall i :: 0 <= i < n ==>
         PrefilledSlot(c, i) < |slots| && slots[PrefilledSlot(c, i)] == Some(c.prefilledtxn[i].tx))
    && CountFull(slots, |slots|) == n
    && (forall p :: 0 <= p < |slots| && slots[p].Some? ==> exists i :: 0 <= i < n && PrefilledSlot(c, i) == p)
  }

  lemma PlaceOne(c: Compact, slots: seq<Option<Tx>>, n: nat)
    requires Placed(c, slots, n) && n < |c.prefilledtxn| && PrefilledSlot(c, n) < |slots|
    ensures Placed(c, slots[PrefilledSlot(c, n) := Some(c.prefilledtxn[n].tx)], n + 1)
  {
    hide PrefilledSlot, CountFull;
    var p := PrefilledSlot(c, n);
    forall i | 0 <= i < n ensures PrefilledSlot(c, i) < p {
      PrefilledIncrease(c, i, n);
    }
    assert slots[p].None?;
    CountOneMore(slots, p, c.prefilledtxn[n].tx, |slots|);
    var next := slots[p := Some(c.prefilledtxn[n].tx)];
    forall q | 0 <= q < |next| && next[q].Some? ensures exists i :: 0 <= i < n + 1 && PrefilledSlot(c, i) == q {
      if q != p {
        var i :| 0 <= i < n && PrefilledSlot(c, i) == q;
      }
    }
  }

  /**
  Prefilled transactions and short ids share the slots: each slot is a prefilled transaction's or free,
  and there are as many free ones, in increasing order, as short ids.
  */
  lemma SlotsPartition(c: Compact, slots: seq<Option<Tx>>)
    requires Placed(c, slots, |c.prefilledtxn|)
    ensures |FreeSlots(slots, |slots|)| == |c.shorttxids|
    ensures forall p :: 0 <= p < |slots| ==> (p in FreeSlots(slots, |slots|) <==> !IsPrefilled(c, p))
    ensures forall j, k :: 0 <= j < k < |c.shorttxids| ==> FreeSlots(slots, |slots|)[j] < FreeSlots(slots, |slots|)[k]
  {
    FreeAndFull(slots, |slots|);
    FreeSlotsExact(slots, |slots|);
  }

  ghost predicate IsPrefilled(c: Compact, p: nat) {
    exists i :: 0 <= i < |c.prefilledtxn| && PrefilledSlot(c, i) == p
  }

  /** A position in 16 bits, as the map from short ids to positions keeps it. */
  function Position(p: nat): nat { p % 0x10000 }

  function Positions(free: seq<nat>): (r: seq<nat>)
    ensures |r| == |free| && forall k :: 0 <= k < |r| ==> r[k] <= free[k]
  {
    seq(|free|, k requires 0 <= k < |free| => Position(free[k]))
  }

  /** Every free slot is kept as it is exactly when there are no more than 65536 slots, or no short ids. */
  lemma PositionsExact(c: Compact, slots: seq<Option<Tx>>)
    requires PrefilledOk(c) && Placed(c, slots, |c.prefilledtxn|)
    ensures (forall p :: p in FreeSlots(slots, |slots|) ==> Position(p) == p) <==>
      TxCount(c) <= 0x10000 || c.shorttxids == []
  {
    FreeSlotsExact(slots, |slots|);
    SlotsPartition(c, slots);
    var last := |slots| - 1;
    forall i | 0 <= i < |c.prefilledtxn| ensures PrefilledSlot(c, i) <= MAX16 {
      assert OneOk(c, i);
    }
    if TxCount(c) > 0x10000 && c.shorttxids != [] {
      assert slots[last].None? && last in FreeSlots(slots, |slots|);
    }
  }

  /** The map from the first n short ids to positions; of equal ids the last one counts. */
  function IdMap(ids: seq<nat>, pos: seq<nat>, n: nat): map<nat, nat>
    requires n <= |ids| && n <= |pos|
  {
    if n == 0 then map[] else IdMap(ids, pos, n - 1)[ids[n - 1] := pos[n - 1]]
  }

  ghost predicate DistinctIds(ids: seq<nat>, n: nat)
    requires n <= |ids|
  {
    forall i, j :: 0 <= i < j < n ==> ids[i] != ids[j]
  }

  function IdSet(ids: seq<nat>, n: nat): set<nat>
    requires n <= |ids|
  {
    set i | 0 <= i < n :: ids[i]
  }

  lemma IdSetNext(ids: seq<nat>, n: nat)
    requires 0 < n <= |ids|
    ensures IdSet(ids, n) == IdSet(ids, n - 1) + {ids[n - 1]}
    ensures DistinctIds(ids, n) <==> DistinctIds(ids, n - 1) && ids[n - 1] !in IdSet(ids, n - 1)
  {
  }

  /** There are as many ids in the map as in the list exactly when no two collide. */
  lemma {:induction false} DistinctCount(ids: seq<nat>, n: nat)
    requires n <= |ids|
    ensures |IdSet(ids, n)| <= n && (|IdSet(ids, n)| == n <==> DistinctIds(ids, n))
  {
    if n > 0 {
      DistinctCount(ids, n - 1);
      IdSetNext(ids, n);
      hide IdSet, DistinctIds;
    }
  }

  lemma {:induction false} IdMapIs(ids: seq<nat>, pos: seq<nat>, n: nat)
    requires n <= |ids| && n <= |pos|
    ensures IdMap(ids, pos, n).Keys == IdSet(ids, n)
    ensures forall x :: x in IdMap(ids, pos, n) ==>
      exists i :: 0 <= i < n && ids[i] == x && IdMap(ids, pos, n)[x] == pos[i]
  {
    if n > 0 {
      IdMapIs(ids, pos, n - 1);
      var was, now := IdMap(ids, pos, n - 1), IdMap(ids, pos, n);
      IdSetNext(ids, n);
      forall x | x in now ensures exists i :: 0 <= i < n && ids[i] == x && now[x] == pos[i] {
        if x != ids[n - 1] {
          var i :| 0 <= i < n - 1 && ids[i] == x && was[x] == pos[i];
          assert now[x] == pos[i];
        } else {
          assert ids[n - 1] == x && now[x] == pos[n - 1];
        }
      }
    }
  }

  /** The map has as many ids as the list exactly when no two collide, and then leads from each to its position. */
  lemma MappedCount(ids: seq<nat>, pos: seq<nat>)
    requires |ids| == |pos|
    ensures var m := IdMap(ids, pos, |ids|);
      && (|m| == |ids| <==> DistinctIds(ids, |ids|))
      && (|m| == |ids| ==> forall i :: 0 <= i < |ids| ==> ids[i] in m && m[ids[i]] == pos[i])
  {
    hide IdMap;
    var m := IdMap(ids, pos, |ids|);
    DistinctCount(ids, |ids|);
    IdMapIs(ids, pos, |ids|);
    forall i | 0 <= i < |ids| && |m| == |ids| ensures ids[i] in m && m[ids[i]] == pos[i] {
      assert ids[i] in IdSet(ids, |ids|);
      var k :| 0 <= k < |ids| && ids[k] == ids[i] && m[ids[i]] == pos[k];
    }
  }

  // ---------------------------------------------------------------------------------------------
  // The search of the memory pool and of the extra transactions

  /** The slots, which of them were ever filled, and the number of those that are. */
  datatype Hunt = Hunt(slots: seq<Option<Tx>>, have: seq<bool>, count: int)

  predicate Fits(m: map<nat, nat>, h: Hunt) {
    |h.have| == |h.slots| && forall x :: x in m ==> m[x] < |h.slots|
  }

  /**
  One known transaction.  A second one with the same id empties the slot again, for good; an extra
  transaction that is the one in the slot does not count as a second one.
  */
  function Meet(id: nat -> nat, m: map<nat, nat>, h: Hunt, tx: Tx, extra: bool): (r: Hunt)
    requires Fits(m, h)
    ensures Fits(m, r) && |r.slots| == |h.slots|
  {
    if id(tx.hash) !in m then h
    else
      var p := m[id(tx.hash)];
      if !h.have[p] then Hunt(h.slots[p := Some(tx)], h.have[p := true], h.count + 1)
      else if h.slots[p].Some? && (extra ==> h.slots[p].value.hash != tx.hash) then
        Hunt(h.slots[p := None], h.have, h.count - 1)
      else h
  }

  /** The search stops as soon as every short id has its transaction. */
  function Search(id: nat -> nat, m: map<nat, nat>, h: Hunt, txs: seq<Tx>, extra: bool): (r: Hunt)
    requires Fits(m, h)
    ensures Fits(m, r) && |r.slots| == |h.slots|
    decreases |txs|
  {
    if txs == [] then h
    else
      var next := Meet(id, m, h, txs[0], extra);
      if next.count == |m| then next else Search(id, m, next, txs[1..], extra)
  }

  function Start(placed: seq<Option<Tx>>): Hunt { Hunt(placed, seq(|placed|, _ => false), 0) }

  /** Both searches. */
  function SearchAll(id: nat -> nat, m: map<nat, nat>, placed: seq<Option<Tx>>, pool: seq<Tx>, extra: seq<Tx>): Hunt
    requires Fits(m, Start(placed))
  {
    Search(id, m, Search(id, m, Start(placed), pool, false), extra, true)
  }

  // ---------------------------------------------------------------------------------------------
  // What the searches find

  /** The transactions seen so far, of the memory pool and of the extra ones. */
  datatype Seen = Seen(pool: seq<Tx>, extra: seq<Tx>)

  function Grown(s: Seen, txs: seq<Tx>, extra: bool): Seen {
    if extra then s.(extra := s.extra + txs) else s.(pool := s.pool + txs)
  }

  /** Those whose id leads to a position. */
  function Met(id: nat -> nat, m: map<nat, nat>, p: nat, txs: seq<Tx>): seq<Tx> {
    if txs == [] then []
    else
      var t := txs[|txs| - 1];
      Met(id, m, p, txs[..|txs| - 1]) + if id(t.hash) in m && m[id(t.hash)] == p then [t] else []
  }

  function AllMet(id: nat -> nat, m: map<nat, nat>, p: nat, s: Seen): seq<Tx> {
    Met(id, m, p, s.pool) + Met(id, m, p, s.extra)
  }

  /** What transactions of the pool and extra ones agree on: at most one of the pool, and only one hash. */
  ghost function Verdict(pool: seq<Tx>, extra: seq<Tx>): Option<Tx> {
    var all := pool + extra;
    if all == [] || |pool| > 1 || exists k :: 0 <= k < |all| && all[k].hash != all[0].hash then None else Some(all[0])
  }

  lemma VerdictMore(pool: seq<Tx>, extra: seq<Tx>, tx: Tx)
    ensures extra == [] ==> Verdict(pool + [tx], extra) == if pool == [] then Some(tx) else None
    ensures var v := Verdict(pool, extra);
      Verdict(pool, extra + [tx]) ==
      if pool + extra == [] then Some(tx) else if v.Some? && v.value.hash == tx.hash then v else None
  {
    var was, now := pool + extra, pool + (extra + [tx]);
    assert now == was + [tx];
    forall k | 0 <= k < |was| ensures now[k] == was[k] {
    }
    assert now[|was|] == tx;
  }

  ghost function Agreed(id: nat -> nat, m: map<nat, nat>, p: nat, s: Seen): Option<Tx> {
    Verdict(Met(id, m, p, s.pool), Met(id, m, p, s.extra))
  }

  /** The positions with a transaction that is agreed on. */
  ghost function Got(id: nat -> nat, m: map<nat, nat>, s: Seen): set<nat> {
    set p | p in m.Values && Agreed(id, m, p, s).Some?
  }

  /** As many of them as there are ids: the search stops. */
  ghost predicate Settled(id: nat -> nat, m: map<nat, nat>, s: Seen) { |Got(id, m, s)| == |m| }

  /** The slots, and their count, after some transactions. */
  ghost predicate Hunted(id: nat -> nat, m: map<nat, nat>, placed: seq<Option<Tx>>, s: Seen, h: Hunt) {
    && |h.slots| == |h.have| == |placed| && h.count == |Got(id, m, s)|
    && forall p :: 0 <= p < |placed| ==> SlotIs(id, m, placed, s, h, p)
  }

  ghost predicate SlotIs(id: nat -> nat, m: map<nat, nat>, placed: seq<Option<Tx>>, s: Seen, h: Hunt, p: nat)
    requires p < |h.slots| == |h.have| == |placed|
  {
    && (h.have[p] <==> AllMet(id, m, p, s) != [])
    && h.slots[p] == if AllMet(id, m, p, s) == [] then placed[p] else Agreed(id, m, p, s)
  }

  lemma HuntedStart(id: nat -> nat, m: map<nat, nat>, placed: seq<Option<Tx>>)
    ensures Hunted(id, m, placed, Seen([], []), Start(placed))
  {
    assert Got(id, m, Seen([], [])) == {};
  }

  lemma MetOne(id: nat -> nat, m: map<nat, nat>, p: nat, txs: seq<Tx>, tx: Tx)
    ensures Met(id, m, p, txs + [tx]) ==
      if id(tx.hash) in m && m[id(tx.hash)] == p then Met(id, m, p, txs) + [tx] else Met(id, m, p, txs)
    ensures Met(id, m, p, []) == []
  {
    assert (txs + [tx])[..|txs|] == txs;
  }

  /** One more transaction at one position. */
  lemma SlotMeets(id: nat -> nat, m: map<nat, nat>, placed: seq<Option<Tx>>, s: Seen, h: Hunt, tx: Tx, extra: bool,
                  p: nat)
    requires Fits(m, h) && p < |h.slots| == |h.have| == |placed| && SlotIs(id, m, placed, s, h, p)
    requires !extra ==> s.extra == []
    ensures SlotIs(id, m, placed, Grown(s, [tx], extra), Meet(id, m, h, tx, extra), p)
  {
    hide Verdict, Met;
    MetOne(id, m, p, if extra then s.extra else s.pool, tx);
    VerdictMore(Met(id, m, p, s.pool), Met(id, m, p, s.extra), tx);
  }

  lemma GotElse(id: nat -> nat, m: map<nat, nat>, s: Seen, tx: Tx, extra: bool, p: nat)
    requires !(id(tx.hash) in m && m[id(tx.hash)] == p)
    ensures Agreed(id, m, p, Grown(s, [tx], extra)) == Agreed(id, m, p, s)
  {
    hide Verdict, Met;
    MetOne(id, m, p, if extra then s.extra else s.pool, tx);
  }

  /** The count follows. */
  lemma CountMeets(id: nat -> nat, m: map<nat, nat>, placed: seq<Option<Tx>>, s: Seen, h: Hunt, tx: Tx, extra: bool)
    requires Fits(m, h) && Hunted(id, m, placed, s, h) && (!extra ==> s.extra == [])
    ensures Meet(id, m, h, tx, extra).count == |Got(id, m, Grown(s, [tx], extra))|
  {
    hide Agreed, AllMet;
    var t, x := Grown(s, [tx], extra), id(tx.hash);
    var was, now := Got(id, m, s), Got(id, m, t);
    forall p | p in m.Values && !(x in m && m[x] == p) ensures p in now <==> p in was {
      GotElse(id, m, s, tx, extra, p);
    }
    if x in m {
      var q := m[x];
      assert q in m.Values;
      assert SlotIs(id, m, placed, s, h, q);
      SlotMeets(id, m, placed, s, h, tx, extra, q);
      AgreedMet(id, m, q, s);
      AgreedMet(id, m, q, t);
      assert now - {q} == was - {q};
      SizeBut(was, q);
      SizeBut(now, q);
    } else {
      assert now == was;
    }
  }

  lemma SizeBut(a: set<nat>, q: nat)
    ensures |a| == |a - {q}| + if q in a then 1 else 0
  {
    assert q in a ==> a == (a - {q}) + {q};
    assert q !in a ==> a == a - {q};
  }

  lemma AgreedMet(id: nat -> nat, m: map<nat, nat>, p: nat, s: Seen)
    ensures Agreed(id, m, p, s).Some? ==> AllMet(id, m, p, s) != []
  {
  }

  lemma HuntedMeets(id: nat -> nat, m: map<nat, nat>, placed: seq<Option<Tx>>, s: Seen, h: Hunt, tx: Tx, extra: bool)
    requires Fits(m, h) && Hunted(id, m, placed, s, h) && (!extra ==> s.extra == [])
    ensures Hunted(id, m, placed, Grown(s, [tx], extra), Meet(id, m, h, tx, extra))
  {
    hide SlotIs, Got;
    CountMeets(id, m, placed, s, h, tx, extra);
    var t, r := Grown(s, [tx], extra), Meet(id, m, h, tx, extra);
    forall p | 0 <= p < |placed| ensures SlotIs(id, m, placed, t, r, p) {
      SlotMeets(id, m, placed, s, h, tx, extra, p);
    }
  }

  /**
  Where a search stops: at the first transaction after which as many positions agree as there are ids, or at
  the end.
  */
  ghost predicate StopsAt(id: nat -> nat, m: map<nat, nat>, s: Seen, txs: seq<Tx>, extra: bool, k: nat) {
    && k <= |txs| && (k == 0 ==> txs == [])
    && (k < |txs| ==> Settled(id, m, Grown(s, txs[..k], extra)))
    && (forall j :: 0 < j < k ==> !Settled(id, m, Grown(s, txs[..j], extra)))
  }

  lemma {:induction false} SearchExact(id: nat -> nat, m: map<nat, nat>, placed: seq<Option<Tx>>, s: Seen, h: Hunt,
                                       txs: seq<Tx>, extra: bool) returns (k: nat)
    requires Fits(m, h) && Hunted(id, m, placed, s, h) && (!extra ==> s.extra == [])
    ensures StopsAt(id, m, s, txs, extra, k)
    ensures Hunted(id, m, placed, Grown(s, txs[..k], extra), Search(id, m, h, txs, extra))
    decreases |txs|
  {
    hide Hunted, Meet;
    if txs == [] {
      k := 0;
      assert Grown(s, [], extra) == s;
    } else {
      var t, r, rest := Grown(s, [txs[0]], extra), Meet(id, m, h, txs[0], extra), txs[1..];
      HuntedMeets(id, m, placed, s, h, txs[0], extra);
      HuntedCount(id, m, placed, t, r);
      assert txs[..1] == [txs[0]];
      if r.count == |m| {
        k := 1;
      } else {
        var j := SearchExact(id, m, placed, t, r, rest, extra);
        k := j + 1;
        GrownOn(s, txs, extra);
        assert rest[..j] == txs[1..k];
      }
    }
  }

  /** What was found so far and what these transactions add, up to the one with which nothing is missing any more. */
  ghost predicate GoesOn(id: nat -> nat, m: map<nat, nat>, h: Hunt, txs: seq<Tx>, extra: bool, after: Hunt) {
    forall placed, s :: Hunted(id, m, placed, s, h) && (!extra ==> s.extra == []) ==>
      exists k: nat :: StopsAt(id, m, s, txs, extra, k) && Hunted(id, m, placed, Grown(s, txs[..k], extra), after)
  }

  lemma SearchGoesOn(id: nat -> nat, m: map<nat, nat>, h: Hunt, txs: seq<Tx>, extra: bool)
    requires Fits(m, h)
    ensures GoesOn(id, m, h, txs, extra, Search(id, m, h, txs, extra))
  {
    hide Hunted, Search, Fits;
    var after := Search(id, m, h, txs, extra);
    forall placed, s | Hunted(id, m, placed, s, h) && (!extra ==> s.extra == [])
      ensures exists k: nat ::
        StopsAt(id, m, s, txs, extra, k) && Hunted(id, m, placed, Grown(s, txs[..k], extra), after)
    {
      var k := SearchExact(id, m, placed, s, h, txs, extra);
    }
  }

  lemma HuntedCount(id: nat -> nat, m: map<nat, nat>, placed: seq<Option<Tx>>, s: Seen, h: Hunt)
    requires Hunted(id, m, placed, s, h)
    ensures h.count == |Got(id, m, s)|
  {
  }

  lemma GrownOn(s: Seen, txs: seq<Tx>, extra: bool)
    requires txs != []
    ensures forall k :: 0 < k <= |txs| ==>
      Grown(Grown(s, [txs[0]], extra), txs[1..][..k - 1], extra) == Grown(s, txs[..k], extra)
  {
    forall k | 0 < k <= |txs|
      ensures Grown(Grown(s, [txs[0]], extra), txs[1..][..k - 1], extra) == Grown(s, txs[..k], extra)
    {
      assert txs[..k] == [txs[0]] + txs[1..][..k - 1];
      assert (s.pool + [txs[0]]) + txs[1..][..k - 1] == s.pool + txs[..k];
      assert (s.extra + [txs[0]]) + txs[1..][..k - 1] == s.extra + txs[..k];
    }
  }

  /**
  What the two searches leave, through the ids alone: some first part of the pool and of the extra
  transactions was looked at; a position that none of them leads to is as it was, and any other holds what
  they agree on there.
  */
  ghost predicate Searched(id: nat -> nat, m: map<nat, nat>, placed: seq<Option<Tx>>, pool: seq<Tx>, extra: seq<Tx>,
                           slots: seq<Option<Tx>>, count: int, k: nat, l: nat) {
    && StopsAt(id, m, Seen([], []), pool, false, k) && StopsAt(id, m, Seen(pool[..k], []), extra, true, l)
    && |slots| == |placed|
    && var s := Seen(pool[..k], extra[..l]);
      && count == |Got(id, m, s)|
      && forall p :: 0 <= p < |slots| ==>
          slots[p] == if AllMet(id, m, p, s) == [] then placed[p] else Agreed(id, m, p, s)
  }

  lemma AllSearched(id: nat -> nat, m: map<nat, nat>, placed: seq<Option<Tx>>, pool: seq<Tx>, extra: seq<Tx>)
    returns (k: nat, l: nat)
    requires Fits(m, Start(placed))
    ensures var h := SearchAll(id, m, placed, pool, extra);
      Searched(id, m, placed, pool, extra, h.slots, h.count, k, l)
  {
    hide Search, StopsAt, Got, Agreed, AllMet;
    HuntedStart(id, m, placed);
    k := SearchExact(id, m, placed, Seen([], []), Start(placed), pool, false);
    StopsShort(id, m, Seen([], []), pool, false, k);
    assert Grown(Seen([], []), pool[..k], false) == Seen(pool[..k], []);
    var h := Search(id, m, Start(placed), pool, false);
    l := SearchExact(id, m, placed, Seen(pool[..k], []), h, extra, true);
    StopsShort(id, m, Seen(pool[..k], []), extra, true, l);
    assert Grown(Seen(pool[..k], []), extra[..l], true) == Seen(pool[..k], extra[..l]);
    var e := Search(id, m, h, extra, true);
    forall p | 0 <= p < |e.slots|
      ensures var s := Seen(pool[..k], extra[..l]);
        e.slots[p] == if AllMet(id, m, p, s) == [] then placed[p] else Agreed(id, m, p, s)
    {
      assert SlotIs(id, m, placed, Seen(pool[..k], extra[..l]), e, p);
    }
  }

  lemma StopsShort(id: nat -> nat, m: map<nat, nat>, s: Seen, txs: seq<Tx>, extra: bool, k: nat)
    requires StopsAt(id, m, s, txs, extra, k)
    ensures k <= |txs|
  {
  }

  predicate Leads(id: nat -> nat, m: map<nat, nat>, p: nat, t: Tx) { id(t.hash) in m && m[id(t.hash)] == p }

  lemma {:induction false} MetIs(id: nat -> nat, m: map<nat, nat>, p: nat, txs: seq<Tx>)
    ensures forall t :: t in Met(id, m, p, txs) <==> t in txs && Leads(id, m, p, t)
  {
    if txs != [] {
      var init, t := txs[..|txs| - 1], txs[|txs| - 1];
      MetIs(id, m, p, init);
      assert txs == init + [t];
    }
  }

  ghost predicate NoRepeat(txs: seq<Tx>) { forall i, j :: 0 <= i < j < |txs| ==> txs[i] != txs[j] }

  lemma {:induction false} MetOnce(id: nat -> nat, m: map<nat, nat>, p: nat, txs: seq<Tx>, tx: Tx)
    requires NoRepeat(txs) && forall t :: t in txs && Leads(id, m, p, t) ==> t == tx
    ensures |Met(id, m, p, txs)| <= 1
  {
    if txs != [] {
      var init, t := txs[..|txs| - 1], txs[|txs| - 1];
      assert forall u :: u in init ==> u in txs;
      MetOnce(id, m, p, init, tx);
      MetIs(id, m, p, init);
      forall i | 0 <= i < |init| ensures init[i] != t {
        assert txs[i] != txs[|txs| - 1];
      }
      var met := Met(id, m, p, init);
      assert t !in init && t in txs;
      assert Leads(id, m, p, t) ==> forall u :: u in init ==> !Leads(id, m, p, u);
      assert met != [] ==> met[0] in met;
      assert Leads(id, m, p, t) ==> met == [];
    }
  }

  lemma {:induction false} ValuesSize(m: map<nat, nat>)
    ensures |m.Values| <= |m|
    decreases |m|
  {
    if m.Keys != {} {
      var x := OneOf(m.Keys);
      var rest := m - {x};
      assert rest.Keys == m.Keys - {x};
      ValuesSize(rest);
      forall v | v in m.Values ensures v in rest.Values + {m[x]} {
        var k :| k in m && m[k] == v;
        if k != x {
          assert k in rest && rest[k] == v;
        }
      }
      SubsetSize(m.Values, rest.Values + {m[x]});
    } else {
      forall v ensures v !in m.Values {
      }
      assert m.Values == {};
    }
  }

  /** When the search stops early, every position has its transaction. */
  lemma SettledMet(id: nat -> nat, m: map<nat, nat>, s: Seen, p: nat)
    requires Settled(id, m, s) && p in m.Values
    ensures AllMet(id, m, p, s) != []
  {
    hide Agreed, AllMet;
    var got := Got(id, m, s);
    ValuesSize(m);
    if p !in got {
      SubsetSize(got, m.Values - {p});
    }
    AgreedMet(id, m, p, s);
  }

  /** The one known transaction that leads to a position is found, however early the search stops. */
  lemma KnownFound(id: nat -> nat, m: map<nat, nat>, placed: seq<Option<Tx>>, pool: seq<Tx>, extra: seq<Tx>,
                   slots: seq<Option<Tx>>, count: int, k: nat, l: nat, p: nat, tx: Tx)
    requires Searched(id, m, placed, pool, extra, slots, count, k, l) && p < |slots| && p in m.Values
    requires tx in pool + extra && Leads(id, m, p, tx) && NoRepeat(pool)
    requires forall t :: t in pool + extra && Leads(id, m, p, t) ==> t == tx
    ensures slots[p] == Some(tx)
  {
    hide Met, Verdict;
    var a, b := pool[..k], extra[..l];
    SomeMet(id, m, pool, extra, k, l, p, tx);
    MetIs(id, m, p, a);
    MetIs(id, m, p, b);
    assert forall t :: t in a || t in b ==> t in pool + extra;
    MetOnce(id, m, p, a, tx);
    VerdictOne(Met(id, m, p, a), Met(id, m, p, b), tx);
  }

  lemma SomeMet(id: nat -> nat, m: map<nat, nat>, pool: seq<Tx>, extra: seq<Tx>, k: nat, l: nat, p: nat, tx: Tx)
    requires StopsAt(id, m, Seen([], []), pool, false, k) && StopsAt(id, m, Seen(pool[..k], []), extra, true, l)
    requires p in m.Values && tx in pool + extra && Leads(id, m, p, tx)
    ensures AllMet(id, m, p, Seen(pool[..k], extra[..l])) != []
  {
    hide Met, Settled;
    var a, b := pool[..k], extra[..l];
    if l < |extra| {
      assert Grown(Seen(a, []), b, true) == Seen(a, b);
      SettledMet(id, m, Seen(a, b), p);
    } else if k < |pool| {
      assert Grown(Seen([], []), a, false) == Seen(a, []);
      SettledMet(id, m, Seen(a, []), p);
      MetOne(id, m, p, [], tx);
    } else {
      assert a == pool && b == extra;
      MetIs(id, m, p, a);
      MetIs(id, m, p, b);
    }
  }

  lemma VerdictOne(pool: seq<Tx>, extra: seq<Tx>, tx: Tx)
    requires |pool| <= 1 && pool + extra != [] && forall t :: t in pool || t in extra ==> t == tx
    ensures Verdict(pool, extra) == Some(tx)
  {
    var all := pool + extra;
    forall k | 0 <= k < |all| ensures all[k] == tx {
      if k < |pool| {
        assert pool[k] in pool;
      } else {
        assert extra[k - |pool|] in extra;
      }
    }
  }

  /** Slot p is as it was, or a position of some id, and empty or with a known transaction of that id. */
  ghost predicate HeldAt(id: nat -> nat, ids: seq<nat>, placed: seq<Option<Tx>>, pos: seq<nat>, known: set<Tx>,
                         slots: seq<Option<Tx>>, p: nat)
    requires p < |slots| == |placed| && |pos| == |ids|
  {
    || slots[p] == placed[p]
    || exists i :: 0 <= i < |ids| && pos[i] == p &&
        (slots[p].Some? ==> slots[p].value in known && id(slots[p].value.hash) == ids[i])
  }

  ghost predicate Held(id: nat -> nat, ids: seq<nat>, placed: seq<Option<Tx>>, pos: seq<nat>, known: set<Tx>,
                       slots: seq<Option<Tx>>) {
    && |slots| == |placed| && |pos| == |ids|
    && forall p :: 0 <= p < |slots| ==> HeldAt(id, ids, placed, pos, known, slots, p)
  }

  lemma MeetHeld(id: nat -> nat, ids: seq<nat>, placed: seq<Option<Tx>>, pos: seq<nat>, known: set<Tx>, h: Hunt, tx: Tx,
                 extra: bool)
    requires |pos| == |ids|
    requires var m := IdMap(ids, pos, |ids|); Fits(m, h) && Held(id, ids, placed, pos, known, h.slots) && tx in known
    ensures Held(id, ids, placed, pos, known, Meet(id, IdMap(ids, pos, |ids|), h, tx, extra).slots)
  {
    hide IdMap;
    var m := IdMap(ids, pos, |ids|);
    var r := Meet(id, m, h, tx, extra);
    IdMapIs(ids, pos, |ids|);
    forall p | 0 <= p < |r.slots| ensures HeldAt(id, ids, placed, pos, known, r.slots, p) {
      assert HeldAt(id, ids, placed, pos, known, h.slots, p);
      if r.slots[p] != h.slots[p] {
        var x := id(tx.hash);
        var i :| 0 <= i < |ids| && ids[i] == x && m[x] == pos[i];
        assert pos[i] == p;
      }
    }
  }

  lemma {:induction false} SearchHeld(id: nat -> nat, ids: seq<nat>, placed: seq<Option<Tx>>, pos: seq<nat>,
                                      known: set<Tx>, h: Hunt, txs: seq<Tx>, extra: bool)
    requires |pos| == |ids| && forall t :: t in txs ==> t in known
    requires Fits(IdMap(ids, pos, |ids|), h) && Held(id, ids, placed, pos, known, h.slots)
    ensures Held(id, ids, placed, pos, known, Search(id, IdMap(ids, pos, |ids|), h, txs, extra).slots)
    decreases |txs|
  {
    hide Held, IdMap, Meet;
    if txs != [] {
      MeetHeld(id, ids, placed, pos, known, h, txs[0], extra);
      SearchHeld(id, ids, placed, pos, known, Meet(id, IdMap(ids, pos, |ids|), h, txs[0], extra), txs[1..], extra);
    }
  }

  /**
  What a slot may hold when positions are exact: its prefilled transaction, or nothing, or a known
  transaction with its id.
  */
  ghost predicate Found(id: nat -> nat, ids: seq<nat>, placed: seq<Option<Tx>>, free: seq<nat>, known: set<Tx>,
                        slots: seq<Option<Tx>>) {
    && |slots| == |placed| && |free| == |ids|
    && (forall p :: 0 <= p < |slots| && placed[p].Some? ==> slots[p] == placed[p])
    && (forall i :: 0 <= i < |free| ==> free[i] < |slots| && (slots[free[i]].Some? ==>
          slots[free[i]].value in known && id(slots[free[i]].value.hash) == ids[i]))
  }

  lemma ExactFound(id: nat -> nat, c: Compact, placed: seq<Option<Tx>>, known: set<Tx>, slots: seq<Option<Tx>>)
    requires PrefilledOk(c) && Placed(c, placed, |c.prefilledtxn|) && (TxCount(c) <= 0x10000 || c.shorttxids == [])
    requires Held(id, c.shorttxids, placed, Positions(FreeSlots(placed, |placed|)), known, slots)
    ensures Found(id, c.shorttxids, placed, FreeSlots(placed, |placed|), known, slots)
  {
    hide Placed, PrefilledSlot;
    var free := FreeSlots(placed, |placed|);
    SlotsPartition(c, placed);
    FreeSlotsExact(placed, |placed|);
    PositionsExact(c, placed);
    forall k | 0 <= k < |free| ensures Positions(free)[k] == free[k] && placed[free[k]].None? {
      assert free[k] in free;
    }
    forall p | 0 <= p < |slots| && placed[p].Some? ensures slots[p] == placed[p] {
      assert HeldAt(id, c.shorttxids, placed, Positions(free), known, slots, p);
    }
    forall i | 0 <= i < |free| && slots[free[i]].Some?
      ensures slots[free[i]].value in known && id(slots[free[i]].value.hash) == c.shorttxids[i]
    {
      assert HeldAt(id, c.shorttxids, placed, Positions(free), known, slots, free[i]);
    }
  }

  // ---------------------------------------------------------------------------------------------
  // The scan for free slots, whose offset is a 16-bit number

  /** Every offset leads to a full slot of the block, so that the scan goes round for ever. */
  ghost predicate Endless(slots: seq<Option<Tx>>, i: nat) {
    i + 0x10000 <= |slots| && forall p :: i <= p < i + 0x10000 ==> slots[p].Some?
  }

  /** For which accepted messages the scans end: fewer than 65536 prefilled transactions, or nothing to scan for. */
  predicate ScansEnd(c: Compact) {
    |c.prefilledtxn| < 0x10000 || c.shorttxids == []
  }

  /** The offset of the next free slot is the number of full slots before it. */
  lemma OffsetIs(slots: seq<Option<Tx>>, i: nat, p: nat)
    requires p <= |slots| && |FreeSlots(slots, p)| == i
    ensures i <= p && p - i == CountFull(slots, p)
  {
    FreeAndFull(slots, p);
  }

  lemma {:induction false} CountGrows(slots: seq<Option<Tx>>, m: nat, n: nat)
    requires m <= n <= |slots|
    ensures CountFull(slots, m) <= CountFull(slots, n) <= CountFull(slots, m) + (n - m)
    decreases n - m
  {
    if m < n {
      CountGrows(slots, m, n - 1);
    }
  }

  /** A message of 65536 prefilled transactions has them in the first 65536 slots. */
  lemma AllFull(c: Compact, slots: seq<Option<Tx>>)
    requires PrefilledOk(c) && Placed(c, slots, |c.prefilledtxn|) && |c.prefilledtxn| >= 0x10000
    ensures Endless(slots, 0) && |c.prefilledtxn| == 0x10000
  {
    hide PrefilledSlot, CountFull;
    var n := |c.prefilledtxn|;
    forall i | 0 <= i < n ensures i <= PrefilledSlot(c, i) <= MAX16 {
      assert OneOk(c, i);
      SlotAtLeast(c, i);
    }
    assert n - 1 <= PrefilledSlot(c, n - 1) <= MAX16;
    forall p | 0 <= p < 0x10000 ensures p < |slots| && slots[p].Some? {
      SlotAtMost(c, p);
      assert PrefilledSlot(c, p) == p;
    }
  }

  lemma {:induction false} SlotAtLeast(c: Compact, i: nat)
    requires i < |c.prefilledtxn|
    ensures PrefilledSlot(c, i) >= i
  {
    if i > 0 {
      SlotAtLeast(c, i - 1);
    }
  }

  lemma {:induction false} SlotAtMost(c: Compact, i: nat)
    requires PrefilledOk(c) && i < 0x10000 <= |c.prefilledtxn|
    ensures PrefilledSlot(c, i) <= i
    decreases 0x10000 - i
  {
    if i == 0xFFFF {
      assert OneOk(c, i);
    } else {
      SlotAtMost(c, i + 1);
    }
  }

  /** The message of 65536 prefilled transactions and one short id, which is accepted and never scanned to the end. */
  function Packed(tx: Tx, shortid: nat): Compact {
    Compact(false, [shortid], seq(0x10000, _ => Prefilled(0, tx)))
  }

  lemma {:induction false} PackedSlot(tx: Tx, shortid: nat, i: nat)
    requires i < 0x10000
    ensures PrefilledSlot(Packed(tx, shortid), i) == i
  {
    if i > 0 {
      PackedSlot(tx, shortid, i - 1);
    }
  }

  lemma ScanNeverEnds(tx: Tx, shortid: nat, slots: seq<Option<Tx>>)
    requires !tx.isNull && Placed(Packed(tx, shortid), slots, 0x10000)
    ensures Acceptable(Packed(tx, shortid), 10) && !ScansEnd(Packed(tx, shortid)) && Endless(slots, 0)
  {
    hide PrefilledSlot;
    var c := Packed(tx, shortid);
    forall i | 0 <= i < |c.prefilledtxn| ensures OneOk(c, i) {
      PackedSlot(tx, shortid, i);
    }
    AllFull(c, slots);
  }

  class PartiallyDownloadedBlock {
    var headerIsNull: bool
    var txn_available: seq<Option<Tx>>
    var mempool_count: int

    constructor ()
      ensures headerIsNull && txn_available == [] && mempool_count == 0
    {
      headerIsNull, txn_available, mempool_count := true, [], 0;
    }

    /** The loop over the prefilled transactions. */
    method PlacePrefilled(c: Compact) returns (ok: bool)
      requires txn_available == seq(TxCount(c), _ => None)
      modifies this`txn_available
      ensures ok <==> PrefilledOk(c)
      ensures ok ==> Placed(c, txn_available, |c.prefilledtxn|)
    {
      hide Placed, PrefilledSlot;
      NonePlaced(c, txn_available);
      var last: int := -1;
      var i := 0;
      while i < |c.prefilledtxn|
        invariant 0 <= i <= |c.prefilledtxn| && |txn_available| == TxCount(c)
        invariant last == if i == 0 then -1 else PrefilledSlot(c, i - 1)
        invariant forall k :: 0 <= k < i ==> OneOk(c, k)
        invariant Placed(c, txn_available, i)
      {
        SlotAfter(c, i);
        if c.prefilledtxn[i].tx.isNull {
          assert !OneOk(c, i);
          return false;
        }
        last := last + c.prefilledtxn[i].index + 1;
        if last > MAX16 {
          assert !OneOk(c, i);
          return false;
        }
        if last > |c.shorttxids| + i {
          assert !OneOk(c, i);
          return false;
        }
        PlaceOne(c, txn_available, i);
        txn_available := txn_available[last := Some(c.prefilledtxn[i].tx)];
        i := i + 1;
      }
      return true;
    }

    /**
    The loop over the short ids: false if a bucket of the map gets too crowded, which depends on how the map
    hashes; endless if a scan does not end.
    */
    method MapShortIds(c: Compact, crowded: nat -> bool) returns (endless: bool, ok: bool, shorttxids: map<nat, nat>)
      requires PrefilledOk(c) && Placed(c, txn_available, |c.prefilledtxn|)
      ensures endless <==> !ScansEnd(c)
      ensures !endless ==> (ok <==> Sparse(c, crowded))
      ensures !endless && ok ==>
        |FreeSlots(txn_available, |txn_available|)| == |c.shorttxids| &&
        shorttxids == IdMap(c.shorttxids, Positions(FreeSlots(txn_available, |txn_available|)), |c.shorttxids|)
    {
      hide IdMap, FreeSlots, Placed, PrefilledOk;
      var slots := txn_available;
      ghost var free := FreeSlots(slots, |slots|);
      SlotsPartition(c, slots);
      PlacedSize(c, slots);
      NoneFree(slots);
      shorttxids := map[];
      NoneMapped(c.shorttxids, Positions(free));
      var index_offset := 0;
      var i := 0;
      while i < |c.shorttxids|
        invariant 0 <= i <= |c.shorttxids| && 0 <= index_offset < 0x10000 && i + index_offset <= |slots|
        invariant |FreeSlots(slots, i + index_offset)| == i && (i > 0 ==> ScansEnd(c))
        invariant shorttxids == IdMap(c.shorttxids, Positions(free), i)
        invariant forall k :: 0 <= k < i ==> !crowded(k)
      {
        endless, index_offset := NextFree(c, slots, i, index_offset);
        if endless {
          return true, false, shorttxids;
        }
        FreeOneMore(slots, i + index_offset);
        MapOne(c.shorttxids, Positions(free), i);
        shorttxids := shorttxids[c.shorttxids[i] := Position(i + index_offset)];
        if crowded(i) {
          return false, false, shorttxids;
        }
        i := i + 1;
      }
      return false, true, shorttxids;
    }

    /** The loop over the memory pool, or over the extra transactions. */
    method SearchTxs(id: nat -> nat, m: map<nat, nat>, txs: seq<Tx>, extra: bool, have0: seq<bool>)
      returns (have: seq<bool>)
      requires Fits(m, Hunt(txn_available, have0, mempool_count))
      modifies this`txn_available, this`mempool_count
      ensures Hunt(txn_available, have, mempool_count) ==
        Search(id, m, old(Hunt(txn_available, have0, mempool_count)), txs, extra)
      ensures GoesOn(id, m, old(Hunt(txn_available, have0, mempool_count)), txs, extra,
                     Hunt(txn_available, have, mempool_count))
    {
      ghost var h := Hunt(txn_available, have0, mempool_count);
      SearchGoesOn(id, m, h, txs, extra);
      have := have0;
      var i := 0;
      while i < |txs|
        invariant 0 <= i <= |txs| && Fits(m, Hunt(txn_available, have, mempool_count))
        invariant Search(id, m, Hunt(txn_available, have, mempool_count), txs[i..], extra) ==
          Search(id, m, h, txs, extra)
      {
        ghost var now := Hunt(txn_available, have, mempool_count);
        var shortid := id(txs[i].hash);
        if shortid in m {
          var p := m[shortid];
          if !have[p] {
            txn_available := txn_available[p := Some(txs[i])];
            have := have[p := true];
            mempool_count := mempool_count + 1;
          } else {
            if txn_available[p].Some? && (!extra || txn_available[p].value.hash != txs[i].hash) {
              txn_available := txn_available[p := None];
              mempool_count := mempool_count - 1;
            }
          }
        }
        assert txs[i..][1..] == txs[i + 1..] && txs[i..][0] == txs[i];
        assert Hunt(txn_available, have, mempool_count) == Meet(id, m, now, txs[i], extra);
        if mempool_count == |m| {
          return;
        }
        i := i + 1;
      }
    }

    /**
    Takes a compact block apart; endless says that the code does not return.  If the block is accepted,
    the prefilled transactions are in their slots, and the slots are what the two searches make of them
    with the map from short ids to the 16-bit positions of the free slots.
    */
    method InitData(c: Compact, id: nat -> nat, minSize: nat, crowded: nat -> bool, pool: seq<Tx>, extra: seq<Tx>)
      returns (endless: bool, status: ReadStatus, ghost placed: seq<Option<Tx>>)
      requires headerIsNull && txn_available == [] && mempool_count == 0 && minSize > 0
      modifies this
      ensures endless <==> Acceptable(c, minSize) && !ScansEnd(c)
      ensures !endless ==> (status == Invalid <==> !Acceptable(c, minSize)) && status != CheckBlockFailed
      ensures !endless && Acceptable(c, minSize) ==>
        (status == Ok <==> Sparse(c, crowded) && DistinctIds(c.shorttxids, |c.shorttxids|))
      ensures endless ==> Endless(placed, 0)
      ensures !endless && status == Ok ==>
        TakenApart(c, id, pool, extra, placed, txn_available, mempool_count) && !headerIsNull
      ensures !endless && status == Ok && TxCount(c) <= 0x10000 ==> KnownHeld(c, id, pool, extra, placed, txn_available)
    {
      hide Placed, PrefilledOk, IdMap, Search, Held, Endless, FreeSlots, DistinctIds;
      placed := [];
      endless := false;
      if c.headerIsNull || (c.shorttxids == [] && c.prefilledtxn == []) {
        return false, Invalid, placed;
      }
      if TxCount(c) > MAX_BLOCK_BASE_SIZE / minSize {
        return false, Invalid, placed;
      }
      headerIsNull := false;
      txn_available := seq(TxCount(c), _ => None);
      var ok := PlacePrefilled(c);
      if !ok {
        return false, Invalid, placed;
      }
      placed := txn_available;
      var shorttxids;
      endless, ok, shorttxids := MapShortIds(c, crowded);
      if endless {
        AllFull(c, placed);
        return true, Failed, placed;
      }
      if !ok {
        return false, Failed, placed;
      }
      ghost var pos := Positions(FreeSlots(placed, |placed|));
      MappedCount(c.shorttxids, pos);
      if |shorttxids| != |c.shorttxids| {
        return false, Failed, placed;
      }
      MapFits(c, placed);
      var have := seq(|txn_available|, _ => false);
      have := SearchTxs(id, shorttxids, pool, false, have);
      have := SearchTxs(id, shorttxids, extra, true, have);
      AllHeld(id, c, placed, pool, extra);
      ghost var k, l := AllSearched(id, shorttxids, placed, pool, extra);
      if TxCount(c) <= 0x10000 {
        AllKnownHeld(id, c, placed, pool, extra, txn_available, mempool_count, k, l);
      }
      return false, Ok, placed;
    }

    /** Puts the block together from the slots and the transactions asked for; check is the verdict of CheckBlock. */
    method FillBlock(missing: seq<Tx>, check: ReadStatus) returns (status: ReadStatus, vtx: seq<Tx>)
      requires !headerIsNull
      modifies this
      ensures |missing| != |old(FreeSlots(txn_available, |txn_available|))| ==> status == Invalid
      ensures |missing| == |old(FreeSlots(txn_available, |txn_available|))| ==>
        status == check && headerIsNull && txn_available == [] && IsFilled(old(txn_available), missing, vtx)
    {
      ghost var slots := txn_available;
      vtx := [];
      var offset := 0;
      var i := 0;
      while i < |txn_available|
        invariant 0 <= i <= |txn_available| == |slots| && |vtx| == i && !headerIsNull
        invariant offset == |FreeSlots(slots, i)| <= |missing|
        invariant forall p :: i <= p < |slots| ==> txn_available[p] == slots[p]
        invariant forall p :: 0 <= p < i ==> FilledAt(slots, missing, vtx, p)
      {
        ghost var before := vtx;
        if txn_available[i].None? {
          if |missing| <= offset {
            FreeOneMore(slots, i);
            return Invalid, vtx;
          }
          vtx := vtx + [missing[offset]];
          offset := offset + 1;
        } else {
          vtx := vtx + [txn_available[i].value];
          txn_available := txn_available[i := None];
        }
        forall p | 0 <= p < i ensures FilledAt(slots, missing, vtx, p) {
          assert FilledAt(slots, missing, before, p) && vtx[p] == before[p];
        }
        i := i + 1;
      }
      headerIsNull := true;
      txn_available := [];
      if |missing| != offset {
        return Invalid, vtx;
      }
      return check, vtx;
    }

    /**
    The scan for the next free slot, in bounds at every step: it ends there, unless all 65536 offsets
    lead to full slots.  A scan that has been through them all goes on for ever.
    */
    static method NextFree(c: Compact, slots: seq<Option<Tx>>, i: nat, offset: nat)
      returns (endless: bool, index_offset: nat)
      requires PrefilledOk(c) && Placed(c, slots, |c.prefilledtxn|) && i < |c.shorttxids| && (i > 0 ==> ScansEnd(c))
      requires offset < 0x10000 && i + offset <= |slots| && |FreeSlots(slots, i + offset)| == i
      ensures endless <==> !ScansEnd(c)
      ensures endless ==> Endless(slots, i)
      ensures !endless ==>
        && offset <= index_offset < 0x10000 && i + index_offset < |slots| && slots[i + index_offset].None?
        && |FreeSlots(slots, i + index_offset)| == i
    {
      hide Placed, PrefilledOk, FreeSlots, CountFull, Endless;
      ghost var full := |c.prefilledtxn|;
      SlotsPartition(c, slots);
      PlacedFull(c, slots);
      if i == 0 && !ScansEnd(c) {
        AllFull(c, slots);
        OffsetIs(slots, i, i + offset);
      }
      index_offset := offset;
      StillAhead(slots, i, offset);
      var turns := 0;
      while slots[i + index_offset].Some?
        invariant 0 <= turns <= 0x10000 && index_offset == (offset + turns) % 0x10000 && i + index_offset < |slots|
        invariant ScansEnd(c) ==> offset + turns < 0x10000 && |FreeSlots(slots, i + index_offset)| == i
        invariant !ScansEnd(c) ==> Endless(slots, 0) && i == 0
        decreases 0x10000 - turns
      {
        if turns == 0x10000 {
          return true, index_offset;
        }
        if ScansEnd(c) {
          ScanOn(c, slots, i, index_offset);
        } else {
          InBounds(slots, (index_offset + 1) % 0x10000);
        }
        index_offset := (index_offset + 1) % 0x10000;
        turns := turns + 1;
      }
      endless := false;
      if !ScansEnd(c) {
        InBounds(slots, index_offset);
      }
    }
  }

  lemma InBounds(slots: seq<Option<Tx>>, o: nat)
    requires Endless(slots, 0) && o < 0x10000
    ensures o < |slots| && slots[o].Some?
  {
  }

  lemma PlacedFull(c: Compact, slots: seq<Option<Tx>>)
    requires Placed(c, slots, |c.prefilledtxn|)
    ensures CountFull(slots, |slots|) == |c.prefilledtxn|
  {
  }

  lemma StillAhead(slots: seq<Option<Tx>>, i: nat, offset: nat)
    requires i + offset <= |slots| && |FreeSlots(slots, i + offset)| == i < |FreeSlots(slots, |slots|)|
    ensures i + offset < |slots|
  {
  }

  /** A full slot: the next one is in the block too, and its offset is still a 16-bit number. */
  lemma ScanOn(c: Compact, slots: seq<Option<Tx>>, i: nat, o: nat)
    requires Placed(c, slots, |c.prefilledtxn|) && i < |c.shorttxids| && ScansEnd(c)
    requires i + o < |slots| && slots[i + o].Some? && |FreeSlots(slots, i + o)| == i
    ensures o + 1 < 0x10000 && i + o + 1 < |slots| && |FreeSlots(slots, i + o + 1)| == i
  {
    hide Placed, IsPrefilled;
    SlotsPartition(c, slots);
    PlacedFull(c, slots);
    assert |FreeSlots(slots, i + o + 1)| == i;
    OffsetIs(slots, i, i + o + 1);
    CountGrows(slots, i + o + 1, |slots|);
    assert CountFull(slots, i + o + 1) == o + 1;
  }

  /** No bucket of the map gets too crowded. */
  ghost predicate Sparse(c: Compact, crowded: nat -> bool) {
    forall i :: 0 <= i < |c.shorttxids| ==> !crowded(i)
  }

  /** A free slot holds the known transaction with its id, if there is only one. */
  ghost predicate KnownHeld(c: Compact, id: nat -> nat, pool: seq<Tx>, extra: seq<Tx>, placed: seq<Option<Tx>>,
                            slots: seq<Option<Tx>>) {
    var free := FreeSlots(placed, |placed|);
    && |free| == |c.shorttxids|
    && (NoRepeat(pool) ==>
          forall i, t :: 0 <= i < |free| && t in pool + extra && OnlyOne(id, pool + extra, c.shorttxids[i], t) ==>
            free[i] < |slots| && slots[free[i]] == Some(t))
  }

  /** A transaction has an id, and no other one of a list has. */
  ghost predicate OnlyOne(id: nat -> nat, txs: seq<Tx>, x: nat, t: Tx) {
    id(t.hash) == x && forall u :: u in txs && id(u.hash) == x ==> u == t
  }

  lemma AllKnownHeld(id: nat -> nat, c: Compact, placed: seq<Option<Tx>>, pool: seq<Tx>, extra: seq<Tx>,
                     slots: seq<Option<Tx>>, count: int, k: nat, l: nat)
    requires PrefilledOk(c) && Placed(c, placed, |c.prefilledtxn|) && TxCount(c) <= 0x10000
    requires DistinctIds(c.shorttxids, |c.shorttxids|) && |FreeSlots(placed, |placed|)| == |c.shorttxids|
    requires var m := IdMap(c.shorttxids, Positions(FreeSlots(placed, |placed|)), |c.shorttxids|);
      Searched(id, m, placed, pool, extra, slots, count, k, l)
    ensures KnownHeld(c, id, pool, extra, placed, slots)
  {
    hide Placed, IdMap, Searched, PrefilledOk;
    var free := FreeSlots(placed, |placed|);
    var m := IdMap(c.shorttxids, Positions(free), |c.shorttxids|);
    PositionsExact(c, placed);
    MappedCount(c.shorttxids, Positions(free));
    FreeSlotsExact(placed, |placed|);
    SearchedSize(id, m, placed, pool, extra, slots, count, k, l);
    if NoRepeat(pool) {
      forall i, t | 0 <= i < |free| && t in pool + extra && OnlyOne(id, pool + extra, c.shorttxids[i], t)
        ensures free[i] < |slots| && slots[free[i]] == Some(t)
      {
        var p := free[i];
        assert p in free && Positions(free)[i] == p && m[c.shorttxids[i]] == p;
        assert p in m.Values;
        forall u | u in pool + extra && Leads(id, m, p, u) ensures u == t {
          OwnPosition(c.shorttxids, free, i, id(u.hash));
          assert u in pool + extra;
        }
        KnownFound(id, m, placed, pool, extra, slots, count, k, l, p, t);
      }
    }
  }

  /** Only one id leads to a free slot. */
  lemma OwnPosition(ids: seq<nat>, free: seq<nat>, i: nat, x: nat)
    requires i < |ids| == |free| && (forall j, k :: 0 <= j < k < |free| ==> free[j] < free[k])
    requires forall p :: p in free ==> Position(p) == p
    ensures var m := IdMap(ids, Positions(free), |ids|); x in m && m[x] == free[i] ==> x == ids[i]
  {
    hide IdMap;
    var m := IdMap(ids, Positions(free), |ids|);
    IdMapIs(ids, Positions(free), |ids|);
    if x in m && m[x] == free[i] {
      var j :| 0 <= j < |ids| && ids[j] == x && m[x] == Positions(free)[j];
      assert free[j] in free;
      assert Positions(free)[j] == free[j];
    }
  }

  lemma SearchedSize(id: nat -> nat, m: map<nat, nat>, placed: seq<Option<Tx>>, pool: seq<Tx>, extra: seq<Tx>,
                     slots: seq<Option<Tx>>, count: int, k: nat, l: nat)
    requires Searched(id, m, placed, pool, extra, slots, count, k, l)
    ensures |slots| == |placed|
  {
  }

  /** What InitData has reached when it accepts. */
  ghost predicate TakenApart(c: Compact, id: nat -> nat, pool: seq<Tx>, extra: seq<Tx>, placed: seq<Option<Tx>>,
                             slots: seq<Option<Tx>>, count: int) {
    var pos := Positions(FreeSlots(placed, |placed|));
    && PrefilledOk(c) && Placed(c, placed, |c.prefilledtxn|) && DistinctIds(c.shorttxids, |c.shorttxids|)
    && |pos| == |c.shorttxids|
    && var m := IdMap(c.shorttxids, pos, |c.shorttxids|);
      && Fits(m, Start(placed)) && (exists k, l :: Searched(id, m, placed, pool, extra, slots, count, k, l))
      && Held(id, c.shorttxids, placed, pos, Members(pool) + Members(extra), slots)
  }

  lemma MapFits(c: Compact, placed: seq<Option<Tx>>)
    requires Placed(c, placed, |c.prefilledtxn|)
    ensures |FreeSlots(placed, |placed|)| == |c.shorttxids|
    ensures Fits(IdMap(c.shorttxids, Positions(FreeSlots(placed, |placed|)), |c.shorttxids|), Start(placed))
  {
    hide IdMap, Placed;
    SlotsPartition(c, placed);
    IdMapIs(c.shorttxids, Positions(FreeSlots(placed, |placed|)), |c.shorttxids|);
  }

  lemma AllHeld(id: nat -> nat, c: Compact, placed: seq<Option<Tx>>, pool: seq<Tx>, extra: seq<Tx>)
    requires Placed(c, placed, |c.prefilledtxn|)
    ensures |FreeSlots(placed, |placed|)| == |c.shorttxids|
    ensures var pos := Positions(FreeSlots(placed, |placed|)); var m := IdMap(c.shorttxids, pos, |c.shorttxids|);
      && Fits(m, Start(placed))
      && Held(id, c.shorttxids, placed, pos, Members(pool) + Members(extra),
         SearchAll(id, m, placed, pool, extra).slots)
  {
    hide IdMap, Placed, FreeSlots, Held;
    MapFits(c, placed);
    var pos := Positions(FreeSlots(placed, |placed|));
    var m := IdMap(c.shorttxids, pos, |c.shorttxids|);
    var known := Members(pool) + Members(extra);
    NothingMet(id, c.shorttxids, placed, pos, known);
    SearchHeld(id, c.shorttxids, placed, pos, known, Start(placed), pool, false);
    SearchHeld(id, c.shorttxids, placed, pos, known, Search(id, m, Start(placed), pool, false), extra, true);
  }

  lemma NothingMet(id: nat -> nat, ids: seq<nat>, placed: seq<Option<Tx>>, pos: seq<nat>, known: set<Tx>)
    requires |pos| == |ids|
    ensures Held(id, ids, placed, pos, known, Start(placed).slots)
  {
  }

  /** A full slot keeps its transaction, the empty ones take the missing ones in order. */
  ghost predicate FilledAt(slots: seq<Option<Tx>>, missing: seq<Tx>, vtx: seq<Tx>, p: nat)
    requires p < |slots|
  {
    && p < |vtx|
    && (slots[p].Some? ==> vtx[p] == slots[p].value)
    && (slots[p].None? ==> |FreeSlots(slots, p)| < |missing| && vtx[p] == missing[|FreeSlots(slots, p)|])
  }

  ghost predicate IsFilled(slots: seq<Option<Tx>>, missing: seq<Tx>, vtx: seq<Tx>) {
    |vtx| == |slots| && forall p :: 0 <= p < |slots| ==> FilledAt(slots, missing, vtx, p)
  }

  function Members(txs: seq<Tx>): set<Tx> { set t | t in txs }

  lemma SlotAfter(c: Compact, i: nat)
    requires i < |c.prefilledtxn|
    ensures PrefilledSlot(c, i) == (if i == 0 then -1 else PrefilledSlot(c, i - 1)) + c.prefilledtxn[i].index + 1
  {
  }

  lemma PlacedSize(c: Compact, slots: seq<Option<Tx>>)
    requires Placed(c, slots, |c.prefilledtxn|)
    ensures |slots| == TxCount(c)
  {
  }

  lemma NoneFree(slots: seq<Option<Tx>>)
    ensures FreeSlots(slots, 0) == []
  {
  }

  lemma NoneMapped(ids: seq<nat>, pos: seq<nat>)
    ensures IdMap(ids, pos, 0) == map[]
  {
  }

  lemma FreeOneMore(slots: seq<Option<Tx>>, p: nat)
    requires p < |slots| && slots[p].None?
    ensures var i := |FreeSlots(slots, p)|;
      |FreeSlots(slots, p + 1)| == i + 1 && i < |FreeSlots(slots, |slots|)| && FreeSlots(slots, |slots|)[i] == p
  {
    FreePrefix(slots, p + 1, |slots|, |FreeSlots(slots, p)|);
  }

  lemma NonePlaced(c: Compact, slots: seq<Option<Tx>>)
    requires slots == seq(TxCount(c), _ => None)
    ensures Placed(c, slots, 0)
  {
    NoneFull(slots, |slots|);
  }

  lemma {:induction false} NoneFull(slots: seq<Option<Tx>>, n: nat)
    requires n <= |slots| && forall p :: 0 <= p < |slots| ==> slots[p].None?
    ensures CountFull(slots, n) == 0
  {
    if n > 0 {
      NoneFull(slots, n - 1);
    }
  }

  lemma {:induction false} FreePrefix(slots: seq<Option<Tx>>, m: nat, n: nat, k: nat)
    requires m <= n <= |slots| && k < |FreeSlots(slots, m)|
    ensures k < |FreeSlots(slots, n)| && FreeSlots(slots, n)[k] == FreeSlots(slots, m)[k]
    decreases n - m
  {
    if m < n {
      FreePrefix(slots, m, n - 1, k);
    }
  }

  lemma MapOne(ids: seq<nat>, pos: seq<nat>, i: nat)
    requires i < |ids| && i < |pos|
    ensures IdMap(ids, pos, i + 1) == IdMap(ids, pos, i)[ids[i] := pos[i]]
  {
  }

  // ---------------------------------------------------------------------------------------------
  // From block to block

  /** The constructor of the message: the coinbase in full, a short id for every other transaction. */
  function Encode(id: nat -> nat, block: seq<Tx>): Compact
    requires block != []
  {
    Compact(false, ShortIds(id, block[1..]), [Prefilled(0, block[0])])
  }

  function ShortIds(id: nat -> nat, txs: seq<Tx>): (r: seq<nat>)
    ensures |r| == |txs| && forall i :: 0 <= i < |r| ==> r[i] == id(txs[i].hash)
  {
    if txs == [] then [] else [id(txs[0].hash)] + ShortIds(id, txs[1..])
  }

  lemma EncodedSlots(id: nat -> nat, block: seq<Tx>, placed: seq<Option<Tx>>)
    requires block != [] && Placed(Encode(id, block), placed, 1)
    ensures |placed| == |block| && placed[0] == Some(block[0])
    ensures var free := FreeSlots(placed, |placed|);
      |free| == |block| - 1 && forall i :: 0 <= i < |free| ==> free[i] == i + 1
  {
    var c := Encode(id, block);
    assert PrefilledSlot(c, 0) == 0;
    forall p | 0 < p < |placed| ensures placed[p].None? {}
    SlotsPartition(c, placed);
    FreeFromOne(placed, |placed|);
  }

  lemma {:induction false} FreeFromOne(slots: seq<Option<Tx>>, n: nat)
    requires 1 <= n <= |slots| && slots[0].Some? && forall p :: 0 < p < |slots| ==> slots[p].None?
    ensures |FreeSlots(slots, n)| == n - 1 && forall i :: 0 <= i < n - 1 ==> FreeSlots(slots, n)[i] == i + 1
  {
    if n > 1 {
      FreeFromOne(slots, n - 1);
    } else {
      assert FreeSlots(slots, 0) == [];
    }
  }

  /** No known transaction shares its short id with a different one of the block. */
  ghost predicate NoCollision(id: nat -> nat, block: seq<Tx>, known: set<Tx>) {
    forall t, k :: t in known && 0 <= k < |block| && id(t.hash) == id(block[k].hash) ==> t == block[k]
  }

  /** The transactions that the receiver asks for: those of the empty slots. */
  function Requested(block: seq<Tx>, slots: seq<Option<Tx>>): seq<Tx>
    requires |slots| == |block|
  {
    var free := FreeSlots(slots, |slots|);
    seq(|free|, k requires 0 <= k < |free| => block[free[k]])
  }

  /**
  A block sent as its coinbase and short ids, and filled with the transactions that were asked for, is
  the block that was sent, whatever the memory pool holds, unless ids collide.
  */
  lemma Reconstructed(id: nat -> nat, block: seq<Tx>, placed: seq<Option<Tx>>, known: set<Tx>, slots: seq<Option<Tx>>,
                      vtx: seq<Tx>)
    requires block != [] && NoCollision(id, block, known)
    requires var c := Encode(id, block);
      Placed(c, placed, 1) && Found(id, c.shorttxids, placed, FreeSlots(placed, |placed|), known, slots)
    requires |slots| == |block| && IsFilled(slots, Requested(block, slots), vtx)
    ensures vtx == block
  {
    EncodedSlots(id, block, placed);
    var free := FreeSlots(placed, |placed|);
    forall p | 0 <= p < |block| ensures vtx[p] == block[p] {
      assert FilledAt(slots, Requested(block, slots), vtx, p);
      if slots[p].Some? {
        if p > 0 {
          assert free[p - 1] == p;
          assert Encode(id, block).shorttxids[p - 1] == id(block[p].hash);
        }
      } else {
        FreeOneMore(slots, p);
      }
    }
  }

  /**
  The whole exchange: the receiver ends up with the block, if it has at most 65536 transactions, or has
  found out that it must ask for it in full.
  */
  method Relay(id: nat -> nat, block: seq<Tx>, minSize: nat, crowded: nat -> bool, pool: seq<Tx>, extra: seq<Tx>)
    returns (status: ReadStatus, vtx: seq<Tx>)
    requires block != [] && minSize > 0 && |block| <= MAX_BLOCK_BASE_SIZE / minSize
    requires !block[0].isNull && NoCollision(id, block, Members(pool) + Members(extra))
    ensures status == Ok && |block| <= 0x10000 ==> vtx == block
    ensures status == Ok || status == Failed
    ensures var c := Encode(id, block); status == Ok <==> Sparse(c, crowded) && DistinctIds(c.shorttxids, |block| - 1)
    ensures status == Ok ==> |vtx| == |block|
  {
    hide Found, Placed, IsFilled, Held, IdMap, Search, DistinctIds;
    var c := Encode(id, block);
    var receiver := new PartiallyDownloadedBlock();
    vtx := [];
    ghost var placed;
    var endless;
    EncodeOk(id, block);
    endless, status, placed := receiver.InitData(c, id, minSize, crowded, pool, extra);
    if status != Ok {
      return;
    }
    var slots := receiver.txn_available;
    FoundSlots(id, block, placed, slots);
    var missing := Requested(block, slots);
    FreeSlotsExact(slots, |slots|);
    status, vtx := receiver.FillBlock(missing, Ok);
    FilledSize(slots, missing, vtx);
    if |block| <= 0x10000 {
      ExactFound(id, c, placed, Members(pool) + Members(extra), slots);
      Reconstructed(id, block, placed, Members(pool) + Members(extra), slots, vtx);
    }
  }

  lemma FilledSize(slots: seq<Option<Tx>>, missing: seq<Tx>, vtx: seq<Tx>)
    requires IsFilled(slots, missing, vtx)
    ensures |vtx| == |slots|
  {
  }

  lemma EncodeOk(id: nat -> nat, block: seq<Tx>)
    requires block != [] && !block[0].isNull
    ensures PrefilledOk(Encode(id, block))
  {
    assert PrefilledSlot(Encode(id, block), 0) == 0;
  }

  lemma FoundSlots(id: nat -> nat, block: seq<Tx>, placed: seq<Option<Tx>>, slots: seq<Option<Tx>>)
    requires block != [] && Placed(Encode(id, block), placed, 1) && |slots| == |placed|
    ensures |slots| == |block|
  {
  }

  /**
  The exact bound: any larger block, when the receiver knows its transaction 65536, comes out wrong, with
  that transaction in place of the coinbase.
  */
  lemma RelayFails(id: nat -> nat, block: seq<Tx>, placed: seq<Option<Tx>>, vtx: seq<Tx>)
    requires |block| > 0x10000 && block[0x10000] != block[0] && Placed(Encode(id, block), placed, 1)
    requires var c := Encode(id, block); DistinctIds(c.shorttxids, |c.shorttxids|)
    ensures var c, free := Encode(id, block), FreeSlots(placed, |placed|);
      |free| == |c.shorttxids| && Fits(IdMap(c.shorttxids, Positions(free), |c.shorttxids|), Start(placed))
    ensures var c := Encode(id, block);
      var m := IdMap(c.shorttxids, Positions(FreeSlots(placed, |placed|)), |c.shorttxids|);
      var slots := SearchAll(id, m, placed, [block[0x10000]], []).slots;
      IsFilled(slots, Requested(block, slots), vtx) ==> vtx[0] == block[0x10000] && vtx != block
  {
    hide Placed, IdMap, DistinctIds, FreeSlots;
    var c, free := Encode(id, block), FreeSlots(placed, |placed|);
    EncodedSlots(id, block, placed);
    MapFits(c, placed);
    var m := IdMap(c.shorttxids, Positions(free), |c.shorttxids|);
    MappedCount(c.shorttxids, Positions(free));
    var tx := block[0x10000];
    assert free[0xFFFF] == 0x10000 && c.shorttxids[0xFFFF] == id(tx.hash);
    assert m[id(tx.hash)] == 0;
    var h := Meet(id, m, Start(placed), tx, false);
    assert h.slots[0] == Some(tx);
    assert [tx][1..] == [];
    assert Search(id, m, Start(placed), [tx], false) == h;
    var slots := SearchAll(id, m, placed, [tx], []).slots;
    assert slots == h.slots;
    if IsFilled(slots, Requested(block, slots), vtx) {
      assert FilledAt(slots, Requested(block, slots), vtx, 0);
    }
  }
}
