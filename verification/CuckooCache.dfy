/** The cuckoo cache of checked signatures (src/cuckoocache.h). */
module CuckooCache {
  import opened Basics

  /** The first position of a location in the list, or 8. */
  function Find(locs: seq<nat>, loc: int): (k: nat)
    ensures k <= |locs| && (k < |locs| ==> locs[k] == loc) && (k == |locs| ==> loc !in locs)
    ensures loc !in locs[..k]
  {
    if locs == [] || locs[0] == loc then 0 else 1 + Find(locs[1..], loc)
  }

  /** The location to displace next: the second one at first, and then the one after the last. */
  function NextLoc(locs: seq<nat>, last: int): (r: nat)
    requires |locs| == 8
    ensures r in locs
    ensures last !in locs ==> r == locs[1]
    ensures forall k :: 0 <= k < 8 && locs[k] == last && last !in locs[..k] ==> r == locs[(k + 1) % 8]
  {
    locs[(1 + Find(locs, last)) % 8]
  }

  /** The location is in the list, and again in the place after its first one. */
  predicate Doubled(locs: seq<nat>, last: int)
    requires |locs| == 8
  {
    exists k :: 0 <= k < 7 && locs[k] == last && last !in locs[..k] && locs[k + 1] == last
  }

  /** The element that was just put in is displaced at once exactly when its location is doubled in the new list. */
  lemma NextDiffers(locs: seq<nat>, last: int)
    requires |locs| == 8
    ensures NextLoc(locs, last) == last <==> Doubled(locs, last)
  {
    var k := Find(locs, last);
    assert k == 7 ==> locs[0] in locs[..7];
    if k < 7 && locs[k + 1] == last {
      assert locs[k] == last && last !in locs[..k];
    }
  }

  /** Two equal hashes next to each other are enough. */
  lemma NextRepeats()
    ensures NextLoc([5, 5, 0, 1, 2, 3, 4, 6], 5) == 5
  {
    var locs := [5, 5, 0, 1, 2, 3, 4, 6];
    assert locs[0] == 5 && 5 !in locs[..0];
    assert NextLoc(locs, 5) == locs[(0 + 1) % 8];
  }

  const INVALID := 0xFFFF_FFFF

  type Hash<!T> = (nat, T) -> nat

  /** The eight places where an element may be. */
  function Locs<T>(hash: Hash<T>, size: nat, e: T): (r: seq<nat>)
    requires size > 0
    ensures |r| == 8 && forall k :: 0 <= k < 8 ==> r[k] < size
  {
    seq(8, k requires 0 <= k < 8 => hash(k, e) % size)
  }

  /** An element that is kept: in one of its places, which may not be overwritten. */
  ghost predicate IsKept<T>(hash: Hash<T>, table: seq<T>, flags: seq<bool>, e: T)
    requires |table| == |flags| > 0
  {
    exists i :: 0 <= i < |table| && i in Locs(hash, |table|, e) && table[i] == e && !flags[i]
  }

  /** Whatever may not be overwritten is in one of its places. */
  ghost predicate AllPlaced<T>(hash: Hash<T>, table: seq<T>, flags: seq<bool>)
    requires |table| == |flags| > 0
  {
    forall i :: 0 <= i < |table| && !flags[i] ==> i in Locs(hash, |table|, table[i])
  }

  /** The recent elements that are kept, among the first n slots. */
  function Unused(flags: seq<bool>, epochs: seq<bool>, n: nat): nat
    requires |flags| == |epochs| && n <= |flags|
  {
    if n == 0 then 0 else Unused(flags, epochs, n - 1) + if epochs[n - 1] && !flags[n - 1] then 1 else 0
  }

  /** One slot changes. */
  lemma {:induction false} UnusedPut(flags: seq<bool>, epochs: seq<bool>, i: nat, flag: bool, epoch: bool, n: nat)
    requires |flags| == |epochs| && n <= |flags| && i < |flags|
    ensures Unused(flags[i := flag], epochs[i := epoch], n) ==
      Unused(flags, epochs, n) +
      if i >= n then 0 else (if epoch && !flag then 1 else 0) - (if epochs[i] && !flags[i] then 1 else 0)
  {
    if n > 0 {
      UnusedPut(flags, epochs, i, flag, epoch, n - 1);
    }
  }

  lemma {:induction false} UnusedNone(flags: seq<bool>, epochs: seq<bool>, n: nat)
    requires |flags| == |epochs| && n <= |flags| && forall i :: 0 <= i < n ==> flags[i] || !epochs[i]
    ensures Unused(flags, epochs, n) == 0
  {
    if n > 0 {
      UnusedNone(flags, epochs, n - 1);
    }
  }

  /** By how much the recent elements may outgrow an epoch. */
  function Slack(epochSize: nat): nat { Max(1, epochSize / 16) }

  /** Whether the epochs change now: the recent one is full. */
  predicate Ages(flags: seq<bool>, epochs: seq<bool>, counter: nat, epochSize: nat)
    requires |flags| == |epochs|
  {
    counter == 0 && Unused(flags, epochs, |flags|) >= epochSize
  }

  /** What may be overwritten after the epochs were checked: when they change, also the elements of the old one. */
  function AgedFlags(flags: seq<bool>, epochs: seq<bool>, counter: nat, epochSize: nat): (r: seq<bool>)
    requires |flags| == |epochs|
    ensures |r| == |flags|
  {
    if !Ages(flags, epochs, counter, epochSize) then flags
    else seq(|flags|, i requires 0 <= i < |flags| => flags[i] || !epochs[i])
  }

  /** An element put in one of its places is placed. */
  lemma PutPlaced<T(!new)>(hash: Hash<T>, table: seq<T>, flags: seq<bool>, loc: nat, e: T)
    requires |table| == |flags| && loc < |table| && AllPlaced(hash, table, flags) && loc in Locs(hash, |table|, e)
    ensures AllPlaced(hash, table[loc := e], flags[loc := false])
  {
  }

  /** It is kept then, and so is every element that was, but one whose place it took. */
  lemma PutKeeps<T(!new)>(hash: Hash<T>, table: seq<T>, flags: seq<bool>, loc: nat, e: T, k: T)
    requires |table| == |flags| && loc < |table| && loc in Locs(hash, |table|, e)
    requires (IsKept(hash, table, flags, k) && (flags[loc] || k != table[loc])) || k == e
    ensures IsKept(hash, table[loc := e], flags[loc := false], k)
  {
    var t, f := table[loc := e], flags[loc := false];
    if k == e {
      assert t[loc] == e && !f[loc];
    } else {
      var i :| 0 <= i < |table| && i in Locs(hash, |table|, k) && table[i] == k && !flags[i];
      assert t[i] == k && !f[i];
    }
  }

  /** The table after the first n displacements: element i of the chain went to place i. */
  ghost function Relayed<T>(table: seq<T>, chain: seq<T>, places: seq<nat>, n: nat): (r: seq<T>)
    requires n <= |places| && n <= |chain| && forall i :: 0 <= i < |places| ==> places[i] < |table|
    ensures |r| == |table|
  {
    if n == 0 then table else Relayed(table, chain, places, n - 1)[places[n - 1] := chain[n - 1]]
  }

  /** No place of an element may be overwritten. */
  ghost predicate Crowded<T>(hash: Hash<T>, flags: seq<bool>, e: T)
    requires |flags| > 0
  {
    forall k :: 0 <= k < 8 ==> !flags[Locs(hash, |flags|, e)[k]]
  }

  /** One displacement: a crowded element takes the next of its places, and what was there is carried on. */
  ghost predicate Displaces<T>(hash: Hash<T>, table: seq<T>, flags: seq<bool>, chain: seq<T>, places: seq<nat>, i: nat)
    requires |table| == |flags| > 0 && |chain| == |places| + 1 && i < |places|
    requires forall j :: 0 <= j < |places| ==> places[j] < |table|
  {
    && Crowded(hash, flags, chain[i])
    && places[i] == NextLoc(Locs(hash, |table|, chain[i]), if i == 0 then INVALID else places[i - 1])
    && chain[i + 1] == Relayed(table, chain, places, i)[places[i]]
  }

  /** A chain of displacements, which starts with the element to insert. */
  ghost predicate IsChain<T>(hash: Hash<T>, table: seq<T>, flags: seq<bool>, e: T, chain: seq<T>, places: seq<nat>)
    requires |table| == |flags| > 0
  {
    && |chain| == |places| + 1 && chain[0] == e && (forall j :: 0 <= j < |places| ==> places[j] < |table|)
    && forall i :: 0 <= i < |places| ==> Displaces(hash, table, flags, chain, places, i)
  }

  lemma {:induction false} RelayedSame<T>(table: seq<T>, chain: seq<T>, places: seq<nat>, x: T, loc: nat, n: nat)
    requires n <= |places| && n <= |chain| && (forall i :: 0 <= i < |places| ==> places[i] < |table|) && loc < |table|
    ensures Relayed(table, chain + [x], places + [loc], n) == Relayed(table, chain, places, n)
  {
    if n > 0 {
      RelayedSame(table, chain, places, x, loc, n - 1);
    }
  }

  /** The chain grows by one displacement. */
  lemma ChainGrows<T>(hash: Hash<T>, table: seq<T>, flags: seq<bool>, e: T, chain: seq<T>, places: seq<nat>,
                      now: seq<T>,
                      loc: nat, x: T)
    requires |table| == |flags| > 0 && IsChain(hash, table, flags, e, chain, places)
    requires now == Relayed(table, chain, places, |places|) && loc < |table| && x == now[loc]
    requires var last := chain[|places|];
      && Crowded(hash, flags, last)
      && loc == NextLoc(Locs(hash, |table|, last), if places == [] then INVALID else places[|places| - 1])
    ensures IsChain(hash, table, flags, e, chain + [x], places + [loc])
    ensures Relayed(table, chain + [x], places + [loc], |places| + 1) == now[loc := chain[|places|]]
  {
    var c, p := chain + [x], places + [loc];
    hide Locs, NextLoc, Crowded;
    RelayedSame(table, chain, places, x, loc, |places|);
    forall i | 0 <= i < |p| ensures Displaces(hash, table, flags, c, p, i) {
      if i < |places| {
        assert Displaces(hash, table, flags, chain, places, i);
        RelayedSame(table, chain, places, x, loc, i);
      }
    }
  }

  lemma ChainStarts<T>(hash: Hash<T>, table: seq<T>, flags: seq<bool>, e: T)
    requires |table| == |flags| > 0
    ensures IsChain(hash, table, flags, e, [e], []) && Relayed(table, [e], [], 0) == table
  {
  }

  /** Place k of an element's eight is the first that may be overwritten. */
  ghost predicate FirstFree<T>(hash: Hash<T>, flags: seq<bool>, e: T, k: nat)
    requires |flags| > 0 && k < 8
  {
    var locs := Locs(hash, |flags|, e);
    flags[locs[k]] && forall j :: 0 <= j < k ==> !flags[locs[j]]
  }

  /** An element goes to the first of its places that may be overwritten, which then may not be. */
  ghost predicate TakesPlace<T>(hash: Hash<T>, table: seq<T>, flags: seq<bool>, e: T, newTable: seq<T>,
                                newFlags: seq<bool>)
    requires |table| == |flags| > 0
  {
    var locs := Locs(hash, |flags|, e);
    exists k :: 0 <= k < 8 && FirstFree(hash, flags, e, k)
                && newTable == table[locs[k] := e] && newFlags == flags[locs[k] := false]
  }

  class Cache<T(==,!new)> {
    const size: nat
    const depth_limit: nat
    const epoch_size: nat
    const hash: Hash<T>
    const table: array<T>
    const collection_flags: array<bool>   // true: may be overwritten
    const epoch_flags: array<bool>        // true: recent
    var epoch_heuristic_counter: nat

    ghost predicate Valid()
      reads table, collection_flags
    {
      && size > 0 && table.Length == size && collection_flags.Length == size && epoch_flags.Length == size
      && collection_flags != epoch_flags && (table as object != collection_flags && table as object != epoch_flags)
      && AllPlaced(hash, table[..], collection_flags[..])
    }

    ghost predicate Kept(e: T)
      requires Valid()
      reads table, collection_flags
    {
      IsKept(hash, table[..], collection_flags[..], e)
    }

    /** The recent elements that are kept. */
    ghost function Recent(): nat
      requires Valid()
      reads table, collection_flags, epoch_flags
    {
      Unused(collection_flags[..], epoch_flags[..], size)
    }

    /**
    The next scan comes before the recent elements outgrow an epoch by more than the slack, with some
    inserts to go.
    */
    ghost predicate Paced(inserts: nat)
      requires Valid()
      reads this, table, collection_flags, epoch_flags
    {
      epoch_size > 0 && Recent() + epoch_heuristic_counter + inserts <= epoch_size + Slack(epoch_size)
    }

    /** What contains answers. */
    ghost predicate Has(e: T)
      requires Valid()
      reads table, collection_flags
    {
      exists i :: 0 <= i < size && i in Locs(hash, size, e) && table[i] == e
    }

    /** Place n of an element's eight is the first that holds it. */
    ghost predicate FirstAt(e: T, n: nat)
      requires Valid() && n < 8
      reads table, collection_flags
    {
      var locs := Locs(hash, size, e);
      table[locs[n]] == e && forall j :: 0 <= j < n ==> table[locs[j]] != e
    }

    constructor Setup(depth: nat, size: nat, hash: Hash<T>, filler: T)
      requires size > 0
      ensures Valid() && this.size == size && this.depth_limit == depth && this.hash == hash
      ensures fresh(table) && fresh(collection_flags) && fresh(epoch_flags)
      ensures Paced(0) && forall e :: !Kept(e)
    {
      this.size, this.hash, depth_limit := size, hash, depth;
      table := new T[size](_ => filler);
      collection_flags := new bool[size](_ => true);
      epoch_flags := new bool[size](_ => false);
      epoch_size := if 45 * size / 100 > 1 then 45 * size / 100 else 1;
      epoch_heuristic_counter := if 45 * size / 100 > 1 then 45 * size / 100 else 1;
      new;
      UnusedNone(collection_flags[..], epoch_flags[..], size);
    }

    /** Ages the epochs when the recent one is full: what was recent is old, and what was old may be overwritten. */
    method EpochCheck()
      requires Valid() && Paced(0)
      modifies this`epoch_heuristic_counter, collection_flags, epoch_flags
      ensures Valid() && Paced(1)
      ensures collection_flags[..] ==
        old(AgedFlags(collection_flags[..], epoch_flags[..], epoch_heuristic_counter, epoch_size))
      ensures old(Ages(collection_flags[..], epoch_flags[..], epoch_heuristic_counter, epoch_size)) ==>
        forall i :: 0 <= i < size ==> !epoch_flags[i]
      ensures !old(Ages(collection_flags[..], epoch_flags[..], epoch_heuristic_counter, epoch_size)) ==>
        epoch_flags[..] == old(epoch_flags[..])
      ensures old(epoch_heuristic_counter) != 0 ==> epoch_heuristic_counter == old(epoch_heuristic_counter) - 1
      ensures old(epoch_heuristic_counter) == 0 ==>
        epoch_heuristic_counter == Max(Slack(epoch_size), epoch_size - Recent())
    {
      if epoch_heuristic_counter != 0 {
        epoch_heuristic_counter := epoch_heuristic_counter - 1;
        return;
      }
      ghost var flags, epochs := collection_flags[..], epoch_flags[..];
      var epoch_unused_count: nat := 0;
      for i := 0 to size
        invariant epoch_unused_count == Unused(flags, epochs, i)
      {
        if epoch_flags[i] && !collection_flags[i] {
          epoch_unused_count := epoch_unused_count + 1;
        }
      }
      if epoch_unused_count >= epoch_size {
        for i := 0 to size
          invariant forall k :: 0 <= k < i ==> !epoch_flags[k] && collection_flags[k] == (flags[k] || !epochs[k])
          invariant forall k :: i <= k < size ==> epoch_flags[k] == epochs[k] && collection_flags[k] == flags[k]
        {
          if epoch_flags[i] {
            epoch_flags[i] := false;
          } else {
            collection_flags[i] := true;
          }
        }
        epoch_heuristic_counter := epoch_size;
        UnusedNone(collection_flags[..], epoch_flags[..], size);
      } else {
        epoch_heuristic_counter := Max(1, Max(epoch_size / 16, epoch_size - epoch_unused_count));
      }
    }

    /**
    Inserts an element after the epochs were checked.  Of the elements kept before and the new one, all
    are kept afterwards but at most one, whatever the hashes and however long the chain of displacements.
    An element is lost only after as many displacements as are allowed; the chain ends earlier exactly
    when an element has a place that may be overwritten, and takes the first one.
    */
    method Place(element: T) returns (lost: seq<T>, ghost chain: seq<T>, ghost places: seq<nat>)
      requires Valid()
      modifies table, collection_flags, epoch_flags
      ensures Valid() && |lost| <= 1
      ensures forall k :: (old(Kept(k)) || k == element) && k !in lost ==> Kept(k)
      ensures old(Has(element)) ==> lost == []
      ensures depth_limit > 0 && (exists k :: 0 <= k < 8 && old(collection_flags[Locs(hash, size, element)[k]])) ==>
        lost == []
      ensures forall i :: 0 <= i < size ==> table[i] == element || table[i] in old(table[..])
      ensures Recent() <= old(Recent()) + 1
      ensures old(Has(element)) ==> table[..] == old(table[..])
      ensures !old(Has(element)) ==> IsChain(hash, old(table[..]), old(collection_flags[..]), element, chain, places)
      ensures !old(Has(element)) ==>
        var carried, now := chain[|places|], Relayed(old(table[..]), chain, places, |places|);
        if lost == [] then
          && |places| < depth_limit
          && TakesPlace(hash, now, old(collection_flags[..]), carried, table[..], collection_flags[..])
        else
          && |places| == depth_limit && lost == [carried]
          && table[..] == now && collection_flags[..] == old(collection_flags[..])
    {
      hide AllPlaced, IsKept, Locs, Unused, NextLoc, IsChain, Relayed, TakesPlace;
      chain, places := [element], [];
      var there := KeepIfThere(element);
      if there {
        return [], [element], [];
      }
      ghost var before, flags := table[..], collection_flags[..];
      ChainStarts(hash, before, flags, element);
      var e := element;
      var last_loc: int := INVALID;
      var last_epoch := true;
      var depth := 0;
      while depth < depth_limit
        invariant Valid()
        invariant depth == |places| <= depth_limit && collection_flags[..] == flags
        invariant IsChain(hash, before, flags, element, chain, places) && |chain| == depth + 1 && chain[depth] == e
        invariant (forall i :: 0 <= i < |places| ==> places[i] < size) &&
          table[..] == Relayed(before, chain, places, depth)
        invariant last_loc == if places == [] then INVALID else places[|places| - 1]
        invariant depth == 0 ==> e == element
        invariant depth > 0 ==> forall k :: 0 <= k < 8 ==> !old(collection_flags[Locs(hash, size, element)[k]])
        invariant e == element || e in old(table[..])
        invariant Recent() + (if last_epoch then 1 else 0) == old(Recent()) + 1
        invariant forall i :: 0 <= i < size ==> table[i] == element || table[i] in old(table[..])
        invariant forall k :: (old(Kept(k)) || k == element) && k != e ==> Kept(k)
      {
        ghost var now, carried := table[..], e;
        var put := PutIfFree(e, last_epoch);
        if put {
          return [], chain, places;
        }
        last_loc := NextLoc(Locs(hash, size, e), last_loc);
        e, last_epoch := Swap(last_loc, e, last_epoch);
        ChainGrows(hash, before, flags, element, chain, places, now, last_loc, e);
        chain, places := chain + [e], places + [last_loc];
        depth := depth + 1;
      }
      return [e], chain, places;
    }

    /** An element that is there already is kept, and counts as recent. */
    method KeepIfThere(e: T) returns (there: bool)
      requires Valid()
      modifies collection_flags, epoch_flags
      ensures Valid() && (there <==> old(Has(e))) && Recent() <= old(Recent()) + 1
      ensures there ==> forall k :: old(Kept(k)) || k == e ==> Kept(k)
      ensures !there ==> collection_flags[..] == old(collection_flags[..]) && epoch_flags[..] == old(epoch_flags[..])
    {
      hide AllPlaced, IsKept, Locs, Unused;
      var locs := Locs(hash, size, e);
      var n := 0;
      while n < 8
        invariant 0 <= n <= 8 && forall j :: 0 <= j < n ==> table[locs[j]] != e
      {
        var loc := locs[n];
        if table[loc] == e {
          PutPlaced(hash, table[..], collection_flags[..], loc, e);
          ghost var t, f, p := table[..], collection_flags[..], epoch_flags[..];
          assert t[loc := e] == t;
          UnusedPut(f, p, loc, false, true, size);
          collection_flags[loc] := false;
          epoch_flags[loc] := true;
          assert collection_flags[..] == f[loc := false] && epoch_flags[..] == p[loc := true];
          forall k | old(Kept(k)) || k == e ensures Kept(k) {
            PutKeeps(hash, t, f, loc, e, k);
          }
          return true;
        }
        n := n + 1;
      }
      return false;
    }

    /** An element takes the first of its places that may be overwritten, if there is one. */
    method PutIfFree(e: T, epoch: bool) returns (put: bool)
      requires Valid()
      modifies table, collection_flags, epoch_flags
      ensures Valid() && (put <==> exists k :: 0 <= k < 8 && old(collection_flags[Locs(hash, size, e)[k]]))
      ensures put ==> Recent() == old(Recent()) + if epoch then 1 else 0
      ensures put ==> forall k :: old(Kept(k)) || k == e ==> Kept(k)
      ensures forall i :: 0 <= i < size ==> table[i] == old(table[i]) || table[i] == e
      ensures !put ==> table[..] == old(table[..]) && collection_flags[..] == old(collection_flags[..])
      ensures !put ==> epoch_flags[..] == old(epoch_flags[..]) && Crowded(hash, collection_flags[..], e)
      ensures put ==>
        TakesPlace(hash, old(table[..]), old(collection_flags[..]), e, table[..], collection_flags[..])
    {
      hide AllPlaced, IsKept, Locs, Unused;
      var locs := Locs(hash, size, e);
      var n := 0;
      while n < 8
        invariant 0 <= n <= 8 && forall j :: 0 <= j < n ==> !collection_flags[locs[j]]
      {
        var loc := locs[n];
        if collection_flags[loc] {
          PutPlaced(hash, table[..], collection_flags[..], loc, e);
          ghost var t, f, p := table[..], collection_flags[..], epoch_flags[..];
          UnusedPut(f, p, loc, false, epoch, size);
          table[loc] := e;
          collection_flags[loc] := false;
          epoch_flags[loc] := epoch;
          assert table[..] == t[loc := e] && collection_flags[..] == f[loc := false] &&
            epoch_flags[..] == p[loc := epoch];
          assert FirstFree(hash, f, e, n);
          forall k | old(Kept(k)) || k == e ensures Kept(k) {
            PutKeeps(hash, t, f, loc, e, k);
          }
          return true;
        }
        n := n + 1;
      }
      return false;
    }

    /** An element takes the place of another one, which is carried on with its epoch. */
    method Swap(loc: nat, e: T, epoch: bool) returns (out: T, outEpoch: bool)
      requires Valid() && loc in Locs(hash, size, e) && loc < size && !collection_flags[loc]
      modifies table, epoch_flags
      ensures Valid() && out == old(table[loc]) && table[..] == old(table[..])[loc := e]
      ensures collection_flags[..] == old(collection_flags[..])
      ensures Recent() + (if outEpoch then 1 else 0) == old(Recent()) + if epoch then 1 else 0
      ensures forall k :: (old(Kept(k)) && k != out) || k == e ==> Kept(k)
    {
      hide AllPlaced, IsKept, Locs, Unused;
      PutPlaced(hash, table[..], collection_flags[..], loc, e);
      ghost var t, f, p := table[..], collection_flags[..], epoch_flags[..];
      UnusedPut(f, p, loc, false, epoch, size);
      assert f[loc := false] == f;
      out := table[loc];
      table[loc] := e;
      outEpoch := epoch_flags[loc];
      epoch_flags[loc] := epoch;
      assert table[..] == t[loc := e] && collection_flags[..] == f && epoch_flags[..] == p[loc := epoch];
      forall k | (old(Kept(k)) && k != out) || k == e ensures Kept(k) {
        PutKeeps(hash, t, f, loc, e, k);
      }
    }

    method Insert(e: T) returns (ghost lost: seq<T>)
      requires Valid() && Paced(0)
      modifies this`epoch_heuristic_counter, table, collection_flags, epoch_flags
      ensures Valid() && |lost| <= 1
      ensures Paced(0) && Recent() <= epoch_size + Slack(epoch_size)
      ensures var flags := old(AgedFlags(collection_flags[..], epoch_flags[..], epoch_heuristic_counter, epoch_size));
        forall k :: (IsKept(hash, old(table[..]), flags, k) || k == e) && k !in lost ==> Kept(k) && Has(k)
    {
      EpochCheck();
      assert table[..] == old(table[..]);
      ghost var chain, places;
      lost, chain, places := Place(e);
      forall k | Kept(k) ensures Has(k) {
        var i :| 0 <= i < size && i in Locs(hash, size, k) && table[..][i] == k && !collection_flags[..][i];
        assert table[i] == k;
      }
    }

    method Contains(e: T, erase: bool) returns (found: bool)
      requires Valid()
      modifies collection_flags
      ensures Valid() && found == old(Has(e)) == Has(e)
      ensures Recent() <= old(Recent())
      ensures forall k :: Has(k) == old(Has(k))
      ensures !erase || !found ==> collection_flags[..] == old(collection_flags[..])
      ensures erase && found ==>
        exists n :: 0 <= n < 8 && FirstAt(e, n) &&
          collection_flags[..] == old(collection_flags[..])[Locs(hash, size, e)[n] := true]
    {
      var locs := Locs(hash, size, e);
      var n := 0;
      while n < 8
        invariant 0 <= n <= 8 && forall j :: 0 <= j < n ==> table[locs[j]] != e
      {
        var loc := locs[n];
        if table[loc] == e {
          assert FirstAt(e, n);
          if erase {
            UnusedPut(collection_flags[..], epoch_flags[..], loc, true, epoch_flags[loc], size);
            assert epoch_flags[..] == epoch_flags[..][loc := epoch_flags[loc]];
            collection_flags[loc] := true;
            assert collection_flags[..] == old(collection_flags[..])[locs[n] := true];
          }
          return true;
        }
        n := n + 1;
      }
      return false;
    }
  }
}
