/**
The tree of block headers and the active chain (src/chain.cpp, src/chain.h): each block knows its
predecessor and, to find ancestors in few steps, one block further back.
*/
module Chain {
  import opened Basics
  import opened Limbs

  type Hash = nat

  /** The number of zero bits below the lowest one bit. */
  ghost function LowestOne(n: nat): (k: nat)
    requires n > 0
    ensures n % Pow2(k + 1) == Pow2(k)
  {
    if n % 2 == 1 then assert Pow2(1) == 2; 0 else
      var k := LowestOne(n / 2);
      DoubleMod(n / 2, Pow2(k + 1));
      k + 1
  }

  lemma DoubleMod(n: nat, m: nat)
    requires m > 0
    ensures (2 * n) % (2 * m) == 2 * (n % m)
  {
    var q := n / m;
    assert n == q * m + n % m;
    assert 2 * n == q * (2 * m) + 2 * (n % m);
    DivModUnique(2 * n, q, 2 * (n % m), 2 * m);
  }

  /** Clears the lowest one bit: n & (n - 1). */
  function InvertLowestOne(n: nat): (r: nat)
    ensures n > 0 ==> r < n
    ensures r % 2 == 0
  {
    if n == 0 then 0 else if n % 2 == 1 then n - 1 else 2 * InvertLowestOne(n / 2)
  }

  /** Only the lowest one bit goes. */
  lemma {:induction false} InvertedOne(n: nat)
    ensures InvertLowestOne(n) == if n == 0 then 0 else n - Pow2(LowestOne(n))
  {
    if n > 0 && n % 2 == 0 {
      InvertedOne(n / 2);
    }
  }

  /** The height to jump back to: one block at least, and with the same parity above the first two. */
  function GetSkipHeight(height: nat): (r: nat)
    ensures height > 0 ==> r < height
    ensures height >= 2 ==> r % 2 == height % 2
  {
    if height < 2 then 0
    else if height % 2 == 1 then InvertLowestOne(InvertLowestOne(height - 1)) + 1
    else InvertLowestOne(height)
  }

  /** An even height loses its lowest one bit, and an odd one the two lowest but bit 0. */
  lemma SkipHeightIs(height: nat)
    requires height >= 2
    ensures height % 2 == 0 ==> GetSkipHeight(height) == height - Pow2(LowestOne(height))
    ensures height % 2 == 1 ==>
      var a := height - 1 - Pow2(LowestOne(height - 1));
      a >= 0 && GetSkipHeight(height) == 1 + if a == 0 then 0 else a - Pow2(LowestOne(a))
  {
    hide InvertLowestOne, LowestOne, Pow2;
    InvertedOne(height);
    InvertedOne(height - 1);
    InvertedOne(InvertLowestOne(height - 1));
  }

  class BlockIndex {
    const pprev: BlockIndex?
    const pskip: BlockIndex?
    const nHeight: nat
    const phashBlock: Hash

    /** Heights go up by one, and the skip pointer leads to the ancestor it should. */
    ghost predicate Valid()
      decreases nHeight
    {
      if pprev == null then nHeight == 0 && pskip == null
      else pprev.nHeight + 1 == nHeight && pprev.Valid() && pskip == pprev.Walk(GetSkipHeight(nHeight))
    }

    /** The ancestor at a height, found by following predecessors only. */
    ghost function Walk(height: int): BlockIndex?
      decreases nHeight
    {
      if height > nHeight || height < 0 then null
      else if height == nHeight then this
      else if pprev == null || pprev.nHeight >= nHeight then null
      else pprev.Walk(height)
    }

    constructor Genesis(hash: Hash)
      ensures Valid() && pprev == null && phashBlock == hash
    {
      pprev, pskip, nHeight, phashBlock := null, null, 0, hash;
    }

    /** A block on top of another, with its skip pointer built (BuildSkip). */
    constructor Extend(prev: BlockIndex, hash: Hash)
      requires prev.Valid()
      ensures Valid() && pprev == prev && nHeight == prev.nHeight + 1 && phashBlock == hash
    {
      pprev, nHeight, phashBlock := prev, prev.nHeight + 1, hash;
      var skip := prev.GetAncestor(GetSkipHeight(prev.nHeight + 1));
      pskip := skip;
    }

    /** The ancestor at a height, in large steps where they do not go too far; null if there is no such height. */
    method GetAncestor(height: int) returns (r: BlockIndex?)
      requires Valid()
      ensures r == Walk(height)
    {
      if height > nHeight || height < 0 {
        return null;
      }
      var pindexWalk: BlockIndex := this;
      var heightWalk := nHeight;
      while heightWalk > height
        invariant height <= heightWalk && pindexWalk.nHeight == heightWalk && pindexWalk.Valid()
        invariant pindexWalk.Walk(height) == Walk(height)
      {
        var heightSkip := GetSkipHeight(heightWalk);
        var heightSkipPrev := GetSkipHeight(heightWalk - 1);
        assert pindexWalk.pprev != null;
        pindexWalk.pprev.Reaches(heightSkip);
        if pindexWalk.pskip != null &&
           (heightSkip == height ||
            (heightSkip > height && !(heightSkipPrev < heightSkip - 2 && heightSkipPrev >= height)))
        {
          pindexWalk.pprev.Onward(heightSkip, height);
          pindexWalk := pindexWalk.pskip;
          heightWalk := heightSkip;
        } else {
          pindexWalk := pindexWalk.pprev;
          heightWalk := heightWalk - 1;
        }
      }
      return pindexWalk;
    }

    /** There is an ancestor at every height up to this one. */
    lemma {:induction false} Reaches(height: nat)
      requires Valid()
      ensures height <= nHeight ==> var a := Walk(height); a != null && a.nHeight == height && a.Valid()
      decreases nHeight
    {
      if height < nHeight {
        pprev.Reaches(height);
      }
    }

    /** The ancestors of an ancestor are ancestors. */
    lemma {:induction false} Onward(mid: nat, height: int)
      requires Valid() && height <= mid <= nHeight
      ensures Walk(mid) != null && Walk(mid).Walk(height) == Walk(height)
      decreases nHeight
    {
      Reaches(mid);
      if mid < nHeight {
        pprev.Onward(mid, height);
      }
    }
  }

  class BlockChain {
    var vChain: seq<BlockIndex?>

    /** Every slot holds the tip's ancestor at that height. */
    ghost predicate Valid()
      reads this
    {
      vChain != [] ==> IsChainOf(vChain, vChain[|vChain| - 1])
    }

    constructor ()
      ensures Valid() && vChain == []
    {
      vChain := [];
    }

    function Height(): int reads this { |vChain| - 1 }

    function At(nHeight: int): BlockIndex?
      reads this
    {
      if nHeight < 0 || nHeight >= |vChain| then null else vChain[nHeight]
    }

    predicate Contains(pindex: BlockIndex) reads this { At(pindex.nHeight) == pindex }

    /** Makes a block the tip, writing only the slots that change. */
    method SetTip(pindex: BlockIndex?)
      requires Valid() && (pindex != null ==> pindex.Valid())
      modifies this
      ensures Valid() && (pindex == null ==> vChain == [])
      ensures pindex != null ==> IsChainOf(vChain, pindex)
    {
      if pindex == null {
        vChain := [];
        return;
      }
      hide GetSkipHeight;
      ghost var was := vChain;
      var n := pindex.nHeight + 1;
      vChain := if n <= |vChain| then vChain[..n] else vChain + seq(n - |vChain|, _ => null);
      var p: BlockIndex? := pindex;
      while p != null && vChain[p.nHeight] != p
        invariant |vChain| == n && (p != null ==> p.Valid() && p.nHeight < n && pindex.Walk(p.nHeight) == p)
        invariant forall h :: (if p == null then 0 else p.nHeight + 1) <= h < n ==> vChain[h] == pindex.Walk(h)
        invariant p != null ==> forall h :: 0 <= h <= p.nHeight ==> vChain[h] == if h < |was| then was[h] else null
        decreases if p == null then 0 else p.nHeight + 1
      {
        vChain := vChain[p.nHeight := p];
        Next(pindex, p);
        p := p.pprev;
      }
      if p != null {
        Rejoined(was, pindex, p);
      }
      pindex.Reaches(pindex.nHeight);
    }

    /** The last block of this chain that is the block or one of its ancestors. */
    method FindFork(pindex: BlockIndex?) returns (r: BlockIndex?)
      requires Valid() && (pindex != null ==> pindex.Valid())
      ensures pindex == null ==> r == null
      ensures pindex != null && r != null ==> pindex.Walk(r.nHeight) == r && Contains(r)
      ensures pindex != null ==>
        forall h :: 0 <= h <= pindex.nHeight && (r == null || h > r.nHeight) ==>
          pindex.Walk(h) != null && At(h) != pindex.Walk(h)
    {
      hide GetSkipHeight;
      if pindex == null {
        return null;
      }
      forall h | 0 <= h <= pindex.nHeight ensures pindex.Walk(h) != null {
        pindex.Reaches(h);
      }
      r := pindex;
      if pindex.nHeight > Height() {
        if Height() >= 0 {
          pindex.Reaches(Height());
        }
        r := pindex.GetAncestor(Height());
      }
      while r != null && !Contains(r)
        invariant r != null ==> r.Valid() && r.nHeight <= pindex.nHeight && pindex.Walk(r.nHeight) == r
        invariant forall h :: (if r == null then 0 else r.nHeight + 1) <= h <= pindex.nHeight ==>
          At(h) != pindex.Walk(h)
        decreases if r == null then 0 else r.nHeight + 1
      {
        Next(pindex, r);
        r := r.pprev;
      }
    }

    function Tip(): BlockIndex? reads this { At(Height()) }

    /** The hashes by which a peer can find out where its chain leaves this block's, latest first. */
    method GetLocator(pindex: BlockIndex?) returns (vHave: seq<Hash>)
      requires Valid() && (pindex != null ==> pindex.Valid())
      ensures vHave == [] <==> pindex == null && vChain == []
      ensures vHave != [] ==> IsLocator(vHave, if pindex != null then pindex else Tip())
    {
      hide GetSkipHeight, EntriesOf, Back, StepAt, Pow2, BlockIndex.Walk, EntryHeight;
      var nStep := 1;
      vHave := [];
      var start := if pindex != null then pindex else Tip();
      var p := start;
      if p != null {
        FirstEntry(p);
      }
      while p != null
        invariant p != null ==> AtEntry(vHave, start, p) && nStep == StepAt(|vHave|)
        invariant p == null ==> vHave == [] && start == null
        decreases if p == null then 0 else p.nHeight + 1
      {
        NextEntry(vHave, start, p, nStep);
        vHave := vHave + [p.phashBlock];
        if p.nHeight == 0 {
          break;
        }
        var nHeight := Max(p.nHeight - nStep, 0);
        if Contains(p) {
          Rejoined(vChain, start, p);
          p := At(nHeight);
        } else {
          start.Onward(p.nHeight, nHeight);
          p := p.GetAncestor(nHeight);
        }
        if |vHave| > 10 {
          nStep := nStep * 2;
        }
      }
    }

    /** Where a peer that sent a locator is to go on from. */
    method FindForkInGlobalIndex(mapBlockIndex: map<Hash, BlockIndex>, vHave: seq<Hash>) returns (r: BlockIndex?)
      requires Valid() && forall h :: h in mapBlockIndex ==> mapBlockIndex[h].Valid()
      ensures r == Located(vChain, mapBlockIndex, vHave)
    {
      hide BlockIndex.Walk, GetSkipHeight;
      var i := 0;
      while i < |vHave|
        invariant 0 <= i <= |vHave|
        invariant Located(vChain, mapBlockIndex, vHave) == Located(vChain, mapBlockIndex, vHave[i..])
      {
        if vHave[i] in mapBlockIndex {
          var pindex := mapBlockIndex[vHave[i]];
          if Contains(pindex) {
            return pindex;
          }
          var ancestor := pindex.GetAncestor(Height());
          if ancestor == Tip() {
            return Tip();
          }
        }
        i := i + 1;
      }
      return At(0);
    }
  }

  // ---- Locators

  /** How far below its start the k-th entry of a locator lies: eleven single steps, and then steps that double. */
  function Back(k: nat): nat {
    if k <= 10 then k else 9 + Pow2(k - 10)
  }

  /** The step after k entries. */
  function StepAt(k: nat): nat {
    if k <= 10 then 1 else Pow2(k - 10)
  }

  /** The hashes of the ancestors at those distances, down to the genesis block. */
  ghost predicate IsLocator(v: seq<Hash>, start: BlockIndex?) {
    start != null && start.Valid() && v != [] && EntriesOf(v, start) && Back(|v| - 1) >= start.nHeight
  }

  /** The entry's height, which is not below the genesis block. */
  function EntryHeight(k: nat, height: nat): nat { Max(height - Back(k), 0) }

  ghost predicate EntriesOf(v: seq<Hash>, start: BlockIndex)
    requires start.Valid()
  {
    forall k :: 0 <= k < |v| ==>
      var b := start.Walk(EntryHeight(k, start.nHeight));
      b != null && v[k] == b.phashBlock && (k > 0 ==> Back(k - 1) < start.nHeight)
  }

  ghost predicate AtEntry(v: seq<Hash>, start: BlockIndex?, p: BlockIndex?) {
    && start != null && p != null && start.Valid() && p.Valid() && EntriesOf(v, start)
    && p.nHeight == EntryHeight(|v|, start.nHeight) && start.Walk(p.nHeight) == p
    && (v != [] ==> Back(|v| - 1) < start.nHeight)
  }

  lemma FirstEntry(start: BlockIndex)
    requires start.Valid()
    ensures AtEntry([], start, start) && StepAt(0) == 1
  {
  }

  /** One more entry: it is the last one, or the next is a step further back. */
  lemma NextEntry(v: seq<Hash>, start: BlockIndex, p: BlockIndex, step: nat)
    requires AtEntry(v, start, p) && step == StepAt(|v|)
    ensures EntriesOf(v + [p.phashBlock], start)
    ensures p.nHeight == 0 <==> Back(|v|) >= start.nHeight
    ensures StepAt(|v| + 1) == if |v| + 1 > 10 then 2 * step else step
    ensures p.nHeight > 0 ==>
      var h := Max(p.nHeight - step, 0); var q := start.Walk(h);
      h < p.nHeight && AtEntry(v + [p.phashBlock], start, q) && q.nHeight == h
  {
    var w := v + [p.phashBlock];
    EntryAdded(v, start, p);
    assert Pow2(1) == 2;
    if p.nHeight > 0 {
      var h := Max(p.nHeight - step, 0);
      assert h == EntryHeight(|w|, start.nHeight);
      start.Reaches(h);
    }
  }

  lemma EntryAdded(v: seq<Hash>, start: BlockIndex, p: BlockIndex)
    requires AtEntry(v, start, p)
    ensures EntriesOf(v + [p.phashBlock], start)
  {
    hide Back;
    var w := v + [p.phashBlock];
    forall k | 0 <= k < |w|
      ensures var b := start.Walk(EntryHeight(k, start.nHeight));
        b != null && w[k] == b.phashBlock && (k > 0 ==> Back(k - 1) < start.nHeight)
    {
      if k < |v| {
        assert w[k] == v[k];
      }
    }
  }

  /** A locator starts at its block and ends at the genesis block. */
  lemma LocatorEnds(v: seq<Hash>, start: BlockIndex)
    requires IsLocator(v, start)
    ensures v[0] == start.phashBlock
    ensures var b := start.Walk(0); b != null && b.pprev == null && v[|v| - 1] == b.phashBlock
  {
    hide Pow2;
    start.Reaches(0);
    assert EntryHeight(0, start.nHeight) == start.nHeight;
    assert EntryHeight(|v| - 1, start.nHeight) == 0;
  }

  /** Its heights fall strictly, and there are hardly more entries than the height has bits. */
  lemma LocatorFalls(v: seq<Hash>, start: BlockIndex)
    requires IsLocator(v, start)
    ensures forall k :: 0 < k < |v| ==> EntryHeight(k, start.nHeight) < EntryHeight(k - 1, start.nHeight)
    ensures |v| > 12 ==> Pow2(|v| - 12) + 9 < start.nHeight
    ensures |v| <= start.nHeight + 1
  {
    hide Pow2, BlockIndex.Walk;
    forall k | 0 < k < |v| ensures EntryHeight(k, start.nHeight) < EntryHeight(k - 1, start.nHeight) {
      BackGrows(k);
    }
    var n := |v| - 1;
    if n > 0 {
      assert EntryHeight(n, start.nHeight) == 0;
      BackAtLeast(n - 1);
    }
  }

  lemma BackGrows(k: nat)
    requires k > 0
    ensures Back(k - 1) < Back(k) <= 2 * Back(k - 1) + 1
  {
    assert Pow2(1) == 2;
  }

  lemma {:induction false} BackAtLeast(k: nat)
    ensures Back(k) >= k
  {
    if k > 0 {
      BackGrows(k);
      BackAtLeast(k - 1);
    }
  }

  /** What one hash of a locator tells a chain: a block on it, or its tip when a later block is known. */
  ghost function Answer(v: seq<BlockIndex?>, index: map<Hash, BlockIndex>, hash: Hash): Option<BlockIndex?> {
    if hash !in index then None
    else
      var p := index[hash];
      var tip := if v == [] then null else v[|v| - 1];
      if p.nHeight < |v| && v[p.nHeight] == p then Some(p)
      else if p.Walk(|v| - 1) == tip then Some(tip)
      else None
  }

  /** The first answer, or the genesis block. */
  ghost function Located(v: seq<BlockIndex?>, index: map<Hash, BlockIndex>, have: seq<Hash>): BlockIndex? {
    if have == [] then if v == [] then null else v[0]
    else if Answer(v, index, have[0]).Some? then Answer(v, index, have[0]).value
    else Located(v, index, have[1..])
  }

  /** Up to a height the chain has the blocks of another one, and knows them. */
  ghost predicate SharedUpTo(v: seq<BlockIndex?>, index: map<Hash, BlockIndex>, start: BlockIndex, fork: nat) {
    && fork < |v| && fork <= start.nHeight
    && forall h :: 0 <= h <= fork ==>
      var b := start.Walk(h); v[h] != null && b != null && b.phashBlock in index && index[b.phashBlock] == v[h]
  }

  /** A hash names one block, and with it its height. */
  ghost predicate HeightsAgree(index: map<Hash, BlockIndex>, start: BlockIndex) {
    forall h :: 0 <= h <= start.nHeight ==>
      var b := start.Walk(h); b != null ==> (b.phashBlock in index ==> index[b.phashBlock].nHeight == h)
  }

  /** A locator leads at most twice as far back as the point where the two chains part. */
  lemma LocatedNearFork(v: seq<BlockIndex?>, index: map<Hash, BlockIndex>, have: seq<Hash>, start: BlockIndex,
                        fork: nat)
    requires v != [] && IsChainOf(v, v[|v| - 1]) && IsLocator(have, start)
    requires SharedUpTo(v, index, start, fork) && HeightsAgree(index, start)
    ensures var r := Located(v, index, have);
      r != null && (r.nHeight >= fork || start.nHeight - r.nHeight < 2 * (start.nHeight - fork))
    ensures var r := Located(v, index, have); r != null && r.nHeight < |v| && v[r.nHeight] == r
  {
    var k := FirstBack(start.nHeight - fork, |have| - 1);
    if k > 0 {
      BackGrows(k);
    }
    LocatedBefore(v, index, have, start, fork, k, 0);
    assert have[0..] == have;
  }

  ghost predicate OnChain(v: seq<BlockIndex?>, b: BlockIndex?) { b != null && b.nHeight < |v| && v[b.nHeight] == b }

  /**
  A hash is answered with a block exactly if that is on the chain, and the named block itself or the tip
  below it.
  */
  lemma AnswerExact(v: seq<BlockIndex?>, index: map<Hash, BlockIndex>, hash: Hash, r: BlockIndex)
    requires v != [] && IsChainOf(v, v[|v| - 1])
    ensures Answer(v, index, hash) == Some(r) <==>
      && hash in index && OnChain(v, r) && index[hash].Walk(r.nHeight) == r
      && (r == index[hash] || r == v[|v| - 1])
  {
    if hash in index && index[hash].Walk(r.nHeight) == r && OnChain(v, index[hash]) && r == v[|v| - 1] {
      assert r.nHeight == |v| - 1 && index[hash].nHeight == r.nHeight;
    }
  }

  /** The search ends at the first entry with an answer, and with the genesis block if there is none. */
  lemma {:induction false} LocatedFirst(v: seq<BlockIndex?>, index: map<Hash, BlockIndex>, have: seq<Hash>, k: nat)
    requires k <= |have| && forall j :: 0 <= j < k ==> Answer(v, index, have[j]).None?
    ensures k < |have| && Answer(v, index, have[k]).Some? ==>
      Located(v, index, have) == Answer(v, index, have[k]).value
    ensures k == |have| ==> Located(v, index, have) == if v == [] then null else v[0]
  {
    if k > 0 {
      assert forall j :: 0 <= j < k - 1 ==> have[1..][j] == have[j + 1];
      LocatedFirst(v, index, have[1..], k - 1);
    }
  }

  /** The search ends at the latest with the first entry that is not above the fork. */
  lemma {:induction false} LocatedBefore(v: seq<BlockIndex?>, index: map<Hash, BlockIndex>, have: seq<Hash>,
                                         start: BlockIndex, fork: nat, k: nat, i: nat)
    requires v != [] && IsChainOf(v, v[|v| - 1]) && IsLocator(have, start)
    requires SharedUpTo(v, index, start, fork) && HeightsAgree(index, start)
    requires i <= k < |have| && Back(k) >= start.nHeight - fork
    ensures var r := Located(v, index, have[i..]); OnChain(v, r) && r.nHeight >= EntryHeight(k, start.nHeight)
    decreases k - i
  {
    hide BlockIndex.Walk, Back;
    var rest := have[i..];
    assert rest[0] == have[i] && rest[1..] == have[i + 1..];
    AnswerHeight(v, index, have, start, fork, i);
    BackOrder(i, k);
    if i < k && Answer(v, index, have[i]).None? {
      LocatedBefore(v, index, have, start, fork, k, i + 1);
    }
  }

  /** An answer is a block on the chain, at the entry's height or at the top, and below the fork there is one. */
  lemma AnswerHeight(v: seq<BlockIndex?>, index: map<Hash, BlockIndex>, have: seq<Hash>, start: BlockIndex, fork: nat,
                     i: nat)
    requires v != [] && IsChainOf(v, v[|v| - 1]) && IsLocator(have, start)
    requires SharedUpTo(v, index, start, fork) && HeightsAgree(index, start) && i < |have|
    ensures var a := Answer(v, index, have[i]); var h := EntryHeight(i, start.nHeight);
      && (a.Some? ==> OnChain(v, a.value) && a.value.nHeight >= Min(h, fork))
      && (h <= fork ==> a.Some? && a.value.nHeight == h)
  {
    hide Back;
    var h := EntryHeight(i, start.nHeight);
    var tip := v[|v| - 1];
    tip.Reaches(tip.nHeight);
    var b := start.Walk(h);
    assert have[i] == b.phashBlock;
    if h <= fork {
      tip.Reaches(h);
    }
  }

  lemma {:induction false} BackOrder(i: nat, k: nat)
    requires i <= k
    ensures Back(i) <= Back(k)
  {
    if i < k {
      BackOrder(i, k - 1);
      BackGrows(k);
    }
  }

  lemma {:induction false} FirstBack(d: nat, n: nat) returns (k: nat)
    requires Back(n) >= d
    ensures k <= n && Back(k) >= d && (k > 0 ==> Back(k - 1) < d)
  {
    if n == 0 || Back(n - 1) < d {
      k := n;
    } else {
      k := FirstBack(d, n - 1);
    }
  }

  ghost predicate IsChainOf(v: seq<BlockIndex?>, tip: BlockIndex?) {
    && tip != null && tip.Valid() && |v| == tip.nHeight + 1
    && forall h :: 0 <= h < |v| ==> v[h] == tip.Walk(h)
  }

  /** The predecessor of an ancestor is the next ancestor. */
  lemma Next(b: BlockIndex, p: BlockIndex)
    requires b.Valid() && p.nHeight <= b.nHeight && b.Walk(p.nHeight) == p && p.Valid()
    ensures p.pprev == null <==> p.nHeight == 0
    ensures p.pprev != null ==> p.pprev.nHeight == p.nHeight - 1 && b.Walk(p.nHeight - 1) == p.pprev
  {
    if p.pprev != null {
      b.Onward(p.nHeight, p.nHeight - 1);
      assert p.Walk(p.nHeight - 1) == p.pprev.Walk(p.nHeight - 1) == p.pprev;
    }
  }

  /** Once a block of the old chain is met, the old slots below it are right. */
  lemma Rejoined(was: seq<BlockIndex?>, tip: BlockIndex, p: BlockIndex)
    requires was != [] ==> IsChainOf(was, was[|was| - 1])
    requires tip.Valid() && p.Valid() && p.nHeight <= tip.nHeight && tip.Walk(p.nHeight) == p
    requires p.nHeight < |was| && was[p.nHeight] == p
    ensures forall h :: 0 <= h <= p.nHeight ==> was[h] == tip.Walk(h)
  {
    var oldTip := was[|was| - 1];
    forall h | 0 <= h <= p.nHeight ensures was[h] == tip.Walk(h) {
      oldTip.Onward(p.nHeight, h);
      tip.Onward(p.nHeight, h);
    }
  }
}
