/**
What the Lelantus coin state holds after any run of connected blocks, said in terms of the blocks and
the block index alone: which coins, tags and serials are known and with what, how much each group
counts, where groups begin and end, when a new one is started, and which coins it shares.
*/
module LelantusRun {
  import opened LelantusSpec
  import opened Surge
  import opened Basics

  // ---------------------------------------------------------------------------------------------
  // Coins and tags

  ghost predicate HasCoin(ms: seq<Mint>, c: PubCoin) {
    exists j :: 0 <= j < |ms| && ms[j].coin == c
  }

  lemma {:induction false} CoinsAdded(s: State, ms: seq<Mint>, info: CoinInfo, c: PubCoin)
    ensures var a := AddMints(s, ms, info);
      && (c in a.coins <==> c in s.coins || HasCoin(ms, c))
      && (c in a.coins ==> a.coins[c] == if c in s.coins then s.coins[c] else info)
  {
    if ms != [] {
      var init, m := ms[..|ms| - 1], ms[|ms| - 1];
      CoinsAdded(s, init, info, c);
      assert HasCoin(ms, c) <==> HasCoin(init, c) || m.coin == c by {
        assert ms[|ms| - 1] == m && forall j :: 0 <= j < |init| ==> ms[j] == init[j];
      }
    }
  }

  /** A coin is known exactly if a block minted it, with that block's height and its group, for the first such block. */
  ghost predicate CoinsAre(coins: map<PubCoin, CoinInfo>, chain: seq<TxInfo>, indexes: seq<Index>, c: PubCoin)
    requires |indexes| == |chain|
  {
    && (c in coins ==> exists n :: 0 <= n < |chain| && HasCoin(chain[n].mints, c))
    && (forall n :: 0 <= n < |chain| && HasCoin(chain[n].mints, c) ==> c in coins && coins[c].height <= n)
    && (c in coins ==>
         && coins[c].height < |chain| && HasCoin(chain[coins[c].height].mints, c)
         && indexes[coins[c].height].minted == map[coins[c].group := chain[coins[c].height].mints])
  }

  /** A block's mints change the chosen group, the coins, the tags and the group's count. */
  lemma MintsRest(lim: Limits, b: State, indexes: seq<Index>, mints: seq<Mint>)
    requires mints != []
    ensures var g := AssignGroup(lim, b, indexes, |indexes|, |mints|);
      var a, m := ConnectMints(lim, b, indexes, mints), AddMints(b, mints, CoinInfo(g.latest, |indexes|));
      && a == g.(coins := m.coins, tags := m.tags, mint := m.mint)
      && g == b.(groups := g.groups, latest := g.latest, ext := g.ext)
      && m.mint == b.mint[g.latest := At(b.mint, g.latest) + |mints|]
  {
    hide AddMints, AssignGroup;
    AssignExt(lim, b, indexes, |indexes|, |mints|);
    var g := AssignGroup(lim, b, indexes, |indexes|, |mints|);
    AddMintsEffect(g, b, mints, CoinInfo(g.latest, |indexes|));
  }

  /** Connecting a block, and what it leaves alone. */
  lemma ConnectedRest(lim: Limits, s: State, indexes: seq<Index>, info: TxInfo)
    ensures var (a, index) := Connect(lim, s, indexes, info); var b := AddSpends(s, info.spends);
      && b == s.(used := b.used, spend := b.spend) && a.used == b.used && a.spend == b.spend
      && index.spent == info.spends
      && (info.mints == [] ==> a == b && index.minted == map[])
      && (info.mints != [] ==> index.minted == map[a.latest := info.mints])
      && var m := AddMints(b, info.mints, CoinInfo(a.latest, |indexes|)); a.coins == m.coins && a.tags == m.tags
  {
    hide AddMints, AssignGroup, AddSpends, ConnectMints;
    SpendsOnly(s, info.spends);
    var b := AddSpends(s, info.spends);
    if info.mints != [] {
      MintsRest(lim, b, indexes, info.mints);
    } else {
      NoMintsAdded(b, CoinInfo(b.latest, |indexes|));
    }
  }

  lemma NoMintsAdded(b: State, info: CoinInfo)
    ensures AddMints(b, [], info) == b
  {
  }

  lemma SpendsOnly(s: State, spends: map<Serial, int>)
    ensures var b := AddSpends(s, spends); b == s.(used := b.used, spend := b.spend)
  {
  }

  lemma {:induction false} RunCoins(lim: Limits, chain: seq<TxInfo>, c: PubCoin)
    ensures var (s, indexes) := Run(lim, chain); |indexes| == |chain| && CoinsAre(s.coins, chain, indexes, c)
  {
    hide Connect, HasCoin, AddSpends, AddMints;
    if chain != [] {
      var init, info := chain[..|chain| - 1], chain[|chain| - 1];
      var (s, indexes) := Run(lim, init);
      var (a, index) := Connect(lim, s, indexes, info);
      RunCoins(lim, init, c);
      ConnectedRest(lim, s, indexes, info);
      CoinsAdded(AddSpends(s, info.spends), info.mints, CoinInfo(a.latest, |indexes|), c);
      NoCoins(c);
      assert forall n :: 0 <= n < |init| ==> chain[n] == init[n];
    }
  }

  lemma NoCoins(c: PubCoin)
    ensures !HasCoin([], c)
  {
  }

  /** The first of a list's mints with a tag. */
  ghost predicate FirstTag(ms: seq<Mint>, j: int, t: Tag) {
    0 <= j < |ms| && ms[j].tag == t && forall k :: 0 <= k < j ==> ms[k].tag != t
  }

  lemma {:induction false} TagsAdded(s: State, ms: seq<Mint>, info: CoinInfo, t: Tag)
    ensures var a := AddMints(s, ms, info);
      && (t in s.tags ==> t in a.tags && a.tags[t] == s.tags[t])
      && (t !in s.tags ==>
           && (t in a.tags ==> exists j :: FirstTag(ms, j, t) && a.tags[t] == ms[j].coin)
           && (forall j :: FirstTag(ms, j, t) ==> t in a.tags && a.tags[t] == ms[j].coin))
  {
    if ms != [] {
      var init, m := ms[..|ms| - 1], ms[|ms| - 1];
      var a, b := AddMints(s, ms, info), AddMints(s, init, info);
      TagsAdded(s, init, info, t);
      assert forall j :: 0 <= j < |init| ==> ms[j] == init[j];
      if t !in s.tags {
        forall j | FirstTag(ms, j, t) ensures t in a.tags && a.tags[t] == ms[j].coin {
          if j < |init| {
            assert FirstTag(init, j, t);
          }
        }
        if t in a.tags {
          if t in b.tags {
            var i :| FirstTag(init, i, t) && b.tags[t] == init[i].coin;
            assert FirstTag(ms, i, t);
          } else {
            assert forall k :: 0 <= k < |init| ==> init[k].tag != t by {
              NoFirst(init, t);
            }
            assert FirstTag(ms, |init|, t);
          }
        }
      }
    }
  }

  lemma {:induction false} NoFirst(ms: seq<Mint>, t: Tag)
    requires forall j :: !FirstTag(ms, j, t)
    ensures forall k :: 0 <= k < |ms| ==> ms[k].tag != t
  {
    var k := 0;
    while k < |ms|
      invariant k <= |ms| && forall i :: 0 <= i < k ==> ms[i].tag != t
    {
      assert !FirstTag(ms, k, t);
      k := k + 1;
    }
  }

  /** A tag leads to the coin that was minted with it first. */
  ghost predicate TagsAre(tags: map<Tag, PubCoin>, chain: seq<TxInfo>, t: Tag) {
    && (t in tags ==> exists n, j :: TagFrom(chain, n, j, t) && tags[t] == chain[n].mints[j].coin)
    && (forall n, j :: TagFrom(chain, n, j, t) ==> t in tags && tags[t] == chain[n].mints[j].coin)
  }

  ghost predicate TagFrom(chain: seq<TxInfo>, n: int, j: int, t: Tag) {
    && 0 <= n < |chain| && FirstTag(chain[n].mints, j, t)
    && forall m, k :: 0 <= m < n && 0 <= k < |chain[m].mints| ==> chain[m].mints[k].tag != t
  }

  lemma {:induction false} RunTags(lim: Limits, chain: seq<TxInfo>, t: Tag)
    ensures TagsAre(Run(lim, chain).0.tags, chain, t)
  {
    hide Connect, TagsAre, FirstTag, AddSpends, AddMints;
    if chain == [] {
      assert TagsAre(map[], chain, t) by { NoTags(t); }
    } else {
      var init, info := chain[..|chain| - 1], chain[|chain| - 1];
      var (s, indexes) := Run(lim, init);
      var (a, index) := Connect(lim, s, indexes, info);
      RunTags(lim, init, t);
      ConnectedRest(lim, s, indexes, info);
      TagsAdded(AddSpends(s, info.spends), info.mints, CoinInfo(a.latest, |indexes|), t);
      assert chain == init + [info];
      TagsNext(s.tags, a.tags, init, info, t);
    }
  }

  lemma NoTags(t: Tag)
    ensures TagsAre(map[], [], t)
  {
  }

  lemma TagsNext(was: map<Tag, PubCoin>, tags: map<Tag, PubCoin>, init: seq<TxInfo>, info: TxInfo, t: Tag)
    requires TagsAre(was, init, t)
    requires t in was ==> t in tags && tags[t] == was[t]
    requires t !in was && t in tags ==> exists j :: FirstTag(info.mints, j, t) && tags[t] == info.mints[j].coin
    requires t !in was ==> forall j :: FirstTag(info.mints, j, t) ==> t in tags && tags[t] == info.mints[j].coin
    ensures TagsAre(tags, init + [info], t)
  {
    var chain := init + [info];
    assert forall n :: 0 <= n < |init| ==> chain[n] == init[n];
    forall n, j | TagFrom(chain, n, j, t) ensures t in tags && tags[t] == chain[n].mints[j].coin {
      if n < |init| {
        assert TagFrom(init, n, j, t);
      }
    }
    if t in was {
      var m, k :| TagFrom(init, m, k, t) && was[t] == init[m].mints[k].coin;
      assert TagFrom(chain, m, k, t);
    } else if t in tags {
      var j :| FirstTag(info.mints, j, t) && tags[t] == info.mints[j].coin;
      forall m, k | 0 <= m < |init| && 0 <= k < |init[m].mints| ensures init[m].mints[k].tag != t {
        NotTagged(was, init, t, m, k);
      }
      assert TagFrom(chain, |init|, j, t);
    }
  }

  lemma NotTagged(was: map<Tag, PubCoin>, chain: seq<TxInfo>, t: Tag, m: int, k: int)
    requires 0 <= m && 0 <= k && TagsAre(was, chain, t) && t !in was && m < |chain| && k < |chain[m].mints|
    ensures chain[m].mints[k].tag != t
  {
    var n := 0;
    while n <= m
      invariant n <= m + 1 && forall x, y :: 0 <= x < n && 0 <= y < |chain[x].mints| ==> chain[x].mints[y].tag != t
    {
      forall j ensures !FirstTag(chain[n].mints, j, t) {
        assert !TagFrom(chain, n, j, t);
      }
      NoFirst(chain[n].mints, t);
      n := n + 1;
    }
  }

  // ---------------------------------------------------------------------------------------------
  // Spends

  /** Some block before the n-th put coins into a group. */
  ghost predicate Begun(indexes: seq<Index>, n: int, g: int) {
    exists m :: 0 <= m < n <= |indexes| && g in indexes[m].minted
  }

  lemma BegunNext(indexes: seq<Index>, index: Index, g: int)
    ensures Begun(indexes + [index], |indexes| + 1, g) <==> Begun(indexes, |indexes|, g) || g in index.minted
    ensures forall n :: n <= |indexes| ==> (Begun(indexes + [index], n, g) <==> Begun(indexes, n, g))
  {
    var more := indexes + [index];
    assert forall m :: 0 <= m < |indexes| ==> more[m] == indexes[m];
    assert more[|indexes|] == index;
  }

  /** The groups that count coins are those that some block put coins into. */
  lemma {:induction false} RunMints(lim: Limits, chain: seq<TxInfo>, g: int)
    ensures var (s, indexes) := Run(lim, chain); |indexes| == |chain| && (g in s.mint <==> Begun(indexes, |chain|, g))
  {
    hide Connect, Begun, AddSpends, AssignGroup, AddMints;
    if chain == [] {
      assert !Begun([], 0, g) by { NoneBegun(g); }
    } else {
      var init, info := chain[..|chain| - 1], chain[|chain| - 1];
      var (s, indexes) := Run(lim, init);
      var (a, index) := Connect(lim, s, indexes, info);
      RunMints(lim, init, g);
      ConnectedMints(lim, s, indexes, info);
      BegunNext(indexes, index, g);
    }
  }

  lemma NoneBegun(g: int)
    ensures !Begun([], 0, g)
  {
  }

  lemma ConnectedMints(lim: Limits, s: State, indexes: seq<Index>, info: TxInfo)
    ensures var (a, index) := Connect(lim, s, indexes, info);
      && (info.mints == [] ==> a.mint == s.mint && index.minted == map[])
      && (info.mints != [] ==>
           index.minted == map[a.latest := info.mints] &&
           a.mint == s.mint[a.latest := At(s.mint, a.latest) + |info.mints|])
  {
    hide AddMints, AssignGroup, AddSpends, ConnectMints;
    ConnectedRest(lim, s, indexes, info);
    if info.mints != [] {
      MintsRest(lim, AddSpends(s, info.spends), indexes, info.mints);
    }
  }

  /** A block's spend of a serial counts: its group has begun in an earlier block. */
  ghost predicate SpendCounts(chain: seq<TxInfo>, indexes: seq<Index>, n: int, x: Serial) {
    0 <= n < |chain| && x in chain[n].spends && Begun(indexes, n, chain[n].spends[x])
  }

  /** A serial is used exactly if some spend of it counts, with the group of the last such spend. */
  ghost predicate UsedIs(used: map<Serial, int>, chain: seq<TxInfo>, indexes: seq<Index>, x: Serial) {
    && (x in used <==> exists n :: SpendCounts(chain, indexes, n, x))
    && (forall n :: SpendCounts(chain, indexes, n, x) && (forall m :: m > n ==> !SpendCounts(chain, indexes, m, x)) ==>
         x in used && used[x] == chain[n].spends[x])
  }

  lemma {:induction false} RunUsed(lim: Limits, chain: seq<TxInfo>, x: Serial)
    ensures var (s, indexes) := Run(lim, chain); UsedIs(s.used, chain, indexes, x)
  {
    hide Connect, Begun, AddMints, AddSpends, UsedIs;
    if chain == [] {
      NoneUsed(x);
    } else {
      var init, info := chain[..|chain| - 1], chain[|chain| - 1];
      var (s, indexes) := Run(lim, init);
      var (a, index) := Connect(lim, s, indexes, info);
      RunUsed(lim, init, x);
      ConnectedRest(lim, s, indexes, info);
      SpendsEnter(s, info.spends);
      if x in info.spends {
        RunMints(lim, init, info.spends[x]);
      }
      RunLength(lim, init);
      UsedNext(s.used, a.used, s.mint, init, info, indexes, index, x);
      assert chain == init + [info];
    }
  }

  lemma NoneUsed(x: Serial)
    ensures UsedIs(map[], [], [], x)
  {
  }

  lemma SpendsEnter(s: State, spends: map<Serial, int>)
    ensures AddSpends(s, spends).used == s.used + Known(s.mint, spends)
  {
  }

  lemma {:induction false} RunLength(lim: Limits, chain: seq<TxInfo>)
    ensures |Run(lim, chain).1| == |chain|
  {
    if chain != [] {
      RunLength(lim, chain[..|chain| - 1]);
    }
  }

  lemma UsedNext(was: map<Serial, int>, used: map<Serial, int>, mint: Counts, init: seq<TxInfo>, info: TxInfo,
                 indexes: seq<Index>, index: Index, x: Serial)
    requires |indexes| == |init| && UsedIs(was, init, indexes, x) && used == was + Known(mint, info.spends)
    requires x in info.spends ==> (info.spends[x] in mint <==> Begun(indexes, |init|, info.spends[x]))
    ensures UsedIs(used, init + [info], indexes + [index], x)
  {
    hide Begun;
    var chain, more := init + [info], indexes + [index];
    forall n ensures SpendCounts(chain, more, n, x) <==>
      SpendCounts(init, indexes, n, x) || (n == |init| && x in Known(mint, info.spends))
    {
      if 0 <= n < |init| {
        assert chain[n] == init[n];
        if x in chain[n].spends {
          BegunNext(indexes, index, chain[n].spends[x]);
        }
      } else if n == |init| && x in info.spends {
        BegunNext(indexes, index, info.spends[x]);
      }
    }
    assert x in Known(mint, info.spends) ==> SpendCounts(chain, more, |init|, x);
    assert forall n :: SpendCounts(init, indexes, n, x) ==> SpendCounts(chain, more, n, x) && chain[n] == init[n];
  }

  /** How many spends of a group count in the first n blocks. */
  ghost function SpentOf(chain: seq<TxInfo>, indexes: seq<Index>, n: nat, g: int): nat
    requires n <= |chain|
  {
    if n == 0 then 0
    else SpentOf(chain, indexes, n - 1, g) + if Begun(indexes, n - 1, g) then |SpentFrom(chain[n - 1].spends, g)| else 0
  }

  lemma {:induction false} SpentOfPrefix(init: seq<TxInfo>, info: TxInfo, indexes: seq<Index>, index: Index, n: nat,
                                         g: int)
    requires n <= |init| == |indexes|
    ensures SpentOf(init + [info], indexes + [index], n, g) == SpentOf(init, indexes, n, g)
  {
    hide Begun, SpentFrom;
    if n > 0 {
      SpentOfPrefix(init, info, indexes, index, n - 1, g);
      BegunNext(indexes, index, g);
    }
  }

  lemma {:induction false} RunSpends(lim: Limits, chain: seq<TxInfo>, g: int)
    ensures var (s, indexes) := Run(lim, chain); At(s.spend, g) == SpentOf(chain, indexes, |chain|, g)
  {
    hide Connect, Begun, AddMints, AssignGroup, SpentFrom, AddSpends;
    if chain != [] {
      var init, info := chain[..|chain| - 1], chain[|chain| - 1];
      var (s, indexes) := Run(lim, init);
      var (a, index) := Connect(lim, s, indexes, info);
      RunSpends(lim, init, g);
      RunMints(lim, init, g);
      ConnectedRest(lim, s, indexes, info);
      SpendsCounted(s, info.spends, g);
      BegunNext(indexes, index, g);
      SpentOfPrefix(init, info, indexes, index, |init|, g);
      assert chain == init + [info];
    }
  }

  // ---------------------------------------------------------------------------------------------
  // The shared tail of a group

  /**
  The last coins of a group: those of the fewest last blocks that have the required number, or all of
  them; and the first of these blocks, if there is one.
  */
  ghost predicate IsTail(indexes: seq<Index>, g: int, required: nat, tail: (nat, Option<nat>)) {
    match tail.1
    case None => tail.0 == 0 && (required == 0 || SumIn(indexes, g) == 0)
    case Some(f) =>
      && f < |indexes| && CoinsIn(indexes[f], g) > 0 && tail.0 == SumIn(indexes, g) - SumIn(indexes[..f], g)
      && tail.0 - CoinsIn(indexes[f], g) < required && (tail.0 >= required || SumIn(indexes[..f], g) == 0)
  }

  /** The walk after blocks k to top. */
  ghost predicate Walked(indexes: seq<Index>, top: nat, k: nat, g: int, required: nat, coins: nat, first: Option<nat>)
    requires k <= top <= |indexes|
  {
    && coins == SumIn(indexes[..top], g) - SumIn(indexes[..k], g)
    && match first
       case None => coins == 0
       case Some(f) =>
         && k <= f < top && CoinsIn(indexes[f], g) > 0 && SumIn(indexes[..f], g) == SumIn(indexes[..k], g)
         && coins - CoinsIn(indexes[f], g) < required
  }

  lemma SumNext(indexes: seq<Index>, k: nat, g: int)
    requires k < |indexes|
    ensures SumIn(indexes[..k + 1], g) == SumIn(indexes[..k], g) + CoinsIn(indexes[k], g)
  {
    assert indexes[..k + 1][..k] == indexes[..k];
  }

  lemma {:induction false} BackIsTail(indexes: seq<Index>, top: nat, k: nat, g: int, required: nat, coins: nat,
                                      first: Option<nat>)
    requires k <= top <= |indexes| && Walked(indexes, top, k, g, required, coins, first)
    ensures IsTail(indexes[..top], g, required, CountBack(indexes, k, g, required, coins, first))
    decreases k
  {
    hide CoinsIn;
    if k == 0 || coins >= required {
      assert SumIn(indexes[..0], g) == 0;
      if first.Some? {
        assert indexes[..top][..first.value] == indexes[..first.value];
      }
    } else {
      var n := CoinsIn(indexes[k - 1], g);
      SumNext(indexes, k - 1, g);
      BackIsTail(indexes, top, k - 1, g, required, coins + n, if n > 0 then Some(k - 1) else first);
    }
  }

  /** A group's last block, or none. */
  ghost predicate LastIs(indexes: seq<Index>, g: int, last: Option<nat>) {
    match last
    case None => forall h :: 0 <= h < |indexes| ==> CoinsIn(indexes[h], g) == 0
    case Some(l) =>
      l < |indexes| && CoinsIn(indexes[l], g) > 0 && forall h :: l < h < |indexes| ==> CoinsIn(indexes[h], g) == 0
  }

  lemma {:induction false} SumStops(indexes: seq<Index>, k: nat, g: int)
    requires k <= |indexes| && forall h :: k <= h < |indexes| ==> CoinsIn(indexes[h], g) == 0
    ensures SumIn(indexes, g) == SumIn(indexes[..k], g)
    decreases |indexes| - k
  {
    if k < |indexes| {
      SumStops(indexes, k + 1, g);
      SumNext(indexes, k, g);
    } else {
      assert indexes[..k] == indexes;
    }
  }

  /** CountLastNCoins finds the tail of a group whose last block is right. */
  lemma CountsTail(s: State, indexes: seq<Index>, g: int, required: nat)
    requires LastIs(indexes, g, GroupOf(s, g).last)
    ensures IsTail(indexes, g, required, CountLastNCoins(s, indexes, g, required))
  {
    hide CoinsIn, SumIn;
    var last := GroupOf(s, g).last;
    assert indexes[..0] == [];
    if last.None? {
      SumStops(indexes, 0, g);
      assert SumIn([], g) == 0 by { SumOfNone(g); }
    } else {
      var top := last.value + 1;
      SumStops(indexes, top, g);
      BackIsTail(indexes, top, top, g, required, 0, None);
      WholeTail(indexes, top, g, required, CountLastNCoins(s, indexes, g, required));
    }
  }

  lemma SumOfNone(g: int)
    ensures SumIn([], g) == 0
  {
  }

  lemma WholeTail(indexes: seq<Index>, top: nat, g: int, required: nat, tail: (nat, Option<nat>))
    requires top <= |indexes| && SumIn(indexes, g) == SumIn(indexes[..top], g)
    requires IsTail(indexes[..top], g, required, tail)
    ensures IsTail(indexes, g, required, tail)
  {
    hide SumIn, CoinsIn;
    if tail.1.Some? {
      assert indexes[..top][..tail.1.value] == indexes[..tail.1.value];
    }
  }

  // ---------------------------------------------------------------------------------------------
  // The groups

  /** The first block with coins of a group. */
  ghost predicate FirstOf(indexes: seq<Index>, n: int, g: int) {
    0 <= n < |indexes| && CoinsIn(indexes[n], g) > 0 && forall h :: 0 <= h < n ==> CoinsIn(indexes[h], g) == 0
  }

  /**
  A group begins with its first block; but every group after the first one shares the tail that the one
  before had at that time, and then begins with the first block of that.
  */
  ghost predicate StartsAt(lim: Limits, indexes: seq<Index>, ext: Counts, g: int, first: Option<nat>, n: int) {
    && FirstOf(indexes, n, g)
    && if g < 2 then g !in ext && first == Some(n)
       else
         && g in ext
         && exists t: Option<nat> ::
              IsTail(indexes[..n], g - 1, lim.startGroupSize, (ext[g], t)) && first == Or(t, n)
  }

  /** A group's entry: its coins and the shared ones, its last block, and where it begins. */
  ghost predicate GroupIs(lim: Limits, indexes: seq<Index>, ext: Counts, g: int, group: Group) {
    && group.nCoins == At(ext, g) + SumIn(indexes, g) && LastIs(indexes, g, group.last)
    && exists n :: StartsAt(lim, indexes, ext, g, group.first, n)
  }

  ghost predicate Described(lim: Limits, s: State, indexes: seq<Index>) {
    && (forall g :: g in s.mint ==> g in s.groups && GroupIs(lim, indexes, s.ext, g, s.groups[g]))
    && (forall g :: g !in s.mint ==> LastIs(indexes, g, None))
    && (forall g :: g in s.ext <==> 2 <= g <= s.latest)
  }

  lemma StartStays(lim: Limits, indexes: seq<Index>, index: Index, ext: Counts, after: Counts, g: int,
                   first: Option<nat>, n: int)
    requires StartsAt(lim, indexes, ext, g, first, n) && (g in ext <==> g in after) && (g in ext ==> ext[g] == after[g])
    ensures StartsAt(lim, indexes + [index], after, g, first, n)
  {
    hide CoinsIn, IsTail;
    var more := indexes + [index];
    assert forall h :: 0 <= h <= n ==> more[h] == indexes[h];
    assert more[..n] == indexes[..n];
  }

  lemma SumMore(indexes: seq<Index>, index: Index, g: int)
    ensures SumIn(indexes + [index], g) == SumIn(indexes, g) + CoinsIn(index, g)
  {
    SumAppend(indexes, index);
  }

  /** A group that a block leaves alone. */
  lemma GroupStays(lim: Limits, indexes: seq<Index>, index: Index, ext: Counts, after: Counts, g: int, group: Group)
    requires GroupIs(lim, indexes, ext, g, group) && CoinsIn(index, g) == 0
    requires (g in ext <==> g in after) && (g in ext ==> ext[g] == after[g])
    ensures GroupIs(lim, indexes + [index], after, g, group)
  {
    hide CoinsIn, StartsAt, SumIn;
    SumMore(indexes, index, g);
    LastStays(indexes, index, g, group.last);
    var n :| StartsAt(lim, indexes, ext, g, group.first, n);
    StartStays(lim, indexes, index, ext, after, g, group.first, n);
  }

  lemma LastStays(indexes: seq<Index>, index: Index, g: int, last: Option<nat>)
    requires LastIs(indexes, g, last) && CoinsIn(index, g) == 0
    ensures LastIs(indexes + [index], g, last)
  {
    hide CoinsIn;
    var more := indexes + [index];
    assert forall h :: 0 <= h < |indexes| ==> more[h] == indexes[h];
  }

  lemma NoneIn(indexes: seq<Index>, g: int)
    requires LastIs(indexes, g, None)
    ensures SumIn(indexes, g) == 0
  {
    SumStops(indexes, 0, g);
    assert indexes[..0] == [];
  }

  /** The group that a block's coins join. */
  lemma GroupJoined(lim: Limits, indexes: seq<Index>, index: Index, ext: Counts, g: int, group: Group)
    requires GroupIs(lim, indexes, ext, g, group) && CoinsIn(index, g) > 0
    ensures GroupIs(lim, indexes + [index], ext, g,
                    Group(group.first, Some(|indexes|), group.nCoins + CoinsIn(index, g)))
  {
    hide CoinsIn, StartsAt, SumIn;
    SumMore(indexes, index, g);
    assert (indexes + [index])[|indexes|] == index;
    var n :| StartsAt(lim, indexes, ext, g, group.first, n);
    StartStays(lim, indexes, index, ext, ext, g, group.first, n);
  }

  /** A group that begins with this block: the first one, or one that shares a tail. */
  lemma GroupBegins(lim: Limits, indexes: seq<Index>, index: Index, ext: Counts, g: int, t: Option<nat>)
    requires LastIs(indexes, g, None) && CoinsIn(index, g) > 0
    requires if g < 2 then g !in ext && t == None
             else g in ext && IsTail(indexes, g - 1, lim.startGroupSize, (ext[g], t))
    ensures GroupIs(lim, indexes + [index], ext, g,
                    Group(Or(t, |indexes|), Some(|indexes|), At(ext, g) + CoinsIn(index, g)))
  {
    hide CoinsIn, IsTail, SumIn;
    var more := indexes + [index];
    SumMore(indexes, index, g);
    NoneIn(indexes, g);
    assert more[|indexes|] == index && more[..|indexes|] == indexes;
    assert forall h :: 0 <= h < |indexes| ==> more[h] == indexes[h];
    assert StartsAt(lim, more, ext, g, Or(t, |indexes|), |indexes|);
  }

  /** The latest group, as it is found when a block is connected. */
  lemma LatestDescribed(lim: Limits, s: State, indexes: seq<Index>)
    requires Good(s, |indexes|) && Described(lim, s, indexes)
    ensures var id, g := Latest(s), GroupOf(s, Latest(s));
      && LastIs(indexes, id, g.last) && g.nCoins == At(s.ext, id) + SumIn(indexes, id)
      && (id in s.mint ==> g != NO_GROUP && g.nCoins > 0 && GroupIs(lim, indexes, s.ext, id, g))
      && (id !in s.mint ==> g == NO_GROUP && id == 1 && s.latest == 0)
      && id + 1 !in s.mint && id + 1 !in s.ext && s.latest >= 0
  {
    hide GroupIs, LastIs;
    LatestGroup(s, |indexes|);
    var id := Latest(s);
    if id in s.mint {
      assert GroupIs(lim, indexes, s.ext, id, s.groups[id]);
      EntryIs(lim, indexes, s.ext, id, s.groups[id]);
    } else {
      NoneIn(indexes, id);
    }
  }

  lemma EntryIs(lim: Limits, indexes: seq<Index>, ext: Counts, g: int, group: Group)
    requires GroupIs(lim, indexes, ext, g, group)
    ensures group.nCoins == At(ext, g) + SumIn(indexes, g) && LastIs(indexes, g, group.last)
  {
  }

  lemma JoinedDescribed(lim: Limits, s: State, indexes: seq<Index>, a: State, index: Index, mints: seq<Mint>)
    requires Good(s, |indexes|) && Described(lim, s, indexes) && mints != []
    requires index.minted == map[Latest(s) := mints]
    requires var j := Joined(s, Latest(s), |indexes|, |mints|);
      && a.groups == j.groups && a.latest == j.latest && a.ext == j.ext
      && a.mint == s.mint[Latest(s) := At(s.mint, Latest(s)) + |mints|]
    ensures Described(lim, a, indexes + [index])
  {
    hide GroupIs, LastIs;
    LatestDescribed(lim, s, indexes);
    var id, g := Latest(s), GroupOf(s, Latest(s));
    forall x | x in a.mint ensures x in a.groups && GroupIs(lim, indexes + [index], a.ext, x, a.groups[x]) {
      if x != id {
        GroupStays(lim, indexes, index, s.ext, a.ext, x, s.groups[x]);
      } else if id in s.mint {
        GroupJoined(lim, indexes, index, s.ext, id, g);
      } else {
        GroupBegins(lim, indexes, index, s.ext, id, None);
      }
    }
    forall x | x !in a.mint ensures LastIs(indexes + [index], x, None) {
      LastStays(indexes, index, x, None);
    }
  }

  lemma StartedDescribed(lim: Limits, s: State, indexes: seq<Index>, a: State, index: Index, mints: seq<Mint>)
    requires Good(s, |indexes|) && Described(lim, s, indexes) && mints != []
    requires index.minted == map[Latest(s) + 1 := mints]
    requires var id := Latest(s); var tail := CountLastNCoins(s, indexes, id, lim.startGroupSize);
      var j := Started(s.(groups := s.groups[id := GroupOf(s, id)]), id + 1, |indexes|, |mints|, tail);
      && a.groups == j.groups && a.latest == j.latest && a.ext == j.ext
      && a.mint == s.mint[id + 1 := At(s.mint, id + 1) + |mints|]
    ensures Described(lim, a, indexes + [index])
  {
    hide GroupIs, LastIs, CountLastNCoins, IsTail;
    LatestDescribed(lim, s, indexes);
    var id := Latest(s);
    var tail := CountLastNCoins(s, indexes, id, lim.startGroupSize);
    CountsTail(s, indexes, id, lim.startGroupSize);
    forall x | x in a.mint ensures x in a.groups && GroupIs(lim, indexes + [index], a.ext, x, a.groups[x]) {
      if x != id + 1 {
        GroupStays(lim, indexes, index, s.ext, a.ext, x, s.groups[x]);
      } else {
        GroupBegins(lim, indexes, index, a.ext, id + 1, tail.1);
      }
    }
    forall x | x !in a.mint ensures LastIs(indexes + [index], x, None) {
      LastStays(indexes, index, x, None);
    }
  }

  lemma IdleDescribed(lim: Limits, s: State, indexes: seq<Index>, a: State, index: Index)
    requires Described(lim, s, indexes) && index.minted == map[]
    requires a.groups == s.groups && a.latest == s.latest && a.ext == s.ext && a.mint == s.mint
    ensures Described(lim, a, indexes + [index])
  {
    hide GroupIs, LastIs;
    forall x | x in a.mint ensures x in a.groups && GroupIs(lim, indexes + [index], a.ext, x, a.groups[x]) {
      GroupStays(lim, indexes, index, s.ext, a.ext, x, s.groups[x]);
    }
    forall x | x !in a.mint ensures LastIs(indexes + [index], x, None) {
      LastStays(indexes, index, x, None);
    }
  }

  /** Two states with the same groups. */
  ghost predicate SameGrouping(i: State, j: State) {
    i.groups == j.groups && i.latest == j.latest && i.ext == j.ext
  }

  lemma TailSame(s: State, b: State, indexes: seq<Index>, id: int, required: nat)
    requires SameGrouping(s, b)
    ensures CountLastNCoins(s, indexes, id, required) == CountLastNCoins(b, indexes, id, required)
  {
    hide CountBack;
  }

  lemma JoinedSame(s: State, b: State, id: int, h: nat, k: nat)
    requires SameGrouping(s, b)
    ensures SameGrouping(Joined(s, id, h, k), Joined(b, id, h, k))
  {
  }

  lemma StartedSame(s: State, b: State, id: int, h: nat, k: nat, tail: (nat, Option<nat>))
    requires SameGrouping(s, b)
    ensures SameGrouping(Started(s, id, h, k, tail), Started(b, id, h, k, tail))
  {
  }

  lemma AssignSame(lim: Limits, s: State, b: State, indexes: seq<Index>, h: nat, k: nat)
    requires SameGrouping(s, b)
    ensures SameGrouping(AssignGroup(lim, s, indexes, h, k), AssignGroup(lim, b, indexes, h, k))
  {
    hide AssignGroup, Joined, Started, CountLastNCoins;
    var id := Latest(s);
    AssignIs(lim, s, indexes, h, k);
    AssignIs(lim, b, indexes, h, k);
    TailSame(s, b, indexes, id, lim.startGroupSize);
    JoinedSame(s, b, id, h, k);
    var groups := s.groups[id := GroupOf(s, id)];
    StartedSame(s.(groups := groups), b.(groups := groups), id + 1, h, k,
                CountLastNCoins(s, indexes, id, lim.startGroupSize));
  }

  /** A block's coins go into the group that is chosen for them; its spends do not matter there. */
  lemma ConnectedGroup(lim: Limits, s: State, indexes: seq<Index>, info: TxInfo)
    requires info.mints != []
    ensures var (a, index) := Connect(lim, s, indexes, info); var k := |info.mints|;
      var j := AssignGroup(lim, s, indexes, |indexes|, k);
      && a.groups == j.groups && a.latest == j.latest && a.ext == j.ext && index.minted == map[a.latest := info.mints]
      && a.mint == s.mint[a.latest := At(s.mint, a.latest) + k]
  {
    hide AddMints, AssignGroup, AddSpends, ConnectMints;
    ConnectedRest(lim, s, indexes, info);
    var b := AddSpends(s, info.spends);
    MintsRest(lim, b, indexes, info.mints);
    AssignSame(lim, s, b, indexes, |indexes|, |info.mints|);
  }

  lemma StepDescribed(lim: Limits, s: State, indexes: seq<Index>, info: TxInfo)
    requires Good(s, |indexes|) && Described(lim, s, indexes)
    ensures var (a, index) := Connect(lim, s, indexes, info); Described(lim, a, indexes + [index])
  {
    hide Connect, AddSpends, Described, CountLastNCoins, AddMints, AssignGroup, Joined, Started, Good;
    var (a, index) := Connect(lim, s, indexes, info);
    if info.mints == [] {
      ConnectedRest(lim, s, indexes, info);
      IdleDescribed(lim, s, indexes, a, index);
    } else {
      ConnectedGroup(lim, s, indexes, info);
      AssignIs(lim, s, indexes, |indexes|, |info.mints|);
      if GroupOf(s, Latest(s)).nCoins + |info.mints| <= lim.maxCoinInGroup {
        JoinedRest(s, Latest(s), |indexes|, |info.mints|);
        JoinedDescribed(lim, s, indexes, a, index, info.mints);
      } else {
        var tail := CountLastNCoins(s, indexes, Latest(s), lim.startGroupSize);
        StartedRest(s, Latest(s), |indexes|, |info.mints|, tail);
        StartedDescribed(lim, s, indexes, a, index, info.mints);
      }
    }
  }

  /** After any run every group's entry is what the index says it is. */
  lemma {:induction false} RunDescribed(lim: Limits, chain: seq<TxInfo>)
    ensures var (s, indexes) := Run(lim, chain);
      |indexes| == |chain| && Good(s, |indexes|) && Described(lim, s, indexes)
  {
    hide Connect, Good, Described;
    RunMirrors(lim, chain);
    if chain == [] {
      NothingDescribed(lim);
    } else {
      var init, info := chain[..|chain| - 1], chain[|chain| - 1];
      var (s, indexes) := Run(lim, init);
      RunDescribed(lim, init);
      StepDescribed(lim, s, indexes, info);
    }
  }

  lemma NothingDescribed(lim: Limits)
    ensures Described(lim, EMPTY, [])
  {
  }

  // ---------------------------------------------------------------------------------------------
  // When a new group is started

  /** The group of the last block with mints before the n-th, or the first group. */
  ghost predicate PrevIs(indexes: seq<Index>, n: int, p: int) {
    && n <= |indexes|
    && ((p == 1 && forall h :: 0 <= h < n ==> indexes[h].minted == map[])
        || exists m :: 0 <= m < n && p in indexes[m].minted && forall h :: m < h < n ==> indexes[h].minted == map[])
  }

  /** A block's mints are in one group. */
  ghost predicate OneGroupEach(indexes: seq<Index>) {
    && (forall m, g :: 0 <= m < |indexes| && g in indexes[m].minted ==> indexes[m].minted[g] != [])
    && forall m, g, h :: 0 <= m < |indexes| && g in indexes[m].minted && h in indexes[m].minted ==> g == h
  }

  /** A block's mints go into the group before if they fit, shared coins included, and else into the next one. */
  ghost predicate ChosenAt(lim: Limits, indexes: seq<Index>, ext: Counts, n: int, g: int, p: int) {
    0 <= n < |indexes| && g in indexes[n].minted && PrevIs(indexes, n, p) ==>
      g == if At(ext, p) + SumIn(indexes[..n], p) + CoinsIn(indexes[n], g) <= lim.maxCoinInGroup then p else p + 1
  }

  ghost predicate Ordered(lim: Limits, s: State, indexes: seq<Index>) {
    && PrevIs(indexes, |indexes|, Latest(s)) && OneGroupEach(indexes)
    && forall n, g, p :: ChosenAt(lim, indexes, s.ext, n, g, p)
  }

  lemma PrevUnique(indexes: seq<Index>, n: int, p: int, q: int)
    requires OneGroupEach(indexes) && PrevIs(indexes, n, p) && PrevIs(indexes, n, q)
    ensures p == q
  {
  }

  lemma PrevSame(indexes: seq<Index>, index: Index, n: int, p: int)
    requires n <= |indexes|
    ensures PrevIs(indexes + [index], n, p) <==> PrevIs(indexes, n, p)
  {
    var more := indexes + [index];
    assert forall h :: 0 <= h < |indexes| ==> more[h] == indexes[h];
  }

  lemma PrevNext(indexes: seq<Index>, index: Index, p: int, q: int)
    requires PrevIs(indexes, |indexes|, p)
    requires if index.minted == map[] then q == p else q in index.minted
    ensures PrevIs(indexes + [index], |indexes| + 1, q)
  {
    var more := indexes + [index];
    assert more[|indexes|] == index && forall h :: 0 <= h < |indexes| ==> more[h] == indexes[h];
  }

  lemma PrevNotNew(indexes: seq<Index>, n: int, p: int, next: int)
    requires OneGroupEach(indexes) && PrevIs(indexes, n, p) && LastIs(indexes, next, None) && next >= 2
    ensures p != next
  {
  }

  lemma OneGroupMore(indexes: seq<Index>, index: Index)
    requires OneGroupEach(indexes)
    requires (index.minted == map[] || exists g, ms :: index.minted == map[g := ms] && ms != [])
    ensures OneGroupEach(indexes + [index])
  {
    var more := indexes + [index];
    assert more[|indexes|] == index && forall h :: 0 <= h < |indexes| ==> more[h] == indexes[h];
  }

  /** The blocks before keep their choices. */
  lemma ChosenStays(lim: Limits, indexes: seq<Index>, index: Index, ext: Counts, after: Counts, n: int, g: int, p: int)
    requires ChosenAt(lim, indexes, ext, n, g, p) && n < |indexes|
    requires (PrevIs(indexes, n, p) ==> At(ext, p) == At(after, p))
    ensures ChosenAt(lim, indexes + [index], after, n, g, p)
  {
    hide PrevIs, SumIn, CoinsIn;
    PrevSame(indexes, index, n, p);
    if n >= 0 {
      assert (indexes + [index])[..n] == indexes[..n] && (indexes + [index])[n] == indexes[n];
    }
  }

  /** Which group is chosen, and that only a new group's shared coins are entered. */
  lemma ConnectedChoice(lim: Limits, s: State, indexes: seq<Index>, info: TxInfo)
    requires info.mints != []
    ensures var a := Connect(lim, s, indexes, info).0; var id := Latest(s);
      var fits := GroupOf(s, id).nCoins + |info.mints| <= lim.maxCoinInGroup;
      a.latest == (if fits then id else id + 1) && forall p :: p != id + 1 ==> At(a.ext, p) == At(s.ext, p)
  {
    hide Connect, CountLastNCoins, AssignGroup, Joined, Started;
    var id, h, k := Latest(s), |indexes|, |info.mints|;
    ConnectedGroup(lim, s, indexes, info);
    AssignIs(lim, s, indexes, h, k);
    JoinedRest(s, id, h, k);
    StartedRest(s, id, h, k, CountLastNCoins(s, indexes, id, lim.startGroupSize));
  }

  lemma StepOrdered(lim: Limits, s: State, indexes: seq<Index>, info: TxInfo)
    requires Good(s, |indexes|) && Described(lim, s, indexes) && Ordered(lim, s, indexes)
    ensures var (a, index) := Connect(lim, s, indexes, info); Ordered(lim, a, indexes + [index])
  {
    hide Connect, AddSpends, AddMints, PrevIs, OneGroupEach, ChosenAt, Good, Described, GroupOf, LastIs;
    var (a, index) := Connect(lim, s, indexes, info);
    var more, id := indexes + [index], Latest(s);
    LatestDescribed(lim, s, indexes);
    NewUnseen(lim, s, indexes);
    ConnectedRest(lim, s, indexes, info);
    if info.mints != [] {
      ConnectedChoice(lim, s, indexes, info);
      assert a.latest in index.minted;
    }
    OneGroupMore(indexes, index);
    PrevNext(indexes, index, id, Latest(a));
    forall n, g, p ensures ChosenAt(lim, more, a.ext, n, g, p) {
      if n < |indexes| {
        assert ChosenAt(lim, indexes, s.ext, n, g, p);
        if PrevIs(indexes, n, p) {
          PrevNotNew(indexes, n, p, id + 1);
        }
        ChosenStays(lim, indexes, index, s.ext, a.ext, n, g, p);
      } else if n == |indexes| {
        ChosenNow(lim, s, indexes, a, index, info, g, p);
      } else {
        ChosenBeyond(lim, more, a.ext, n, g, p);
      }
    }
  }

  lemma NewUnseen(lim: Limits, s: State, indexes: seq<Index>)
    requires Good(s, |indexes|) && Described(lim, s, indexes)
    ensures LastIs(indexes, Latest(s) + 1, None)
  {
    LatestDescribed(lim, s, indexes);
  }

  lemma ChosenBeyond(lim: Limits, indexes: seq<Index>, ext: Counts, n: int, g: int, p: int)
    requires n >= |indexes|
    ensures ChosenAt(lim, indexes, ext, n, g, p)
  {
  }

  lemma ChosenNow(lim: Limits, s: State, indexes: seq<Index>, a: State, index: Index, info: TxInfo, g: int, p: int)
    requires PrevIs(indexes, |indexes|, Latest(s)) && OneGroupEach(indexes)
    requires GroupOf(s, Latest(s)).nCoins == At(s.ext, Latest(s)) + SumIn(indexes, Latest(s))
    requires index.minted == if info.mints == [] then map[] else map[a.latest := info.mints]
    requires var fits := GroupOf(s, Latest(s)).nCoins + |info.mints| <= lim.maxCoinInGroup;
      info.mints != [] ==> a.latest == if fits then Latest(s) else Latest(s) + 1
    requires At(a.ext, Latest(s)) == At(s.ext, Latest(s))
    ensures ChosenAt(lim, indexes + [index], a.ext, |indexes|, g, p)
  {
    hide PrevIs, OneGroupEach, SumIn;
    var more := indexes + [index];
    assert more[..|indexes|] == indexes && more[|indexes|] == index;
    PrevSame(indexes, index, |indexes|, p);
    if PrevIs(indexes, |indexes|, p) {
      PrevUnique(indexes, |indexes|, p, Latest(s));
    }
  }

  /** After any run every block's mints are in the group where they belong. */
  lemma {:induction false} RunOrdered(lim: Limits, chain: seq<TxInfo>)
    ensures var (s, indexes) := Run(lim, chain); Ordered(lim, s, indexes)
  {
    hide Connect, Good, Described, Ordered;
    if chain == [] {
      NothingOrdered(lim);
    } else {
      var init, info := chain[..|chain| - 1], chain[|chain| - 1];
      var (s, indexes) := Run(lim, init);
      RunOrdered(lim, init);
      RunDescribed(lim, init);
      StepOrdered(lim, s, indexes, info);
    }
  }

  lemma NothingOrdered(lim: Limits)
    ensures Ordered(lim, EMPTY, [])
  {
  }
}
