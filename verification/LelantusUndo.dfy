/**
Disconnecting a block (CLelantusState::RemoveBlock, src/lelantus.cpp:1281-1350).

RemoveBlock does not keep what it needs to undo a block: it works out from the block index whether the
block had started its coin group.  This module proves when that succeeds, for every chain.
*/
module LelantusUndo {
  import opened Surge
  import opened Basics
  import opened LelantusSpec

  // ---------------------------------------------------------------------------------------------
  // RemoveBlock; None is a failed assert

  /**
  prevGroupCount: the coins of the previous group in the nearest earlier block, unless one with coins of
  this group is nearer.
  */
  function PrevMints(indexes: seq<Index>, k: nat, id: int): nat
    requires k <= |indexes|
  {
    if k == 0 || CoinsIn(indexes[k - 1], id) != 0 then 0
    else
      var n := CoinsIn(indexes[k - 1], id - 1);
      if n != 0 then n else PrevMints(indexes, k - 1, id)
  }

  /** The last block of a group is searched backwards, asserting that the first one is not passed. */
  function RollBack(indexes: seq<Index>, first: Option<nat>, last: nat, id: int): Option<nat>
    requires last < |indexes|
    decreases last
  {
    if first == Some(last) || last == 0 then None
    else if id in indexes[last - 1].minted then Some(last - 1)
    else RollBack(indexes, first, last - 1, id)
  }

  function IsEdged(lim: Limits, nCoins: nat, prev: nat): bool {
    prev > 0 && SizeSub(nCoins, prev) < lim.startGroupSize
  }

  /** The coin group updates for one group of the block's index entry. */
  function RemoveGroup(lim: Limits, s: State, indexes: seq<Index>, height: nat, id: int, k: nat): Option<State>
    requires height < |indexes|
  {
    if id !in s.groups || k == 0 then Some(s)
    else
      var g := s.groups[id];
      if g.nCoins < k then None
      else
        var n := g.nCoins - k;
        if (id <= 1 && n == 0) || (id > 1 && IsEdged(lim, n, PrevMints(indexes, height, id))) then
          Some(s.(groups := s.groups - {id}, latest := s.latest - 1, ext := s.ext - {id}))
        else if g.last != Some(height) then None
        else
          match RollBack(indexes, g.first, height, id)
          case None => None
          case Some(last) => Some(s.(groups := s.groups[id := Group(g.first, Some(last), n)]))
  }

  ghost function RemoveGroups(lim: Limits, s: State, indexes: seq<Index>, height: nat, rest: set<int>): Option<State>
    requires height < |indexes| && rest <= indexes[height].minted.Keys
    decreases |rest|
  {
    if rest == {} then Some(s)
    else
      var id := Least(rest);
      match RemoveGroup(lim, s, indexes, height, id, |indexes[height].minted[id]|)
      case None => None
      case Some(t) => RemoveGroups(lim, t, indexes, height, rest - {id})
  }

  /** One less, in 64 bits. */
  function Less(n: nat): nat {
    if n > 0 then n - 1 else 0xFFFF_FFFF_FFFF_FFFF
  }

  function WithoutCoins(tags: map<Tag, PubCoin>, coins: set<PubCoin>): map<Tag, PubCoin> {
    map t | t in tags && tags[t] !in coins :: tags[t]
  }

  /** Removes the coin's tag with it; each coin has at most one. */
  function RemoveMint(s: State, coin: PubCoin): State {
    if coin !in s.coins then s
    else
      var g := s.coins[coin].group;
      s.(coins := s.coins - {coin}, tags := WithoutCoins(s.tags, {coin}), mint := s.mint[g := Less(At(s.mint, g))])
  }

  function RemoveMints(s: State, group: int, ms: seq<Mint>): Option<State> {
    if ms == [] then Some(s)
    else
      match RemoveMints(s, group, ms[..|ms| - 1])
      case None => None
      case Some(t) =>
        var coin := ms[|ms| - 1].coin;
        if coin in t.coins && t.coins[coin].group == group then Some(RemoveMint(t, coin)) else None
  }

  ghost function RemoveMintGroups(s: State, minted: map<int, seq<Mint>>, rest: set<int>): Option<State>
    requires rest <= minted.Keys
    decreases |rest|
  {
    if rest == {} then Some(s)
    else
      var id := Least(rest);
      match RemoveMints(s, id, minted[id])
      case None => None
      case Some(t) => RemoveMintGroups(t, minted, rest - {id})
  }

  function RemoveSpend(s: State, serial: Serial): State {
    if serial !in s.used then s
    else
      var g := s.used[serial];
      s.(used := s.used - {serial}, spend := s.spend[g := Less(At(s.spend, g))])
  }

  function RemoveSpends(s: State, order: seq<Serial>): State {
    if order == [] then s else RemoveSpend(RemoveSpends(s, order[..|order| - 1]), order[|order| - 1])
  }

  /** The serials of the block come in some order. */
  ghost predicate Lists(order: seq<Serial>, serials: set<Serial>) {
    && (forall x :: x in order <==> x in serials)
    && (forall j, k :: 0 <= j < k < |order| ==> order[j] != order[k])
  }

  ghost function RemoveBlock(lim: Limits, s: State, indexes: seq<Index>, height: nat, order: seq<Serial>): Option<State>
    requires height < |indexes|
  {
    var minted := indexes[height].minted;
    match RemoveGroups(lim, s, indexes, height, minted.Keys)
    case None => None
    case Some(a) =>
      match RemoveMintGroups(a, minted, minted.Keys)
      case None => None
      case Some(b) => Some(RemoveSpends(b, order))
  }

  // ---------------------------------------------------------------------------------------------
  // What the index says about the latest group

  ghost predicate MintedOk(minted: map<int, seq<Mint>>, latest: int) {
    forall id :: id in minted ==> 1 <= id <= latest && minted[id] != []
  }

  ghost predicate BlocksOk(indexes: seq<Index>, latest: int) {
    forall h :: 0 <= h < |indexes| ==> MintedOk(indexes[h].minted, latest)
  }

  lemma BlocksMore(indexes: seq<Index>, latest: int, index: Index, later: int)
    requires BlocksOk(indexes, latest) && latest <= later && MintedOk(index.minted, later)
    ensures BlocksOk(indexes + [index], later)
  {
    var more := indexes + [index];
    forall h | 0 <= h < |more| ensures MintedOk(more[h].minted, later) {
      assert h < |indexes| ==> MintedOk(indexes[h].minted, latest);
    }
  }

  /** The last block of the latest group is the last block with mints. */
  ghost predicate LastOk(g: Group, latest: int, indexes: seq<Index>) {
    && g.first.Some? && g.last.Some? && g.first.value <= g.last.value < |indexes|
    && latest in indexes[g.last.value].minted
    && forall h :: g.last.value < h < |indexes| ==> indexes[h].minted == map[]
  }

  ghost predicate TagsOk(tags: map<Tag, PubCoin>, coins: map<PubCoin, CoinInfo>) {
    forall t: Tag :: t in tags ==> tags[t] in coins
  }

  ghost predicate ExtOk(ext: Counts, latest: int) {
    forall g :: g in ext ==> 2 <= g <= latest
  }

  lemma NewLast(g: Group, latest: int, indexes: seq<Index>, index: Index)
    requires g.first.Some? && g.first.value <= |indexes| && g.last == Some(|indexes|) && latest in index.minted
    ensures LastOk(g, latest, indexes + [index])
  {
  }

  ghost predicate Tracked(s: State, indexes: seq<Index>) {
    && s.latest >= 0
    && BlocksOk(indexes, s.latest)
    && (s.latest >= 1 ==> LastOk(GroupOf(s, s.latest), s.latest, indexes))
    && TagsOk(s.tags, s.coins) && ExtOk(s.ext, s.latest)
  }

  lemma {:induction false} CountBackFirst(indexes: seq<Index>, k: nat, group: int, required: nat, coins: nat,
                                          first: Option<nat>)
    requires k <= |indexes|
    ensures var r := CountBack(indexes, k, group, required, coins, first); r.1.Some? ==> r.1 == first || r.1.value < k
  {
    if k > 0 && coins < required {
      var n := CoinsIn(indexes[k - 1], group);
      CountBackFirst(indexes, k - 1, group, required, coins + n, if n > 0 then Some(k - 1) else first);
    }
  }

  lemma CountFirst(s: State, indexes: seq<Index>, group: int, required: nat)
    ensures var r := CountLastNCoins(s, indexes, group, required); r.1.Some? ==> r.1.value < |indexes|
  {
    var g := GroupOf(s, group);
    if g.last.Some? && g.last.value < |indexes| {
      CountBackFirst(indexes, g.last.value + 1, group, required, 0, None);
    }
  }

  lemma {:induction false} AddMintsTags(s: State, ms: seq<Mint>, info: CoinInfo)
    requires TagsOk(s.tags, s.coins)
    ensures var a := AddMints(s, ms, info); TagsOk(a.tags, a.coins)
  {
    if ms != [] {
      AddMintsTags(s, ms[..|ms| - 1], info);
      var a, b := AddMints(s, ms, info), AddMints(s, ms[..|ms| - 1], info);
      forall t: Tag | t in a.tags ensures a.tags[t] in a.coins {
        if t in b.tags {
          var c := b.tags[t];
          assert c in b.coins;
        }
      }
    }
  }

  lemma AssignTracked(lim: Limits, i: State, indexes: seq<Index>, k: nat, index: Index, mints: seq<Mint>)
    requires Good(i, |indexes|) && Tracked(i, indexes) && k > 0 && mints != []
    requires index.minted == map[AssignGroup(lim, i, indexes, |indexes|, k).latest := mints]
    ensures Tracked(AssignGroup(lim, i, indexes, |indexes|, k), indexes + [index])
  {
    hide Good, BlocksOk, LastOk, ExtOk, CountLastNCoins, MintedOk, TagsOk, AssignGroup, GroupOf;
    var a := AssignGroup(lim, i, indexes, |indexes|, k);
    AssignedGroup(lim, i, indexes, k);
    OneMinted(a.latest, mints);
    BlocksMore(indexes, i.latest, index, a.latest);
    NewLast(GroupOf(a, a.latest), a.latest, indexes, index);
    ExtMore(i.ext, i.latest, a.latest, CountLastNCoins(i, indexes, Latest(i), lim.startGroupSize).0);
    AssignRest(lim, i, indexes, k);
  }

  lemma AssignRest(lim: Limits, i: State, indexes: seq<Index>, k: nat)
    ensures var a := AssignGroup(lim, i, indexes, |indexes|, k);
      && a.tags == i.tags && a.coins == i.coins
      && (a.ext == i.ext
          || (&& a.latest >= 2
              && a.ext == i.ext[a.latest := CountLastNCoins(i, indexes, Latest(i), lim.startGroupSize).0]))
  {
    hide CountLastNCoins, AssignGroup;
    AssignExt(lim, i, indexes, |indexes|, k);
  }

  lemma OneMinted(id: int, mints: seq<Mint>)
    requires id >= 1 && mints != []
    ensures MintedOk(map[id := mints], id)
  {
  }

  lemma ExtMore(ext: Counts, latest: int, later: int, coins: nat)
    requires ExtOk(ext, latest) && latest <= later
    ensures ExtOk(ext, later) && (later >= 2 ==> ExtOk(ext[later := coins], later))
  {
  }

  lemma NothingYet(i: State, height: nat)
    requires Good(i, height) && i.latest == 0
    ensures GroupOf(i, 1) == NO_GROUP && i.groups == map[]
  {
    assert forall id :: id !in i.groups;
  }

  lemma LastFacts(g: Group, latest: int, indexes: seq<Index>)
    requires LastOk(g, latest, indexes)
    ensures g.first.Some? && g.last.Some? && g.first.value <= g.last.value < |indexes|
  {
  }

  lemma AssignedGroup(lim: Limits, i: State, indexes: seq<Index>, k: nat)
    requires Good(i, |indexes|) && Tracked(i, indexes) && k > 0
    ensures var a := AssignGroup(lim, i, indexes, |indexes|, k); var g := GroupOf(a, a.latest);
      g.first.Some? && g.first.value <= |indexes| && g.last == Some(|indexes|) && i.latest <= a.latest && a.latest >= 1
  {
    hide CountLastNCoins, BlocksOk, Good, LastOk, TagsOk, ExtOk, AssignGroup, Joined, Started;
    if i.latest >= 1 {
      LastFacts(GroupOf(i, i.latest), i.latest, indexes);
    } else {
      NothingYet(i, |indexes|);
    }
    AssignIs(lim, i, indexes, |indexes|, k);
    JoinedIs(i, Latest(i), |indexes|, k);
    CountFirst(i, indexes, Latest(i), lim.startGroupSize);
    StartedIs(i.(groups := i.groups[Latest(i) := GroupOf(i, Latest(i))]), Latest(i) + 1, |indexes|, k,
      CountLastNCoins(i, indexes, Latest(i), lim.startGroupSize));
  }

  lemma JoinedIs(s: State, id: int, height: nat, k: nat)
    ensures var a, g := Joined(s, id, height, k), GroupOf(s, id);
      && a.latest == id && a.coins == s.coins && a.tags == s.tags
      && GroupOf(a, id) == Group(if g.nCoins == 0 then Some(height) else g.first, Some(height), g.nCoins + k)
  {
  }

  lemma StartedIs(s: State, id: int, height: nat, k: nat, tail: (nat, Option<nat>))
    ensures var a := Started(s, id, height, k, tail);
      a.latest == id && GroupOf(a, id) == Group(Or(tail.1, height), Some(height), tail.0 + k)
  {
  }

  lemma StepTracked(lim: Limits, i: State, indexes: seq<Index>, info: TxInfo)
    requires Good(i, |indexes|) && Tracked(i, indexes)
    ensures var (a, index) := Connect(lim, i, indexes, info); Tracked(a, indexes + [index])
  {
    hide Good, AssignGroup, AddMints;
    var b := AddSpends(i, info.spends);
    SpendsGood(i, info.spends, |indexes|);
    assert Tracked(b, indexes);
    var (a, index) := Connect(lim, i, indexes, info);
    if info.mints != [] {
      AssignTracked(lim, b, indexes, |info.mints|, index, info.mints) by {
        var g := AssignGroup(lim, b, indexes, |indexes|, |info.mints|);
        AddMintsEffect(g, g, info.mints, CoinInfo(g.latest, |indexes|));
      }
      var c := AssignGroup(lim, b, indexes, |indexes|, |info.mints|);
      AddMintsEffect(c, c, info.mints, CoinInfo(c.latest, |indexes|));
      AddMintsTags(c, info.mints, CoinInfo(c.latest, |indexes|));
    } else {
      NoMintsTracked(b, indexes, index);
    }
  }

  lemma NoMintsTracked(s: State, indexes: seq<Index>, index: Index)
    requires Tracked(s, indexes) && index.minted == map[]
    ensures Tracked(s, indexes + [index])
  {
    hide BlocksOk;
    BlocksMore(indexes, s.latest, index, s.latest);
  }

  lemma {:induction false} RunTracked(lim: Limits, chain: seq<TxInfo>)
    ensures var (s, indexes) := Run(lim, chain); |indexes| == |chain| && Good(s, |indexes|) && Tracked(s, indexes)
  {
    hide Good, Tracked;
    RunMirrors(lim, chain);
    if chain == [] {
      EmptyTracked();
    } else {
      var init := chain[..|chain| - 1];
      RunTracked(lim, init);
      var (s, indexes) := Run(lim, init);
      StepTracked(lim, s, indexes, chain[|chain| - 1]);
    }
  }

  lemma EmptyTracked()
    ensures Tracked(EMPTY, [])
  {
  }

  // ---------------------------------------------------------------------------------------------
  // The searches

  lemma {:induction false} RollBackFinds(indexes: seq<Index>, first: Option<nat>, last: nat, id: int, l: nat)
    requires l < last < |indexes| && id in indexes[l].minted && (forall h :: l < h < last ==> id !in indexes[h].minted)
    requires first.Some? && first.value <= l
    ensures RollBack(indexes, first, last, id) == Some(l)
  {
    if last - 1 > l {
      RollBackFinds(indexes, first, last - 1, id, l);
    }
  }

  lemma {:induction false} RollBackFails(indexes: seq<Index>, first: Option<nat>, last: nat, id: int)
    requires last < |indexes| && forall h :: 0 <= h < last ==> id !in indexes[h].minted
    ensures RollBack(indexes, first, last, id) == None
  {
    if last > 0 && first != Some(last) {
      RollBackFails(indexes, first, last - 1, id);
    }
  }

  /** Blocks without mints are passed over. */
  lemma {:induction false} PrevMintsAt(indexes: seq<Index>, k: nat, id: int, l: nat)
    requires l < k <= |indexes| && forall h :: l < h < k ==> indexes[h].minted == map[]
    ensures PrevMints(indexes, k, id) == PrevMints(indexes, l + 1, id)
  {
    if k - 1 > l {
      assert CoinsIn(indexes[k - 1], id) == 0 && CoinsIn(indexes[k - 1], id - 1) == 0;
      PrevMintsAt(indexes, k - 1, id, l);
    }
  }

  lemma {:induction false} PrevMintsNone(indexes: seq<Index>, k: nat, id: int)
    requires k <= |indexes| && forall h :: 0 <= h < k ==> indexes[h].minted == map[]
    ensures PrevMints(indexes, k, id) == 0
  {
    if k > 0 {
      assert CoinsIn(indexes[k - 1], id) == 0 && CoinsIn(indexes[k - 1], id - 1) == 0;
      PrevMintsNone(indexes, k - 1, id);
    }
  }

  /** Looking back from a new block: the latest group's last block is the first one met with mints. */
  lemma LookBack(s: State, indexes: seq<Index>, more: seq<Index>)
    requires Tracked(s, indexes) && s.latest >= 1 && indexes <= more && |more| == |indexes| + 1
    ensures var g, id := GroupOf(s, s.latest), s.latest;
      && g.last.Some? && g.last.value < |indexes| && CoinsIn(indexes[g.last.value], id) > 0
      && PrevMints(more, |indexes|, id) == 0
      && PrevMints(more, |indexes|, id + 1) == CoinsIn(indexes[g.last.value], id)
      && RollBack(more, g.first, |indexes|, id) == g.last
  {
    var g, id := GroupOf(s, s.latest), s.latest;
    assert LastOk(g, id, indexes);
    var l := g.last.value;
    assert MintedOk(indexes[l].minted, id);
    PrevMintsAt(more, |indexes|, id, l);
    PrevMintsAt(more, |indexes|, id + 1, l);
    assert id + 1 !in more[l].minted;
    RollBackFinds(more, g.first, |indexes|, id, l);
  }

  lemma NoneOfNext(s: State, indexes: seq<Index>, more: seq<Index>, first: Option<nat>)
    requires Tracked(s, indexes) && indexes <= more && |more| == |indexes| + 1
    ensures RollBack(more, first, |indexes|, Latest(s) + 1) == None
    ensures s.latest == 0 ==> PrevMints(more, |indexes|, Latest(s) + 1) == 0
  {
    forall h | 0 <= h < |indexes|
      ensures Latest(s) + 1 !in more[h].minted && (s.latest == 0 ==> more[h].minted == map[])
    {
      assert MintedOk(indexes[h].minted, s.latest);
      assert more[h] == indexes[h];
      if s.latest == 0 {
        assert forall id :: id !in indexes[h].minted;
      }
    }
    RollBackFails(more, first, |indexes|, Latest(s) + 1);
    if s.latest == 0 {
      PrevMintsNone(more, |indexes|, Latest(s) + 1);
    }
  }

  // ---------------------------------------------------------------------------------------------
  // Undoing the group

  /**
  When the block's coin group can be undone: the mints joined a group with room, or they started one
  and the coins it shares, without those of the previous group's last block, are fewer than
  startGroupSize.
  */
  predicate Undoable(lim: Limits, i: State, indexes: seq<Index>, k: nat) {
    var id, g := Latest(i), GroupOf(i, Latest(i));
    || k == 0
    || g.nCoins + k <= lim.maxCoinInGroup
    || (i.latest >= 1 && g.last.Some? && g.last.value < |indexes| &&
        IsEdged(lim, CountLastNCoins(i, indexes, id, lim.startGroupSize).0, CoinsIn(indexes[g.last.value], id)))
  }

  ghost predicate SameGroups(a: State, b: State) {
    a.groups == b.groups && a.latest == b.latest && a.ext == b.ext
  }

  lemma JoinUndone(lim: Limits, i: State, b: State, indexes: seq<Index>, more: seq<Index>, k: nat)
    requires Good(i, |indexes|) && Tracked(i, indexes) && k > 0 && indexes <= more && |more| == |indexes| + 1
    requires SameGroups(b, Joined(i, Latest(i), |indexes|, k))
    ensures RemoveGroup(lim, b, more, |indexes|, b.latest, k) ==
      Some(b.(groups := i.groups, latest := i.latest, ext := i.ext))
  {
    hide Good, Tracked, PrevMints, RollBack;
    var id, g := Latest(i), GroupOf(i, Latest(i));
    JoinedIs(i, id, |indexes|, k);
    LatestGroup(i, |indexes|);
    TrackedFacts(i, indexes);
    if i.latest == 0 {
      NothingYet(i, |indexes|);
      assert b.groups - {id} == i.groups;
      assert b.ext - {id} == i.ext;
    } else {
      LookBack(i, indexes, more);
      LatestKnown(i, |indexes|);
      assert g.nCoins > 0;
      assert b.groups[id := Group(g.first, g.last, g.nCoins)] == i.groups;
    }
  }

  lemma TrackedFacts(s: State, indexes: seq<Index>)
    requires Tracked(s, indexes)
    ensures s.latest >= 0 && 1 !in s.ext && Latest(s) + 1 !in s.ext
  {
  }

  lemma LatestKnown(i: State, height: nat)
    requires Good(i, height) && i.latest >= 1
    ensures i.latest in i.groups && i.groups[i.latest] != NO_GROUP && i.latest + 1 !in i.groups
  {
  }

  lemma StartUndone(lim: Limits, i: State, b: State, indexes: seq<Index>, more: seq<Index>, k: nat)
    requires Good(i, |indexes|) && Tracked(i, indexes) && k > 0 && indexes <= more && |more| == |indexes| + 1
    requires GroupOf(i, Latest(i)).nCoins + k > lim.maxCoinInGroup
    requires SameGroups(b, AssignGroup(lim, i, indexes, |indexes|, k))
    ensures RemoveGroup(lim, b, more, |indexes|, b.latest, k) ==
      if Undoable(lim, i, indexes, k) then Some(b.(groups := i.groups, latest := i.latest, ext := i.ext)) else None
  {
    hide Good, Tracked, PrevMints, RollBack, CountLastNCoins, IsEdged;
    var id := Latest(i) + 1;
    var touched := i.(groups := i.groups[Latest(i) := GroupOf(i, Latest(i))]);
    var tail := CountLastNCoins(i, indexes, Latest(i), lim.startGroupSize);
    AssignIs(lim, i, indexes, |indexes|, k);
    StartedIs(touched, id, |indexes|, k, tail);
    TrackedFacts(i, indexes);
    NoneOfNext(i, indexes, more, Or(tail.1, |indexes|));
    assert b.ext - {id} == i.ext;
    if i.latest >= 1 {
      LookBack(i, indexes, more);
      LatestKnown(i, |indexes|);
      assert b.groups - {id} == i.groups;
    } else {
      NeverEdged(lim, tail.0);
    }
  }

  lemma NeverEdged(lim: Limits, n: nat)
    ensures !IsEdged(lim, n, 0)
  {
  }

  /** The group of a connected block's mints. */
  lemma GroupUndone(lim: Limits, i: State, b: State, indexes: seq<Index>, more: seq<Index>, k: nat)
    requires Good(i, |indexes|) && Tracked(i, indexes) && k > 0 && indexes <= more && |more| == |indexes| + 1
    requires SameGroups(b, AssignGroup(lim, i, indexes, |indexes|, k))
    ensures RemoveGroup(lim, b, more, |indexes|, b.latest, k) ==
      if Undoable(lim, i, indexes, k) then Some(b.(groups := i.groups, latest := i.latest, ext := i.ext)) else None
  {
    hide Good, Tracked, RemoveGroup, CountLastNCoins, Joined;
    AssignIs(lim, i, indexes, |indexes|, k);
    if GroupOf(i, Latest(i)).nCoins + k <= lim.maxCoinInGroup {
      JoinUndone(lim, i, b, indexes, more, k);
    } else {
      StartUndone(lim, i, b, indexes, more, k);
    }
  }

  // ---------------------------------------------------------------------------------------------
  // Undoing the coins

  function CoinSet(ms: seq<Mint>): set<PubCoin> {
    set m | m in ms :: m.coin
  }

  function TagSet(ms: seq<Mint>): set<Tag> {
    set m | m in ms :: m.tag
  }

  lemma SetsNext(ms: seq<Mint>)
    requires ms != []
    ensures var init, m := ms[..|ms| - 1], ms[|ms| - 1];
      CoinSet(ms) == CoinSet(init) + {m.coin} && TagSet(ms) == TagSet(init) + {m.tag}
  {
    var init, m := ms[..|ms| - 1], ms[|ms| - 1];
    assert ms == init + [m];
  }

  ghost predicate DistinctCoins(ms: seq<Mint>) {
    forall j, k :: 0 <= j < k < |ms| ==> ms[j].coin != ms[k].coin
  }

  /** Coins and tags that the state does not know, each once. */
  ghost predicate NewMints(s: State, ms: seq<Mint>) {
    && DistinctCoins(ms) && (forall j, k :: 0 <= j < k < |ms| ==> ms[j].tag != ms[k].tag)
    && (forall m :: m in ms ==> m.coin !in s.coins && m.tag !in s.tags)
  }

  /** Exactly the block's coins and tags are new. */
  ghost predicate Added(s: State, a: State, ms: seq<Mint>, info: CoinInfo) {
    && a.coins == s.coins + (map c | c in CoinSet(ms) :: info)
    && (forall t :: t in a.tags ==> t in s.tags || t in TagSet(ms))
    && WithoutCoins(a.tags, CoinSet(ms)) == s.tags
  }

  lemma {:induction false} AddedMints(s: State, ms: seq<Mint>, info: CoinInfo)
    requires NewMints(s, ms) && TagsOk(s.tags, s.coins)
    ensures Added(s, AddMints(s, ms, info), ms, info)
  {
    hide NewMints, Added, TagsOk;
    if ms == [] {
      NothingAdded(s, info);
    } else {
      var init := ms[..|ms| - 1];
      LastNew(s, ms);
      AddedMints(s, init, info);
      AddedNext(s, AddMints(s, init, info), ms, info);
    }
  }

  lemma NothingAdded(s: State, info: CoinInfo)
    ensures Added(s, s, [], info)
  {
    assert CoinSet([]) == {} && s.coins + (map c | c in CoinSet([]) :: info) == s.coins;
    assert WithoutCoins(s.tags, {}) == s.tags;
  }

  lemma AddedNext(s: State, b: State, ms: seq<Mint>, info: CoinInfo)
    requires ms != [] && TagsOk(s.tags, s.coins)
    requires var init, m := ms[..|ms| - 1], ms[|ms| - 1];
      && Added(s, b, init, info) && m.coin !in CoinSet(init) && m.tag !in TagSet(init)
      && m.coin !in s.coins && m.tag !in s.tags
    ensures Added(s, AddMint(b, ms[|ms| - 1], info), ms, info)
  {
    hide WithoutCoins, CoinSet, TagSet, TagsOk;
    var init, m := ms[..|ms| - 1], ms[|ms| - 1];
    SetsNext(ms);
    assert m.coin !in b.coins && m.tag !in b.tags;
    OneTagMore(b.tags, CoinSet(init), s.tags, s.coins, m);
  }

  lemma LastNew(s: State, ms: seq<Mint>)
    requires NewMints(s, ms) && ms != []
    ensures var init, m := ms[..|ms| - 1], ms[|ms| - 1];
      && m.coin !in CoinSet(init) && m.tag !in TagSet(init) && m.coin !in s.coins && m.tag !in s.tags
      && NewMints(s, init)
  {
  }

  lemma OneTagMore(tags: map<Tag, PubCoin>, coins: set<PubCoin>, was: map<Tag, PubCoin>, known: map<PubCoin, CoinInfo>,
                   m: Mint)
    requires WithoutCoins(tags, coins) == was && TagsOk(was, known) && m.coin !in known && m.tag !in tags
    ensures WithoutCoins(tags[m.tag := m.coin], coins + {m.coin}) == was
  {
    var more := WithoutCoins(tags[m.tag := m.coin], coins + {m.coin});
    forall t: Tag ensures t in more <==> t in was {
      if t in was {
        var c := was[t];
        assert t in WithoutCoins(tags, coins) && c in known;
      }
    }
    forall t: Tag | t in was ensures more[t] == was[t] {
      assert was[t] == WithoutCoins(tags, coins)[t];
    }
    assert more == was;
  }

  lemma {:induction false} RemovedMints(s: State, group: int, ms: seq<Mint>)
    requires DistinctCoins(ms) && |ms| <= At(s.mint, group)
    requires forall c :: c in CoinSet(ms) ==> c in s.coins && s.coins[c].group == group
    ensures var r := RemoveMints(s, group, ms);
      && r.Some?
      && r.value == s.(coins := s.coins - CoinSet(ms), tags := WithoutCoins(s.tags, CoinSet(ms)), mint := r.value.mint)
      && forall x :: At(r.value.mint, x) == At(s.mint, x) - if x == group then |ms| else 0
  {
    if ms == [] {
      assert CoinSet(ms) == {} && WithoutCoins(s.tags, {}) == s.tags && s.coins - {} == s.coins;
    } else {
      var init, m := ms[..|ms| - 1], ms[|ms| - 1];
      SetsNext(ms);
      RemovedMints(s, group, init);
      assert m.coin !in CoinSet(init);
      var t := RemoveMints(s, group, init).value;
      assert m.coin in CoinSet(ms);
      assert t.coins - {m.coin} == s.coins - CoinSet(ms);
      assert WithoutCoins(t.tags, {m.coin}) == WithoutCoins(s.tags, CoinSet(ms));
    }
  }

  // ---------------------------------------------------------------------------------------------
  // Undoing the spends

  function Taken(used: map<Serial, int>, order: seq<Serial>, g: int): set<Serial> {
    set x | x in order && x in used && used[x] == g
  }

  /** What removing the serials leaves. */
  ghost predicate Freed(s: State, r: State, order: seq<Serial>) {
    && r == s.(used := r.used, spend := r.spend) && r.used == s.used - (set x | x in order)
    && forall g :: At(r.spend, g) == At(s.spend, g) - |Taken(s.used, order, g)|
  }

  ghost predicate CanFree(s: State, order: seq<Serial>) {
    forall g :: |Taken(s.used, order, g)| <= At(s.spend, g)
  }

  lemma {:induction false} RemovedSpends(s: State, order: seq<Serial>)
    requires (forall j, k :: 0 <= j < k < |order| ==> order[j] != order[k]) && CanFree(s, order)
    ensures Freed(s, RemoveSpends(s, order), order)
  {
    hide Freed, CanFree;
    if order == [] {
      NothingFreed(s);
    } else {
      var init, y := order[..|order| - 1], order[|order| - 1];
      assert order == init + [y] && y !in init;
      EnoughBefore(s, init, y);
      RemovedSpends(s, init);
      FreedNext(s, RemoveSpends(s, init), init, y);
    }
  }

  lemma NothingFreed(s: State)
    ensures Freed(s, s, [])
  {
    assert s.used - (set x | x in []) == s.used;
    assert forall g :: Taken(s.used, [], g) == {};
  }

  lemma EnoughBefore(s: State, init: seq<Serial>, y: Serial)
    requires y !in init && CanFree(s, init + [y])
    ensures CanFree(s, init)
  {
    forall g ensures |Taken(s.used, init, g)| <= At(s.spend, g) {
      TakenNext(s.used, init, y, g);
    }
  }

  lemma FreedNext(s: State, t: State, init: seq<Serial>, y: Serial)
    requires y !in init && Freed(s, t, init) && CanFree(s, init + [y])
    ensures Freed(s, RemoveSpend(t, y), init + [y])
  {
    hide Taken;
    forall g
      ensures |Taken(s.used, init + [y], g)| ==
        |Taken(s.used, init, g)| + if y in s.used && s.used[y] == g then 1 else 0
    {
      TakenNext(s.used, init, y, g);
    }
    assert t.used - {y} == s.used - (set x | x in init + [y]);
  }

  lemma TakenNext(used: map<Serial, int>, init: seq<Serial>, y: Serial, g: int)
    requires y !in init
    ensures |Taken(used, init + [y], g)| == |Taken(used, init, g)| + if y in used && used[y] == g then 1 else 0
  {
    if y in used && used[y] == g {
      assert Taken(used, init + [y], g) == Taken(used, init, g) + {y};
    } else {
      assert Taken(used, init + [y], g) == Taken(used, init, g);
    }
  }

  lemma SpendsUndone(i: State, b: State, spends: map<Serial, int>, order: seq<Serial>)
    requires spends.Keys !! i.used.Keys && Lists(order, spends.Keys)
    requires b.used == AddSpends(i, spends).used && b.spend == AddSpends(i, spends).spend
    ensures var r := RemoveSpends(b, order);
      r == b.(used := i.used, spend := r.spend) && forall g :: At(r.spend, g) == At(i.spend, g)
  {
    hide CountSpends, RemoveSpends, Known;
    SpendsCount(i, b, spends, order);
    RemovedSpends(b, order);
    assert (set x | x in order) == spends.Keys;
    KnownGone(i, spends);
  }

  lemma KnownGone(i: State, spends: map<Serial, int>)
    requires spends.Keys !! i.used.Keys
    ensures (i.used + Known(i.mint, spends)) - spends.Keys == i.used
  {
  }

  lemma SpendsCount(i: State, b: State, spends: map<Serial, int>, order: seq<Serial>)
    requires spends.Keys !! i.used.Keys && Lists(order, spends.Keys)
    requires b.used == AddSpends(i, spends).used && b.spend == AddSpends(i, spends).spend
    ensures CanFree(b, order) && forall g :: At(b.spend, g) - |Taken(b.used, order, g)| == At(i.spend, g)
  {
    hide CountSpends, Known, Taken, SpentFrom, Lists;
    forall g
      ensures |Taken(b.used, order, g)| <= At(b.spend, g)
      ensures At(b.spend, g) - |Taken(b.used, order, g)| == At(i.spend, g)
    {
      TakenIs(i, b.used, spends, order, g);
      SpendsCounted(i, spends, g);
    }
  }

  lemma TakenIs(i: State, used: map<Serial, int>, spends: map<Serial, int>, order: seq<Serial>, g: int)
    requires spends.Keys !! i.used.Keys && Lists(order, spends.Keys) && used == i.used + Known(i.mint, spends)
    ensures Taken(used, order, g) == if g in i.mint then SpentFrom(spends, g) else {}
  {
    var want := if g in i.mint then SpentFrom(spends, g) else {};
    forall x ensures x in Taken(used, order, g) <==> x in want {
      assert x in order <==> x in spends;
      assert x in spends ==> x !in i.used;
    }
  }

  // ---------------------------------------------------------------------------------------------
  // Undoing a block

  ghost predicate SameCounts(a: Counts, b: Counts) {
    forall g :: At(a, g) == At(b, g)
  }

  /** Equal, but for counters that are zero instead of missing. */
  ghost predicate Alike(a: State, b: State) {
    && a == b.(mint := a.mint, spend := a.spend)
    && SameCounts(a.mint, b.mint) && SameCounts(a.spend, b.spend)
  }

  /** A block whose coins, tags and serials were not seen before. */
  ghost predicate IsNew(s: State, info: TxInfo) {
    NewMints(s, info.mints) && info.spends.Keys !! s.used.Keys
  }

  lemma OnlyGroup(lim: Limits, s: State, indexes: seq<Index>, height: nat, id: int, mints: seq<Mint>)
    requires height < |indexes| && indexes[height].minted == map[id := mints]
    ensures RemoveGroups(lim, s, indexes, height, {id}) == RemoveGroup(lim, s, indexes, height, id, |mints|)
    ensures RemoveMintGroups(s, map[id := mints], {id}) == RemoveMints(s, id, mints)
  {
    hide RemoveGroup, RemoveMints;
    assert Least({id}) == id && {id} - {id} == {};
  }

  lemma SameUndoable(lim: Limits, i: State, b: State, indexes: seq<Index>, k: nat)
    requires b.groups == i.groups && b.latest == i.latest
    ensures Undoable(lim, b, indexes, k) == Undoable(lim, i, indexes, k)
  {
  }

  /** The coins of a connected block are taken out again. */
  lemma CoinsUndone(c: State, a: State, u: State, mints: seq<Mint>, id: int, height: nat)
    requires NewMints(c, mints) && TagsOk(c.tags, c.coins) && mints != []
    requires a == AddMints(c, mints, CoinInfo(id, height)) && u.coins == a.coins && u.tags == a.tags && u.mint == a.mint
    ensures var r := RemoveMints(u, id, mints);
      && r.Some? && r.value == u.(coins := c.coins, tags := c.tags, mint := r.value.mint)
      && SameCounts(r.value.mint, c.mint)
  {
    hide NewMints, TagsOk, AddMints, RemoveMints;
    var info := CoinInfo(id, height);
    AddedMints(c, mints, info);
    AddMintsEffect(c, c, mints, info);
    assert DistinctCoins(mints) by { NewDistinct(c, mints); }
    AddedThere(c, a, mints, info);
    RemovedMints(u, id, mints);
  }

  lemma NewDistinct(s: State, ms: seq<Mint>)
    requires NewMints(s, ms)
    ensures DistinctCoins(ms) && CoinSet(ms) !! s.coins.Keys
  {
  }

  lemma AddedThere(s: State, a: State, ms: seq<Mint>, info: CoinInfo)
    requires Added(s, a, ms, info) && NewMints(s, ms)
    ensures (forall c :: c in CoinSet(ms) ==> c in a.coins && a.coins[c].group == info.group)
    ensures a.coins - CoinSet(ms) == s.coins && WithoutCoins(a.tags, CoinSet(ms)) == s.tags
  {
    hide WithoutCoins, CoinSet, NewMints;
    NewDistinct(s, ms);
  }

  lemma BlockIs(lim: Limits, s: State, indexes: seq<Index>, height: nat, id: int, mints: seq<Mint>, order: seq<Serial>)
    requires height < |indexes| && indexes[height].minted == map[id := mints]
    ensures RemoveBlock(lim, s, indexes, height, order) ==
      match RemoveGroup(lim, s, indexes, height, id, |mints|)
      case None => None
      case Some(u) =>
        match RemoveMints(u, id, mints)
        case None => None
        case Some(v) => Some(RemoveSpends(v, order))
  {
    hide RemoveGroup, RemoveMints, RemoveSpends;
    assert indexes[height].minted.Keys == {id};
    OnlyGroup(lim, s, indexes, height, id, mints);
    match RemoveGroup(lim, s, indexes, height, id, |mints|)
    case None =>
    case Some(u) => OnlyGroup(lim, u, indexes, height, id, mints);
  }

  lemma StepUndone(lim: Limits, i: State, indexes: seq<Index>, info: TxInfo, order: seq<Serial>)
    requires Good(i, |indexes|) && Tracked(i, indexes) && IsNew(i, info) && Lists(order, info.spends.Keys)
    ensures var (a, index) := Connect(lim, i, indexes, info);
      var r := RemoveBlock(lim, a, indexes + [index], |indexes|, order);
      if Undoable(lim, i, indexes, |info.mints|) then r.Some? && Alike(r.value, i) else r == None
  {
    hide Good, Tracked, Undoable, AddSpends, ConnectMints, Alike, RemoveSpends, RemoveBlock;
    var b := AddSpends(i, info.spends);
    var (a, index) := Connect(lim, i, indexes, info);
    if info.mints == [] {
      NothingMinted(lim, i, indexes);
      SpendsUndone(i, a, info.spends, order);
      SpendsAlike(i, info.spends, RemoveSpends(a, order));
      NoMints(lim, a, indexes + [index], |indexes|, order);
    } else {
      MintsUndone(lim, i, b, a, indexes, indexes + [index], info, order);
    }
  }

  lemma SpendsAlike(i: State, spends: map<Serial, int>, r: State)
    requires r == AddSpends(i, spends).(used := i.used, spend := r.spend)
    requires forall g :: At(r.spend, g) == At(i.spend, g)
    ensures Alike(r, i)
  {
  }

  lemma NoMints(lim: Limits, s: State, indexes: seq<Index>, height: nat, order: seq<Serial>)
    requires height < |indexes| && indexes[height].minted == map[]
    ensures RemoveBlock(lim, s, indexes, height, order) == Some(RemoveSpends(s, order))
  {
  }

  lemma MintsUndone(lim: Limits, i: State, b: State, a: State, indexes: seq<Index>, more: seq<Index>, info: TxInfo,
                    order: seq<Serial>)
    requires Good(i, |indexes|) && Tracked(i, indexes) && IsNew(i, info) && Lists(order, info.spends.Keys)
    requires info.mints != []
    requires b == AddSpends(i, info.spends) && a == ConnectMints(lim, b, indexes, info.mints)
    requires indexes <= more && |more| == |indexes| + 1 && more[|indexes|].minted == map[a.latest := info.mints]
    ensures var r := RemoveBlock(lim, a, more, |indexes|, order);
      if Undoable(lim, i, indexes, |info.mints|) then r.Some? && Alike(r.value, i) else r == None
  {
    hide Good, Tracked, Undoable, RemoveGroup, RemoveMints, RemoveSpends, RemoveBlock, AddMints, AssignGroup,
      SameCounts, Alike, NewMints, CountSpends, Known, TagsOk;
    var k := |info.mints|;
    SpendsGood(i, info.spends, |indexes|);
    TrackedSame(i, b, indexes);
    SameUndoable(lim, i, b, indexes, k);
    var c := AssignGroup(lim, b, indexes, |indexes|, k);
    AddMintsEffect(c, c, info.mints, CoinInfo(c.latest, |indexes|));
    AssignKeeps(lim, b, indexes, k);
    BlockIs(lim, a, more, |indexes|, c.latest, info.mints, order);
    GroupUndone(lim, b, a, indexes, more, k);
    if Undoable(lim, i, indexes, k) {
      var u := a.(groups := i.groups, latest := i.latest, ext := i.ext);
      NewSame(i, c, info.mints);
      CoinsUndone(c, a, u, info.mints, c.latest, |indexes|);
      var v := RemoveMints(u, c.latest, info.mints).value;
      SpendsUndone(i, v, info.spends, order);
      ZeroAlike(i, v, RemoveSpends(v, order));
    }
  }

  lemma TrackedSame(i: State, b: State, indexes: seq<Index>)
    requires Tracked(i, indexes) && b == i.(used := b.used, spend := b.spend)
    ensures Tracked(b, indexes) && TagsOk(i.tags, i.coins)
  {
  }

  lemma NothingMinted(lim: Limits, i: State, indexes: seq<Index>)
    ensures Undoable(lim, i, indexes, 0)
  {
  }

  lemma AssignKeeps(lim: Limits, b: State, indexes: seq<Index>, k: nat)
    ensures var c := AssignGroup(lim, b, indexes, |indexes|, k);
      c == b.(groups := c.groups, latest := c.latest, ext := c.ext)
  {
    hide AssignGroup, CountLastNCoins;
    AssignExt(lim, b, indexes, |indexes|, k);
  }

  lemma NewSame(i: State, c: State, ms: seq<Mint>)
    requires NewMints(i, ms) && c.coins == i.coins && c.tags == i.tags
    ensures NewMints(c, ms)
  {
  }

  lemma ZeroAlike(i: State, v: State, r: State)
    requires r == v.(used := i.used, spend := r.spend) && (forall g :: At(r.spend, g) == At(i.spend, g))
    requires v == i.(used := v.used, mint := v.mint, spend := v.spend) && SameCounts(v.mint, i.mint)
    ensures Alike(r, i)
  {
  }

  /**
  After any chain, disconnecting the block that was just connected gives back the state before it, up to
  zero counters, exactly when its group can be undone; otherwise an assert of RemoveBlock fails.
  */
  lemma RunUndone(lim: Limits, chain: seq<TxInfo>, info: TxInfo, order: seq<Serial>)
    requires IsNew(Run(lim, chain).0, info) && Lists(order, info.spends.Keys)
    ensures var (i, indexes) := Run(lim, chain);
      var (a, index) := Connect(lim, i, indexes, info);
      var r := RemoveBlock(lim, a, indexes + [index], |indexes|, order);
      if Undoable(lim, i, indexes, |info.mints|) then r.Some? && Alike(r.value, i) else r == None
  {
    hide Good, Tracked, IsNew, Undoable, Alike, RemoveBlock, Run, Connect;
    RunTracked(lim, chain);
    var (i, indexes) := Run(lim, chain);
    StepUndone(lim, i, indexes, info, order);
  }

  // ---------------------------------------------------------------------------------------------
  // A block that cannot be undone

  /** The limits that the node uses. */
  const NODE := Limits(65000, 16000)

  function Fresh(from: nat, n: nat): TxInfo {
    TxInfo(seq(n, j requires 0 <= j < n => Mint(from + j, from + j)), map[])
  }

  lemma FreshNew(s: State, from: nat, n: nat)
    requires (forall c :: c in s.coins ==> c < from) && (forall t :: t in s.tags ==> t < from)
    ensures IsNew(s, Fresh(from, n))
  {
  }

  /** A block whose mints join the latest group. */
  lemma JoinEffect(lim: Limits, i: State, indexes: seq<Index>, from: nat, n: nat)
    requires n > 0 && TagsOk(i.tags, i.coins)
    requires (forall c :: c in i.coins ==> c < from) && (forall t :: t in i.tags ==> t < from)
    requires GroupOf(i, Latest(i)).nCoins + n <= lim.maxCoinInGroup
    ensures var (a, index) := Connect(lim, i, indexes, Fresh(from, n));
      && a.latest == Latest(i) && GroupOf(a, Latest(i)) == GroupOf(Joined(i, Latest(i), |indexes|, n), Latest(i))
      && index.minted == map[Latest(i) := Fresh(from, n).mints] && TagsOk(a.tags, a.coins)
      && (forall c :: c in a.coins ==> c < from + n) && (forall t :: t in a.tags ==> t < from + n)
  {
    hide NewMints, AddMints, WithoutCoins, AssignGroup, CountLastNCoins, Joined;
    var ms := Fresh(from, n).mints;
    SpendNone(i);
    var c := Joined(i, Latest(i), |indexes|, n);
    AssignIs(lim, i, indexes, |indexes|, n);
    JoinedIs(i, Latest(i), |indexes|, n);
    FreshNew(i, from, n);
    NewSame(i, c, ms);
    AddMintsEffect(c, c, ms, CoinInfo(Latest(i), |indexes|));
    AddedMints(c, ms, CoinInfo(Latest(i), |indexes|));
    AddMintsTags(c, ms, CoinInfo(Latest(i), |indexes|));
    assert forall x :: x in CoinSet(ms) ==> x < from + n;
    assert forall x :: x in TagSet(ms) ==> x < from + n;
  }

  /** Blocks of eight new coins each. */
  function Eights(n: nat): (r: seq<TxInfo>)
    ensures |r| == n
  {
    if n == 0 then [] else Eights(n - 1) + [Fresh(8 * (n - 1), 8)]
  }

  /** All coins so far in the first group, the numbers below them used up. */
  ghost predicate OneGroupSoFar(s: State, indexes: seq<Index>, coins: nat) {
    && s.latest == 1 && indexes != [] && GroupOf(s, 1) == Group(Some(0), Some(|indexes| - 1), coins)
    && (forall c :: c in s.coins ==> c < coins) && (forall t :: t in s.tags ==> t < coins) && TagsOk(s.tags, s.coins)
  }

  ghost predicate AllEights(indexes: seq<Index>, n: nat) {
    n <= |indexes| && forall k :: 0 <= k < n ==> CoinsIn(indexes[k], 1) == 8
  }

  lemma {:induction false} EightsRun(n: nat)
    requires 1 <= n <= 8124
    ensures var (s, indexes) := Run(NODE, Eights(n));
      |indexes| == n && OneGroupSoFar(s, indexes, 8 * n) && AllEights(indexes, n)
  {
    hide Connect, Run, OneGroupSoFar, Fresh;
    FreshSizes();
    if n == 1 {
      FirstEight();
    } else {
      EightsRun(n - 1);
      var (s, indexes) := Run(NODE, Eights(n - 1));
      assert Eights(n)[..n - 1] == Eights(n - 1);
      RunStep(NODE, Eights(n), s, indexes);
      OneMore(s, indexes, 8 * (n - 1), 8);
    }
  }

  lemma FirstEight()
    ensures var (s, indexes) := Run(NODE, Eights(1));
      |indexes| == 1 && OneGroupSoFar(s, indexes, 8) && AllEights(indexes, 1)
  {
    hide Connect, Fresh, Joined;
    FreshSizes();
    var one := Eights(1);
    assert one == [Fresh(0, 8)] && one[..|one| - 1] == [];
    RunStep(NODE, one, EMPTY, []);
    JoinEffect(NODE, EMPTY, [], 0, 8);
    JoinedIs(EMPTY, 1, 0, 8);
  }

  /** A block that still fits into the first group. */
  lemma OneMore(s: State, indexes: seq<Index>, coins: nat, n: nat)
    requires OneGroupSoFar(s, indexes, coins) && indexes != [] && coins > 0 && n > 0 && coins + n <= 65000
    ensures var (a, index) := Connect(NODE, s, indexes, Fresh(coins, n));
      OneGroupSoFar(a, indexes + [index], coins + n) && CoinsIn(index, 1) == n
  {
    hide Connect, Fresh, Joined;
    FreshSizes();
    JoinEffect(NODE, s, indexes, coins, n);
    JoinedIs(s, 1, |indexes|, n);
  }

  /** Counting back over blocks of eight coins from one coin on. */
  lemma {:induction false} CountEights(indexes: seq<Index>, k: nat, coins: nat, first: Option<nat>)
    requires AllEights(indexes, k) && coins % 8 == 1 && coins <= 16001 <= coins + 8 * k
    ensures CountBack(indexes, k, 1, 16000, coins, first).0 == 16001
    decreases k
  {
    if coins < 16000 {
      CountEights(indexes, k - 1, coins + 8, Some(k - 1));
    }
  }

  /**
  At the node's own limits: after 8124 blocks of eight coins and one of a single coin, a block of eight
  starts the second group, shares 16001 coins with it, and is then not recognised as the one that
  started it.
  */
  lemma UndoFails()
    ensures var chain := Eights(8124) + [Fresh(64992, 1)];
      var (i, indexes) := Run(NODE, chain);
      var (a, index) := Connect(NODE, i, indexes, Fresh(64993, 8));
      IsNew(i, Fresh(64993, 8)) && RemoveBlock(NODE, a, indexes + [index], |indexes|, []) == None
  {
    hide Connect, Run, Fresh, IsNew, RemoveBlock, Eights, OneGroupSoFar, Undoable, AllEights;
    var chain := Eights(8124) + [Fresh(64992, 1)];
    assert chain[..|chain| - 1] == Eights(8124);
    EightsRun(8124);
    var (s, indexes) := Run(NODE, Eights(8124));
    RunStep(NODE, chain, s, indexes);
    OneMore(s, indexes, 64992, 1);
    var (j, y) := Connect(NODE, s, indexes, Fresh(64992, 1));
    SoFarNew(j, indexes + [y], 64993, 8);
    FreshSizes();
    NotEdged(j, indexes, y);
    RunUndone(NODE, chain, Fresh(64993, 8), []);
  }

  lemma SoFarNew(s: State, indexes: seq<Index>, coins: nat, n: nat)
    requires OneGroupSoFar(s, indexes, coins)
    ensures IsNew(s, Fresh(coins, n))
  {
    FreshNew(s, coins, n);
  }

  lemma NotEdged(j: State, indexes: seq<Index>, y: Index)
    requires |indexes| == 8124 && AllEights(indexes, 8124) && CoinsIn(y, 1) == 1
    requires OneGroupSoFar(j, indexes + [y], 64993)
    ensures !Undoable(NODE, j, indexes + [y], 8)
  {
    hide AllEights;
    var all := indexes + [y];
    EightsMore(indexes, y);
    CountEights(all, 8124, 1, Some(8124));
    assert all[8124] == y;
    assert CountBack(all, 8125, 1, 16000, 0, None) == CountBack(all, 8124, 1, 16000, 1, Some(8124));
  }

  lemma EightsMore(indexes: seq<Index>, y: Index)
    requires AllEights(indexes, |indexes|)
    ensures AllEights(indexes + [y], |indexes|)
  {
  }

  lemma RunStep(lim: Limits, chain: seq<TxInfo>, s: State, indexes: seq<Index>)
    requires chain != [] && Run(lim, chain[..|chain| - 1]) == (s, indexes)
    ensures var (a, index) := Connect(lim, s, indexes, chain[|chain| - 1]); Run(lim, chain) == (a, indexes + [index])
  {
  }

  lemma FreshSizes()
    ensures forall from: nat, n: nat :: |Fresh(from, n).mints| == n && Fresh(from, n).spends == map[]
  {
  }

  // ---------------------------------------------------------------------------------------------
  // Chains of new coins

  /** No coin has two tags. */
  ghost predicate OneTag(tags: map<Tag, PubCoin>) {
    forall t: Tag, u: Tag :: t in tags && u in tags && tags[t] == tags[u] ==> t == u
  }

  /** Every block brings coins, tags and serials that were not seen before it. */
  ghost predicate AllNew(lim: Limits, chain: seq<TxInfo>) {
    forall n :: 0 <= n < |chain| ==> IsNew(Run(lim, chain[..n]).0, chain[n])
  }

  lemma LastIsNew(lim: Limits, chain: seq<TxInfo>, info: TxInfo)
    requires AllNew(lim, chain + [info])
    ensures IsNew(Run(lim, chain).0, info)
  {
    hide IsNew;
    var all := chain + [info];
    assert all[..|chain|] == chain && all[|chain|] == info;
  }

  lemma {:induction false} RunOneTag(lim: Limits, chain: seq<TxInfo>)
    requires AllNew(lim, chain)
    ensures OneTag(Run(lim, chain).0.tags)
  {
    hide OneTag, IsNew, Good, Tracked, Connect;
    if chain != [] {
      var init, info := chain[..|chain| - 1], chain[|chain| - 1];
      forall n | 0 <= n < |init| ensures IsNew(Run(lim, init[..n]).0, init[n]) {
        assert init[..n] == chain[..n];
      }
      RunOneTag(lim, init);
      var (i, indexes) := Run(lim, init);
      RunTracked(lim, init);
      StepOneTag(lim, i, indexes, info);
    } else {
      NoTags();
    }
  }

  lemma NoTags()
    ensures OneTag(EMPTY.tags)
  {
  }

  lemma StepOneTag(lim: Limits, i: State, indexes: seq<Index>, info: TxInfo)
    requires IsNew(i, info) && Tracked(i, indexes) && OneTag(i.tags)
    ensures OneTag(Connect(lim, i, indexes, info).0.tags)
  {
    hide NewMints, AddMints, AssignGroup, OneTag, CountSpends, Known;
    var b := AddSpends(i, info.spends);
    if info.mints != [] {
      var c := AssignGroup(lim, b, indexes, |indexes|, |info.mints|);
      AssignKeeps(lim, b, indexes, |info.mints|);
      NewSame(i, c, info.mints);
      AddedOneTag(c, info.mints, CoinInfo(c.latest, |indexes|));
    }
  }

  lemma {:induction false} AddedOneTag(s: State, ms: seq<Mint>, info: CoinInfo)
    requires NewMints(s, ms) && TagsOk(s.tags, s.coins) && OneTag(s.tags)
    ensures OneTag(AddMints(s, ms, info).tags)
  {
    hide NewMints, TagsOk, OneTag, Added;
    if ms != [] {
      var init, m := ms[..|ms| - 1], ms[|ms| - 1];
      LastNew(s, ms);
      AddedOneTag(s, init, info);
      AddedMints(s, init, info);
      AddMintsTags(s, init, info);
      NotAdded(s, AddMints(s, init, info), init, info, m);
      OneMoreTag(AddMints(s, init, info), m);
    }
  }

  lemma NotAdded(s: State, b: State, init: seq<Mint>, info: CoinInfo, m: Mint)
    requires Added(s, b, init, info) && m.coin !in CoinSet(init) && m.coin !in s.coins
    ensures m.coin !in b.coins
  {
  }

  lemma OneMoreTag(b: State, m: Mint)
    requires OneTag(b.tags) && TagsOk(b.tags, b.coins) && m.coin !in b.coins
    ensures OneTag(Insert(b.tags, m.tag, m.coin))
  {
    forall t: Tag | t in b.tags ensures b.tags[t] != m.coin {
      var c := b.tags[t];
      assert c in b.coins;
    }
  }
}
