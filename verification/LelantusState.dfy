/** The code of CLelantusState and its Containers (src/lelantus.cpp), proved to do what LelantusSpec says. */
module LelantusState {
  import opened Surge
  import opened Basics
  import opened LelantusSpec
  import Spec = LelantusSpec
  import Undo = LelantusUndo

  class CoinState {
    const lim: Limits
    var coinGroups: map<int, Group>
    var latestCoinId: int
    var mintedPubCoins: map<PubCoin, CoinInfo>
    var tagToPublicCoin: map<Tag, PubCoin>
    var usedCoinSerials: map<Serial, int>
    var mintMetaInfo: Counts
    var spendMetaInfo: Counts
    var extendedMintMetaInfo: Counts
    var surgeCondition: bool

    ghost function S(): State reads this {
      State(coinGroups, latestCoinId, mintedPubCoins, tagToPublicCoin, usedCoinSerials, mintMetaInfo, spendMetaInfo,
        extendedMintMetaInfo)
    }

    /** Between operations the flag is what the counts say. */
    ghost predicate Valid() reads this {
      surgeCondition == Surging(mintMetaInfo, spendMetaInfo, extendedMintMetaInfo)
    }

    constructor (lim: Limits)
      ensures Valid() && S() == EMPTY && this.lim == lim
    {
      this.lim := lim;
      coinGroups, latestCoinId, mintedPubCoins, tagToPublicCoin := map[], 0, map[], map[];
      usedCoinSerials, mintMetaInfo, spendMetaInfo, extendedMintMetaInfo := map[], map[], map[], map[];
      surgeCondition := false;
    }

    method AddMint(pubCoin: PubCoin, coinInfo: CoinInfo, tag: Tag)
      modifies this
      ensures Valid() && S() == Spec.AddMint(old(S()), Mint(pubCoin, tag), coinInfo)
    {
      mintedPubCoins := Insert(mintedPubCoins, pubCoin, coinInfo);
      tagToPublicCoin := Insert(tagToPublicCoin, tag, pubCoin);
      mintMetaInfo := mintMetaInfo[coinInfo.group := At(mintMetaInfo, coinInfo.group) + 1];
      surgeCondition := CheckSurgeCondition(mintMetaInfo, spendMetaInfo, extendedMintMetaInfo);
    }

    method AddSpend(serial: Serial, coinGroupId: int)
      requires Valid()
      modifies this
      ensures Valid() && S() == Spec.AddSpend(old(S()), serial, coinGroupId)
    {
      if coinGroupId in mintMetaInfo {
        usedCoinSerials := usedCoinSerials[serial := coinGroupId];
        spendMetaInfo := spendMetaInfo[coinGroupId := At(spendMetaInfo, coinGroupId) + 1];
        surgeCondition := CheckSurgeCondition(mintMetaInfo, spendMetaInfo, extendedMintMetaInfo);
      }
    }

    method AddExtendedMints(group: int, mints: nat)
      modifies this`extendedMintMetaInfo, this`surgeCondition
      ensures Valid() && extendedMintMetaInfo == old(extendedMintMetaInfo)[group := mints]
    {
      extendedMintMetaInfo := extendedMintMetaInfo[group := mints];
      surgeCondition := CheckSurgeCondition(mintMetaInfo, spendMetaInfo, extendedMintMetaInfo);
    }

    /** The loop over a block's mints. */
    method AddAllMints(mints: seq<Mint>, info: CoinInfo)
      requires Valid()
      modifies this
      ensures Valid() && S() == AddMints(old(S()), mints, info)
    {
      ghost var s := S();
      for n := 0 to |mints|
        invariant Valid() && S() == AddMints(s, mints[..n], info)
      {
        assert mints[..n + 1][..n] == mints[..n];
        AddMint(mints[n].coin, info, mints[n].tag);
      }
      assert mints[..|mints|] == mints;
    }

    /** The loop over a block's serials, in any order. */
    method AddAllSpends(spends: map<Serial, int>)
      requires Valid()
      modifies this
      ensures Valid() && S() == AddSpends(old(S()), spends)
    {
      hide AddSpends, Valid, Spec.AddSpend;
      ghost var s := S();
      ghost var done: map<Serial, int> := map[];
      SpendNone(s);
      var todo := spends.Keys;
      while todo != {}
        invariant todo <= spends.Keys && done.Keys == spends.Keys - todo
        invariant forall x :: x in done ==> done[x] == spends[x]
        invariant Valid() && S() == AddSpends(s, done)
      {
        var serial :| serial in todo;
        SpendOne(s, done, serial, spends[serial]);
        AddSpend(serial, spends[serial]);
        done := done[serial := spends[serial]];
        todo := todo - {serial};
      }
      assert done == spends;
    }

    method CountLastNCoins(indexes: seq<Index>, groupId: int, required: nat) returns (coins: nat, first: Option<nat>)
      ensures (coins, first) == Spec.CountLastNCoins(S(), indexes, groupId, required)
    {
      first := None;
      coins := 0;
      if groupId in coinGroups {
        var group := coinGroups[groupId];
        if group.last.Some? && group.last.value < |indexes| {
          var block := group.last.value + 1;
          while coins < required && block > 0
            invariant 0 <= block <= |indexes|
            invariant CountBack(indexes, block, groupId, required, coins, first) ==
              Spec.CountLastNCoins(S(), indexes, groupId, required)
          {
            var inBlock := CoinsIn(indexes[block - 1], groupId);
            if inBlock > 0 {
              coins := coins + inBlock;
              first := Some(block - 1);
            }
            block := block - 1;
          }
        }
      }
    }

    /** The mints of a block join a group.  The asserts are those of the source. */
    method JoinGroup(id: int, index: nat, k: nat)
      requires Valid()
      requires var g := GroupOf(S(), id);
        g == NO_GROUP || (g.nCoins > 0 && g.first.Some? && g.last.Some? && g.last.value < index)
      modifies this`coinGroups, this`latestCoinId
      ensures Valid() && S() == Joined(old(S()), id, index, k)
    {
      var coinGroup := if id in coinGroups then coinGroups[id] else NO_GROUP;
      if coinGroup.nCoins == 0 {
        assert coinGroup.first == None;
        assert coinGroup.last == None;
        coinGroup := coinGroup.(first := Some(index), last := Some(index));
      } else {
        assert coinGroup.first != None;
        assert coinGroup.last != None;
        assert coinGroup.last.value <= index;
        coinGroup := coinGroup.(last := Some(index));
      }
      coinGroup := coinGroup.(nCoins := coinGroup.nCoins + k);
      coinGroups := coinGroups[id := coinGroup];
      latestCoinId := id;
    }

    /** They start a new group. */
    method StartGroup(id: int, indexes: seq<Index>, k: nat)
      requires Valid()
      modifies this`coinGroups, this`latestCoinId, this`extendedMintMetaInfo, this`surgeCondition
      ensures Valid()
      ensures S() ==
        Started(old(S()), id, |indexes|, k, Spec.CountLastNCoins(old(S()), indexes, id - 1, lim.startGroupSize))
    {
      hide Spec.CountLastNCoins, Surging;
      var coins, first := CountLastNCoins(indexes, id - 1, lim.startGroupSize);
      coinGroups := coinGroups[id := Group(Or(first, |indexes|), Some(|indexes|), coins + k)];
      latestCoinId := id;
      AddExtendedMints(id, coins);
    }

    /** Looking a group up enters it. */
    method TouchGroup(id: int)
      requires Valid()
      modifies this`coinGroups
      ensures Valid() && S() == old(S()).(groups := old(S()).groups[id := GroupOf(old(S()), id)])
    {
      coinGroups := coinGroups[id := if id in coinGroups then coinGroups[id] else NO_GROUP];
    }

    /** The choice of a group in AddMintsToStateAndBlockIndex. */
    method ChooseGroup(indexes: seq<Index>, k: nat)
      requires Valid() && Good(S(), |indexes|) && k > 0
      modifies this
      ensures Valid() && S() == AssignGroup(lim, old(S()), indexes, |indexes|, k)
    {
      hide Good, Spec.CountLastNCoins, Surging, Joined, Started, AssignGroup;
      ghost var s := S();
      AssignIs(lim, s, indexes, |indexes|, k);
      LatestGroup(s, |indexes|);
      LatestBefore(s, |indexes|);
      var id := if latestCoinId > 1 then latestCoinId else 1;
      var coinGroup := if id in coinGroups then coinGroups[id] else NO_GROUP;
      if coinGroup.nCoins + k <= lim.maxCoinInGroup {
        JoinGroup(id, |indexes|, k);
      } else {
        CountTouched(s, id, indexes, lim.startGroupSize);
        TouchGroup(id);
        StartGroup(id + 1, indexes, k);
      }
    }

    method AddMintsToStateAndBlockIndex(indexes: seq<Index>, blockMints: seq<Mint>)
      returns (minted: map<int, seq<Mint>>)
      requires Valid() && Good(S(), |indexes|) && blockMints != []
      modifies this
      ensures Valid() && S() == ConnectMints(lim, old(S()), indexes, blockMints)
      ensures minted == map[latestCoinId := blockMints]
    {
      hide Good, AssignGroup, AddMints;
      ChooseGroup(indexes, |blockMints|);
      AddMintsEffect(S(), S(), blockMints, CoinInfo(latestCoinId, |indexes|));
      AddAllMints(blockMints, CoinInfo(latestCoinId, |indexes|));
      minted := map[latestCoinId := blockMints];
    }

    /**
    ConnectBlockLelantus on a block with transaction information: updates the state and fills the block's
    index entry.
    */
    method ConnectBlock(indexes: seq<Index>, info: TxInfo) returns (index: Index)
      requires Valid() && Good(S(), |indexes|)
      modifies this
      ensures Valid() && (S(), index) == Connect(lim, old(S()), indexes, info)
    {
      SpendsGood(S(), info.spends, |indexes|);
      hide AddSpends, Good, ConnectMints;
      AddAllSpends(info.spends);
      index := Index(map[], info.spends);
      if info.mints != [] {
        var minted := AddMintsToStateAndBlockIndex(indexes, info.mints);
        index := index.(minted := minted);
      }
    }

    /** AddBlock for one group of the index entry. */
    method AddBlockGroup(indexes: seq<Index>, height: nat, id: int, pubCoins: seq<Mint>)
      requires Valid()
      modifies this
      ensures Valid() && S() == AddGroup(lim, old(S()), indexes, height, id, pubCoins)
    {
      if pubCoins == [] {
        return;
      }
      ghost var s := S();
      hide Spec.CountLastNCoins;
      var coinGroup := if id in coinGroups then coinGroups[id] else NO_GROUP;
      if coinGroup.first.None? {
        coinGroup := coinGroup.(first := Some(height));
        if id > 1 {
          var coins, first := CountLastNCoins(indexes, id - 1, lim.startGroupSize);
          coinGroup := coinGroup.(nCoins := coins, first := Or(first, height));
          AddExtendedMints(id, coins);
        }
      }
      coinGroup := coinGroup.(last := Some(height), nCoins := coinGroup.nCoins + |pubCoins|);
      coinGroups := coinGroups[id := coinGroup];
      latestCoinId := id;
      assert S() == FindGroup(lim, s, indexes, height, id, |pubCoins|);
      AddAllMints(pubCoins, CoinInfo(id, height));
    }

    method AddBlock(indexes: seq<Index>, height: nat)
      requires Valid() && height < |indexes|
      modifies this
      ensures Valid() && S() == Spec.AddBlock(lim, old(S()), indexes, height)
    {
      hide AddGroup, AddSpends, Valid;
      var minted := indexes[height].minted;
      var rest := minted.Keys;
      ghost var s := S();
      ghost var seen := indexes[..height + 1];
      while rest != {}
        invariant Valid() && rest <= minted.Keys
        invariant AddGroups(lim, S(), seen, height, minted, rest) ==
          AddGroups(lim, s, seen, height, minted, minted.Keys)
        decreases |rest|
      {
        LeastExists(rest);
        var id :| id in rest && forall y :: y in rest ==> id <= y;
        assert id == Least(rest);
        AddBlockGroup(indexes[..height + 1], height, id, minted[id]);
        rest := rest - {id};
      }
      AddAllSpends(indexes[height].spent);
    }

    /** BuildLelantusStateFromIndex. */
    method Build(indexes: seq<Index>)
      requires Valid() && S() == EMPTY
      modifies this
      ensures Valid() && S() == Rebuilt(lim, indexes, |indexes|)
    {
      hide Spec.AddBlock;
      for n := 0 to |indexes|
        invariant Valid() && S() == Rebuilt(lim, indexes, n)
      {
        AddBlock(indexes, n);
      }
    }

    // -------------------------------------------------------------------------------------------
    // Disconnecting; false is a failed assert

    /** Looks for the coin's tag among all; the first one found goes. */
    method RemoveMint(pubCoin: PubCoin)
      requires Valid() && Undo.OneTag(tagToPublicCoin)
      modifies this`mintedPubCoins, this`tagToPublicCoin, this`mintMetaInfo, this`surgeCondition
      ensures Valid() && Undo.OneTag(tagToPublicCoin) && S() == Undo.RemoveMint(old(S()), pubCoin)
    {
      if pubCoin in mintedPubCoins {
        ghost var tags := tagToPublicCoin;
        var rest := tagToPublicCoin.Keys;
        while rest != {}
          invariant rest <= tags.Keys && tagToPublicCoin == tags
          invariant forall t: Tag :: t in tags && t !in rest ==> tags[t] != pubCoin
        {
          var hashPair: Tag :| hashPair in rest;
          if tagToPublicCoin[hashPair] == pubCoin {
            tagToPublicCoin := tagToPublicCoin - {hashPair};
            break;
          }
          rest := rest - {hashPair};
        }
        assert tagToPublicCoin == Undo.WithoutCoins(tags, {pubCoin});
        var group := mintedPubCoins[pubCoin].group;
        mintMetaInfo := mintMetaInfo[group := Undo.Less(At(mintMetaInfo, group))];
        mintedPubCoins := mintedPubCoins - {pubCoin};
        surgeCondition := CheckSurgeCondition(mintMetaInfo, spendMetaInfo, extendedMintMetaInfo);
      }
    }

    method RemoveSpend(serial: Serial)
      requires Valid()
      modifies this`usedCoinSerials, this`spendMetaInfo, this`surgeCondition
      ensures Valid() && S() == Undo.RemoveSpend(old(S()), serial)
    {
      if serial in usedCoinSerials {
        var group := usedCoinSerials[serial];
        spendMetaInfo := spendMetaInfo[group := Undo.Less(At(spendMetaInfo, group))];
        usedCoinSerials := usedCoinSerials - {serial};
        surgeCondition := CheckSurgeCondition(mintMetaInfo, spendMetaInfo, extendedMintMetaInfo);
      }
    }

    method RemoveExtendedMints(group: int)
      modifies this`extendedMintMetaInfo, this`surgeCondition
      ensures Valid() && extendedMintMetaInfo == old(extendedMintMetaInfo) - {group}
    {
      extendedMintMetaInfo := extendedMintMetaInfo - {group};
      surgeCondition := CheckSurgeCondition(mintMetaInfo, spendMetaInfo, extendedMintMetaInfo);
    }

    /** The search for the nearest earlier block with mints of this group or the one before. */
    method FindPrevMints(indexes: seq<Index>, height: nat, id: int) returns (prevGroupCount: nat)
      requires height < |indexes|
      ensures prevGroupCount == Undo.PrevMints(indexes, height, id)
    {
      var k := height;
      prevGroupCount := 0;
      while k > 0
        invariant 0 <= k <= height && prevGroupCount == 0
        invariant Undo.PrevMints(indexes, k, id) == Undo.PrevMints(indexes, height, id)
      {
        if CoinsIn(indexes[k - 1], id) != 0 {
          break;
        }
        prevGroupCount := CoinsIn(indexes[k - 1], id - 1);
        if prevGroupCount != 0 {
          break;
        }
        k := k - 1;
      }
    }

    /** The search for the group's last block before this one. */
    method FindLast(indexes: seq<Index>, first: Option<nat>, height: nat, id: int) returns (last: Option<nat>)
      requires height < |indexes|
      ensures last == Undo.RollBack(indexes, first, height, id)
    {
      var block := height;
      while first != Some(block) && block > 0
        invariant 0 <= block <= height
        invariant Undo.RollBack(indexes, first, block, id) == Undo.RollBack(indexes, first, height, id)
      {
        block := block - 1;
        if id in indexes[block].minted {
          return Some(block);
        }
      }
      return None;
    }

    /** The roll back of one group. */
    method RemoveBlockGroup(indexes: seq<Index>, height: nat, id: int, nMintsToForget: nat) returns (ok: bool)
      requires Valid() && height < |indexes|
      modifies this`coinGroups, this`latestCoinId, this`extendedMintMetaInfo, this`surgeCondition
      ensures Valid() && (ok <==> Undo.RemoveGroup(lim, old(S()), indexes, height, id, nMintsToForget).Some?)
      ensures ok ==> S() == Undo.RemoveGroup(lim, old(S()), indexes, height, id, nMintsToForget).value
    {
      hide Undo.PrevMints, Undo.RollBack;
      if id !in coinGroups || nMintsToForget == 0 {
        return true;
      }
      var coinGroup := coinGroups[id];
      if coinGroup.nCoins < nMintsToForget {
        return false;
      }
      var isExtended := id > 1;
      coinGroup := coinGroup.(nCoins := coinGroup.nCoins - nMintsToForget);
      var isEdgedBlock := false;
      if isExtended {
        var prevGroupCount := FindPrevMints(indexes, height, id);
        isEdgedBlock := prevGroupCount > 0 && SizeSub(coinGroup.nCoins, prevGroupCount) < lim.startGroupSize;
      }
      if (!isExtended && coinGroup.nCoins == 0) || (isExtended && isEdgedBlock) {
        coinGroups := coinGroups - {id};
        latestCoinId := latestCoinId - 1;
        RemoveExtendedMints(id);
      } else {
        if coinGroup.last != Some(height) {
          return false;
        }
        var last := FindLast(indexes, coinGroup.first, height, id);
        if last.None? {
          return false;
        }
        coinGroups := coinGroups[id := coinGroup.(last := last)];
      }
      return true;
    }

    /** The roll back of one group's mints. */
    method RemoveBlockMints(id: int, mints: seq<Mint>) returns (ok: bool)
      requires Valid() && Undo.OneTag(tagToPublicCoin)
      modifies this`mintedPubCoins, this`tagToPublicCoin, this`mintMetaInfo, this`surgeCondition
      ensures Valid() && Undo.OneTag(tagToPublicCoin) && (ok <==> Undo.RemoveMints(old(S()), id, mints).Some?)
      ensures ok ==> S() == Undo.RemoveMints(old(S()), id, mints).value
    {
      hide Undo.RemoveMint, Undo.OneTag;
      ghost var s := S();
      for n := 0 to |mints|
        invariant Valid() && Undo.OneTag(tagToPublicCoin) && Undo.RemoveMints(s, id, mints[..n]) == Some(S())
      {
        assert mints[..n + 1][..n] == mints[..n];
        var coin := mints[n].coin;
        if !(coin in mintedPubCoins && mintedPubCoins[coin].group == id) {
          MintsFail(s, id, mints, n + 1);
          return false;
        }
        RemoveMint(coin);
      }
      assert mints[..|mints|] == mints;
      return true;
    }

    method RemoveBlockGroups(indexes: seq<Index>, height: nat) returns (ok: bool)
      requires Valid() && height < |indexes|
      modifies this`coinGroups, this`latestCoinId, this`extendedMintMetaInfo, this`surgeCondition
      ensures var r := Undo.RemoveGroups(lim, old(S()), indexes, height, indexes[height].minted.Keys);
        Valid() && (ok <==> r.Some?) && (ok ==> S() == r.value)
    {
      hide Undo.RemoveGroup, Valid;
      var minted := indexes[height].minted;
      var rest := minted.Keys;
      ghost var s := S();
      while rest != {}
        invariant Valid() && rest <= minted.Keys
        invariant Undo.RemoveGroups(lim, S(), indexes, height, rest) ==
          Undo.RemoveGroups(lim, s, indexes, height, minted.Keys)
        decreases |rest|
      {
        var id := Least(rest);
        ok := RemoveBlockGroup(indexes, height, id, |minted[id]|);
        if !ok {
          return;
        }
        rest := rest - {id};
      }
      ok := true;
    }

    method RemoveBlockMintGroups(minted: map<int, seq<Mint>>) returns (ok: bool)
      requires Valid() && Undo.OneTag(tagToPublicCoin)
      modifies this`mintedPubCoins, this`tagToPublicCoin, this`mintMetaInfo, this`surgeCondition
      ensures var r := Undo.RemoveMintGroups(old(S()), minted, minted.Keys);
        Valid() && (ok <==> r.Some?) && (ok ==> S() == r.value)
    {
      hide Undo.RemoveMints, Valid, Undo.OneTag;
      var rest := minted.Keys;
      ghost var s := S();
      while rest != {}
        invariant Valid() && Undo.OneTag(tagToPublicCoin) && rest <= minted.Keys
        invariant Undo.RemoveMintGroups(S(), minted, rest) == Undo.RemoveMintGroups(s, minted, minted.Keys)
        decreases |rest|
      {
        var id := Least(rest);
        ok := RemoveBlockMints(id, minted[id]);
        if !ok {
          return;
        }
        rest := rest - {id};
      }
      ok := true;
    }

    /** The roll back of the block's spends, in the order in which they come. */
    method RemoveBlockSpends(serials: set<Serial>) returns (ghost order: seq<Serial>)
      requires Valid()
      modifies this`usedCoinSerials, this`spendMetaInfo, this`surgeCondition
      ensures Valid() && Undo.Lists(order, serials) && S() == Undo.RemoveSpends(old(S()), order)
    {
      hide Undo.RemoveSpend;
      ghost var s := S();
      order := [];
      var todo := serials;
      while todo != {}
        invariant Valid() && todo <= serials && Undo.Lists(order, serials - todo) && S() == Undo.RemoveSpends(s, order)
      {
        var serial :| serial in todo;
        RemoveSpend(serial);
        assert (order + [serial])[..|order|] == order;
        order := order + [serial];
        todo := todo - {serial};
      }
    }

    method RemoveBlock(indexes: seq<Index>, height: nat) returns (ok: bool, ghost order: seq<Serial>)
      requires Valid() && Undo.OneTag(tagToPublicCoin) && height < |indexes|
      modifies this
      ensures Valid() && Undo.Lists(order, indexes[height].spent.Keys)
      ensures var r := Undo.RemoveBlock(lim, old(S()), indexes, height, order);
        (ok <==> r.Some?) && (ok ==> S() == r.value)
    {
      hide Undo.RemoveGroups, Undo.RemoveMintGroups, Undo.RemoveSpends, Undo.OneTag, Valid;
      order := Listed(indexes[height].spent.Keys);
      ok := RemoveBlockGroups(indexes, height);
      if !ok {
        return;
      }
      ok := RemoveBlockMintGroups(indexes[height].minted);
      if !ok {
        return;
      }
      order := RemoveBlockSpends(indexes[height].spent.Keys);
    }
  }

  lemma {:induction false} MintsFail(s: State, id: int, mints: seq<Mint>, n: nat)
    requires n <= |mints| && Undo.RemoveMints(s, id, mints[..n]).None?
    ensures Undo.RemoveMints(s, id, mints).None?
    decreases |mints| - n
  {
    hide Undo.RemoveMint;
    if n == |mints| {
      assert mints[..n] == mints;
    } else {
      assert mints[..n + 1][..n] == mints[..n];
      MintsFail(s, id, mints, n + 1);
    }
  }

  lemma {:induction false} Listed(serials: set<Serial>) returns (order: seq<Serial>)
    ensures Undo.Lists(order, serials)
    decreases |serials|
  {
    if serials == {} {
      order := [];
    } else {
      var x :| x in serials;
      var rest := Listed(serials - {x});
      order := rest + [x];
    }
  }

  lemma CountTouched(s: State, id: int, indexes: seq<Index>, required: nat)
    ensures Spec.CountLastNCoins(s.(groups := s.groups[id := GroupOf(s, id)]), indexes, id, required)
         == Spec.CountLastNCoins(s, indexes, id, required)
  {
  }

  lemma LatestBefore(s: State, h: nat)
    requires Good(s, h)
    ensures var g := GroupOf(s, Latest(s)); g != NO_GROUP ==> g.last.Some? && g.last.value < h
  {
  }

  /** Connects the blocks of a chain one after the other. */
  method ConnectAll(lim: Limits, chain: seq<TxInfo>) returns (c: CoinState, indexes: seq<Index>)
    ensures fresh(c) && c.lim == lim && c.Valid() && (c.S(), indexes) == Run(lim, chain)
  {
    hide Run, Connect, Good, Surging;
    c := new CoinState(lim);
    indexes := [];
    RunNone(lim);
    for n := 0 to |chain|
      invariant c.lim == lim && c.Valid() && fresh(c) && (c.S(), indexes) == Run(lim, chain[..n])
    {
      RunMirrors(lim, chain[..n]);
      RunNext(lim, chain, n);
      var index := c.ConnectBlock(indexes, chain[n]);
      indexes := indexes + [index];
    }
    assert chain[..|chain|] == chain;
  }

  /** A chain connected block by block, and a second state built from the index that the first one filled. */
  method ConnectAndRebuild(lim: Limits, chain: seq<TxInfo>) returns (connected: CoinState, rebuilt: CoinState)
    ensures connected.lim == lim && connected.S() == Run(lim, chain).0
    ensures Surging(connected.mintMetaInfo, connected.spendMetaInfo, connected.extendedMintMetaInfo) ==
      connected.surgeCondition
    ensures connected.surgeCondition <==>
      !exists f :: Assigns(connected.mintMetaInfo, connected.spendMetaInfo, connected.extendedMintMetaInfo, f)
    ensures rebuilt.S() == connected.S() <==> FirstFits(lim, chain) && NoLate(lim, chain)
    ensures FirstFits(lim, chain) && NoLate(lim, chain) ==> rebuilt.surgeCondition == connected.surgeCondition
    ensures FirstFits(lim, chain) && SpendsKnown(lim, chain) ==>
      rebuilt.S() == connected.S() && rebuilt.surgeCondition == connected.surgeCondition
  {
    hide Run, Connect, Rebuilt, SpendsKnown, FirstFits;
    var indexes;
    connected, indexes := ConnectAll(lim, chain);
    if FirstFits(lim, chain) && SpendsKnown(lim, chain) {
      AcceptedRebuilds(lim, chain);
    }
    RebuildIff(lim, chain);
    RunSurge(lim, chain);
    rebuilt := new CoinState(lim);
    rebuilt.Build(indexes);
  }

  lemma RunNone(lim: Limits)
    ensures Run(lim, []) == (EMPTY, [])
  {
  }

  lemma RunNext(lim: Limits, chain: seq<TxInfo>, n: nat)
    requires n < |chain|
    ensures var r := Run(lim, chain[..n]); var a := Connect(lim, r.0, r.1, chain[n]);
      Run(lim, chain[..n + 1]) == (a.0, r.1 + [a.1])
  {
    assert chain[..n + 1][..n] == chain[..n];
  }

  /**
  A chain is connected, then one more block, and that block is disconnected: the state is as before it,
  up to zero counters, exactly when the block's group can be undone.
  */
  method ConnectAndRemove(lim: Limits, chain: seq<TxInfo>, info: TxInfo) returns (c: CoinState, ok: bool)
    requires Undo.AllNew(lim, chain + [info])
    ensures var (i, indexes) := Run(lim, chain);
      && (ok <==> Undo.Undoable(lim, i, indexes, |info.mints|))
      && (ok ==> Undo.Alike(c.S(), i) && c.Valid())
  {
    hide Run, Good, Connect, Undo.IsNew, Undo.Undoable, Undo.Alike, Undo.RemoveBlock, Surging, Undo.OneTag, Undo.AllNew;
    var indexes;
    c, indexes := ConnectAll(lim, chain);
    assert (chain + [info])[..|chain|] == chain && (chain + [info])[..|chain| + 1] == chain + [info];
    RunMirrors(lim, chain);
    Undo.RunOneTag(lim, chain + [info]);
    Undo.LastIsNew(lim, chain, info);
    RunNext(lim, chain + [info], |chain|);
    var index := c.ConnectBlock(indexes, info);
    ghost var order;
    ok, order := c.RemoveBlock(indexes + [index], |indexes|);
    assert index.spent == info.spends by { SpentIs(lim, Run(lim, chain).0, indexes, info); }
    Undo.RunUndone(lim, chain, info, order);
  }

  lemma SpentIs(lim: Limits, s: State, indexes: seq<Index>, info: TxInfo)
    ensures Connect(lim, s, indexes, info).1.spent == info.spends
  {
  }
}
