/**
The Lelantus coin state (CLelantusState, src/lelantus.cpp): the groups that minted coins are put
into, the coins and serials seen, and the counts per group.  The state is built in two ways: block by
block as blocks are connected, which also decides the groups and records them in the block index, and
all at once from the block index when the program starts.

LelantusSpec has the two as functions and compares them; LelantusState is the code.
*/
module LelantusSpec {
  import opened Surge
  import opened Basics

  type PubCoin = nat
  type Tag = nat
  type Serial = nat

  datatype Mint = Mint(coin: PubCoin, tag: Tag)
  datatype CoinInfo = CoinInfo(group: int, height: nat)

  /** First and last block (by height) with coins of a group, and the number of coins, shared ones included. */
  datatype Group = Group(first: Option<nat>, last: Option<nat>, nCoins: nat)

  /** What the block index keeps of a block. */
  datatype Index = Index(minted: map<int, seq<Mint>>, spent: map<Serial, int>)

  /** What is found in a block that is being connected. */
  datatype TxInfo = TxInfo(mints: seq<Mint>, spends: map<Serial, int>)

  datatype Limits = Limits(maxCoinInGroup: nat, startGroupSize: nat)

  datatype State = State(
    groups: map<int, Group>, latest: int,
    coins: map<PubCoin, CoinInfo>, tags: map<Tag, PubCoin>, used: map<Serial, int>,
    mint: Counts, spend: Counts, ext: Counts)

  const EMPTY := State(map[], 0, map[], map[], map[], map[], map[], map[])
  const NO_GROUP := Group(None, None, 0)

  // ---------------------------------------------------------------------------------------------
  // Containers

  function Insert<K, V>(m: map<K, V>, k: K, v: V): map<K, V> {
    if k in m then m else m[k := v]
  }

  function AddMint(s: State, m: Mint, info: CoinInfo): State {
    s.(coins := Insert(s.coins, m.coin, info), tags := Insert(s.tags, m.tag, m.coin),
       mint := s.mint[info.group := At(s.mint, info.group) + 1])
  }

  function AddMints(s: State, ms: seq<Mint>, info: CoinInfo): State {
    if ms == [] then s else AddMint(AddMints(s, ms[..|ms| - 1], info), ms[|ms| - 1], info)
  }

  function AddSpend(s: State, serial: Serial, group: int): State {
    if group !in s.mint then s
    else s.(used := s.used[serial := group], spend := s.spend[group := At(s.spend, group) + 1])
  }

  /** The serials that a block spends from a group. */
  function SpentFrom(spends: map<Serial, int>, group: int): set<Serial> {
    set x | x in spends && spends[x] == group
  }

  /** The spends of groups that exist. */
  function Known(mint: Counts, spends: map<Serial, int>): map<Serial, int> {
    map x | x in spends && spends[x] in mint :: spends[x]
  }

  function GroupsIn(spends: map<Serial, int>): set<int> {
    set x | x in spends :: spends[x]
  }

  function CountSpends(spend: Counts, mint: Counts, spends: map<Serial, int>): Counts {
    map g | g in spend.Keys + GroupsIn(Known(mint, spends)) ::
      At(spend, g) + if g in mint then |SpentFrom(spends, g)| else 0
  }

  /** All spends of a block, in whatever order: those of unknown groups are ignored. */
  function AddSpends(s: State, spends: map<Serial, int>): State {
    s.(used := s.used + Known(s.mint, spends), spend := CountSpends(s.spend, s.mint, spends))
  }

  // ---------------------------------------------------------------------------------------------
  // Groups

  function GroupOf(s: State, id: int): Group {
    if id in s.groups then s.groups[id] else NO_GROUP
  }

  function CoinsIn(index: Index, group: int): nat {
    if group in index.minted then |index.minted[group]| else 0
  }

  /** Walks back from block k - 1 until enough coins of the group are found. */
  function CountBack(indexes: seq<Index>, k: nat, group: int, required: nat, coins: nat,
                     first: Option<nat>): (nat, Option<nat>)
    requires k <= |indexes|
    decreases k
  {
    if k == 0 || coins >= required then (coins, first)
    else
      var n := CoinsIn(indexes[k - 1], group);
      CountBack(indexes, k - 1, group, required, coins + n, if n > 0 then Some(k - 1) else first)
  }

  function CountLastNCoins(s: State, indexes: seq<Index>, group: int, required: nat): (nat, Option<nat>) {
    var g := GroupOf(s, group);
    if g.last.None? || g.last.value >= |indexes| then (0, None)
    else CountBack(indexes, g.last.value + 1, group, required, 0, None)
  }

  function Or(first: Option<nat>, height: nat): Option<nat> {
    if first.Some? then first else Some(height)
  }

  function Latest(s: State): int {
    if s.latest > 1 then s.latest else 1
  }

  /** The block's mints join a group that has room. */
  function Joined(s: State, id: int, height: nat, k: nat): State {
    var g := GroupOf(s, id);
    var first := if g.nCoins == 0 then Some(height) else g.first;
    s.(latest := id, groups := s.groups[id := Group(first, Some(height), g.nCoins + k)])
  }

  /** Or start a new one, which shares the last coins of the one before. */
  function Started(s: State, id: int, height: nat, k: nat, tail: (nat, Option<nat>)): State {
    s.(latest := id, groups := s.groups[id := Group(Or(tail.1, height), Some(height), tail.0 + k)],
       ext := s.ext[id := tail.0])
  }

  /** AddMintsToStateAndBlockIndex up to the coins. */
  function AssignGroup(lim: Limits, s: State, indexes: seq<Index>, height: nat, k: nat): State {
    var id := Latest(s);
    var g := GroupOf(s, id);
    if g.nCoins + k <= lim.maxCoinInGroup then Joined(s, id, height, k)
    else
      Started(s.(groups := s.groups[id := g]), id + 1, height, k, CountLastNCoins(s, indexes, id, lim.startGroupSize))
  }

  function ConnectMints(lim: Limits, s: State, indexes: seq<Index>, mints: seq<Mint>): State {
    var a := AssignGroup(lim, s, indexes, |indexes|, |mints|);
    AddMints(a, mints, CoinInfo(a.latest, |indexes|))
  }

  /** ConnectBlockLelantus: spends first, then mints; and what goes into the block index. */
  function Connect(lim: Limits, s: State, indexes: seq<Index>, info: TxInfo): (State, Index) {
    var a := AddSpends(s, info.spends);
    if info.mints == [] then (a, Index(map[], info.spends))
    else
      var b := ConnectMints(lim, a, indexes, info.mints);
      (b, Index(map[b.latest := info.mints], info.spends))
  }

  /** AddBlock, for one group of the block's index entry, up to the coins. */
  function FindGroup(lim: Limits, s: State, indexes: seq<Index>, height: nat, id: int, k: nat): State {
    var g := GroupOf(s, id);
    if g.first.Some? then
      s.(latest := id, groups := s.groups[id := g.(last := Some(height), nCoins := g.nCoins + k)])
    else if id > 1 then
      Started(s, id, height, k, CountLastNCoins(s, indexes, id - 1, lim.startGroupSize))
    else
      s.(latest := id,
         groups := s.groups[id := g.(first := Some(height), last := Some(height), nCoins := g.nCoins + k)])
  }

  function AddGroup(lim: Limits, s: State, indexes: seq<Index>, height: nat, id: int, mints: seq<Mint>): State {
    if mints == [] then s
    else AddMints(FindGroup(lim, s, indexes, height, id, |mints|), mints, CoinInfo(id, height))
  }

  /** The groups of an index entry, in ascending order. */
  ghost function AddGroups(lim: Limits, s: State, indexes: seq<Index>, height: nat, minted: map<int, seq<Mint>>,
                           rest: set<int>): State
    requires rest <= minted.Keys
    decreases |rest|
  {
    if rest == {} then s
    else
      var id := Least(rest);
      AddGroups(lim, AddGroup(lim, s, indexes, height, id, minted[id]), indexes, height, minted, rest - {id})
  }

  ghost function AddBlock(lim: Limits, s: State, indexes: seq<Index>, height: nat): State
    requires height < |indexes|
  {
    var index := indexes[height];
    AddSpends(AddGroups(lim, s, indexes[..height + 1], height, index.minted, index.minted.Keys), index.spent)
  }

  // ---------------------------------------------------------------------------------------------
  // The two ways

  /** Connecting the blocks of a chain one after the other. */
  function Run(lim: Limits, chain: seq<TxInfo>): (State, seq<Index>) {
    if chain == [] then (EMPTY, [])
    else
      var (s, indexes) := Run(lim, chain[..|chain| - 1]);
      var (a, index) := Connect(lim, s, indexes, chain[|chain| - 1]);
      (a, indexes + [index])
  }

  /** BuildLelantusStateFromIndex, after n blocks. */
  ghost function Rebuilt(lim: Limits, indexes: seq<Index>, n: nat): State
    requires n <= |indexes|
  {
    if n == 0 then EMPTY else AddBlock(lim, Rebuilt(lim, indexes, n - 1), indexes, n - 1)
  }

  lemma {:induction false} AddMintsEffect(s: State, t: State, ms: seq<Mint>, info: CoinInfo)
    requires s.coins == t.coins && s.tags == t.tags && s.mint == t.mint
    ensures var a, b := AddMints(s, ms, info), AddMints(t, ms, info);
      && a.coins == b.coins && a.tags == b.tags && a.mint == b.mint
      && a == s.(coins := a.coins, tags := a.tags, mint := a.mint)
      && b == t.(coins := a.coins, tags := a.tags, mint := a.mint)
      && a.mint == if ms == [] then s.mint else s.mint[info.group := At(s.mint, info.group) + |ms|]
  {
    if ms != [] {
      AddMintsEffect(s, t, ms[..|ms| - 1], info);
    }
  }

  /** The groups that hold coins. */
  function Real(groups: map<int, Group>): map<int, Group> {
    map id | id in groups && groups[id] != NO_GROUP :: groups[id]
  }

  /** What both ways agree on: everything but spends, and an empty first group. */
  ghost predicate Mirror(i: State, r: State) {
    && r.latest == i.latest && r.coins == i.coins && r.tags == i.tags && r.mint == i.mint && r.ext == i.ext
    && r.groups == Real(i.groups)
  }

  ghost predicate GroupGood(g: Group, height: nat) {
    g == NO_GROUP || (g.nCoins > 0 && g.first.Some? && g.last.Some? && g.last.value < height)
  }

  ghost predicate GroupsGood(groups: map<int, Group>, latest: int, height: nat) {
    && latest >= 0
    && (forall id :: id in groups ==> 1 <= id <= latest && GroupGood(groups[id], height))
    && (forall id :: 2 <= id <= latest ==> id in groups && groups[id] != NO_GROUP)
    && (latest >= 1 ==> 1 in groups && (latest == 1 ==> groups[1] != NO_GROUP))
  }

  ghost predicate MintsMatch(mint: Counts, groups: map<int, Group>) {
    forall id :: id in mint <==> id in groups && groups[id] != NO_GROUP
  }

  /** What every state reached by connecting blocks satisfies. */
  ghost predicate Good(s: State, height: nat) {
    GroupsGood(s.groups, s.latest, height) && MintsMatch(s.mint, s.groups)
  }

  lemma {:induction false} CountBackPrefix(indexes: seq<Index>, more: seq<Index>, k: nat, group: int, required: nat,
                                           coins: nat, first: Option<nat>)
    requires k <= |indexes| && indexes <= more
    ensures CountBack(indexes, k, group, required, coins, first) == CountBack(more, k, group, required, coins, first)
  {
    if k > 0 && coins < required {
      var n := CoinsIn(indexes[k - 1], group);
      CountBackPrefix(indexes, more, k - 1, group, required, coins + n, if n > 0 then Some(k - 1) else first);
    }
  }

  lemma CountSame(i: State, r: State, indexes: seq<Index>, more: seq<Index>, id: int, required: nat)
    requires Good(i, |indexes|) && Mirror(i, r) && indexes <= more
    ensures CountLastNCoins(i, indexes, id, required) == CountLastNCoins(r, more, id, required)
  {
    var g := GroupOf(i, id);
    assert GroupOf(r, id) == g;
    if g.last.Some? {
      CountBackPrefix(indexes, more, g.last.value + 1, id, required, 0, None);
    }
  }

  lemma RealPut(groups: map<int, Group>, id: int, g: Group)
    ensures Real(groups[id := g]) == if g == NO_GROUP then Real(groups) - {id} else Real(groups)[id := g]
  {
  }

  lemma RealLooksUp(i: State, r: State, id: int)
    requires Mirror(i, r)
    ensures GroupOf(r, id) == GroupOf(i, id)
  {
  }

  lemma AssignIs(lim: Limits, i: State, indexes: seq<Index>, h: nat, k: nat)
    ensures AssignGroup(lim, i, indexes, h, k) ==
      if GroupOf(i, Latest(i)).nCoins + k <= lim.maxCoinInGroup then Joined(i, Latest(i), h, k)
      else Started(i.(groups := i.groups[Latest(i) := GroupOf(i, Latest(i))]), Latest(i) + 1, h, k,
        CountLastNCoins(i, indexes, Latest(i), lim.startGroupSize))
  {
  }

  /** A group that is known, or the first one, is joined; any other is started. */
  lemma FindIs(lim: Limits, s: State, indexes: seq<Index>, height: nat, id: int, k: nat)
    ensures var g := GroupOf(s, id); var f := FindGroup(lim, s, indexes, height, id, k);
      && ((g.first.Some? && g.nCoins > 0) || (g == NO_GROUP && id <= 1) ==> f == Joined(s, id, height, k))
      && (g == NO_GROUP && id > 1 ==>
            f == Started(s, id, height, k, CountLastNCoins(s, indexes, id - 1, lim.startGroupSize)))
  {
    hide CountLastNCoins;
  }

  /** Reading a group from the index does what choosing it did. */
  lemma GroupMirror(lim: Limits, i: State, r: State, indexes: seq<Index>, more: seq<Index>, k: nat)
    requires Good(i, |indexes|) && Mirror(i, r) && indexes <= more && k > 0
    ensures var a := AssignGroup(lim, i, indexes, |indexes|, k);
      Mirror(a, FindGroup(lim, r, more, |indexes|, a.latest, k))
  {
    hide CountLastNCoins, Good, Mirror, Real, GroupOf, AssignGroup, FindGroup, Joined, Started;
    var id, h := Latest(i), |indexes|;
    var g := GroupOf(i, id);
    AssignIs(lim, i, indexes, |indexes|, k);
    NextLatest(i, id, h, k, CountLastNCoins(i, indexes, id, lim.startGroupSize));
    FindIs(lim, r, more, h, id, k);
    FindIs(lim, r, more, h, id + 1, k);
    LatestGroup(i, h);
    CountSame(i, r, indexes, more, id, lim.startGroupSize);
    RealLooksUp(i, r, id);
    RealLooksUp(i, r, id + 1);
    if g.nCoins + k <= lim.maxCoinInGroup {
      JoinedMirror(i, r, id, h, k);
    } else {
      StartedMirror(i, r, id, h, k, CountLastNCoins(i, indexes, id, lim.startGroupSize));
    }
  }

  lemma NextLatest(i: State, id: int, h: nat, k: nat, tail: (nat, Option<nat>))
    ensures Joined(i, id, h, k).latest == id
    ensures Started(i.(groups := i.groups[id := GroupOf(i, id)]), id + 1, h, k, tail).latest == id + 1
  {
  }

  lemma JoinedMirror(i: State, r: State, id: int, h: nat, k: nat)
    requires Mirror(i, r) && k > 0
    ensures Mirror(Joined(i, id, h, k), Joined(r, id, h, k))
  {
    hide Real;
    RealLooksUp(i, r, id);
    RealPut(i.groups, id, Joined(i, id, h, k).groups[id]);
  }

  lemma StartedMirror(i: State, r: State, id: int, h: nat, k: nat, tail: (nat, Option<nat>))
    requires Mirror(i, r) && k > 0
    ensures Mirror(Started(i.(groups := i.groups[id := GroupOf(i, id)]), id + 1, h, k, tail),
      Started(r, id + 1, h, k, tail))
  {
    hide Real;
    RealKept(i, id);
    RealPut(i.groups[id := GroupOf(i, id)], id + 1, Group(Or(tail.1, h), Some(h), tail.0 + k));
  }

  lemma RealKept(i: State, id: int)
    ensures Real(i.groups[id := GroupOf(i, id)]) == Real(i.groups)
  {
  }

  lemma LatestGroup(i: State, height: nat)
    requires Good(i, height)
    ensures var g := GroupOf(i, Latest(i));
      && (g == NO_GROUP <==> g.nCoins == 0) && (g == NO_GROUP ==> Latest(i) == 1) && (g != NO_GROUP ==> g.first.Some?)
    ensures GroupOf(i, Latest(i) + 1) == NO_GROUP
  {
  }

  /** Putting a block's mints into a group, and reading the same from the index. */
  lemma MintsMirror(lim: Limits, i: State, r: State, indexes: seq<Index>, more: seq<Index>, mints: seq<Mint>)
    requires Good(i, |indexes|) && Mirror(i, r) && indexes <= more && mints != []
    ensures var a := ConnectMints(lim, i, indexes, mints);
      && Mirror(a, AddGroup(lim, r, more, |indexes|, a.latest, mints))
      && AddGroup(lim, r, more, |indexes|, a.latest, mints).spend == r.spend
      && AddGroup(lim, r, more, |indexes|, a.latest, mints).used == r.used
  {
    GroupMirror(lim, i, r, indexes, more, |mints|);
    var a := AssignGroup(lim, i, indexes, |indexes|, |mints|);
    var b := FindGroup(lim, r, more, |indexes|, a.latest, |mints|);
    var info := CoinInfo(a.latest, |indexes|);
    AddMintsEffect(a, b, mints, info);
    hide AssignGroup, FindGroup, AddMints;
    AddMintsEffect(a, a, mints, info);
  }

  function Counted(s: State, k: nat): State {
    s.(mint := s.mint[s.latest := At(s.mint, s.latest) + k])
  }

  /** The latest group changes, or the one after it joins. */
  lemma GroupsPut(groups: map<int, Group>, latest: int, h: nat, id: int, g: Group)
    requires GroupsGood(groups, latest, h) && GroupGood(g, h + 1) && g != NO_GROUP
    requires id >= 1 && (id == latest || id == latest + 1)
    ensures GroupsGood(groups[id := g], id, h + 1)
  {
    forall x | x in groups ensures GroupGood(groups[x], h + 1) {}
  }

  lemma MintsPut(mint: Counts, groups: map<int, Group>, id: int, g: Group, k: nat)
    requires MintsMatch(mint, groups) && g != NO_GROUP
    ensures MintsMatch(mint[id := k], groups[id := g])
  {
  }

  lemma JoinedGood(i: State, h: nat, k: nat)
    requires Good(i, h) && k > 0
    ensures Good(Counted(Joined(i, Latest(i), h, k), k), h + 1)
  {
    LatestGroup(i, h);
    hide GroupsGood, MintsMatch, GroupOf;
    var id := Latest(i);
    var g := Joined(i, id, h, k).groups[id];
    LatestIs(i, h);
    GroupsPut(i.groups, i.latest, h, id, g);
    MintsPut(i.mint, i.groups, id, g, At(i.mint, id) + k);
  }

  lemma LatestIs(i: State, h: nat)
    requires Good(i, h)
    ensures i.latest >= 0
  {
  }

  /** An empty first group may be there or not as long as there is no other. */
  lemma FirstTouched(i: State, h: nat)
    requires Good(i, h)
    ensures var groups := i.groups[Latest(i) := GroupOf(i, Latest(i))];
      && MintsMatch(i.mint, groups) && (i.latest >= 1 ==> groups == i.groups)
      && (i.latest == 0 ==> groups == map[1 := NO_GROUP])
  {
    if i.latest == 0 {
      assert forall id :: id !in i.groups;
      assert i.groups == map[];
    }
  }

  lemma StartedGood(i: State, h: nat, k: nat, tail: (nat, Option<nat>))
    requires Good(i, h) && k > 0
    ensures var touched := i.(groups := i.groups[Latest(i) := GroupOf(i, Latest(i))]);
      Good(Counted(Started(touched, Latest(i) + 1, h, k, tail), k), h + 1)
  {
    FirstTouched(i, h);
    LatestIs(i, h);
    hide MintsMatch, GroupOf;
    var id := Latest(i);
    var groups := i.groups[id := GroupOf(i, id)];
    var g := Group(Or(tail.1, h), Some(h), tail.0 + k);
    if i.latest >= 1 {
      GroupsPut(groups, id, h, id + 1, g);
    } else {
      assert GroupsGood(map[1 := NO_GROUP][2 := g], 2, h + 1);
    }
    MintsPut(i.mint, groups, id + 1, g, At(i.mint, id + 1) + k);
  }

  /** The chosen group and the others are as they should be. */
  lemma AssignGood(lim: Limits, i: State, indexes: seq<Index>, k: nat)
    requires Good(i, |indexes|) && k > 0
    ensures var a := AssignGroup(lim, i, indexes, |indexes|, k);
      a == i.(latest := a.latest, groups := a.groups, ext := a.ext) && Good(Counted(a, k), |indexes| + 1)
  {
    hide CountLastNCoins, Good;
    JoinedGood(i, |indexes|, k);
    StartedGood(i, |indexes|, k, CountLastNCoins(i, indexes, Latest(i), lim.startGroupSize));
  }

  lemma MintsGood(lim: Limits, i: State, indexes: seq<Index>, mints: seq<Mint>)
    requires Good(i, |indexes|) && mints != []
    ensures var a := ConnectMints(lim, i, indexes, mints);
      Good(a, |indexes| + 1) && a.spend == i.spend && a.used == i.used && (forall g :: g in i.mint ==> g in a.mint)
  {
    var a := AssignGroup(lim, i, indexes, |indexes|, |mints|);
    AddMintsEffect(a, a, mints, CoinInfo(a.latest, |indexes|));
    AssignGood(lim, i, indexes, |mints|);
    hide AssignGroup, AddMints;
  }

  // ---------------------------------------------------------------------------------------------
  // Spends

  lemma SpendsCounted(s: State, spends: map<Serial, int>, g: int)
    ensures At(AddSpends(s, spends).spend, g) == At(s.spend, g) + if g in s.mint then |SpentFrom(spends, g)| else 0
  {
    if g in s.mint {
      NotCounted(s.spend, s.mint, spends, g);
    }
  }

  lemma SpendsMirror(i: State, r: State, si: map<Serial, int>, sr: map<Serial, int>)
    requires Mirror(i, r)
    ensures Mirror(AddSpends(i, si), r) && Mirror(i, AddSpends(r, sr))
  {
  }

  lemma SpendsGood(i: State, spends: map<Serial, int>, h: nat)
    requires Good(i, h)
    ensures Good(AddSpends(i, spends), h)
  {
  }

  lemma GoodLater(i: State, h: nat)
    requires Good(i, h)
    ensures Good(i, h + 1)
  {
    forall id | id in i.groups ensures GroupGood(i.groups[id], h + 1) {}
  }

  /** The groups that a block creates. */
  ghost function Created(before: State, after: State): set<int> {
    after.mint.Keys - before.mint.Keys
  }

  /** How many spends of a block are of the group that the same block creates. */
  ghost function Late(before: State, after: State, spends: map<Serial, int>, g: int): nat {
    if g in Created(before, after) then |SpentFrom(spends, g)| else 0
  }

  /** The late spends of a whole chain. */
  ghost function LateIn(lim: Limits, chain: seq<TxInfo>, g: int): nat {
    if chain == [] then 0
    else
      var init, info := chain[..|chain| - 1], chain[|chain| - 1];
      LateIn(lim, init, g) + Late(Run(lim, init).0, Run(lim, chain).0, info.spends, g)
  }

  /** No block spends from a group that it creates itself. */
  ghost predicate NoLate(lim: Limits, chain: seq<TxInfo>) {
    forall g :: LateIn(lim, chain, g) == 0
  }

  /** One block connected, and the same block read from the index. */
  lemma StepMirror(lim: Limits, i: State, r: State, indexes: seq<Index>, info: TxInfo)
    requires Good(i, |indexes|) && Mirror(i, r)
    ensures var (a, index) := Connect(lim, i, indexes, info);
      var b := AddBlock(lim, r, indexes + [index], |indexes|);
      && Good(a, |indexes| + 1) && Mirror(a, b)
      && (forall g :: g in i.mint ==> g in a.mint)
      && a.spend == AddSpends(i, info.spends).spend && a.used == AddSpends(i, info.spends).used
      && b.spend == AddSpends(r.(mint := a.mint), info.spends).spend
      && b.used == AddSpends(r.(mint := a.mint), info.spends).used
  {
    hide Good, Mirror, CountSpends, Known, AssignGroup, FindGroup, AddMints;
    var h := |indexes|;
    var i1 := AddSpends(i, info.spends);
    var (a, index) := Connect(lim, i, indexes, info);
    var more := indexes + [index];
    assert more[..h + 1] == more;
    SpendsMirror(i, r, info.spends, info.spends);
    SpendsGood(i, info.spends, h);
    var c: State;
    if info.mints == [] {
      GoodLater(i1, h);
      c := r;
    } else {
      MintsMirror(lim, i1, r, indexes, more, info.mints);
      MintsGood(lim, i1, indexes, info.mints);
      c := AddGroup(lim, r, more, h, a.latest, info.mints);
      OneGroup(lim, r, more, h, a.latest, info.mints);
    }
    SpendsMirror(a, c, info.spends, info.spends);
  }

  lemma OneGroup(lim: Limits, s: State, indexes: seq<Index>, height: nat, id: int, mints: seq<Mint>)
    ensures var m := map[id := mints];
      AddGroups(lim, s, indexes, height, m, m.Keys) == AddGroup(lim, s, indexes, height, id, mints)
  {
    var m := map[id := mints];
    assert m.Keys == {id};
    assert Least(m.Keys) == id;
    assert m.Keys - {id} == {};
    var t := AddGroup(lim, s, indexes, height, id, mints);
    assert AddGroups(lim, t, indexes, height, m, {}) == t;
  }

  lemma {:induction false} RebuiltPrefix(lim: Limits, indexes: seq<Index>, more: seq<Index>, n: nat)
    requires n <= |indexes| && indexes <= more
    ensures Rebuilt(lim, indexes, n) == Rebuilt(lim, more, n)
  {
    hide AddGroups, AddSpends;
    if n > 0 {
      RebuiltPrefix(lim, indexes, more, n - 1);
      assert indexes[..n] == more[..n];
    }
  }

  /** Without late spends the two orders of spends and mints count the same. */
  lemma SpendsSame(i: State, r: State, mint: Counts, spends: map<Serial, int>)
    requires r.spend == i.spend && r.used == i.used && (forall g :: g in i.mint ==> g in mint)
    requires forall g :: g in mint && g !in i.mint ==> SpentFrom(spends, g) == {}
    ensures AddSpends(r.(mint := mint), spends).spend == AddSpends(i, spends).spend
    ensures AddSpends(r.(mint := mint), spends).used == AddSpends(i, spends).used
  {
    hide SpentFrom, Known, CountSpends;
    KnownSame(i.mint, mint, spends);
    CountsSame(i.spend, i.mint, mint, spends);
  }

  lemma CountsSame(spend: Counts, mint: Counts, more: Counts, spends: map<Serial, int>)
    requires forall g :: g in mint ==> g in more
    requires forall g :: g in more && g !in mint ==> SpentFrom(spends, g) == {}
    requires Known(more, spends) == Known(mint, spends)
    ensures CountSpends(spend, more, spends) == CountSpends(spend, mint, spends)
  {
    hide SpentFrom, Known, GroupsIn;
    forall g
      ensures (if g in more then |SpentFrom(spends, g)| else 0) == (if g in mint then |SpentFrom(spends, g)| else 0)
    {
    }
  }

  lemma KnownSame(mint: Counts, more: Counts, spends: map<Serial, int>)
    requires forall g :: g in mint ==> g in more
    requires forall g :: g in more && g !in mint ==> SpentFrom(spends, g) == {}
    ensures Known(more, spends) == Known(mint, spends)
    ensures forall g :: g in GroupsIn(Known(mint, spends)) ==> g in mint
  {
    forall x | x in spends ensures spends[x] in more <==> spends[x] in mint {
      assert x in SpentFrom(spends, spends[x]);
    }
  }

  lemma NoneLate(before: State, after: State, spends: map<Serial, int>)
    requires forall g :: Late(before, after, spends, g) == 0
    ensures forall g :: g in after.mint && g !in before.mint ==> SpentFrom(spends, g) == {}
  {
    forall g | g in after.mint && g !in before.mint ensures SpentFrom(spends, g) == {} {
      assert Late(before, after, spends, g) == 0;
    }
  }

  lemma EmptyMirrors(lim: Limits)
    ensures Good(EMPTY, 0) && Mirror(EMPTY, Rebuilt(lim, [], 0)) && Rebuilt(lim, [], 0) == EMPTY
  {
  }

  /**
  However a chain's blocks look: rebuilding from the index gives the same coins, tags, group counts,
  shared tails and latest group as connecting did, the same groups except for an empty first one, and
  it counts exactly the late spends more.
  */
  lemma {:induction false} RunMirrors(lim: Limits, chain: seq<TxInfo>)
    ensures var (i, indexes) := Run(lim, chain);
      && |indexes| == |chain| && Good(i, |chain|)
      && var r := Rebuilt(lim, indexes, |chain|);
         && Mirror(i, r)
         && (forall g :: At(r.spend, g) == At(i.spend, g) + LateIn(lim, chain, g))
         && (NoLate(lim, chain) ==> r.spend == i.spend && r.used == i.used)
  {
    hide Good, Mirror, Connect, AddBlock, AddSpends;
    if chain == [] {
      EmptyMirrors(lim);
    } else {
      var init, info := chain[..|chain| - 1], chain[|chain| - 1];
      RunMirrors(lim, init);
      var (i, indexes) := Run(lim, init);
      var (a, index) := Connect(lim, i, indexes, info);
      var more := indexes + [index];
      assert Run(lim, chain) == (a, more);
      RebuiltPrefix(lim, indexes, more, |init|);
      var r := Rebuilt(lim, indexes, |init|);
      StepMirror(lim, i, r, indexes, info);
      var b := AddBlock(lim, r, more, |indexes|);
      assert Rebuilt(lim, more, |chain|) == b;
      StepSpends(lim, chain, init, i, r, a, b, info);
    }
  }

  lemma StepSpends(lim: Limits, chain: seq<TxInfo>, init: seq<TxInfo>, i: State, r: State, a: State, b: State,
                   info: TxInfo)
    requires chain != [] && init == chain[..|chain| - 1] && info == chain[|chain| - 1]
    requires i == Run(lim, init).0 && a == Run(lim, chain).0
    requires forall g :: At(r.spend, g) == At(i.spend, g) + LateIn(lim, init, g)
    requires NoLate(lim, init) ==> r.spend == i.spend && r.used == i.used
    requires forall g :: g in i.mint ==> g in a.mint
    requires a.spend == AddSpends(i, info.spends).spend && a.used == AddSpends(i, info.spends).used
    requires b.spend == AddSpends(r.(mint := a.mint), info.spends).spend
    requires b.used == AddSpends(r.(mint := a.mint), info.spends).used
    ensures forall g :: At(b.spend, g) == At(a.spend, g) + LateIn(lim, chain, g)
    ensures NoLate(lim, chain) ==> b.spend == a.spend && b.used == a.used
  {
    hide AddSpends, Run, SpentFrom;
    forall g ensures At(b.spend, g) == At(a.spend, g) + LateIn(lim, chain, g) {
      SpendsCounted(i, info.spends, g);
      SpendsCounted(r.(mint := a.mint), info.spends, g);
    }
    if NoLate(lim, chain) {
      forall g ensures LateIn(lim, init, g) == 0 && Late(i, a, info.spends, g) == 0 {
        assert LateIn(lim, chain, g) == 0;
      }
      NoneLate(i, a, info.spends);
      SpendsSame(i, r, a.mint, info.spends);
    }
  }

  // ---------------------------------------------------------------------------------------------
  // When the two ways agree

  /** The first block with mints fits into a group. */
  ghost predicate FirstFits(lim: Limits, chain: seq<TxInfo>) {
    forall n :: 0 <= n < |chain| && chain[n].mints != [] && NoMints(chain[..n]) ==>
      |chain[n].mints| <= lim.maxCoinInGroup
  }

  ghost predicate NoMints(chain: seq<TxInfo>) {
    forall n :: 0 <= n < |chain| ==> chain[n].mints == []
  }

  ghost predicate HasEmptyGroup(s: State) {
    1 in s.groups && s.groups[1] == NO_GROUP
  }

  lemma AssignEmpty(lim: Limits, i: State, indexes: seq<Index>, h: nat, k: nat)
    requires Good(i, h) && k > 0
    ensures var a := AssignGroup(lim, i, indexes, h, k);
      a.latest > 0 && (HasEmptyGroup(a) <==> HasEmptyGroup(i) || (i.latest == 0 && k > lim.maxCoinInGroup))
  {
    hide CountLastNCoins;
    LatestGroup(i, h);
  }

  lemma StepEmpty(lim: Limits, i: State, indexes: seq<Index>, info: TxInfo)
    requires Good(i, |indexes|)
    ensures var a := Connect(lim, i, indexes, info).0;
      && (a.latest == 0 <==> i.latest == 0 && info.mints == [])
      && (HasEmptyGroup(a) <==>
           HasEmptyGroup(i) || (i.latest == 0 && info.mints != [] && |info.mints| > lim.maxCoinInGroup))
  {
    hide AddMints, AssignGroup, CountLastNCoins;
    if info.mints != [] {
      var b := AddSpends(i, info.spends);
      SpendsGood(i, info.spends, |indexes|);
      AssignEmpty(lim, b, indexes, |indexes|, |info.mints|);
      var a := AssignGroup(lim, b, indexes, |indexes|, |info.mints|);
      AddMintsEffect(a, a, info.mints, CoinInfo(a.latest, |indexes|));
    }
  }

  lemma {:induction false} EmptyGroupIff(lim: Limits, chain: seq<TxInfo>)
    ensures HasEmptyGroup(Run(lim, chain).0) <==> !FirstFits(lim, chain)
    ensures Run(lim, chain).0.latest == 0 <==> NoMints(chain)
  {
    if chain != [] {
      var init, info := chain[..|chain| - 1], chain[|chain| - 1];
      EmptyGroupIff(lim, init);
      RunMirrors(lim, init);
      var (i, indexes) := Run(lim, init);
      StepEmpty(lim, i, indexes, info);
      FitsExtended(lim, chain);
    }
  }

  lemma FitsExtended(lim: Limits, chain: seq<TxInfo>)
    requires chain != []
    ensures var init, info := chain[..|chain| - 1], chain[|chain| - 1];
      && (FirstFits(lim, chain) <==>
           FirstFits(lim, init) && (NoMints(init) && info.mints != [] ==> |info.mints| <= lim.maxCoinInGroup))
      && (NoMints(chain) <==> NoMints(init) && info.mints == [])
  {
    var init := chain[..|chain| - 1];
    forall n | 0 <= n < |init| ensures init[..n] == chain[..n] && init[n] == chain[n] {}
  }

  /**
  Rebuilding gives the very state that connecting built exactly when the first block with mints fits
  into a group and no block spends from a group that it creates.
  */
  lemma RebuildIff(lim: Limits, chain: seq<TxInfo>)
    ensures var (i, indexes) := Run(lim, chain);
      |indexes| == |chain| && (Rebuilt(lim, indexes, |chain|) == i <==> FirstFits(lim, chain) && NoLate(lim, chain))
  {
    RunMirrors(lim, chain);
    EmptyGroupIff(lim, chain);
    var (i, indexes) := Run(lim, chain);
    var r := Rebuilt(lim, indexes, |chain|);
    EmptyGroupReal(i, |chain|);
    hide Run, Rebuilt, Good;
    if r == i {
      forall g ensures LateIn(lim, chain, g) == 0 {
        assert At(r.spend, g) == At(i.spend, g) + LateIn(lim, chain, g);
      }
    }
  }

  /** Every block spends from groups that have coins before it, which the check of a block's spends enforces. */
  ghost predicate SpendsKnown(lim: Limits, chain: seq<TxInfo>) {
    forall n :: 0 <= n < |chain| ==> BlockKnown(Run(lim, chain[..n]).0, chain[n].spends)
  }

  ghost predicate BlockKnown(s: State, spends: map<Serial, int>) {
    forall x :: x in spends ==> spends[x] in s.mint
  }

  lemma {:induction false} KnownNotLate(lim: Limits, chain: seq<TxInfo>, g: int)
    requires SpendsKnown(lim, chain)
    ensures LateIn(lim, chain, g) == 0
  {
    hide Run, BlockKnown;
    if chain != [] {
      var init, info := chain[..|chain| - 1], chain[|chain| - 1];
      forall n | 0 <= n < |init| ensures BlockKnown(Run(lim, init[..n]).0, init[n].spends) {
        assert init[..n] == chain[..n] && init[n] == chain[n];
      }
      KnownNotLate(lim, init, g);
      assert BlockKnown(Run(lim, init).0, info.spends);
      NoneOfNew(Run(lim, init).0, Run(lim, chain).0, info.spends, g);
    }
  }

  lemma NoneOfNew(before: State, after: State, spends: map<Serial, int>, g: int)
    requires BlockKnown(before, spends)
    ensures Late(before, after, spends, g) == 0
  {
    if g !in before.mint {
      assert SpentFrom(spends, g) == {};
    }
  }

  /** For the chains the node accepts: rebuilding gives the very state that connecting built. */
  lemma AcceptedRebuilds(lim: Limits, chain: seq<TxInfo>)
    requires SpendsKnown(lim, chain) && FirstFits(lim, chain)
    ensures NoLate(lim, chain)
    ensures var (i, indexes) := Run(lim, chain); |indexes| == |chain| && Rebuilt(lim, indexes, |chain|) == i
  {
    hide Run, Rebuilt, SpendsKnown;
    forall g ensures LateIn(lim, chain, g) == 0 {
      KnownNotLate(lim, chain, g);
    }
    RebuildIff(lim, chain);
  }

  /**
  Why the check of a block's spends matters here: of a block that spends from the group it creates,
  connecting would ignore the spend and rebuilding count it.
  */
  lemma LateSpendIgnored(lim: Limits, m: Mint, serial: Serial)
    requires lim.maxCoinInGroup >= 1
    ensures var chain := [TxInfo([m], map[serial := 1])];
      var (i, indexes) := Run(lim, chain);
      serial !in i.used && !NoLate(lim, chain) && Rebuilt(lim, indexes, 1) != i
  {
    hide Connect, Rebuilt, SpentFrom;
    var info := TxInfo([m], map[serial := 1]);
    var chain := [info];
    assert chain[..0] == [] && chain[0] == info;
    FirstBlock(lim, m, serial);
    RebuildIff(lim, chain);
    assert Run(lim, []) == (EMPTY, []);
    assert Run(lim, chain).0 == Connect(lim, EMPTY, [], info).0;
    assert LateIn(lim, [], 1) == 0;
    assert LateIn(lim, chain, 1) == |SpentFrom(info.spends, 1)|;
  }

  lemma FirstBlock(lim: Limits, m: Mint, serial: Serial)
    requires lim.maxCoinInGroup >= 1
    ensures var a := Connect(lim, EMPTY, [], TxInfo([m], map[serial := 1])).0; a.mint == map[1 := 1] && a.used == map[]
    ensures |SpentFrom(map[serial := 1], 1)| == 1
  {
    var spends := map[serial := 1];
    assert SpentFrom(spends, 1) == {serial};
    assert Known(EMPTY.mint, spends) == map[];
    var b := AddSpends(EMPTY, spends);
    assert b.used == map[];
    var a := AssignGroup(lim, b, [], 0, 1);
    assert a == Joined(b, 1, 0, 1);
    AddMintsEffect(a, a, [m], CoinInfo(1, 0));
  }

  lemma EmptyGroupReal(i: State, h: nat)
    requires Good(i, h)
    ensures Real(i.groups) == i.groups <==> !HasEmptyGroup(i)
  {
    if !HasEmptyGroup(i) {
      forall id | id in i.groups ensures i.groups[id] != NO_GROUP {
        assert id == 1 || id >= 2;
      }
    } else {
      assert 1 !in Real(i.groups);
    }
  }

  // ---------------------------------------------------------------------------------------------
  // Surge protection in every reachable state

  function SumIn(indexes: seq<Index>, group: int): nat {
    if indexes == [] then 0 else SumIn(indexes[..|indexes| - 1], group) + CoinsIn(indexes[|indexes| - 1], group)
  }

  lemma {:induction false} SumPrefix(indexes: seq<Index>, k: nat, group: int)
    requires k <= |indexes|
    ensures SumIn(indexes[..k], group) <= SumIn(indexes, group)
    decreases |indexes| - k
  {
    if k < |indexes| {
      SumPrefix(indexes, k + 1, group);
      assert indexes[..k + 1][..k] == indexes[..k];
    } else {
      assert indexes[..k] == indexes;
    }
  }

  lemma {:induction false} CountBound(indexes: seq<Index>, k: nat, group: int, required: nat, coins: nat,
                                      first: Option<nat>)
    requires k <= |indexes|
    ensures CountBack(indexes, k, group, required, coins, first).0 <= coins + SumIn(indexes[..k], group)
  {
    if k > 0 && coins < required {
      var n := CoinsIn(indexes[k - 1], group);
      CountBound(indexes, k - 1, group, required, coins + n, if n > 0 then Some(k - 1) else first);
      assert indexes[..k][..k - 1] == indexes[..k - 1];
    }
  }

  lemma CountAtMost(s: State, indexes: seq<Index>, group: int, required: nat)
    ensures CountLastNCoins(s, indexes, group, required).0 <= SumIn(indexes, group)
  {
    var g := GroupOf(s, group);
    if g.last.Some? && g.last.value < |indexes| {
      CountBound(indexes, g.last.value + 1, group, required, 0, None);
      SumPrefix(indexes, g.last.value + 1, group);
    }
  }

  /** The counts are those of the index, and no shared tail is larger than what it is the tail of. */
  ghost predicate TailsOk(s: State, indexes: seq<Index>) {
    (forall g :: At(s.mint, g) == SumIn(indexes, g)) && TailsBelow(s.ext, s.mint, s.latest)
  }

  ghost predicate TailsBelow(ext: Counts, mint: Counts, latest: int) {
    forall g :: 1 <= g < latest ==> At(ext, g + 1) <= At(mint, g)
  }

  lemma TailsPut(i: State, indexes: seq<Index>, coins: nat)
    requires i.latest >= 0 && TailsOk(i, indexes) && coins <= SumIn(indexes, Latest(i))
    ensures TailsBelow(i.ext, i.mint, Latest(i)) && TailsBelow(i.ext[Latest(i) + 1 := coins], i.mint, Latest(i) + 1)
  {
    hide SumIn;
    var id := Latest(i);
    assert coins <= At(i.mint, id);
    OneTail(i.ext, i.mint, id, coins);
  }

  lemma OneTail(ext: Counts, mint: Counts, id: int, coins: nat)
    requires TailsBelow(ext, mint, id) && coins <= At(mint, id)
    ensures TailsBelow(ext[id + 1 := coins], mint, id + 1)
  {
    forall g | 1 <= g < id + 1 ensures At(ext[id + 1 := coins], g + 1) <= At(mint, g) {
      assert g < id ==> At(ext, g + 1) <= At(mint, g);
    }
  }

  lemma TailsGrow(ext: Counts, mint: Counts, more: Counts, latest: int)
    requires TailsBelow(ext, mint, latest) && forall g :: At(mint, g) <= At(more, g)
    ensures TailsBelow(ext, more, latest)
  {
  }

  lemma AssignTails(lim: Limits, i: State, indexes: seq<Index>, h: nat, k: nat)
    requires i.latest >= 0 && TailsOk(i, indexes)
    ensures var a := AssignGroup(lim, i, indexes, h, k);
      a.latest >= 1 && a.mint == i.mint && TailsBelow(a.ext, i.mint, a.latest)
  {
    hide CountLastNCoins, GroupOf, SumIn, TailsOk, TailsBelow, At, AssignGroup;
    var id := Latest(i);
    CountAtMost(i, indexes, id, lim.startGroupSize);
    var coins := CountLastNCoins(i, indexes, id, lim.startGroupSize).0;
    TailsPut(i, indexes, coins);
    var a := AssignGroup(lim, i, indexes, h, k);
    AssignExt(lim, i, indexes, h, k);
  }

  lemma AssignExt(lim: Limits, i: State, indexes: seq<Index>, h: nat, k: nat)
    ensures var a := AssignGroup(lim, i, indexes, h, k); var id := Latest(i);
      && a.mint == i.mint
      && ((a.ext == i.ext && a.latest == id)
          || (a.ext == i.ext[id + 1 := CountLastNCoins(i, indexes, id, lim.startGroupSize).0] && a.latest == id + 1))
      && a == i.(groups := a.groups, latest := a.latest, ext := a.ext)
  {
    hide CountLastNCoins, GroupOf, AssignGroup, Joined, Started;
    AssignIs(lim, i, indexes, h, k);
    JoinedRest(i, Latest(i), h, k);
    StartedRest(i, Latest(i), h, k, CountLastNCoins(i, indexes, Latest(i), lim.startGroupSize));
  }

  lemma JoinedRest(i: State, id: int, h: nat, k: nat)
    ensures var a := Joined(i, id, h, k); a.latest == id && a == i.(groups := a.groups, latest := id)
  {
  }

  lemma StartedRest(i: State, id: int, h: nat, k: nat, tail: (nat, Option<nat>))
    ensures var a := Started(i.(groups := i.groups[id := GroupOf(i, id)]), id + 1, h, k, tail);
      a.latest == id + 1 && a == i.(groups := a.groups, latest := id + 1, ext := i.ext[id + 1 := tail.0])
  {
  }

  lemma StepTails(lim: Limits, i: State, indexes: seq<Index>, info: TxInfo)
    requires Good(i, |indexes|) && TailsOk(i, indexes)
    ensures var (a, index) := Connect(lim, i, indexes, info); TailsOk(a, indexes + [index])
  {
    hide AddMints, AssignGroup, CountLastNCoins, SumIn, TailsOk, AddSpends, At, Good;
    var (a, index) := Connect(lim, i, indexes, info);
    var b := AddSpends(i, info.spends);
    SpendsKeep(i, info.spends, |indexes|);
    if info.mints == [] {
      TailsAfter(i, a, indexes, index, i.latest, []);
    } else {
      TailsAgain(i, b, indexes);
      AssignTails(lim, b, indexes, |indexes|, |info.mints|);
      var c := AssignGroup(lim, b, indexes, |indexes|, |info.mints|);
      AddMintsEffect(c, c, info.mints, CoinInfo(c.latest, |indexes|));
      TailsAfter(i, a, indexes, index, c.latest, info.mints);
    }
  }

  lemma TailsAgain(i: State, b: State, indexes: seq<Index>)
    requires TailsOk(i, indexes) && b.mint == i.mint && b.ext == i.ext && b.latest == i.latest
    ensures TailsOk(b, indexes)
  {
  }

  lemma TailsAfter(i: State, a: State, indexes: seq<Index>, index: Index, id: int, mints: seq<Mint>)
    requires TailsOk(i, indexes) && a.latest == id
    requires mints == [] ==> a.mint == i.mint && a.ext == i.ext && a.latest == i.latest
    requires mints != [] ==> a.mint == i.mint[id := At(i.mint, id) + |mints|]
    requires mints != [] ==> TailsBelow(a.ext, i.mint, a.latest)
    requires index.minted == if mints == [] then map[] else map[id := mints]
    ensures TailsOk(a, indexes + [index])
  {
    hide SumIn, TailsBelow;
    SumAppend(indexes, index);
    forall g ensures At(a.mint, g) == SumIn(indexes + [index], g) && At(i.mint, g) <= At(a.mint, g) {
      assert At(i.mint, g) == SumIn(indexes, g);
    }
    TailsGrow(a.ext, i.mint, a.mint, a.latest);
  }

  lemma SpendsKeep(s: State, spends: map<Serial, int>, h: nat)
    requires Good(s, h)
    ensures var a := AddSpends(s, spends); a == s.(used := a.used, spend := a.spend) && a.latest >= 0
  {
  }

  lemma SumAppend(indexes: seq<Index>, index: Index)
    ensures forall g :: SumIn(indexes + [index], g) == SumIn(indexes, g) + CoinsIn(index, g)
  {
    var more := indexes + [index];
    assert more[..|more| - 1] == indexes;
  }

  lemma {:induction false} RunTails(lim: Limits, chain: seq<TxInfo>)
    ensures var (s, indexes) := Run(lim, chain); TailsOk(s, indexes)
  {
    if chain != [] {
      var init := chain[..|chain| - 1];
      RunTails(lim, init);
      RunMirrors(lim, init);
      var (i, indexes) := Run(lim, init);
      StepTails(lim, i, indexes, chain[|chain| - 1]);
    }
  }

  lemma RunRegular(lim: Limits, chain: seq<TxInfo>) returns (first: int, n: nat)
    ensures var s := Run(lim, chain).0; Regular(s.mint, s.ext, first, n)
  {
    RunMirrors(lim, chain);
    RunTails(lim, chain);
    var (s, indexes) := Run(lim, chain);
    first, n := IsRegular(s, |chain|, indexes);
  }

  lemma IsRegular(s: State, h: nat, indexes: seq<Index>) returns (first: int, n: nat)
    requires Good(s, h) && TailsOk(s, indexes)
    ensures Regular(s.mint, s.ext, first, n)
  {
    first := if HasEmptyGroup(s) then 2 else 1;
    n := if s.latest == 0 then 0 else s.latest - first + 1;
    forall id ensures id in s.mint <==> first <= id < first + n {
      assert id in s.mint <==> id in s.groups && s.groups[id] != NO_GROUP;
    }
    forall id | first <= id && id + 1 < first + n ensures TailFits(s.mint, s.ext, id) {
      assert At(s.ext, id + 1) <= At(s.mint, id);
    }
  }

  /**
  After any run of connected blocks, the surge condition holds exactly when the spends outnumber the coins
  they may use.
  */
  lemma RunSurge(lim: Limits, chain: seq<TxInfo>)
    ensures var s := Run(lim, chain).0;
      Surging(s.mint, s.spend, s.ext) <==> !exists f :: Assigns(s.mint, s.spend, s.ext, f)
  {
    var s := Run(lim, chain).0;
    var first, n := RunRegular(lim, chain);
    SurgeExact(s.mint, s.spend, s.ext, first, n);
  }

  // ---------------------------------------------------------------------------------------------
  // Spends one at a time, in any order

  lemma SpendNone(s: State)
    ensures AddSpends(s, map[]) == s
  {
    assert Known(s.mint, map[]) == map[];
    assert s.used + map[] == s.used;
    forall g ensures SpentFrom(map[], g) == {} {}
  }

  lemma SpendOne(s: State, done: map<Serial, int>, x: Serial, g: int)
    requires x !in done
    ensures AddSpend(AddSpends(s, done), x, g) == AddSpends(s, done[x := g])
  {
    hide CountSpends, Known;
    CountOne(s.spend, s.mint, done, x, g);
    KnownOne(s.mint, done, x, g);
  }

  lemma SpentFromOne(done: map<Serial, int>, x: Serial, g: int, k: int)
    requires x !in done
    ensures |SpentFrom(done[x := g], k)| == |SpentFrom(done, k)| + if k == g then 1 else 0
  {
    if k == g {
      assert SpentFrom(done[x := g], k) == SpentFrom(done, k) + {x};
    } else {
      assert SpentFrom(done[x := g], k) == SpentFrom(done, k);
    }
  }

  lemma KnownOne(mint: Counts, done: map<Serial, int>, x: Serial, g: int)
    requires x !in done
    ensures Known(mint, done[x := g]) == if g in mint then Known(mint, done)[x := g] else Known(mint, done)
  {
  }

  lemma GroupsInOne(done: map<Serial, int>, x: Serial, g: int)
    requires x !in done
    ensures GroupsIn(done[x := g]) == GroupsIn(done) + {g}
  {
    var more := done[x := g];
    assert x in more && more[x] == g;
    forall k | k in GroupsIn(done) ensures k in GroupsIn(more) {
      var y :| y in done && done[y] == k;
      assert y in more && more[y] == k;
    }
  }

  lemma CountOne(spend: Counts, mint: Counts, done: map<Serial, int>, x: Serial, g: int)
    requires x !in done
    ensures CountSpends(spend, mint, done[x := g]) ==
      var c := CountSpends(spend, mint, done); if g in mint then c[g := At(c, g) + 1] else c
  {
    hide SpentFrom, GroupsIn, Known;
    forall k ensures |SpentFrom(done[x := g], k)| == |SpentFrom(done, k)| + if k == g then 1 else 0 {
      SpentFromOne(done, x, g, k);
    }
    KnownOne(mint, done, x, g);
    if g in mint {
      assert x !in Known(mint, done) by { KnownSome(mint, done, x); }
      GroupsInOne(Known(mint, done), x, g);
      NotCounted(spend, mint, done, g);
    }
  }

  lemma KnownSome(mint: Counts, done: map<Serial, int>, x: Serial)
    requires x !in done
    ensures x !in Known(mint, done)
  {
  }

  lemma NotCounted(spend: Counts, mint: Counts, done: map<Serial, int>, g: int)
    requires g in mint
    ensures g !in CountSpends(spend, mint, done) ==> At(spend, g) == 0 && |SpentFrom(done, g)| == 0
  {
    if g !in CountSpends(spend, mint, done) {
      forall x | x in done ensures done[x] != g {
        assert x in Known(mint, done) ==> done[x] in GroupsIn(Known(mint, done));
      }
      assert SpentFrom(done, g) == {};
    }
  }
}
