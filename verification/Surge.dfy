/**
Surge protection (CLelantusState::Containers::CheckSurgeCondition, src/lelantus.cpp:1123-1160).

A coin group's spends may use the group's own mints, or the tail of the previous group's mints that
the two groups share.  One pass over the groups decides whether there are more spends than coins to
spend: this module proves that the pass answers exactly whether every spend can be given a coin of
its own.
*/
module Surge {
  import opened Basics

  type Counts = map<int, nat>

  function At(counts: Counts, id: int): nat {
    if id in counts then counts[id] else 0
  }

  /** Subtraction of 64-bit unsigned numbers. */
  function SizeSub(a: nat, b: nat): int {
    if a >= b then a - b else a - b + 0x1_0000_0000_0000_0000
  }

  /** The scan over the groups that are left, in ascending order. */
  ghost function Scan(mint: Counts, spend: Counts, ext: Counts, rest: set<int>, serials: nat, mints: nat): bool
    requires rest <= mint.Keys
    decreases |rest|
  {
    if rest == {} then false
    else
      var id := Least(rest);
      var s := serials + At(spend, id);
      var m := mints + mint[id];
      var e := At(ext, id + 1);
      if s > m then true
      else if s <= SizeSub(m, e) then Scan(mint, spend, ext, rest - {id}, 0, e)
      else Scan(mint, spend, ext, rest - {id}, s, m)
  }

  ghost function Surging(mint: Counts, spend: Counts, ext: Counts): bool {
    Scan(mint, spend, ext, mint.Keys, 0, 0)
  }

  method CheckSurgeCondition(mintMetaInfo: Counts, spendMetaInfo: Counts, extendedMintMetaInfo: Counts)
    returns (surge: bool)
    ensures surge == Surging(mintMetaInfo, spendMetaInfo, extendedMintMetaInfo)
  {
    var serials: nat, mints: nat := 0, 0;
    var rest := mintMetaInfo.Keys;
    while rest != {}
      invariant rest <= mintMetaInfo.Keys
      invariant Scan(mintMetaInfo, spendMetaInfo, extendedMintMetaInfo, rest, serials, mints)
             == Surging(mintMetaInfo, spendMetaInfo, extendedMintMetaInfo)
      decreases |rest|
    {
      LeastExists(rest);
      var id :| id in rest && forall y :: y in rest ==> id <= y;
      assert id == Least(rest);
      rest := rest - {id};
      serials := serials + At(spendMetaInfo, id);
      mints := mints + mintMetaInfo[id];
      if serials > mints {
        return true;
      }
      var extendedMints := At(extendedMintMetaInfo, id + 1);
      if serials <= SizeSub(mints, extendedMints) {
        serials := 0;
        mints := extendedMints;
      }
    }
    return false;
  }

  // ---------------------------------------------------------------------------------------------
  // The meaning: giving every spend a coin of its own

  datatype Coin = Coin(group: int, index: nat)
  datatype Spend = Spend(group: int, index: nat)

  ghost predicate IsCoin(mint: Counts, c: Coin) {
    c.group in mint && c.index < mint[c.group]
  }

  ghost predicate IsSpend(mint: Counts, spend: Counts, p: Spend) {
    p.group in mint && p.index < At(spend, p.group)
  }

  /** A coin of the spend's own group, or of the tail that the previous group shares with it. */
  ghost predicate MayUse(mint: Counts, ext: Counts, p: Spend, c: Coin)
    requires IsCoin(mint, c)
  {
    c.group == p.group || (c.group + 1 == p.group && c.index + At(ext, p.group) >= mint[c.group])
  }

  ghost predicate Assigns(mint: Counts, spend: Counts, ext: Counts, f: Spend -> Coin) {
    && (forall p :: IsSpend(mint, spend, p) ==> IsCoin(mint, f(p)) && MayUse(mint, ext, p, f(p)))
    && (forall p, q :: IsSpend(mint, spend, p) && IsSpend(mint, spend, q) && f(p) == f(q) ==> p == q)
  }

  /**
  Group ids are consecutive from first, and no shared tail is larger than the mints of the group it is the
  tail of.
  */
  ghost predicate Regular(mint: Counts, ext: Counts, first: int, n: nat) {
    && (forall id :: id in mint <==> first <= id < first + n)
    && (forall id :: first <= id && id + 1 < first + n ==> TailFits(mint, ext, id))
  }

  ghost predicate TailFits(mint: Counts, ext: Counts, id: int) {
    id in mint && At(ext, id + 1) <= mint[id]
  }

  /** The coins of the shared tail that the earlier groups can leave for a group. */
  ghost function Left(mint: Counts, spend: Counts, ext: Counts, first: int, id: int): int
    decreases id - first
  {
    if id <= first then 0
    else
      var k := id - 1;
      Min(At(ext, id), Left(mint, spend, ext, first, k) + At(mint, k) - At(spend, k))
  }

  ghost predicate Enough(mint: Counts, spend: Counts, ext: Counts, first: int, id: int) {
    At(spend, id) <= Left(mint, spend, ext, first, id) + At(mint, id)
  }

  /** The scan keeps in its two accumulators the coins that are left, and stops at the first group without enough. */
  lemma {:induction false} ScanExact(mint: Counts, spend: Counts, ext: Counts, first: int, n: nat, id: int,
                                     rest: set<int>, serials: nat, mints: nat)
    requires Regular(mint, ext, first, n) && first <= id <= first + n
    requires rest <= mint.Keys && (forall x :: x in rest <==> id <= x < first + n)
    requires id < first + n ==> mints - serials == Left(mint, spend, ext, first, id)
    ensures Scan(mint, spend, ext, rest, serials, mints) <==>
      exists x :: id <= x < first + n && !Enough(mint, spend, ext, first, x)
    decreases first + n - id
  {
    if id == first + n {
      assert rest == {};
    } else {
      assert id in rest && Least(rest) == id;
      if Enough(mint, spend, ext, first, id) {
        var s, m, e := serials + At(spend, id), mints + mint[id], At(ext, id + 1);
        if id + 1 < first + n {
          assert TailFits(mint, ext, id);
        }
        var more := rest - {id};
        if s <= SizeSub(m, e) {
          ScanExact(mint, spend, ext, first, n, id + 1, more, 0, e);
        } else {
          ScanExact(mint, spend, ext, first, n, id + 1, more, s, m);
        }
      }
    }
  }

  // ---------------------------------------------------------------------------------------------
  // Enough coins: the assignment

  /** What is left of the shared tail first, then the group's own coins in order. */
  ghost function Greedy(mint: Counts, spend: Counts, ext: Counts, first: int): Spend -> Coin {
    (p: Spend) =>
      var left := Left(mint, spend, ext, first, p.group);
      var k := At(mint, p.group - 1) - left + p.index;
      if p.index < left then Coin(p.group - 1, if k >= 0 then k else 0)
      else Coin(p.group, if left >= 0 then p.index - left else 0)
  }

  lemma {:induction false} LeftBounds(mint: Counts, spend: Counts, ext: Counts, first: int, n: nat, id: int)
    requires Regular(mint, ext, first, n) && first <= id < first + n
    requires forall x :: first <= x < first + n ==> Enough(mint, spend, ext, first, x)
    ensures 0 <= Left(mint, spend, ext, first, id) <= At(ext, id) ||
      (id == first && Left(mint, spend, ext, first, id) == 0)
    ensures id > first ==> Left(mint, spend, ext, first, id) <= mint[id - 1]
  {
    if id > first {
      assert TailFits(mint, ext, id - 1);
      assert Enough(mint, spend, ext, first, id - 1);
    }
  }

  lemma GreedyAssigns(mint: Counts, spend: Counts, ext: Counts, first: int, n: nat)
    requires Regular(mint, ext, first, n)
    requires forall x :: first <= x < first + n ==> Enough(mint, spend, ext, first, x)
    ensures Assigns(mint, spend, ext, Greedy(mint, spend, ext, first))
  {
    var f := Greedy(mint, spend, ext, first);
    forall p | IsSpend(mint, spend, p) ensures IsCoin(mint, f(p)) && MayUse(mint, ext, p, f(p)) {
      LeftBounds(mint, spend, ext, first, n, p.group);
      assert Enough(mint, spend, ext, first, p.group);
    }
    forall p, q | IsSpend(mint, spend, p) && IsSpend(mint, spend, q) && f(p) == f(q) ensures p == q {
      if p.group <= q.group {
        GreedyInjective(mint, spend, ext, first, n, p, q);
      } else {
        GreedyInjective(mint, spend, ext, first, n, q, p);
      }
    }
  }

  lemma GreedyInjective(mint: Counts, spend: Counts, ext: Counts, first: int, n: nat, p: Spend, q: Spend)
    requires Regular(mint, ext, first, n)
    requires forall x :: first <= x < first + n ==> Enough(mint, spend, ext, first, x)
    requires IsSpend(mint, spend, p) && IsSpend(mint, spend, q) && p.group <= q.group
    requires Greedy(mint, spend, ext, first)(p) == Greedy(mint, spend, ext, first)(q)
    ensures p == q
  {
    LeftBounds(mint, spend, ext, first, n, p.group);
    LeftBounds(mint, spend, ext, first, n, q.group);
    assert Enough(mint, spend, ext, first, p.group);
  }

  // ---------------------------------------------------------------------------------------------
  // An assignment: enough coins

  ghost function Coins(g: int, lo: nat, hi: nat): (r: set<Coin>)
    ensures forall c :: c in r <==> c.group == g && lo <= c.index < hi
  {
    set k: nat | lo <= k < hi :: Coin(g, k)
  }

  ghost function Own(mint: Counts, id: int): set<Coin> {
    Coins(id, 0, At(mint, id))
  }

  /** The tail of the previous group's coins that a group shares. */
  ghost function Tail(mint: Counts, ext: Counts, id: int): set<Coin> {
    var g := id - 1;
    var m, e := At(mint, g), At(ext, id);
    Coins(g, if e <= m then m - e else 0, m)
  }

  /** The coins that a group's spends use. */
  ghost function Used(spend: Counts, f: Spend -> Coin, id: int): set<Coin> {
    UsedBelow(f, id, At(spend, id))
  }

  ghost function UsedBelow(f: Spend -> Coin, id: int, n: nat): set<Coin> {
    set k | 0 <= k < n :: f(Spend(id, k))
  }

  lemma UsedOneMore(f: Spend -> Coin, id: int, n: nat)
    ensures UsedBelow(f, id, n + 1) == UsedBelow(f, id, n) + {f(Spend(id, n))}
  {
  }

  lemma {:induction false} UsedSize(mint: Counts, spend: Counts, ext: Counts, f: Spend -> Coin, id: int, n: nat)
    requires Assigns(mint, spend, ext, f) && id in mint && n <= At(spend, id)
    ensures |UsedBelow(f, id, n)| == n
  {
    if n > 0 {
      UsedSize(mint, spend, ext, f, id, n - 1);
      UsedOneMore(f, id, n - 1);
      assert IsSpend(mint, spend, Spend(id, n - 1));
      forall k: nat | k < n - 1 ensures f(Spend(id, k)) != f(Spend(id, n - 1)) {
        assert IsSpend(mint, spend, Spend(id, k));
      }
    }
  }

  lemma {:induction false} CoinsSize(g: int, lo: nat, hi: nat)
    requires lo <= hi
    ensures |Coins(g, lo, hi)| == hi - lo
  {
    if lo < hi {
      CoinsSize(g, lo, hi - 1);
      assert Coins(g, lo, hi) == Coins(g, lo, hi - 1) + {Coin(g, hi - 1)};
    } else {
      assert Coins(g, lo, hi) == {};
    }
  }

  lemma OwnSize(mint: Counts, id: int)
    ensures |Own(mint, id)| == At(mint, id)
  {
    CoinsSize(id, 0, At(mint, id));
  }

  lemma TailSize(mint: Counts, ext: Counts, id: int)
    requires At(ext, id) <= At(mint, id - 1)
    ensures |Tail(mint, ext, id)| == At(ext, id)
  {
    CoinsSize(id - 1, At(mint, id - 1) - At(ext, id), At(mint, id - 1));
  }

  /** The shared tail that the previous group's spends have not used. */
  ghost function Spare(mint: Counts, spend: Counts, ext: Counts, f: Spend -> Coin, first: int, id: int): set<Coin> {
    if id <= first then {} else Tail(mint, ext, id) - Used(spend, f, id - 1)
  }

  /** A group's spends use coins of its own and spare coins of the shared tail. */
  lemma UsedWhere(mint: Counts, spend: Counts, ext: Counts, first: int, n: nat, f: Spend -> Coin, id: int)
    requires Regular(mint, ext, first, n) && first <= id < first + n && Assigns(mint, spend, ext, f)
    ensures Used(spend, f, id) <= Own(mint, id) + Spare(mint, spend, ext, f, first, id)
  {
    forall c | c in Used(spend, f, id) ensures c in Own(mint, id) + Spare(mint, spend, ext, f, first, id) {
      var k :| 0 <= k < At(spend, id) && c == f(Spend(id, k));
      var p := Spend(id, k);
      assert IsSpend(mint, spend, p);
      if c.group != id {
        assert c in Tail(mint, ext, id);
        var g := id - 1;
        forall j: nat | j < At(spend, g) ensures f(Spend(g, j)) != c {
          assert IsSpend(mint, spend, Spend(g, j));
        }
      }
    }
  }

  /** Of a group's own coins, at most those are left that the spends and the spare tail leave. */
  lemma OwnLeft(mint: Counts, spend: Counts, ext: Counts, first: int, n: nat, f: Spend -> Coin, id: int)
    requires Regular(mint, ext, first, n) && first <= id < first + n && Assigns(mint, spend, ext, f)
    ensures |Own(mint, id) - Used(spend, f, id)| + At(spend, id) <=
      At(mint, id) + |Spare(mint, spend, ext, f, first, id)|
  {
    var own, used, spare := Own(mint, id), Used(spend, f, id), Spare(mint, spend, ext, f, first, id);
    UsedWhere(mint, spend, ext, first, n, f, id);
    UsedSize(mint, spend, ext, f, id, At(spend, id));
    OwnSize(mint, id);
    SubsetSize((own - used) + used, own + spare);
    assert |(own - used) + used| == |own - used| + |used|;
    assert |own + spare| <= |own| + |spare|;
  }

  lemma SpareFirst(mint: Counts, spend: Counts, ext: Counts, f: Spend -> Coin, first: int)
    ensures |Spare(mint, spend, ext, f, first, first)| == 0
  {
  }

  lemma SpareSmall(mint: Counts, spend: Counts, ext: Counts, f: Spend -> Coin, first: int, id: int)
    requires id > first
    ensures |Spare(mint, spend, ext, f, first, id)| <= |Tail(mint, ext, id)|
    ensures |Spare(mint, spend, ext, f, first, id)| <= |Own(mint, id - 1) - Used(spend, f, id - 1)|
  {
    SubsetSize(Spare(mint, spend, ext, f, first, id), Tail(mint, ext, id));
    SubsetSize(Spare(mint, spend, ext, f, first, id), Own(mint, id - 1) - Used(spend, f, id - 1));
  }

  lemma {:induction false} SpareBound(mint: Counts, spend: Counts, ext: Counts, first: int, n: nat, f: Spend -> Coin,
                                      id: int)
    requires Regular(mint, ext, first, n) && first <= id < first + n && Assigns(mint, spend, ext, f)
    ensures |Spare(mint, spend, ext, f, first, id)| <= Left(mint, spend, ext, first, id)
    decreases id - first
  {
    hide Spare, Own, Used, Tail, Assigns;
    if id == first {
      SpareFirst(mint, spend, ext, f, first);
    } else {
      var k := id - 1;
      SpareBound(mint, spend, ext, first, n, f, k);
      OwnLeft(mint, spend, ext, first, n, f, k);
      assert TailFits(mint, ext, k);
      TailSize(mint, ext, id);
      SpareSmall(mint, spend, ext, f, first, id);
    }
  }

  lemma AssignedEnough(mint: Counts, spend: Counts, ext: Counts, first: int, n: nat, f: Spend -> Coin, id: int)
    requires Regular(mint, ext, first, n) && first <= id < first + n && Assigns(mint, spend, ext, f)
    ensures Enough(mint, spend, ext, first, id)
  {
    SpareBound(mint, spend, ext, first, n, f, id);
    OwnLeft(mint, spend, ext, first, n, f, id);
  }

  /** The flag is raised exactly when the spends cannot all be given distinct coins. */
  lemma SurgeExact(mint: Counts, spend: Counts, ext: Counts, first: int, n: nat)
    requires Regular(mint, ext, first, n)
    ensures Surging(mint, spend, ext) <==> !exists f :: Assigns(mint, spend, ext, f)
  {
    ScanExact(mint, spend, ext, first, n, first, mint.Keys, 0, 0);
    if Surging(mint, spend, ext) {
      var x :| first <= x < first + n && !Enough(mint, spend, ext, first, x);
      forall f: Spend -> Coin ensures !Assigns(mint, spend, ext, f) {
        if Assigns(mint, spend, ext, f) {
          AssignedEnough(mint, spend, ext, first, n, f, x);
        }
      }
    } else {
      GreedyAssigns(mint, spend, ext, first, n);
    }
  }
}
