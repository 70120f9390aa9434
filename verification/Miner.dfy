/**
Block assembly (src/miner.cpp): which transactions of the memory pool go into a block template, and
in what order.  What fee rates, priorities, block size and finality decide is given by arbitrary
functions and arbitrary orders, so that every property holds however they come out.
*/
module Miner {
  import opened Mempool

  // ---------------------------------------------------------------------------------------------
  // The block

  datatype BlockTx =
    | Special               // the coinbase or a quorum commitment
    | FromPool(id: TxId)

  datatype Params = Params(
    nMaxLelantusInputPerTransaction: nat, nMaxValueLelantusSpendPerTransaction: nat,
    nMaxLelantusInputPerBlock: nat, nMaxValueLelantusSpendPerBlock: nat,
    nMaxValueSparkSpendPerTransaction: nat, nMaxValueSparkSpendPerBlock: nat)

  /** The two kinds of private spends. */
  datatype Kind = Lelantus | Spark

  predicate IsOf(k: Kind, tx: Tx) {
    if k == Lelantus then tx.isLelantusJoinSplit else tx.isSparkSpend
  }

  function AmountIn(k: Kind, tx: Tx): nat {
    if k == Lelantus then tx.lelantusAmount else tx.sparkAmount
  }

  /** Only private spends count: every other transaction counts nothing. */
  function SpendInputs(pool: Pool, b: BlockTx): nat {
    if b.FromPool? && b.id < |pool| && pool[b.id].isLelantusJoinSplit then pool[b.id].lelantusInputs else 0
  }

  function SpendAmount(pool: Pool, k: Kind, b: BlockTx): nat {
    if b.FromPool? && b.id < |pool| && IsOf(k, pool[b.id]) then AmountIn(k, pool[b.id]) else 0
  }

  function TotalInputs(pool: Pool, vtx: seq<BlockTx>): nat {
    if vtx == [] then 0 else TotalInputs(pool, vtx[..|vtx| - 1]) + SpendInputs(pool, vtx[|vtx| - 1])
  }

  function TotalAmount(pool: Pool, k: Kind, vtx: seq<BlockTx>): nat {
    if vtx == [] then 0 else TotalAmount(pool, k, vtx[..|vtx| - 1]) + SpendAmount(pool, k, vtx[|vtx| - 1])
  }

  /** What a valid block satisfies. */
  ghost predicate LelantusOk(pool: Pool, c: Params, vtx: seq<BlockTx>) {
    && (forall b :: b in vtx ==> SpendInputs(pool, b) <= c.nMaxLelantusInputPerTransaction)
    && TotalsOk(pool, c, vtx)
  }

  /** The limits that AddToBlock checks itself. */
  ghost predicate TotalsOk(pool: Pool, c: Params, vtx: seq<BlockTx>) {
    && (forall b :: b in vtx ==> SpendAmount(pool, Lelantus, b) <= c.nMaxValueLelantusSpendPerTransaction)
    && TotalInputs(pool, vtx) <= c.nMaxLelantusInputPerBlock
    && TotalAmount(pool, Lelantus, vtx) <= c.nMaxValueLelantusSpendPerBlock
  }

  /** No join-split with too many inputs is accepted to the pool. */
  predicate InputsAccepted(pool: Pool, c: Params) {
    forall t :: 0 <= t < |pool| && pool[t].isLelantusJoinSplit ==>
      pool[t].lelantusInputs <= c.nMaxLelantusInputPerTransaction
  }

  ghost predicate SparkOk(pool: Pool, c: Params, vtx: seq<BlockTx>) {
    && (forall b :: b in vtx ==> SpendAmount(pool, Spark, b) <= c.nMaxValueSparkSpendPerTransaction)
    && TotalAmount(pool, Spark, vtx) <= c.nMaxValueSparkSpendPerBlock
  }

  method CheckLelantusBlock(pool: Pool, c: Params, vtx: seq<BlockTx>) returns (ok: bool)
    ensures ok <==> LelantusOk(pool, c, vtx)
  {
    var blockSpendsAmount, blockSpendsValue := 0, 0;
    for i := 0 to |vtx|
      invariant blockSpendsAmount == TotalInputs(pool, vtx[..i])
      invariant blockSpendsValue == TotalAmount(pool, Lelantus, vtx[..i])
      invariant forall j :: 0 <= j < i ==> SpendInputs(pool, vtx[j]) <= c.nMaxLelantusInputPerTransaction
      invariant forall j :: 0 <= j < i ==> SpendAmount(pool, Lelantus, vtx[j]) <= c.nMaxValueLelantusSpendPerTransaction
    {
      var txSpendsValue := SpendAmount(pool, Lelantus, vtx[i]);
      var txSpendNumber := SpendInputs(pool, vtx[i]);
      if txSpendNumber > c.nMaxLelantusInputPerTransaction {
        return false;
      }
      if txSpendsValue > c.nMaxValueLelantusSpendPerTransaction {
        return false;
      }
      assert vtx[..i + 1][..i] == vtx[..i];
      blockSpendsAmount := blockSpendsAmount + txSpendNumber;
      blockSpendsValue := blockSpendsValue + txSpendsValue;
    }
    assert vtx[..|vtx|] == vtx;
    return blockSpendsAmount <= c.nMaxLelantusInputPerBlock && blockSpendsValue <= c.nMaxValueLelantusSpendPerBlock;
  }

  method CheckSparkBlock(pool: Pool, c: Params, vtx: seq<BlockTx>) returns (ok: bool)
    ensures ok <==> SparkOk(pool, c, vtx)
  {
    var blockSpendsValue := 0;
    for i := 0 to |vtx|
      invariant blockSpendsValue == TotalAmount(pool, Spark, vtx[..i])
      invariant forall j :: 0 <= j < i ==> SpendAmount(pool, Spark, vtx[j]) <= c.nMaxValueSparkSpendPerTransaction
    {
      var txSpendsValue := SpendAmount(pool, Spark, vtx[i]);
      if txSpendsValue > c.nMaxValueSparkSpendPerTransaction {
        return false;
      }
      assert vtx[..i + 1][..i] == vtx[..i];
      blockSpendsValue := blockSpendsValue + txSpendsValue;
    }
    assert vtx[..|vtx|] == vtx;
    return blockSpendsValue <= c.nMaxValueSparkSpendPerBlock;
  }

  /** Each pool transaction once, after all its parents in the pool. */
  ghost predicate ParentsFirst(pool: Pool, vtx: seq<BlockTx>) {
    forall k :: 0 <= k < |vtx| && vtx[k].FromPool? ==>
      && vtx[k].id < |pool| && vtx[k] !in vtx[..k]
      && forall p :: p in pool[vtx[k].id].parents ==> FromPool(p) in vtx[..k]
  }

  lemma ParentsFirstAppend(pool: Pool, vtx: seq<BlockTx>, t: TxId)
    requires ParentsFirst(pool, vtx) && t < |pool| && FromPool(t) !in vtx
    requires forall p :: p in pool[t].parents ==> FromPool(p) in vtx
    ensures ParentsFirst(pool, vtx + [FromPool(t)])
  {
    var w := vtx + [FromPool(t)];
    forall k | 0 <= k < |w| && w[k].FromPool?
      ensures w[k].id < |pool| && w[k] !in w[..k] && forall p :: p in pool[w[k].id].parents ==> FromPool(p) in w[..k]
    {
      assert w[..k] == vtx[..k];
      assert vtx[..|vtx|] == vtx;
    }
  }

  // ---------------------------------------------------------------------------------------------
  // The blacklist

  predicate IsPrivate(tx: Tx) {
    tx.isLelantusJoinSplit || tx.isSparkSpend
  }

  /** Nothing that depends on a private spend may join the block. */
  ghost predicate Isolates(pool: Pool, black: set<TxId>)
    requires WellFormed(pool)
  {
    forall s, d :: 0 <= s < |pool| && IsPrivate(pool[s]) && IsAncestor(pool, s, d) ==> d in black
  }

  function AllOf(pool: Pool): (r: set<TxId>)
    ensures forall t: TxId :: t in r <==> t < |pool|
  {
    if pool == [] then {} else AllOf(pool[..|pool| - 1]) + {|pool| - 1}
  }

  ghost predicate BlacklistOk(pool: Pool, black: set<TxId>) {
    WellFormed(pool) && ClosedDown(pool, black) && Isolates(pool, black)
  }

  /** Blacklisting the descendants but not the transaction itself leaves a closed set, if it was not in it. */
  lemma SpareOne(pool: Pool, black: set<TxId>, t: TxId)
    requires WellFormed(pool) && ClosedDown(pool, black) && t < |pool| && t !in black
    ensures ClosedDown(pool, black + {t} + Descendants(pool, t) - {t})
    ensures black + {t} + Descendants(pool, t) - {t} == black + Descendants(pool, t)
  {
    assert t !in Descendants(pool, t) by {
      if IsAncestor(pool, t, t) {
        AncestorBelow(pool, t, t);
      }
    }
    forall x, c | x in black + Descendants(pool, t) && c in Children(pool, x)
      ensures c in black + Descendants(pool, t)
    {
      if x in Descendants(pool, t) {
        ChildrenReached(pool, t, x);
      }
    }
  }

  /** Nothing that depends on such a transaction may share a block with it. */
  predicate Bars(tx: Tx) {
    IsPrivate(tx) || tx.collateralTaken || tx.collateralSpent
  }

  /** A transaction keeps another one out: what depends on it, and itself if its collateral is taken. */
  ghost predicate KeepsOut(pool: Pool, a: TxId, t: TxId)
    requires WellFormed(pool) && a < |pool|
  {
    (t == a && pool[a].collateralTaken) || (Bars(pool[a]) && IsAncestor(pool, a, t))
  }

  /** Some transaction of the pool keeps it out. */
  ghost predicate KeptOut(pool: Pool, t: TxId)
    requires WellFormed(pool)
  {
    exists a: TxId :: a < |pool| && KeepsOut(pool, a, t)
  }

  /** Everything is listed that the transactions done so far keep out, and nothing else. */
  ghost predicate KeptOutBut(pool: Pool, black: set<TxId>, todo: set<TxId>)
    requires WellFormed(pool)
  {
    && (forall t :: t in black ==> KeptOut(pool, t))
    && (forall a: TxId, t: TxId :: a < |pool| && a !in todo && KeepsOut(pool, a, t) ==> t in black)
  }

  /** The first loop of FillBlackListForBlockTemplate, in whatever order the pool comes. */
  method BlacklistDependents(pool: Pool) returns (black: set<TxId>)
    requires WellFormed(pool)
    ensures BlacklistOk(pool, black)
    ensures forall t :: t in black <==> KeptOut(pool, t)
  {
    hide KeptOutBut, KeptOut, KeepsOut, IsAncestor, Descendants, Bars, ClosedDown;
    black := {};
    var todo := AllOf(pool);
    NoneKeptOut(pool, todo);
    while todo != {}
      invariant todo <= AllOf(pool) && ClosedDown(pool, black) && KeptOutBut(pool, black, todo)
      decreases |todo|
    {
      var mi: TxId :| mi in todo;
      if mi in black {
        AlreadyOut(pool, black, todo, mi);
      } else {
        ghost var was := black;
        black := BlacklistFor(pool, mi, black);
        OneMoreOut(pool, was, black, todo, mi);
      }
      todo := todo - {mi};
    }
    AllKeptOut(pool, black);
  }

  /** What a transaction that is not listed itself keeps out joins the list. */
  method BlacklistFor(pool: Pool, mi: TxId, black: set<TxId>) returns (r: set<TxId>)
    requires WellFormed(pool) && mi < |pool| && mi !in black && ClosedDown(pool, black)
    ensures ClosedDown(pool, r)
    ensures r == black + (if pool[mi].collateralTaken then {mi} else {}) +
                 (if Bars(pool[mi]) then Descendants(pool, mi) else {})
  {
    hide IsAncestor, Descendants, ClosedDown;
    var tx := pool[mi];
    r := black;
    if IsPrivate(tx) {
      SpareOne(pool, r, mi);
      r := CalculateDescendants(pool, mi, r);
      r := r - {mi};
    }
    if tx.collateralTaken {
      r := CalculateDescendants(pool, mi, r);
    } else if tx.collateralSpent {
      SpareOne(pool, r, mi);
      r := CalculateDescendants(pool, mi, r);
      r := r - {mi};
    }
  }

  lemma NoneKeptOut(pool: Pool, todo: set<TxId>)
    requires WellFormed(pool) && todo == AllOf(pool)
    ensures KeptOutBut(pool, {}, todo) && ClosedDown(pool, {})
  {
  }

  /** What a listed transaction keeps out is listed already. */
  lemma AlreadyOut(pool: Pool, black: set<TxId>, todo: set<TxId>, mi: TxId)
    requires WellFormed(pool) && mi < |pool| && mi in black && ClosedDown(pool, black) && KeptOutBut(pool, black, todo)
    ensures KeptOutBut(pool, black, todo - {mi})
  {
    forall t: TxId | KeepsOut(pool, mi, t) ensures t in black {
      if t != mi {
        ClosedDownHolds(pool, black, mi, t);
      }
    }
  }

  lemma OneMoreOut(pool: Pool, was: set<TxId>, black: set<TxId>, todo: set<TxId>, mi: TxId)
    requires WellFormed(pool) && mi < |pool| && KeptOutBut(pool, was, todo)
    requires black == was + (if pool[mi].collateralTaken then {mi} else {}) +
                      (if Bars(pool[mi]) then Descendants(pool, mi) else {})
    ensures KeptOutBut(pool, black, todo - {mi})
  {
    forall t: TxId ensures t in black <==> t in was || KeepsOut(pool, mi, t) {
      InDescendants(pool, mi, t);
    }
    forall t | t in black ensures KeptOut(pool, t) {
    }
  }

  lemma InDescendants(pool: Pool, a: TxId, t: TxId)
    requires WellFormed(pool)
    ensures t in Descendants(pool, a) <==> IsAncestor(pool, a, t)
  {
    if IsAncestor(pool, a, t) {
      AncestorBelow(pool, a, t);
    }
  }

  lemma AllKeptOut(pool: Pool, black: set<TxId>)
    requires WellFormed(pool) && KeptOutBut(pool, black, {})
    ensures Isolates(pool, black) && forall t :: t in black <==> KeptOut(pool, t)
  {
    forall s: TxId, d: TxId | s < |pool| && IsPrivate(pool[s]) && IsAncestor(pool, s, d) ensures d in black {
      assert KeepsOut(pool, s, d);
    }
  }

  /** The transaction itself or one that depends on it. */
  ghost predicate Under(pool: Pool, a: TxId, t: TxId)
    requires WellFormed(pool)
  {
    t == a || IsAncestor(pool, a, t)
  }

  ghost predicate UnderAny(pool: Pool, s: set<TxId>, t: TxId)
    requires WellFormed(pool)
  {
    exists a :: a in s && a < |pool| && Under(pool, a, t)
  }

  lemma UnderOneMore(pool: Pool, black: set<TxId>, r: set<TxId>, done: set<TxId>, a: TxId)
    requires WellFormed(pool) && a < |pool|
    requires forall t :: t in r <==> t in black || UnderAny(pool, done, t)
    ensures forall t :: t in r + {a} + Descendants(pool, a) <==> t in black || UnderAny(pool, done + {a}, t)
  {
    forall t ensures t in r + {a} + Descendants(pool, a) <==> t in black || UnderAny(pool, done + {a}, t) {
      InDescendants(pool, a, t);
      assert Under(pool, a, t) ==> UnderAny(pool, done + {a}, t);
    }
  }

  /** The second loop: transactions that a spork forbids go, with their descendants. */
  method BlacklistForbidden(pool: Pool, black: set<TxId>, forbidden: set<TxId>) returns (r: set<TxId>)
    requires BlacklistOk(pool, black)
    ensures BlacklistOk(pool, r) && forall t :: t in r <==> t in black || UnderAny(pool, forbidden, t)
  {
    hide IsAncestor, Descendants, Under, UnderAny;
    r := black;
    var todo := AllOf(pool);
    UnderNone(pool);
    ghost var done: set<TxId> := {};
    while todo != {}
      invariant todo <= AllOf(pool) && BlacklistOk(pool, r)
      invariant forall t :: t in done <==> t in forbidden && t < |pool| && t !in todo
      invariant forall t :: t in r <==> t in black || UnderAny(pool, done, t)
      decreases |todo|
    {
      var mi: TxId :| mi in todo;
      if mi in forbidden {
        UnderOneMore(pool, black, r, done, mi);
        r := CalculateDescendants(pool, mi, r);
        done := done + {mi};
      }
      todo := todo - {mi};
    }
    UnderSame(pool, done, forbidden);
  }

  lemma UnderNone(pool: Pool)
    requires WellFormed(pool)
    ensures forall t :: !UnderAny(pool, {}, t)
  {
  }

  lemma UnderSame(pool: Pool, done: set<TxId>, s: set<TxId>)
    requires WellFormed(pool) && forall t :: t in done <==> t in s && t < |pool|
    ensures forall t :: UnderAny(pool, done, t) <==> UnderAny(pool, s, t)
  {
  }

  // ---------------------------------------------------------------------------------------------
  // The spork limit on transparent outputs

  function Members(list: seq<TxId>): set<TxId> {
    set t | t in list
  }

  function SumOf(amount: TxId -> nat, list: seq<TxId>): nat {
    if list == [] then 0 else SumOf(amount, list[..|list| - 1]) + amount(list[|list| - 1])
  }

  /**
  BlacklistTxsExceedingLimit: the transactions of the kind that stay are among the kept smallest
  ones, whose amounts together are within the limit, and there is no room for one more.
  */
  method BlacklistTxsExceedingLimit(pool: Pool, black: set<TxId>, limit: nat, kind: Tx -> bool, amount: TxId -> nat)
    returns (r: set<TxId>, txList: seq<TxId>, kept: nat)
    requires BlacklistOk(pool, black)
    ensures BlacklistOk(pool, r) && black <= r
    ensures forall t: TxId :: t in txList <==> t < |pool| && t !in black && kind(pool[t])
    ensures Distinct(txList) && SortedBy(amount, txList)
    ensures kept <= |txList| && SumOf(amount, txList[..kept]) <= limit
    ensures kept < |txList| ==> SumOf(amount, txList[..kept + 1]) > limit
    ensures forall t: TxId :: t < |pool| && kind(pool[t]) && t !in r ==> t in txList[..kept]
    ensures forall t :: t in r <==> t in black || UnderAny(pool, Members(txList[kept..]), t)
  {
    assert WellFormed(pool);
    hide SumOf, SortedBy, BlacklistOk, UnderAny, WellFormed;
    var candidates := set t: TxId | t < |pool| && t !in black && kind(pool[t]);
    txList := Sort(candidates, amount);
    kept := KeptPrefix(txList, amount, limit);
    assert forall k :: 0 <= k < |txList| ==> txList[k] in txList;
    r := BlacklistRest(pool, black, txList, kept);
    forall t: TxId | t < |pool| && kind(pool[t]) && t !in r ensures t in txList[..kept] {
      assert t in txList;
      var k :| 0 <= k < |txList| && txList[k] == t;
      assert k < kept by {
        if k >= kept {
          assert txList[kept..][k - kept] == t;
          UnderItself(pool, Members(txList[kept..]), t);
        }
      }
      assert txList[..kept][k] == t;
    }
  }

  lemma UnderItself(pool: Pool, s: set<TxId>, t: TxId)
    requires WellFormed(pool) && t in s && t < |pool|
    ensures UnderAny(pool, s, t)
  {
    assert Under(pool, t, t);
  }

  /** How many of the list's first transactions are within the limit together. */
  method KeptPrefix(txList: seq<TxId>, amount: TxId -> nat, limit: nat) returns (kept: nat)
    ensures kept <= |txList| && SumOf(amount, txList[..kept]) <= limit
    ensures kept < |txList| ==> SumOf(amount, txList[..kept + 1]) > limit
  {
    var transparentAmount := 0;
    kept := 0;
    while kept < |txList|
      invariant kept <= |txList| && transparentAmount == SumOf(amount, txList[..kept]) <= limit
    {
      assert txList[..kept + 1][..kept] == txList[..kept];
      var output := amount(txList[kept]);
      if transparentAmount + output > limit {
        break;
      }
      transparentAmount := transparentAmount + output;
      kept := kept + 1;
    }
  }

  method BlacklistRest(pool: Pool, black: set<TxId>, txList: seq<TxId>, kept: nat) returns (r: set<TxId>)
    requires BlacklistOk(pool, black) && kept <= |txList| && forall k :: 0 <= k < |txList| ==> txList[k] < |pool|
    ensures BlacklistOk(pool, r) && forall t :: t in r <==> t in black || UnderAny(pool, Members(txList[kept..]), t)
  {
    hide IsAncestor, Descendants, Under, UnderAny;
    r := black;
    var it := kept;
    UnderNone(pool);
    assert Members(txList[kept..it]) == {};
    while it < |txList|
      invariant kept <= it <= |txList| && BlacklistOk(pool, r)
      invariant forall t :: t in r <==> t in black || UnderAny(pool, Members(txList[kept..it]), t)
    {
      UnderOneMore(pool, black, r, Members(txList[kept..it]), txList[it]);
      assert txList[kept..it + 1] == txList[kept..it] + [txList[it]];
      assert Members(txList[kept..it + 1]) == Members(txList[kept..it]) + {txList[it]};
      r := CalculateDescendants(pool, txList[it], r);
      it := it + 1;
    }
    assert txList[kept..it] == txList[kept..];
  }

  // ---------------------------------------------------------------------------------------------
  // The ancestor sizes of the transactions whose ancestors are partly in the block

  /** The package of a transaction: itself and its ancestors that are not in the block. */
  ghost function Package(pool: Pool, block: set<TxId>, d: TxId): set<TxId>
    requires WellFormed(pool)
  {
    Ancestors(pool, d) + {d} - block
  }

  /** Transactions whose cached state still matters: not in the block, not being added to it, not blacklisted. */
  predicate Open(pool: Pool, block: set<TxId>, black: set<TxId>, d: TxId) {
    d < |pool| && d !in block && d !in black
  }

  /**
  mapModifiedTx holds, of open transactions only, a size that is never below the size of the package,
  and exactly that unless the transaction has already failed once; an open transaction it does not
  hold has no ancestor in the block, or all of them, or has failed.
  */
  ghost predicate ModifiedOk(pool: Pool, block: set<TxId>, open: set<TxId>, modified: map<TxId, int>, failed: set<TxId>)
    requires WellFormed(pool)
  {
    && (forall d :: d in modified ==> d in open)
    && (forall d :: d in open ==> d < |pool| && d !in block && SizeOk(pool, block, d, modified, failed))
  }

  ghost predicate SizeOk(pool: Pool, block: set<TxId>, d: TxId, modified: map<TxId, int>, failed: set<TxId>)
    requires WellFormed(pool)
  {
    if d in modified then
      && modified[d] >= TotalSize(pool, Package(pool, block, d))
      && (d !in failed ==> modified[d] == TotalSize(pool, Package(pool, block, d)))
    else
      d in failed || Ancestors(pool, d) !! block || Ancestors(pool, d) <= block
  }

  /** One transaction's inclusion taken out of its open descendants. */
  function Lowered(pool: Pool, modified: map<TxId, int>, it: TxId, affected: set<TxId>): map<TxId, int>
    requires it < |pool| && forall d :: d in affected ==> d < |pool|
  {
    map d | d in modified.Keys + affected ::
      if d !in affected then modified[d]
      else (if d in modified then modified[d] else pool[d].nSizeWithAncestors) - pool[it].size
  }

  lemma LoweredMore(pool: Pool, modified: map<TxId, int>, it: TxId, affected: set<TxId>, d: TxId)
    requires it < |pool| && d < |pool| && d !in affected && forall x :: x in affected ==> x < |pool|
    ensures var m := Lowered(pool, modified, it, affected);
      Lowered(pool, modified, it, affected + {d}) ==
        m[d := (if d in m then m[d] else pool[d].nSizeWithAncestors) - pool[it].size]
  {
  }

  lemma LoweredNone(pool: Pool, modified: map<TxId, int>, it: TxId)
    requires it < |pool|
    ensures Lowered(pool, modified, it, {}) == modified
  {
  }

  lemma LoweredKeeps(pool: Pool, modified: map<TxId, int>, it: TxId, affected: set<TxId>)
    requires it < |pool| && forall d :: d in affected ==> d < |pool|
    ensures modified.Keys <= Lowered(pool, modified, it, affected).Keys
  {
  }

  lemma LoweredSize(pool: Pool, block: set<TxId>, d: TxId, modified: map<TxId, int>, failed: set<TxId>, it: TxId,
                    affected: set<TxId>)
    requires CachesRight(pool) && it < |pool| && it !in block && d < |pool| && d !in block && d != it
    requires forall x :: x in affected ==> x < |pool|
    requires d in affected <==> IsAncestor(pool, it, d)
    requires SizeOk(pool, block, d, modified, failed)
    ensures SizeOk(pool, block + {it}, d, Lowered(pool, modified, it, affected), failed)
  {
    var n := |pool|;
    assert Package(pool, block + {it}, d) == Package(pool, block, d) - {it};
    SizeWithout(pool, Package(pool, block, d), it, n);
    if d in affected {
      assert it in Ancestors(pool, d);
      if d !in modified {
        var all := Ancestors(pool, d) + {d};
        SizeWithout(pool, all, it, n);
        SizeMonotone(pool, Package(pool, block + {it}, d), all - {it}, n);
        if d !in failed {
          assert Package(pool, block, d) == all;
        }
      }
    } else {
      assert it !in Ancestors(pool, d);
      assert it !in Package(pool, block, d);
    }
  }

  /** What the modified map says of a package is never too small. */
  lemma ModifiedSound(pool: Pool, block: set<TxId>, open: set<TxId>, modified: map<TxId, int>, failed: set<TxId>,
                      d: TxId)
    requires CachesRight(pool) && ModifiedOk(pool, block, open, modified, failed) && d in open
    ensures var size := if d in modified then modified[d] else pool[d].nSizeWithAncestors;
      size >= TotalSize(pool, Package(pool, block, d))
  {
    assert SizeOk(pool, block, d, modified, failed);
    SizeMonotone(pool, Package(pool, block, d), Ancestors(pool, d) + {d}, |pool|);
  }

  /** The inner loop of UpdatePackagesForAdded: an added transaction is taken out of its descendants' state. */
  method UpdateDescendants(pool: Pool, black: set<TxId>, alreadyAdded: set<TxId>, mapModifiedTx: map<TxId, int>,
                           it: TxId)
    returns (nDescendantsUpdated: nat, modified: map<TxId, int>)
    requires WellFormed(pool) && it in alreadyAdded && it < |pool|
    ensures modified == Lowered(pool, mapModifiedTx, it, Descendants(pool, it) - alreadyAdded - black)
    ensures nDescendantsUpdated == |Descendants(pool, it) - alreadyAdded - black|
  {
    hide Lowered, Descendants, ClosedDown, WellFormed;
    EmptyClosed(pool);
    DescendantsBelow(pool, it);
    var descendants := CalculateDescendants(pool, it, {});
    assert forall d :: d in descendants <==> d == it || d in Descendants(pool, it);
    LoweredNone(pool, mapModifiedTx, it);
    nDescendantsUpdated, modified := 0, mapModifiedTx;
    ghost var affected := {};
    var todo := descendants;
    while todo != {}
      invariant todo <= descendants && forall d :: d in affected ==> d < |pool|
      invariant forall d :: d in affected <==> d in descendants && d !in todo && d !in alreadyAdded && d !in black
      invariant modified == Lowered(pool, mapModifiedTx, it, affected)
      invariant nDescendantsUpdated == |affected|
    {
      var desc :| desc in todo;
      todo := todo - {desc};
      if desc in alreadyAdded || desc in black {
        continue;
      }
      LoweredMore(pool, mapModifiedTx, it, affected, desc);
      nDescendantsUpdated := nDescendantsUpdated + 1;
      if desc !in modified {
        modified := modified[desc := pool[desc].nSizeWithAncestors - pool[it].size];
      } else {
        modified := modified[desc := modified[desc] - pool[it].size];
      }
      affected := affected + {desc};
    }
    assert affected == Descendants(pool, it) - alreadyAdded - black by {
      assert forall d :: d in affected <==> d in Descendants(pool, it) && d !in alreadyAdded && d !in black;
    }
  }

  lemma DescendantsBelow(pool: Pool, it: TxId)
    requires WellFormed(pool)
    ensures forall d :: d in Descendants(pool, it) ==> d < |pool|
  {
  }

  lemma EmptyClosed(pool: Pool)
    ensures ClosedDown(pool, {})
  {
  }

  lemma AddOne(pool: Pool, block: set<TxId>, open: set<TxId>, modified: map<TxId, int>, failed: set<TxId>, it: TxId,
               affected: set<TxId>)
    requires CachesRight(pool) && it < |pool| && it !in block && it !in open
    requires affected <= open && forall d :: d in open ==> (d in affected <==> IsAncestor(pool, it, d))
    requires ModifiedOk(pool, block, open, modified, failed)
    ensures ModifiedOk(pool, block + {it}, open, Lowered(pool, modified, it, affected), failed)
  {
    forall d | d in open ensures SizeOk(pool, block + {it}, d, Lowered(pool, modified, it, affected), failed) {
      LoweredSize(pool, block, d, modified, failed, it, affected);
    }
  }

  lemma IncludeOne(pool: Pool, block: set<TxId>, black: set<TxId>, alreadyAdded: set<TxId>, todo: set<TxId>,
                   modified: map<TxId, int>, failed: set<TxId>, it: TxId)
    requires CachesRight(pool) && ClosedDown(pool, black) && it in todo && todo <= alreadyAdded
    requires it < |pool| && (it in block || Descendants(pool, it) <= black)
    requires forall d :: d in block && IsAncestor(pool, it, d) ==> d in alreadyAdded
    requires ModifiedOk(pool, block - todo, Openings(pool, block + alreadyAdded, black), modified, failed)
    ensures var affected := Descendants(pool, it) - alreadyAdded - black;
      var open := Openings(pool, block + alreadyAdded, black);
      && ModifiedOk(pool, block - (todo - {it}), open, Lowered(pool, modified, it, affected), failed)
      && (Descendants(pool, it) <= black ==> Lowered(pool, modified, it, affected) == modified)
  {
    var affected, open := Descendants(pool, it) - alreadyAdded - black, Openings(pool, block + alreadyAdded, black);
    hide ModifiedOk, Lowered, CachesRight;
    if Descendants(pool, it) <= black {
      assert affected == {};
      LoweredNone(pool, modified, it);
    }
    if it in block {
      AddOne(pool, block - todo, open, modified, failed, it, affected);
      assert block - todo + {it} == block - (todo - {it});
    } else {
      assert block - todo == block - (todo - {it});
    }
  }

  /**
  UpdatePackagesForAdded, when the added transactions have just been put into the block (or been
  turned down, which only happens to private spends).
  */
  method UpdatePackagesForAdded(pool: Pool, block: set<TxId>, black: set<TxId>, alreadyAdded: set<TxId>,
                                mapModifiedTx: map<TxId, int>, ghost failed: set<TxId>)
    returns (nDescendantsUpdated: nat, modified: map<TxId, int>)
    requires CachesRight(pool) && ClosedDown(pool, black)
    requires forall t :: t in alreadyAdded ==> t < |pool| && (t in block || Descendants(pool, t) <= black)
    requires forall t, d :: t in alreadyAdded && d in block && IsAncestor(pool, t, d) ==> d in alreadyAdded
    requires ModifiedOk(pool, block - alreadyAdded, Openings(pool, block + alreadyAdded, black), mapModifiedTx, failed)
    ensures ModifiedOk(pool, block, Openings(pool, block + alreadyAdded, black), modified, failed)
    ensures (forall t :: t in alreadyAdded ==> Descendants(pool, t) <= black) ==> modified == mapModifiedTx
    ensures mapModifiedTx.Keys <= modified.Keys
  {
    hide ModifiedOk, Lowered, CachesRight;
    CachesWellFormed(pool);
    nDescendantsUpdated, modified := 0, mapModifiedTx;
    var todo := alreadyAdded;
    ghost var open := Openings(pool, block + alreadyAdded, black);
    while todo != {}
      invariant todo <= alreadyAdded
      invariant ModifiedOk(pool, block - todo, open, modified, failed)
      invariant (forall t :: t in alreadyAdded ==> Descendants(pool, t) <= black) ==> modified == mapModifiedTx
      invariant mapModifiedTx.Keys <= modified.Keys
    {
      var it :| it in todo;
      IncludeOne(pool, block, black, alreadyAdded, todo, modified, failed, it);
      LoweredKeeps(pool, modified, it, Descendants(pool, it) - alreadyAdded - black);
      var k;
      k, modified := UpdateDescendants(pool, black, alreadyAdded, modified, it);
      nDescendantsUpdated := nDescendantsUpdated + k;
      todo := todo - {it};
    }
    assert block - todo == block;
  }

  ghost function Openings(pool: Pool, block: set<TxId>, black: set<TxId>): set<TxId> {
    set d | 0 <= d < |pool| && Open(pool, block, black, d)
  }

  // ---------------------------------------------------------------------------------------------
  // Totals of a block as sums over sets

  function Amounts(pool: Pool, k: Kind): TxId -> nat {
    (t: TxId) => if t < |pool| then AmountIn(k, pool[t]) else 0
  }

  ghost function Unlisted(pool: Pool, k: Kind, black: set<TxId>): set<TxId> {
    set t: TxId | 0 <= t < |pool| && t !in black && IsOf(k, pool[t])
  }

  /** The spends of a kind that are not blacklisted together stay within the limit. */
  ghost predicate WithinSpork(pool: Pool, k: Kind, black: set<TxId>, limit: nat) {
    SetSum(Amounts(pool, k), Unlisted(pool, k, black), |pool|) <= limit
  }

  ghost function SetSum(amount: TxId -> nat, s: set<TxId>, n: nat): nat {
    if n == 0 then 0
    else
      var t: TxId := n - 1;
      SetSum(amount, s, t) + if t in s then amount(t) else 0
  }

  lemma {:induction false} SetSumAdd(amount: TxId -> nat, s: set<TxId>, x: TxId, n: nat)
    requires x !in s
    ensures SetSum(amount, s + {x}, n) == SetSum(amount, s, n) + if x < n then amount(x) else 0
  {
    if n > 0 {
      SetSumAdd(amount, s, x, n - 1);
    }
  }

  lemma {:induction false} SetSumMonotone(amount: TxId -> nat, s: set<TxId>, r: set<TxId>, n: nat)
    requires s <= r
    ensures SetSum(amount, s, n) <= SetSum(amount, r, n)
  {
    if n > 0 {
      SetSumMonotone(amount, s, r, n - 1);
    }
  }

  lemma {:induction false} ListSum(amount: TxId -> nat, list: seq<TxId>, n: nat)
    requires Distinct(list) && forall k :: 0 <= k < |list| ==> list[k] < n
    ensures SumOf(amount, list) == SetSum(amount, Members(list), n)
  {
    if list == [] {
      assert Members(list) == {};
      EmptySum(amount, n);
    } else {
      var init, x := list[..|list| - 1], list[|list| - 1];
      ListSum(amount, init, n);
      assert Members(list) == Members(init) + {x};
      SetSumAdd(amount, Members(init), x, n);
    }
  }

  lemma EmptySum(amount: TxId -> nat, n: nat)
    ensures SetSum(amount, {}, n) == 0
  {
  }

  ghost function Spends(pool: Pool, k: Kind, vtx: seq<BlockTx>): set<TxId> {
    set t: TxId | 0 <= t < |pool| && FromPool(t) in vtx && IsOf(k, pool[t])
  }

  /** Each transaction is in the block once, so the block's total is the sum over the set. */
  lemma {:induction false} BlockSum(pool: Pool, k: Kind, vtx: seq<BlockTx>)
    requires ParentsFirst(pool, vtx)
    ensures TotalAmount(pool, k, vtx) == SetSum(Amounts(pool, k), Spends(pool, k, vtx), |pool|)
  {
    hide ParentsFirst, Spends, SetSum;
    if vtx == [] {
      NoSpends(pool, k);
      EmptySum(Amounts(pool, k), |pool|);
    } else {
      var init, b := vtx[..|vtx| - 1], vtx[|vtx| - 1];
      ParentsFirstInit(pool, vtx);
      BlockSum(pool, k, init);
      SpendsNext(pool, k, vtx);
      if SpendsHere(pool, k, b) {
        SetSumAdd(Amounts(pool, k), Spends(pool, k, init), b.id, |pool|);
      }
    }
  }

  lemma ParentsFirstInit(pool: Pool, vtx: seq<BlockTx>)
    requires ParentsFirst(pool, vtx) && vtx != []
    ensures var init, b := vtx[..|vtx| - 1], vtx[|vtx| - 1];
      ParentsFirst(pool, init) && (b.FromPool? ==> b.id < |pool| && b !in init)
  {
    var init := vtx[..|vtx| - 1];
    forall n | 0 <= n < |init| && init[n].FromPool?
      ensures init[n].id < |pool| && init[n] !in init[..n]
      ensures forall p :: p in pool[init[n].id].parents ==> FromPool(p) in init[..n]
    {
      assert init[..n] == vtx[..n];
    }
  }

  lemma NoSpends(pool: Pool, k: Kind)
    ensures Spends(pool, k, []) == {}
  {
  }

  predicate SpendsHere(pool: Pool, k: Kind, b: BlockTx) {
    b.FromPool? && b.id < |pool| && IsOf(k, pool[b.id])
  }

  lemma SpendsNext(pool: Pool, k: Kind, vtx: seq<BlockTx>)
    requires vtx != []
    ensures var init, b := vtx[..|vtx| - 1], vtx[|vtx| - 1];
      && (SpendsHere(pool, k, b) ==> Spends(pool, k, vtx) == Spends(pool, k, init) + {b.id})
      && (!SpendsHere(pool, k, b) ==> Spends(pool, k, vtx) == Spends(pool, k, init))
      && (b !in init && b.FromPool? ==> b.id !in Spends(pool, k, init))
  {
    var init, b := vtx[..|vtx| - 1], vtx[|vtx| - 1];
    assert vtx == init + [b];
  }

  function Inputs(pool: Pool): TxId -> nat {
    (t: TxId) => if t < |pool| then pool[t].lelantusInputs else 0
  }

  lemma {:induction false} InputSum(pool: Pool, vtx: seq<BlockTx>)
    requires ParentsFirst(pool, vtx)
    ensures TotalInputs(pool, vtx) == SetSum(Inputs(pool), Spends(pool, Lelantus, vtx), |pool|)
  {
    hide ParentsFirst, Spends, SetSum;
    if vtx == [] {
      NoSpends(pool, Lelantus);
      EmptySum(Inputs(pool), |pool|);
    } else {
      var init, b := vtx[..|vtx| - 1], vtx[|vtx| - 1];
      ParentsFirstInit(pool, vtx);
      InputSum(pool, init);
      SpendsNext(pool, Lelantus, vtx);
      if SpendsHere(pool, Lelantus, b) {
        SetSumAdd(Inputs(pool), Spends(pool, Lelantus, init), b.id, |pool|);
      }
    }
  }

  // ---------------------------------------------------------------------------------------------
  // The template

  /** The running spend counters, which also count spends that are then turned down. */
  datatype Counters = Counters(nLelantusSpendAmount: nat, nLelantusSpendInputs: nat, nSparkSpendAmount: nat)

  /** Whether AddToBlock takes a transaction, and the counters it leaves. */
  function TryAdd(c: Params, n: Counters, tx: Tx): (r: (bool, Counters)) {
    var amount := n.nLelantusSpendAmount + tx.lelantusAmount;
    var inputs := n.nLelantusSpendInputs + tx.lelantusInputs;
    if tx.isLelantusJoinSplit && tx.lelantusAmount > c.nMaxValueLelantusSpendPerTransaction then (false, n)
    else if tx.isLelantusJoinSplit && amount > c.nMaxValueLelantusSpendPerBlock then
      (false, n.(nLelantusSpendAmount := amount))
    else
      var spent := n.(nLelantusSpendAmount := amount, nLelantusSpendInputs := inputs);
      var n1 := if tx.isLelantusJoinSplit then spent else n;
      var spark := n.nSparkSpendAmount + tx.sparkAmount;
      if tx.isLelantusJoinSplit && inputs > c.nMaxLelantusInputPerBlock then (false, n1)
      else if tx.isSparkSpend && tx.sparkAmount > c.nMaxValueSparkSpendPerTransaction then (false, n1)
      else
        var n2 := if tx.isSparkSpend then n1.(nSparkSpendAmount := spark) else n1;
        (!(tx.isSparkSpend && spark > c.nMaxValueSparkSpendPerBlock), n2)
  }

  /** The counters only grow, so a spend that was turned down would be turned down again. */
  ghost predicate Grown(was: Counters, n: Counters) {
    && was.nLelantusSpendAmount <= n.nLelantusSpendAmount && was.nLelantusSpendInputs <= n.nLelantusSpendInputs
    && was.nSparkSpendAmount <= n.nSparkSpendAmount
  }

  lemma StaysDown(c: Params, was: Counters, n: Counters, tx: Tx)
    requires Grown(was, n) && !TryAdd(c, was, tx).0
    ensures !TryAdd(c, n, tx).0 && IsPrivate(tx)
  {
  }

  /** What is taken: spends within the limits on one transaction that, with what is counted, stay within the block's. */
  lemma TakenIff(c: Params, n: Counters, tx: Tx)
    ensures TryAdd(c, n, tx).0 <==>
      && (tx.isLelantusJoinSplit ==>
           && tx.lelantusAmount <= c.nMaxValueLelantusSpendPerTransaction
           && n.nLelantusSpendAmount + tx.lelantusAmount <= c.nMaxValueLelantusSpendPerBlock
           && n.nLelantusSpendInputs + tx.lelantusInputs <= c.nMaxLelantusInputPerBlock)
      && (tx.isSparkSpend ==>
           && tx.sparkAmount <= c.nMaxValueSparkSpendPerTransaction
           && n.nSparkSpendAmount + tx.sparkAmount <= c.nMaxValueSparkSpendPerBlock)
  {
  }

  /** A spend of one kind that is turned down leaves the counters alone exactly if it is too large on its own. */
  lemma TurnedDownCounts(c: Params, n: Counters, tx: Tx)
    requires !TryAdd(c, n, tx).0 && !(tx.isLelantusJoinSplit && tx.isSparkSpend)
    requires (tx.isLelantusJoinSplit ==> tx.lelantusAmount > 0) && (tx.isSparkSpend ==> tx.sparkAmount > 0)
    ensures TryAdd(c, n, tx).1 == n <==>
      || (tx.isLelantusJoinSplit && tx.lelantusAmount > c.nMaxValueLelantusSpendPerTransaction)
      || (tx.isSparkSpend && tx.sparkAmount > c.nMaxValueSparkSpendPerTransaction)
  {
  }

  /** Otherwise it may keep out a later one that would fit: with a limit of 10 and 8 taken, an 8 keeps out a 2. */
  lemma KeepsOutLater(large: Tx, small: Tx)
    requires large.isSparkSpend && !large.isLelantusJoinSplit && large.sparkAmount == 8
    requires small.isSparkSpend && !small.isLelantusJoinSplit && small.sparkAmount == 2
    ensures var c, n := Params(0, 0, 0, 0, 10, 10), Counters(0, 0, 8);
      TryAdd(c, n, small).0 && !TryAdd(c, n, large).0 && !TryAdd(c, TryAdd(c, n, large).1, small).0
  {
  }

  /** All private spends of the pool together stay within every limit. */
  ghost predicate Roomy(pool: Pool, c: Params) {
    && (forall t: TxId :: t < |pool| && pool[t].isLelantusJoinSplit ==>
         pool[t].lelantusAmount <= c.nMaxValueLelantusSpendPerTransaction)
    && (forall t: TxId :: t < |pool| && pool[t].isSparkSpend ==>
         pool[t].sparkAmount <= c.nMaxValueSparkSpendPerTransaction)
    && WithinSpork(pool, Lelantus, {}, c.nMaxValueLelantusSpendPerBlock)
    && WithinSpork(pool, Spark, {}, c.nMaxValueSparkSpendPerBlock)
    && SetSum(Inputs(pool), Unlisted(pool, Lelantus, {}), |pool|) <= c.nMaxLelantusInputPerBlock
  }

  /** The counters count the spends in the block and nothing else. */
  ghost predicate Exact(pool: Pool, vtx: seq<BlockTx>, n: Counters) {
    && n.nLelantusSpendAmount == TotalAmount(pool, Lelantus, vtx) && n.nLelantusSpendInputs == TotalInputs(pool, vtx)
    && n.nSparkSpendAmount == TotalAmount(pool, Spark, vtx)
  }

  lemma OneMoreSpend(pool: Pool, k: Kind, amount: TxId -> nat, vtx: seq<BlockTx>, t: TxId)
    requires t < |pool| && FromPool(t) !in vtx && IsOf(k, pool[t])
    ensures SetSum(amount, Spends(pool, k, vtx), |pool|) + amount(t) <= SetSum(amount, Unlisted(pool, k, {}), |pool|)
  {
    SetSumAdd(amount, Spends(pool, k, vtx), t, |pool|);
    SetSumMonotone(amount, Spends(pool, k, vtx) + {t}, Unlisted(pool, k, {}), |pool|);
  }

  /** With room for all spends, none is turned down. */
  lemma RoomForIt(pool: Pool, c: Params, vtx: seq<BlockTx>, n: Counters, t: TxId)
    requires Roomy(pool, c) && Exact(pool, vtx, n) && ParentsFirst(pool, vtx) && t < |pool| && FromPool(t) !in vtx
    ensures TryAdd(c, n, pool[t]).0
  {
    hide SetSum, Unlisted, Spends, ParentsFirst, TotalAmount, TotalInputs;
    if pool[t].isLelantusJoinSplit {
      BlockSum(pool, Lelantus, vtx);
      InputSum(pool, vtx);
      OneMoreSpend(pool, Lelantus, Amounts(pool, Lelantus), vtx, t);
      OneMoreSpend(pool, Lelantus, Inputs(pool), vtx, t);
    }
    if pool[t].isSparkSpend {
      BlockSum(pool, Spark, vtx);
      OneMoreSpend(pool, Spark, Amounts(pool, Spark), vtx, t);
    }
  }

  lemma ExactNext(pool: Pool, c: Params, vtx: seq<BlockTx>, n: Counters, t: TxId)
    requires Exact(pool, vtx, n) && t < |pool| && TryAdd(c, n, pool[t]).0
    ensures Exact(pool, vtx + [FromPool(t)], TryAdd(c, n, pool[t]).1)
  {
    var w := vtx + [FromPool(t)];
    assert w[..|w| - 1] == vtx;
  }

  /** Valid so far: parents first, nothing blacklisted, and the spends within every limit that AddToBlock checks. */
  ghost predicate Assembled(pool: Pool, c: Params, vtx: seq<BlockTx>, inBlock: set<TxId>, black: set<TxId>,
                            n: Counters) {
    && ParentsFirst(pool, vtx)
    && (forall t :: t in inBlock <==> FromPool(t) in vtx)
    && (forall t :: t in inBlock ==> t < |pool| && t !in black)
    && WithinLimits(pool, c, vtx, n) && (Roomy(pool, c) ==> Exact(pool, vtx, n))
  }

  ghost predicate WithinLimits(pool: Pool, c: Params, vtx: seq<BlockTx>, n: Counters) {
    && TotalAmount(pool, Lelantus, vtx) <= n.nLelantusSpendAmount && TotalInputs(pool, vtx) <= n.nLelantusSpendInputs
    && TotalAmount(pool, Spark, vtx) <= n.nSparkSpendAmount
    && TotalsOk(pool, c, vtx) && SparkOk(pool, c, vtx)
  }

  lemma AddedWithinLimits(pool: Pool, c: Params, vtx: seq<BlockTx>, n: Counters, t: TxId)
    requires WithinLimits(pool, c, vtx, n) && t < |pool|
    ensures var r := TryAdd(c, n, pool[t]); WithinLimits(pool, c, if r.0 then vtx + [FromPool(t)] else vtx, r.1)
  {
    var w := vtx + [FromPool(t)];
    assert w[..|w| - 1] == vtx;
  }

  lemma AddedAssembled(pool: Pool, c: Params, vtx: seq<BlockTx>, inBlock: set<TxId>, black: set<TxId>, n: Counters,
                       t: TxId)
    requires Assembled(pool, c, vtx, inBlock, black, n) && t < |pool| && t !in inBlock && t !in black
    requires forall p :: p in pool[t].parents ==> p in inBlock
    ensures var r := TryAdd(c, n, pool[t]);
      && Grown(n, r.1)
      && if r.0 then Assembled(pool, c, vtx + [FromPool(t)], inBlock + {t}, black, r.1)
         else Assembled(pool, c, vtx, inBlock, black, r.1) && IsPrivate(pool[t])
  {
    hide WithinLimits, Roomy, Exact, ParentsFirst;
    AddedWithinLimits(pool, c, vtx, n, t);
    ParentsFirstAppend(pool, vtx, t);
    if Roomy(pool, c) {
      RoomForIt(pool, c, vtx, n, t);
      ExactNext(pool, c, vtx, n, t);
    }
  }

  lemma BlockClosedUp(pool: Pool, c: Params, vtx: seq<BlockTx>, inBlock: set<TxId>, black: set<TxId>, n: Counters)
    requires Assembled(pool, c, vtx, inBlock, black, n)
    ensures ClosedUp(pool, inBlock)
  {
    forall x, p | x in inBlock && x < |pool| && p in pool[x].parents ensures p in inBlock {
      var k :| 0 <= k < |vtx| && vtx[k] == FromPool(x);
      assert FromPool(p) in vtx[..k];
    }
  }

  /** A block that only had pool transactions appended. */
  ghost predicate Extends(was: seq<BlockTx>, vtx: seq<BlockTx>) {
    was <= vtx && forall k :: |was| <= k < |vtx| ==> vtx[k].FromPool?
  }

  lemma ExtendsItself(vtx: seq<BlockTx>)
    ensures Extends(vtx, vtx)
  {
  }

  lemma ExtendsMore(was: seq<BlockTx>, vtx: seq<BlockTx>)
    requires Extends(was, vtx)
    ensures forall w :: Extends(vtx, w) ==> Extends(was, w)
  {
  }

  /** No transaction twice: in the queue, waiting, or in the block. */
  ghost predicate QueueOk(pool: Pool, block: set<TxId>, black: set<TxId>, vecPriority: seq<TxId>,
                          waitPriMap: set<TxId>) {
    && Distinct(vecPriority)
    && (forall t :: t in vecPriority ==> t < |pool| && t !in block && t !in black && t !in waitPriMap)
    && (forall t :: t in waitPriMap ==> t < |pool| && t !in block && t !in black)
  }

  /** The popped transaction may wait, or join the block, or go. */
  lemma PopQueue(pool: Pool, block: set<TxId>, black: set<TxId>, vec: seq<TxId>, wait: set<TxId>, front: nat)
    requires QueueOk(pool, block, black, vec, wait) && front < |vec|
    ensures var v, t := vec[..front] + vec[front + 1..], vec[front];
      && Open(pool, block, black, t) && t !in wait
      && QueueOk(pool, block, black, v, wait)
      && QueueOk(pool, block, black, v, wait + {t})
      && QueueOk(pool, block + {t}, black, v, wait)
  {
    var v, t := vec[..front] + vec[front + 1..], vec[front];
    assert t in vec;
    assert Distinct(v) && t !in v && forall x :: x in v ==> x in vec;
  }

  lemma PoppedOff(vec: seq<TxId>, front: nat)
    requires front < |vec|
    ensures forall t :: t in vec ==> t in vec[..front] + vec[front + 1..] || t == vec[front]
  {
    assert vec == vec[..front] + [vec[front]] + vec[front + 1..];
  }

  lemma Requeue(pool: Pool, block: set<TxId>, black: set<TxId>, vec: seq<TxId>, wait: set<TxId>, child: TxId)
    requires QueueOk(pool, block, black, vec, wait) && child in wait
    ensures QueueOk(pool, block, black, vec + [child], wait - {child})
  {
    assert forall k :: 0 <= k < |vec| ==> vec[k] in vec;
  }

  /**
  What priorities, fees, sizes and finality decide, by the step at which they are asked: whether a
  transaction fits on its own and whether the block is full if it does not, whether the best modified
  package is better, whether a package's fee is too low, whether it fits and whether to give up if it
  does not, and whether its transactions are final.
  */
  datatype Choices = Choices(
    byPriority: bool, fits: nat -> bool, full: nat -> bool, better: nat -> bool, feeTooLow: nat -> bool,
    packageFits: nat -> bool, giveUp: nat -> bool, final: nat -> bool)

  /** Every fee is enough, everything fits and everything is final. */
  ghost predicate Unhindered(ch: Choices) {
    forall n: nat :: ch.fits(n) && !ch.feeTooLow(n) && ch.packageFits(n) && ch.final(n)
  }

  /** Over a limit that TestForBlock checks. */
  predicate OverLimit(pool: Pool, c: Params, n: Counters, t: TxId)
    requires t < |pool|
  {
    || !TryAdd(c, n, pool[t]).0
    || (pool[t].isLelantusJoinSplit && pool[t].lelantusInputs > c.nMaxLelantusInputPerTransaction)
  }

  /** No transaction is lost: it is queued, waits, is in the block, or was over a limit. */
  ghost predicate NoneLost(pool: Pool, c: Params, n: Counters, block: set<TxId>, black: set<TxId>, vec: seq<TxId>,
                           wait: set<TxId>) {
    forall t: TxId :: t < |pool| && t !in black ==> t in vec || t in wait || t in block || OverLimit(pool, c, n, t)
  }

  /** Whatever waits, waits for a parent. */
  ghost predicate WaitsForParent(pool: Pool, block: set<TxId>, wait: set<TxId>) {
    forall t :: t in wait ==> t < |pool| && exists p :: p in pool[t].parents && p !in block
  }

  lemma StaysOver(pool: Pool, c: Params, was: Counters, n: Counters)
    requires Grown(was, n)
    ensures forall t: TxId :: t < |pool| && OverLimit(pool, c, was, t) ==>
      OverLimit(pool, c, n, t) && IsPrivate(pool[t])
  {
    hide TryAdd, Grown;
    forall t: TxId | t < |pool| && OverLimit(pool, c, was, t) ensures OverLimit(pool, c, n, t) && IsPrivate(pool[t]) {
      if !TryAdd(c, was, pool[t]).0 {
        StaysDown(c, was, n, pool[t]);
      }
    }
  }

  /** When the queue has run empty nothing waits: the parent would have been turned down, and thus be private. */
  lemma {:induction false} NoneWaits(pool: Pool, c: Params, n: Counters, block: set<TxId>, black: set<TxId>,
                                     wait: set<TxId>, t: TxId)
    requires BlacklistOk(pool, black) && QueueOk(pool, block, black, [], wait)
    requires NoneLost(pool, c, n, block, black, [], wait) && WaitsForParent(pool, block, wait)
    ensures t !in wait
    decreases t
  {
    if t in wait {
      var p :| p in pool[t].parents && p !in block;
      NoneWaits(pool, c, n, block, black, wait, p);
      ParentIsAncestor(pool, p, t);
      if p in black {
        ClosedDownHolds(pool, black, p, t);
      }
      StaysOver(pool, c, n, n);
      assert false;
    }
  }

  class BlockAssembler {
    const pool: Pool
    const params: Params
    var vtx: seq<BlockTx>
    var inBlock: set<TxId>
    var txBlackList: set<TxId>
    var counters: Counters

    ghost predicate Valid() reads this {
      && CachesRight(pool) && BlacklistOk(pool, txBlackList)
      && Assembled(pool, params, vtx, inBlock, txBlackList, counters)
    }

    /** The coinbase and the quorum commitments are in, nothing else. */
    constructor (pool: Pool, params: Params, commitments: nat, black: set<TxId>)
      requires CachesRight(pool) && BlacklistOk(pool, black)
      ensures this.pool == pool && this.params == params && txBlackList == black && inBlock == {}
      ensures Valid() && vtx == seq(commitments + 1, _ => Special)
    {
      this.pool, this.params, txBlackList := pool, params, black;
      inBlock, counters := {}, Counters(0, 0, 0);
      vtx := seq(commitments + 1, _ => Special);
      new;
      OnlySpecials(pool, vtx);
    }

    method AddToBlock(t: TxId)
      requires Valid() && t < |pool| && t !in inBlock && t !in txBlackList
      requires forall p :: p in pool[t].parents ==> p in inBlock
      modifies this`vtx, this`inBlock, this`counters
      ensures Valid() && counters == TryAdd(params, old(counters), pool[t]).1 && Grown(old(counters), counters)
      ensures TryAdd(params, old(counters), pool[t]).0 ==>
        vtx == old(vtx) + [FromPool(t)] && inBlock == old(inBlock) + {t}
      ensures !TryAdd(params, old(counters), pool[t]).0 ==>
        vtx == old(vtx) && inBlock == old(inBlock) && IsPrivate(pool[t])
    {
      hide Assembled, BlacklistOk, CachesRight, TryAdd;
      AddedAssembled(pool, params, vtx, inBlock, txBlackList, counters, t);
      var ok := CountSpends(pool[t]);
      if !ok {
        return;
      }
      vtx := vtx + [FromPool(t)];
      inBlock := inBlock + {t};
    }

    /** The limits of AddToBlock. */
    method CountSpends(tx: Tx) returns (ok: bool)
      modifies this`counters
      ensures (ok, counters) == TryAdd(params, old(counters), tx)
    {
      if tx.isLelantusJoinSplit {
        if tx.lelantusAmount > params.nMaxValueLelantusSpendPerTransaction {
          return false;
        }
        counters := counters.(nLelantusSpendAmount := counters.nLelantusSpendAmount + tx.lelantusAmount);
        if counters.nLelantusSpendAmount > params.nMaxValueLelantusSpendPerBlock {
          return false;
        }
        counters := counters.(nLelantusSpendInputs := counters.nLelantusSpendInputs + tx.lelantusInputs);
        if counters.nLelantusSpendInputs > params.nMaxLelantusInputPerBlock {
          return false;
        }
      }
      if tx.isSparkSpend {
        if tx.sparkAmount > params.nMaxValueSparkSpendPerTransaction {
          return false;
        }
        counters := counters.(nSparkSpendAmount := counters.nSparkSpendAmount + tx.sparkAmount);
        if counters.nSparkSpendAmount > params.nMaxValueSparkSpendPerBlock {
          return false;
        }
      }
      return true;
    }

    method IsStillDependent(t: TxId) returns (b: bool)
      requires t < |pool|
      ensures b <==> exists p :: p in pool[t].parents && p !in inBlock
    {
      var todo := pool[t].parents;
      while todo != {}
        invariant todo <= pool[t].parents && forall p :: p in pool[t].parents && p !in todo ==> p in inBlock
      {
        var parent :| parent in todo;
        if parent !in inBlock {
          return true;
        }
        todo := todo - {parent};
      }
      return false;
    }

    method OnlyUnconfirmed(testSet: set<TxId>) returns (r: set<TxId>)
      ensures r == testSet - inBlock
    {
      r := testSet;
      var todo := testSet;
      while todo != {}
        invariant todo <= testSet && r == testSet - (inBlock - todo)
      {
        var x :| x in todo;
        todo := todo - {x};
        if x in inBlock {
          r := r - {x};
        }
      }
    }

    /** The limits of TestForBlock; whether the transaction fits and is final is up to fits. */
    method TestForBlock(t: TxId, fits: bool) returns (ok: bool)
      requires t < |pool|
      ensures ok <==>
        && fits && TryAdd(params, counters, pool[t]).0
        && (pool[t].isLelantusJoinSplit ==> pool[t].lelantusInputs <= params.nMaxLelantusInputPerTransaction)
    {
      if !fits {
        return false;
      }
      var tx := pool[t];
      if tx.isLelantusJoinSplit {
        if tx.lelantusInputs > params.nMaxLelantusInputPerTransaction ||
           tx.lelantusAmount > params.nMaxValueLelantusSpendPerTransaction
        {
          return false;
        }
        if tx.lelantusInputs + counters.nLelantusSpendInputs > params.nMaxLelantusInputPerBlock {
          return false;
        }
        if tx.lelantusAmount + counters.nLelantusSpendAmount > params.nMaxValueLelantusSpendPerBlock {
          return false;
        }
      }
      if tx.isSparkSpend {
        if tx.sparkAmount > params.nMaxValueSparkSpendPerTransaction {
          return false;
        }
        if tx.sparkAmount + counters.nSparkSpendAmount > params.nMaxValueSparkSpendPerBlock {
          return false;
        }
      }
      return true;
    }

    /** Transactions by priority: one whose parents are not all in waits until the last of them joins. */
    method AddPriorityTxs(ch: Choices)
      requires Valid() && inBlock == {}
      modifies this`vtx, this`inBlock, this`counters
      ensures Valid() && Extends(old(vtx), vtx)
      ensures !ch.byPriority ==> vtx == old(vtx) && inBlock == {}
      ensures ch.byPriority && Unhindered(ch) ==>
        forall t: TxId :: t < |pool| && t !in txBlackList ==> t in inBlock || OverLimit(pool, params, counters, t)
    {
      hide Assembled, CachesRight, BlacklistOk, QueueOk, NoneLost, WaitsForParent, OverLimit, Open;
      if !ch.byPriority {
        return;
      }
      var vecPriority := StartQueue();
      var waitPriMap: set<TxId> := {};
      var blockFinished, step := false, 0;
      NoneLostYet(pool, params, counters, txBlackList, vecPriority);
      while vecPriority != [] && !blockFinished
        invariant Valid() && Extends(old(vtx), vtx)
        invariant QueueOk(pool, inBlock, txBlackList, vecPriority, waitPriMap)
        invariant WaitsForParent(pool, inBlock, waitPriMap)
        invariant Unhindered(ch) ==>
          !blockFinished && NoneLost(pool, params, counters, inBlock, txBlackList, vecPriority, waitPriMap)
        decreases |vecPriority| + |waitPriMap|, |vecPriority|
      {
        ghost var vec := vecPriority;
        step := step + 1;
        var front: nat :| front < |vecPriority|;
        var iter := vecPriority[front];
        PoppedOff(vecPriority, front);
        PopQueue(pool, inBlock, txBlackList, vecPriority, waitPriMap, front);
        vecPriority := vecPriority[..front] + vecPriority[front + 1..];
        if iter in inBlock {
          assert false;
        }
        vecPriority, waitPriMap, blockFinished :=
          TryPopped(iter, vec, vecPriority, waitPriMap, ch.fits(step), ch.full(step));
      }
      if Unhindered(ch) {
        AllPlaced(pool, params, counters, inBlock, txBlackList, waitPriMap);
      }
    }

    /** What becomes of a transaction taken off the queue was; vec is the rest of the queue. */
    method TryPopped(iter: TxId, ghost was: seq<TxId>, vec: seq<TxId>, wait: set<TxId>, fits: bool, full: bool)
      returns (vecPriority: seq<TxId>, waitPriMap: set<TxId>, blockFinished: bool)
      requires Valid() && Open(pool, inBlock, txBlackList, iter) && WaitsForParent(pool, inBlock, wait)
      requires iter !in wait && (forall t :: t in was ==> t in vec || t == iter)
      requires QueueOk(pool, inBlock, txBlackList, vec, wait) && QueueOk(pool, inBlock, txBlackList, vec, wait + {iter})
      requires QueueOk(pool, inBlock + {iter}, txBlackList, vec, wait)
      modifies this`vtx, this`inBlock, this`counters
      ensures Valid() && Extends(old(vtx), vtx) && WaitsForParent(pool, inBlock, waitPriMap)
      ensures QueueOk(pool, inBlock, txBlackList, vecPriority, waitPriMap)
      ensures |vecPriority| + |waitPriMap| <= |vec| + |wait| ||
        (vecPriority == vec && waitPriMap == wait + {iter})
      ensures fits ==> !blockFinished
      ensures fits && NoneLost(pool, params, old(counters), old(inBlock), txBlackList, was, wait) ==>
        NoneLost(pool, params, counters, inBlock, txBlackList, vecPriority, waitPriMap)
    {
      hide Assembled, CachesRight, BlacklistOk, QueueOk, Children, NoneLost, WaitsForParent, Grown;
      vecPriority, waitPriMap, blockFinished := vec, wait, false;
      var dependent := IsStillDependent(iter);
      if dependent {
        OneWaits(pool, params, counters, inBlock, txBlackList, was, vec, wait, iter);
        waitPriMap := waitPriMap + {iter};
        return;
      }
      var ok := TestForBlock(iter, fits);
      hide TryAdd;
      if ok {
        AddToBlock(iter);
        vecPriority, waitPriMap := RequeueChildren(iter, vec, wait);
        assert inBlock - {iter} == old(inBlock);
        OneJoins(pool, params, old(counters), counters, inBlock, txBlackList, was, wait, vecPriority, waitPriMap, iter);
        return;
      }
      if fits {
        OneIsOver(pool, params, counters, inBlock, txBlackList, was, vec, wait, iter);
      }
      blockFinished := !fits && full;
    }

    method StartQueue() returns (vecPriority: seq<TxId>)
      requires inBlock == {}
      ensures QueueOk(pool, inBlock, txBlackList, vecPriority, {})
      ensures forall t: TxId :: t in vecPriority <==> t < |pool| && t !in txBlackList
    {
      vecPriority := [];
      for mi := 0 to |pool|
        invariant Distinct(vecPriority) && forall t: TxId :: t in vecPriority <==> t < mi && t !in txBlackList
      {
        if mi in txBlackList {
          continue;
        }
        assert forall k :: 0 <= k < |vecPriority| ==> vecPriority[k] in vecPriority;
        vecPriority := vecPriority + [mi];
      }
    }

    method RequeueChildren(iter: TxId, vec: seq<TxId>, wait: set<TxId>)
      returns (vecPriority: seq<TxId>, waitPriMap: set<TxId>)
      requires QueueOk(pool, inBlock, txBlackList, vec, wait)
      ensures QueueOk(pool, inBlock, txBlackList, vecPriority, waitPriMap)
      ensures |vecPriority| + |waitPriMap| == |vec| + |wait|
      ensures waitPriMap == wait - Children(pool, iter)
      ensures forall t :: t in vec || t in wait ==> t in vecPriority || t in waitPriMap
    {
      hide QueueOk, Children;
      vecPriority, waitPriMap := vec, wait;
      var children := Children(pool, iter);
      var todo := children;
      while todo != {}
        invariant todo <= children && forall t :: t in waitPriMap <==> t in wait && (t in todo || t !in children)
        invariant QueueOk(pool, inBlock, txBlackList, vecPriority, waitPriMap)
        invariant |vecPriority| + |waitPriMap| == |vec| + |wait|
        invariant forall t :: t in vec || t in wait ==> t in vecPriority || t in waitPriMap
      {
        var child :| child in todo;
        todo := todo - {child};
        if child in waitPriMap {
          Requeue(pool, inBlock, txBlackList, vecPriority, waitPriMap, child);
          vecPriority := vecPriority + [child];
          waitPriMap := waitPriMap - {child};
        }
      }
    }

    /** Puts a package into the block, ancestors first, and updates what depends on it. */
    method IncludePackage(iter: TxId, ancestors: set<TxId>, mapModifiedTx: map<TxId, int>, ghost failed: set<TxId>)
      returns (nDescendantsUpdated: nat, modified: map<TxId, int>)
      requires Valid() && Open(pool, inBlock, txBlackList, iter)
      requires ancestors == Package(pool, inBlock, iter)
      requires ModifiedOk(pool, inBlock, Openings(pool, inBlock, txBlackList), mapModifiedTx, failed)
      modifies this`vtx, this`inBlock, this`counters
      ensures Valid() && ModifiedOk(pool, inBlock, Openings(pool, inBlock, txBlackList), modified, failed)
      ensures Extends(old(vtx), vtx)
      ensures old(inBlock) + (ancestors - {iter}) <= inBlock <= old(inBlock) + ancestors
      ensures iter !in inBlock ==> IsPrivate(pool[iter])
      ensures inBlock == old(inBlock) ==> modified == mapModifiedTx - {iter}
      ensures mapModifiedTx.Keys - ancestors <= modified.Keys && Grown(old(counters), counters)
      ensures iter !in inBlock ==> !TryAdd(params, counters, pool[iter]).0
    {
      hide ModifiedOk, Assembled, ParentsFirst, CachesRight, BlacklistOk, SortedBy, Distinct, Extends, TryAdd, Grown;
      ghost var b := inBlock;
      BlockClosedUp(pool, params, vtx, inBlock, txBlackList, counters);
      var sortedEntries := Sort(ancestors, (t: TxId) => if t < |pool| then pool[t].nCountWithAncestors else 0);
      modified := AddSorted(iter, sortedEntries, ancestors, mapModifiedTx);
      Included(pool, inBlock, txBlackList, b, iter, mapModifiedTx, failed);
      nDescendantsUpdated, modified := UpdatePackagesForAdded(pool, inBlock, txBlackList, ancestors, modified, failed);
      Reopened(pool, inBlock, txBlackList, b, iter, modified, failed);
    }

    /** The loop that adds a sorted package. */
    method AddSorted(iter: TxId, sortedEntries: seq<TxId>, ghost ancestors: set<TxId>, mapModifiedTx: map<TxId, int>)
      returns (modified: map<TxId, int>)
      requires Valid() && Open(pool, inBlock, txBlackList, iter) && ancestors == Package(pool, inBlock, iter)
      requires Distinct(sortedEntries) && (forall t :: t in sortedEntries <==> t in ancestors)
      requires SortedBy((t: TxId) => if t < |pool| then pool[t].nCountWithAncestors else 0, sortedEntries)
      modifies this`vtx, this`inBlock, this`counters
      ensures Valid() && Extends(old(vtx), vtx) && modified == mapModifiedTx - ancestors
      ensures old(inBlock) <= inBlock && (forall t :: t in inBlock ==> t in old(inBlock) || t in ancestors)
      ensures forall t :: t in ancestors ==> t in inBlock || (t == iter && IsPrivate(pool[t]))
      ensures Grown(old(counters), counters) && (iter !in inBlock ==> !TryAdd(params, counters, pool[iter]).0)
    {
      hide Assembled, ParentsFirst, CachesRight, BlacklistOk, SortedBy, Distinct, TryAdd;
      assert iter in ancestors;
      hide Package;
      ghost var b := inBlock;
      modified := mapModifiedTx;
      var i := 0;
      while i < |sortedEntries|
        invariant 0 <= i <= |sortedEntries|
        invariant Valid() && Extends(old(vtx), vtx)
        invariant b <= inBlock && (forall t :: t in inBlock ==> t in b || t in sortedEntries[..i])
        invariant forall t :: t in sortedEntries[..i] ==> t in inBlock || (t == iter && IsPrivate(pool[t]))
        invariant modified == mapModifiedTx - (set t | t in sortedEntries[..i])
        invariant Grown(old(counters), counters)
        invariant iter in sortedEntries[..i] && iter !in inBlock ==> !TryAdd(params, counters, pool[iter]).0
      {
        PackageOrdered(pool, b, txBlackList, iter, sortedEntries, i);
        assert sortedEntries[..i + 1] == sortedEntries[..i] + [sortedEntries[i]];
        ghost var n := counters;
        AddToBlock(sortedEntries[i]);
        if iter !in inBlock && iter in sortedEntries[..i + 1] {
          StaysDown(params, n, counters, pool[iter]);
        }
        modified := modified - {sortedEntries[i]};
        i := i + 1;
      }
      assert sortedEntries[..i] == sortedEntries;
      assert (set t | t in sortedEntries) == ancestors;
    }

    /**
    Packages by fee rate.  order is the pool by ancestor fee rate.  Unless fees, sizes or finality stand
    in the way, every transaction that is not blacklisted joins, except spends over a limit.
    */
    method AddPackageTxs(order: seq<TxId>, ch: Choices) returns (nPackagesSelected: nat, nDescendantsUpdated: nat)
      requires Valid() && forall t :: t in order ==> t < |pool|
      modifies this`vtx, this`inBlock, this`counters
      ensures Valid() && old(inBlock) <= inBlock && Extends(old(vtx), vtx)
      ensures Unhindered(ch) ==>
        forall t :: t in order && t !in txBlackList ==> t in inBlock || !TryAdd(params, counters, pool[t]).0
    {
      hide ModifiedOk, Assembled, CachesRight, BlacklistOk, Package, Openings, TryAdd, Grown, Settled, Extends,
        IsPrivate;
      ExtendsItself(vtx);
      CachesWellFormed(pool);
      nPackagesSelected := 0;
      var mapModifiedTx: map<TxId, int>;
      var failedTx: set<TxId> := {};
      nDescendantsUpdated, mapModifiedTx := StartModified();
      var mi, step := 0, 0;
      ghost var all := Openings(pool, {}, {});
      NoneSettled(pool, params, counters, inBlock, txBlackList, mapModifiedTx.Keys);
      while mi < |order| || mapModifiedTx != map[]
        invariant 0 <= mi <= |order| && Valid() && old(inBlock) <= inBlock && Extends(old(vtx), vtx)
        invariant ModifiedOk(pool, inBlock, Openings(pool, inBlock, txBlackList), mapModifiedTx, failedTx)
        invariant Unhindered(ch) ==> failedTx == {}
        invariant Unhindered(ch) ==>
          Settled(pool, params, counters, inBlock, txBlackList, order[..mi], mapModifiedTx.Keys)
        decreases all - inBlock, |order| - mi + |mapModifiedTx|
      {
        step := step + 1;
        if mi < |order| && SkipMapTxEntry(order[mi], mapModifiedTx, failedTx) {
          SettledSkip(pool, params, counters, inBlock, txBlackList, order, mi, mapModifiedTx.Keys, failedTx);
          mi := mi + 1;
          continue;
        }
        ghost var tried := mi;
        var fUsingModified := ch.better(step);
        if mi == |order| {
          fUsingModified := true;
        } else if mapModifiedTx == map[] {
          fUsingModified := false;
        }
        var iter: TxId;
        if fUsingModified {
          iter :| iter in mapModifiedTx;
        } else {
          iter := order[mi];
          assert iter in order;
          mi := mi + 1;
        }
        OpenEntry(pool, inBlock, txBlackList, mapModifiedTx, failedTx, iter);
        assert iter !in inBlock;

        var packageSize := if fUsingModified then mapModifiedTx[iter] else pool[iter].nSizeWithAncestors;
        assert packageSize >= TotalSize(pool, Package(pool, inBlock, iter));
        if ch.feeTooLow(step) {
          return;
        }
        assert mi > tried ==> order[..mi] == order[..tried] + [iter];
        ExtendsMore(old(vtx), vtx);
        var selected, updated;
        selected, updated, mapModifiedTx, failedTx :=
          TryPackage(iter, mapModifiedTx, failedTx, ch.packageFits(step), ch.final(step), order[..tried], order[..mi]);
        if !ch.packageFits(step) && ch.giveUp(step) {
          break;
        }
        nPackagesSelected := nPackagesSelected + selected;
        nDescendantsUpdated := nDescendantsUpdated + updated;
      }
      if Unhindered(ch) {
        AllSettled(pool, params, counters, inBlock, txBlackList, order);
      }
    }

    /** A package is put into the block, or goes from the modified map and counts as failed if it came from there. */
    method TryPackage(iter: TxId, mapModifiedTx: map<TxId, int>, failedTx: set<TxId>, packageFits: bool, final: bool,
                      ghost before: seq<TxId>, ghost done: seq<TxId>)
      returns (selected: nat, updated: nat, modified: map<TxId, int>, failed: set<TxId>)
      requires Valid() && Open(pool, inBlock, txBlackList, iter) && (done == before || done == before + [iter])
      requires ModifiedOk(pool, inBlock, Openings(pool, inBlock, txBlackList), mapModifiedTx, failedTx)
      modifies this`vtx, this`inBlock, this`counters
      ensures Valid() && ModifiedOk(pool, inBlock, Openings(pool, inBlock, txBlackList), modified, failed)
      ensures Extends(old(vtx), vtx) && old(inBlock) <= inBlock <= old(inBlock) + Openings(pool, {}, {})
      ensures inBlock == old(inBlock) ==> modified == mapModifiedTx - {iter}
      ensures selected == if packageFits && final then 1 else 0
      ensures packageFits && final ==> failed == failedTx
      ensures packageFits && final ==>
        Settled(pool, params, old(counters), old(inBlock), txBlackList, before, mapModifiedTx.Keys) ==>
        Settled(pool, params, counters, inBlock, txBlackList, done, modified.Keys)
    {
      hide ModifiedOk, Assembled, CachesRight, BlacklistOk, Package, Openings, TryAdd, Grown, Settled, IsPrivate;
      CachesWellFormed(pool);
      selected, updated, modified, failed := 0, 0, mapModifiedTx, failedTx;
      if !packageFits || !final {
        if iter in modified {
          Dropped(pool, inBlock, txBlackList, mapModifiedTx, failedTx, iter);
          modified := modified - {iter};
          failed := failed + {iter};
        }
        return;
      }
      var ancestors := FindPackage(iter);
      PackageInPool(pool, inBlock, iter);
      updated, modified := IncludePackage(iter, ancestors, mapModifiedTx, failedTx);
      SettledNext(pool, params, old(counters), counters, old(inBlock), inBlock, txBlackList, before, done,
                  mapModifiedTx.Keys, modified.Keys, iter, ancestors);
      selected := 1;
    }

    method FindPackage(iter: TxId) returns (ancestors: set<TxId>)
      requires WellFormed(pool) && iter < |pool| && iter !in inBlock
      ensures ancestors == Package(pool, inBlock, iter)
    {
      ancestors := CalculateAncestors(pool, iter);
      ancestors := OnlyUnconfirmed(ancestors);
      ancestors := ancestors + {iter};
    }

    predicate SkipMapTxEntry(it: TxId, mapModifiedTx: map<TxId, int>, failedTx: set<TxId>) reads this {
      it in mapModifiedTx || it in inBlock || it in failedTx || it in txBlackList
    }

    /** The first call of UpdatePackagesForAdded, for what is already in the block. */
    method StartModified() returns (nDescendantsUpdated: nat, modified: map<TxId, int>)
      requires Valid()
      ensures ModifiedOk(pool, inBlock, Openings(pool, inBlock, txBlackList), modified, {})
    {
      hide Assembled, CachesRight, ParentsFirst;
      StartOk(pool, params, vtx, inBlock, txBlackList, counters);
      hide ModifiedOk;
      nDescendantsUpdated, modified := UpdatePackagesForAdded(pool, inBlock, txBlackList, inBlock, map[], {});
    }
  }

  /** What has been passed in the order is listed, in the block, in the modified map, or over a limit. */
  ghost predicate Settled(pool: Pool, c: Params, n: Counters, block: set<TxId>, black: set<TxId>, done: seq<TxId>,
                          modified: set<TxId>) {
    forall t :: t in done && t < |pool| ==> t in black || t in block || t in modified || !TryAdd(c, n, pool[t]).0
  }

  lemma NoneSettled(pool: Pool, c: Params, n: Counters, block: set<TxId>, black: set<TxId>, modified: set<TxId>)
    ensures Settled(pool, c, n, block, black, [], modified)
  {
  }

  lemma SettledSkip(pool: Pool, c: Params, n: Counters, block: set<TxId>, black: set<TxId>, order: seq<TxId>, mi: nat,
                    modified: set<TxId>, failed: set<TxId>)
    requires mi < |order|
    requires order[mi] in modified || order[mi] in block || order[mi] in failed || order[mi] in black
    ensures failed == {} && Settled(pool, c, n, block, black, order[..mi], modified) ==>
      Settled(pool, c, n, block, black, order[..mi + 1], modified)
  {
    hide TryAdd;
    assert order[..mi + 1] == order[..mi] + [order[mi]];
  }

  lemma SettledNext(pool: Pool, c: Params, was: Counters, n: Counters, b: set<TxId>, block: set<TxId>,
                    black: set<TxId>, before: seq<TxId>, done: seq<TxId>, modified: set<TxId>, after: set<TxId>,
                    iter: TxId, package: set<TxId>)
    requires done == before || done == before + [iter]
    requires Grown(was, n) && b <= block && modified - package <= after && iter < |pool|
    requires (forall t :: t in package ==> t in block || t == iter) && (iter in block || !TryAdd(c, n, pool[iter]).0)
    ensures Settled(pool, c, was, b, black, before, modified) ==> Settled(pool, c, n, block, black, done, after)
  {
    hide TryAdd, Grown;
    forall t: TxId | t < |pool| && !TryAdd(c, was, pool[t]).0 ensures !TryAdd(c, n, pool[t]).0 {
      StaysDown(c, was, n, pool[t]);
    }
  }

  lemma AllSettled(pool: Pool, c: Params, n: Counters, block: set<TxId>, black: set<TxId>, order: seq<TxId>)
    requires Settled(pool, c, n, block, black, order[..|order|], {}) && forall t :: t in order ==> t < |pool|
    ensures forall t :: t in order && t !in black ==> t in block || !TryAdd(c, n, pool[t]).0
  {
    hide TryAdd;
    assert order[..|order|] == order;
  }

  lemma NoneLostYet(pool: Pool, c: Params, n: Counters, black: set<TxId>, vec: seq<TxId>)
    requires forall t: TxId :: t in vec <==> t < |pool| && t !in black
    ensures NoneLost(pool, c, n, {}, black, vec, {}) && WaitsForParent(pool, {}, {})
  {
  }

  lemma OneWaits(pool: Pool, c: Params, n: Counters, block: set<TxId>, black: set<TxId>, was: seq<TxId>,
                 vec: seq<TxId>, wait: set<TxId>, iter: TxId)
    requires (forall t :: t in was ==> t in vec || t == iter) && WaitsForParent(pool, block, wait)
    requires iter < |pool| && exists p :: p in pool[iter].parents && p !in block
    ensures WaitsForParent(pool, block, wait + {iter})
    ensures NoneLost(pool, c, n, block, black, was, wait) ==> NoneLost(pool, c, n, block, black, vec, wait + {iter})
  {
  }

  lemma OneIsOver(pool: Pool, c: Params, n: Counters, block: set<TxId>, black: set<TxId>, was: seq<TxId>,
                  vec: seq<TxId>, wait: set<TxId>, iter: TxId)
    requires (forall t :: t in was ==> t in vec || t == iter) && iter < |pool| && OverLimit(pool, c, n, iter)
    ensures NoneLost(pool, c, n, block, black, was, wait) ==> NoneLost(pool, c, n, block, black, vec, wait)
  {
  }

  lemma OneJoins(pool: Pool, c: Params, was: Counters, n: Counters, block: set<TxId>, black: set<TxId>,
                 vec: seq<TxId>, wait: set<TxId>, vec2: seq<TxId>, wait2: set<TxId>, iter: TxId)
    requires Grown(was, n) && iter in block
    requires (forall t :: t in vec || t in wait ==> t == iter || t in vec2 || t in wait2)
    requires wait2 == wait - Children(pool, iter) && WaitsForParent(pool, block - {iter}, wait)
    ensures WaitsForParent(pool, block, wait2)
    ensures NoneLost(pool, c, was, block - {iter}, black, vec, wait) ==> NoneLost(pool, c, n, block, black, vec2, wait2)
  {
    hide OverLimit;
    StaysOver(pool, c, was, n);
    forall t | t in wait2 ensures t < |pool| && exists p :: p in pool[t].parents && p !in block {
      assert t in wait;
      var p :| p in pool[t].parents && p !in block - {iter};
      assert p != iter;
    }
  }

  lemma AllPlaced(pool: Pool, c: Params, n: Counters, block: set<TxId>, black: set<TxId>, wait: set<TxId>)
    requires BlacklistOk(pool, black) && QueueOk(pool, block, black, [], wait)
    requires NoneLost(pool, c, n, block, black, [], wait) && WaitsForParent(pool, block, wait)
    ensures forall t: TxId :: t < |pool| && t !in black ==> t in block || OverLimit(pool, c, n, t)
  {
    hide OverLimit, BlacklistOk, QueueOk, WaitsForParent;
    forall t: TxId | t < |pool| && t !in black ensures t in block || OverLimit(pool, c, n, t) {
      NoneWaits(pool, c, n, block, black, wait, t);
    }
  }

  lemma PackageInPool(pool: Pool, block: set<TxId>, iter: TxId)
    requires WellFormed(pool) && iter < |pool|
    ensures Package(pool, block, iter) <= Openings(pool, {}, {})
  {
  }

  lemma StartOk(pool: Pool, c: Params, vtx: seq<BlockTx>, block: set<TxId>, black: set<TxId>, n: Counters)
    requires CachesRight(pool) && Assembled(pool, c, vtx, block, black, n)
    ensures block - block == {} && block + block == block
    ensures forall t :: t in block ==> t < |pool|
    ensures ModifiedOk(pool, {}, Openings(pool, block, black), map[], {})
  {
  }

  /** An entry that is open, or in the modified map, has not been chosen yet, and its known size is not too small. */
  lemma OpenEntry(pool: Pool, block: set<TxId>, black: set<TxId>, modified: map<TxId, int>, failed: set<TxId>,
                  iter: TxId)
    requires CachesRight(pool) && ModifiedOk(pool, block, Openings(pool, block, black), modified, failed)
    requires iter in modified || Open(pool, block, black, iter)
    ensures Open(pool, block, black, iter)
    ensures var size := if iter in modified then modified[iter] else pool[iter].nSizeWithAncestors;
      size >= TotalSize(pool, Package(pool, block, iter))
  {
    assert iter in Openings(pool, block, black);
    ModifiedSound(pool, block, Openings(pool, block, black), modified, failed, iter);
  }

  lemma Dropped(pool: Pool, block: set<TxId>, black: set<TxId>, modified: map<TxId, int>, failed: set<TxId>, iter: TxId)
    requires WellFormed(pool) && ModifiedOk(pool, block, Openings(pool, block, black), modified, failed)
    ensures ModifiedOk(pool, block, Openings(pool, block, black), modified - {iter}, failed + {iter})
  {
    forall d | d in Openings(pool, block, black) ensures SizeOk(pool, block, d, modified - {iter}, failed + {iter}) {
      assert SizeOk(pool, block, d, modified, failed);
    }
  }

  /** In a package sorted by ancestor counts the parents of each transaction come before it or are in the block. */
  lemma PackageOrdered(pool: Pool, b: set<TxId>, black: set<TxId>, iter: TxId, sorted: seq<TxId>, i: nat)
    requires CachesRight(pool) && BlacklistOk(pool, black) && Open(pool, b, black, iter)
    requires Distinct(sorted) && SortedBy((t: TxId) => if t < |pool| then pool[t].nCountWithAncestors else 0, sorted)
    requires forall t :: t in sorted <==> t in Package(pool, b, iter)
    requires i < |sorted|
    ensures sorted[i] < |pool| && sorted[i] !in b && sorted[i] !in sorted[..i] && sorted[i] !in black
    ensures forall p :: p in pool[sorted[i]].parents ==> p in b || (p in sorted[..i] && p != iter)
    ensures sorted[i] != iter ==> !IsPrivate(pool[sorted[i]])
  {
    var t := sorted[i];
    assert t in sorted;
    if t != iter {
      AncestorBelow(pool, t, iter);
      if t in black {
        ClosedDownHolds(pool, black, t, iter);
      }
    }
    forall p | p in pool[t].parents ensures p in b || (p in sorted[..i] && p != iter) {
      ParentsReached(pool, iter, t);
      assert IsAncestor(pool, p, iter);
      AncestorBelow(pool, p, iter);
      if p !in b {
        assert p in sorted;
        ParentIsAncestor(pool, p, t);
        CountGrows(pool, p, t);
        var j :| 0 <= j < |sorted| && sorted[j] == p;
        assert j < i;
        assert sorted[..i][j] == p;
      }
    }
  }

  /** What UpdatePackagesForAdded needs to know after a package has been put into the block. */
  lemma Included(pool: Pool, block: set<TxId>, black: set<TxId>, b: set<TxId>, iter: TxId, modified: map<TxId, int>,
                 failed: set<TxId>)
    requires CachesRight(pool) && BlacklistOk(pool, black) && Open(pool, b, black, iter) && ClosedUp(pool, b)
    requires b <= block && (forall t :: t in block ==> t in b || t in Package(pool, b, iter))
    requires forall t :: t in Package(pool, b, iter) ==> t in block || (t == iter && IsPrivate(pool[t]))
    requires ModifiedOk(pool, b, Openings(pool, b, black), modified, failed)
    ensures ClosedDown(pool, black)
    ensures var package := Package(pool, b, iter);
      && (forall t :: t in package ==> t < |pool| && (t in block || Descendants(pool, t) <= black))
      && (forall t, d :: t in package && d in block && IsAncestor(pool, t, d) ==> d in package)
      && ModifiedOk(pool, block - package, Openings(pool, block + package, black), modified - package, failed)
      && (block == b ==> package == {iter} && Descendants(pool, iter) <= black)
  {
    hide ModifiedOk;
    var package := Package(pool, b, iter);
    forall t, d | t in package && d in block && IsAncestor(pool, t, d) ensures d in package {
      if d in b {
        ClosedUpHolds(pool, b, t, d);
      }
    }
    assert block - package == b;
    Narrowed(pool, b, black, block + package, package, modified, failed);
  }

  lemma Narrowed(pool: Pool, b: set<TxId>, black: set<TxId>, taken: set<TxId>, package: set<TxId>,
                 modified: map<TxId, int>, failed: set<TxId>)
    requires WellFormed(pool) && ModifiedOk(pool, b, Openings(pool, b, black), modified, failed)
    requires b <= taken && package <= taken && forall t :: t in taken ==> t in b || t in package
    ensures ModifiedOk(pool, b, Openings(pool, taken, black), modified - package, failed)
  {
    forall d | d in Openings(pool, taken, black) ensures SizeOk(pool, b, d, modified - package, failed) {
      assert d in Openings(pool, b, black);
      assert SizeOk(pool, b, d, modified, failed);
    }
  }

  /** A private spend that was turned down stays open, with all its ancestors in the block. */
  lemma Reopened(pool: Pool, block: set<TxId>, black: set<TxId>, b: set<TxId>, iter: TxId, modified: map<TxId, int>,
                 failed: set<TxId>)
    requires CachesRight(pool) && Open(pool, b, black, iter)
    requires b <= block && (forall t :: t in Package(pool, b, iter) ==> t in block || t == iter)
    requires ModifiedOk(pool, block, Openings(pool, block + Package(pool, b, iter), black), modified, failed)
    ensures ModifiedOk(pool, block, Openings(pool, block, black), modified, failed)
  {
    var package := Package(pool, b, iter);
    forall d | d in Openings(pool, block, black) ensures SizeOk(pool, block, d, modified, failed) {
      if d == iter {
        assert Ancestors(pool, iter) <= block by {
          assert !IsAncestor(pool, iter, iter) by {
            if IsAncestor(pool, iter, iter) {
              AncestorBelow(pool, iter, iter);
            }
          }
        }
      } else {
        assert d in Openings(pool, block + package, black);
      }
    }
  }

  lemma OnlySpecials(pool: Pool, vtx: seq<BlockTx>)
    requires forall k :: 0 <= k < |vtx| ==> vtx[k] == Special
    ensures ParentsFirst(pool, vtx) && (forall k :: TotalAmount(pool, k, vtx) == 0) && TotalInputs(pool, vtx) == 0
  {
    if vtx != [] {
      OnlySpecials(pool, vtx[..|vtx| - 1]);
    }
  }

  // ---------------------------------------------------------------------------------------------
  // The whole template

  datatype Sporks = Sporks(forbidden: set<TxId>, limitLelantus: bool, lelantusLimit: nat, limitSpark: bool,
                           sparkLimit: nat)

  /**
  The spends of a kind cut down to a limit, and no further than that: only such spends are listed, the
  largest ones, and each of them is too much for what is left.
  */
  ghost predicate CutTo(pool: Pool, k: Kind, was: set<TxId>, r: set<TxId>, limit: nat) {
    && was <= r && WithinSpork(pool, k, r, limit)
    && forall t :: t in r && t !in was ==> t in Unlisted(pool, k, was) && TooMuch(pool, k, r, limit, t)
  }

  ghost predicate TooMuch(pool: Pool, k: Kind, r: set<TxId>, limit: nat, t: TxId) {
    && (forall s :: s in Unlisted(pool, k, r) ==> Amounts(pool, k)(s) <= Amounts(pool, k)(t))
    && SetSum(Amounts(pool, k), Unlisted(pool, k, r), |pool|) + Amounts(pool, k)(t) > limit
  }

  /** The blacklist before the spork limits: what is kept out, what is forbidden and what depends on that. */
  ghost predicate Ruled(pool: Pool, forbidden: set<TxId>, t: TxId)
    requires WellFormed(pool)
  {
    KeptOut(pool, t) || UnderAny(pool, forbidden, t)
  }

  /** What FillBlackListForBlockTemplate lists, exactly: first is the list before the limits, mid between them. */
  ghost predicate BlackIs(pool: Pool, sporks: Sporks, first: set<TxId>, mid: set<TxId>, black: set<TxId>)
    requires WellFormed(pool)
  {
    && (forall t :: t in first <==> Ruled(pool, sporks.forbidden, t))
    && (if sporks.limitLelantus then CutTo(pool, Lelantus, first, mid, sporks.lelantusLimit) else mid == first)
    && (if sporks.limitSpark then CutTo(pool, Spark, mid, black, sporks.sparkLimit) else black == mid)
  }

  method FillBlackListForBlockTemplate(pool: Pool, sporks: Sporks)
    returns (black: set<TxId>, ghost first: set<TxId>, ghost mid: set<TxId>)
    requires WellFormed(pool)
    ensures BlacklistOk(pool, black) && BlackIs(pool, sporks, first, mid, black)
  {
    hide BlacklistOk, CutTo, KeptOut, UnderAny;
    black := BlacklistDependents(pool);
    black := BlacklistForbidden(pool, black, sporks.forbidden);
    first := black;
    if sporks.limitLelantus {
      black := LimitSpends(pool, Lelantus, black, sporks.lelantusLimit);
    }
    mid := black;
    if sporks.limitSpark {
      black := LimitSpends(pool, Spark, black, sporks.sparkLimit);
    }
  }

  /** What the blacklist does: each limit is kept, and only spends over an active limit are listed without a rule. */
  lemma BlackMeans(pool: Pool, sporks: Sporks, first: set<TxId>, mid: set<TxId>, black: set<TxId>)
    requires WellFormed(pool) && BlackIs(pool, sporks, first, mid, black)
    ensures sporks.limitLelantus ==> WithinSpork(pool, Lelantus, black, sporks.lelantusLimit)
    ensures sporks.limitSpark ==> WithinSpork(pool, Spark, black, sporks.sparkLimit)
    ensures forall t :: Ruled(pool, sporks.forbidden, t) ==> t in black
    ensures forall t :: t in black ==>
      || Ruled(pool, sporks.forbidden, t)
      || (t < |pool| && sporks.limitLelantus && pool[t].isLelantusJoinSplit)
      || (t < |pool| && sporks.limitSpark && pool[t].isSparkSpend)
  {
    hide WithinSpork, Ruled, TooMuch;
    MoreBlack(pool, Lelantus, mid, sporks.lelantusLimit);
    assert mid <= black;
  }

  /** The call of BlacklistTxsExceedingLimit for one kind of spends. */
  method LimitSpends(pool: Pool, k: Kind, black: set<TxId>, limit: nat) returns (r: set<TxId>)
    requires BlacklistOk(pool, black)
    ensures BlacklistOk(pool, r) && CutTo(pool, k, black, r, limit)
  {
    hide BlacklistOk, CutTo, UnderAny, SumOf, SortedBy;
    var list, kept;
    r, list, kept := BlacklistTxsExceedingLimit(pool, black, limit, (tx: Tx) => IsOf(k, tx), Amounts(pool, k));
    assert forall i :: 0 <= i < |list| ==> list[i] in list;
    CutExact(pool, k, black, r, limit, list, kept);
  }

  /** Since what depends on a spend is listed already, exactly the rest of the list joins it. */
  lemma RestOnly(pool: Pool, k: Kind, black: set<TxId>, r: set<TxId>, list: seq<TxId>, kept: nat)
    requires BlacklistOk(pool, black) && kept <= |list| && Distinct(list)
    requires forall t: TxId :: t in list <==> t in Unlisted(pool, k, black)
    requires forall t :: t in r <==> t in black || UnderAny(pool, Members(list[kept..]), t)
    ensures forall t :: t in r <==> t in black || t in list[kept..]
    ensures Unlisted(pool, k, r) == Members(list[..kept])
  {
    hide BlacklistOk, UnderAny;
    var rest := Members(list[kept..]);
    TwoParts(list, kept);
    forall t ensures t in r <==> t in black || t in list[kept..] {
      JustTheSpend(pool, k, black, rest, t);
    }
    assert forall t :: t in Unlisted(pool, k, r) <==> t in list && t !in list[kept..];
  }

  lemma TwoParts(list: seq<TxId>, kept: nat)
    requires Distinct(list) && kept <= |list|
    ensures forall t :: t in list[kept..] ==> t in list
    ensures forall t :: t in list[..kept] <==> t in list && t !in list[kept..]
  {
    assert list == list[..kept] + list[kept..];
  }

  lemma JustTheSpend(pool: Pool, k: Kind, black: set<TxId>, rest: set<TxId>, t: TxId)
    requires BlacklistOk(pool, black) && rest <= Unlisted(pool, k, black)
    ensures t in black || UnderAny(pool, rest, t) <==> t in black || t in rest
  {
    if t in rest {
      UnderItself(pool, rest, t);
    }
    if t !in black && UnderAny(pool, rest, t) {
      var a :| a in rest && a < |pool| && Under(pool, a, t);
      assert IsPrivate(pool[a]);
    }
  }

  lemma CutExact(pool: Pool, k: Kind, black: set<TxId>, r: set<TxId>, limit: nat, list: seq<TxId>, kept: nat)
    requires BlacklistOk(pool, black) && kept <= |list| && Distinct(list) && SortedBy(Amounts(pool, k), list)
    requires forall t: TxId :: t in list <==> t in Unlisted(pool, k, black)
    requires forall t :: t in r <==> t in black || UnderAny(pool, Members(list[kept..]), t)
    requires SumOf(Amounts(pool, k), list[..kept]) <= limit
    requires kept < |list| ==> SumOf(Amounts(pool, k), list[..kept + 1]) > limit
    ensures CutTo(pool, k, black, r, limit)
  {
    hide BlacklistOk, UnderAny, SumOf, Unlisted, Amounts;
    RestOnly(pool, k, black, r, list, kept);
    assert forall i :: 0 <= i < |list| ==> list[i] in list;
    UnlistedBelow(pool, k, black);
    ListSum(Amounts(pool, k), list[..kept], |pool|);
    forall t | t in r && t !in black ensures t in Unlisted(pool, k, black) && TooMuch(pool, k, r, limit, t) {
      var i :| 0 <= i < |list[kept..]| && list[kept..][i] == t;
      assert list[kept + i] == t;
      NextTooMuch(Amounts(pool, k), list, kept);
    }
  }

  lemma UnlistedBelow(pool: Pool, k: Kind, black: set<TxId>)
    ensures forall t :: t in Unlisted(pool, k, black) ==> t < |pool|
  {
  }

  lemma NextTooMuch(amount: TxId -> nat, list: seq<TxId>, kept: nat)
    requires kept < |list|
    ensures SumOf(amount, list[..kept + 1]) == SumOf(amount, list[..kept]) + amount(list[kept])
  {
    assert list[..kept + 1][..kept] == list[..kept];
  }

  lemma MoreBlack(pool: Pool, k: Kind, was: set<TxId>, limit: nat)
    ensures WithinSpork(pool, k, was, limit) ==> forall black :: was <= black ==> WithinSpork(pool, k, black, limit)
  {
    forall black | was <= black ensures WithinSpork(pool, k, was, limit) ==> WithinSpork(pool, k, black, limit) {
      SetSumMonotone(Amounts(pool, k), Unlisted(pool, k, black), Unlisted(pool, k, was), |pool|);
    }
  }

  /**
  The mempool part of CreateNewBlock.  Whatever the fees, priorities and sizes: every transaction at
  most once and after its parents; nothing that the blacklist names, and it names nothing without a
  rule; spends of either kind within their spork's limit; and the block passes the check of Spark spends
  and, since the pool accepts no join-split with too many inputs, that of Lelantus spends.  If fees,
  sizes and finality do not stand in the way, everything else is in the block: every transaction that is
  not a private spend and, with room for all spends, every spend.
  */
  method CreateNewBlock(pool: Pool, params: Params, commitments: nat, sporks: Sporks, order: seq<TxId>, ch: Choices)
    returns (vtx: seq<BlockTx>, ghost first: set<TxId>, ghost mid: set<TxId>, ghost black: set<TxId>)
    requires CachesRight(pool) && forall t :: t in order ==> t < |pool|
    ensures ParentsFirst(pool, vtx) && Extends(seq(commitments + 1, _ => Special), vtx)
    ensures forall s, d :: 0 <= s < |pool| && IsPrivate(pool[s]) && IsAncestor(pool, s, d) ==> FromPool(d) !in vtx
    ensures BlackIs(pool, sporks, first, mid, black) && forall t :: t in black ==> FromPool(t) !in vtx
    ensures forall t: TxId :: Ruled(pool, sporks.forbidden, t) ==> FromPool(t) !in vtx
    ensures Unhindered(ch) && (forall t: TxId :: t < |pool| ==> t in order) ==>
      forall t: TxId :: t < |pool| && t !in black && (IsPrivate(pool[t]) ==> Roomy(pool, params)) ==>
        FromPool(t) in vtx
    ensures sporks.limitLelantus ==> TotalAmount(pool, Lelantus, vtx) <= sporks.lelantusLimit
    ensures sporks.limitSpark ==> TotalAmount(pool, Spark, vtx) <= sporks.sparkLimit
    ensures SparkOk(pool, params, vtx)
    ensures TotalsOk(pool, params, vtx) && (InputsAccepted(pool, params) ==> LelantusOk(pool, params, vtx))
  {
    hide BlackIs, Ruled, Assembled, BlacklistOk, Unhindered, Roomy, TryAdd, CachesRight, OverLimit;
    CachesWellFormed(pool);
    var list;
    list, first, mid := FillBlackListForBlockTemplate(pool, sporks);
    black := list;
    BlackMeans(pool, sporks, first, mid, black);
    var assembler := new BlockAssembler(pool, params, commitments, list);
    assembler.AddPriorityTxs(ch);
    var selected, updated := assembler.AddPackageTxs(order, ch);
    vtx := assembler.vtx;
    Finished(pool, params, vtx, assembler.inBlock, black, assembler.counters);
    Filled(pool, params, vtx, assembler.inBlock, black, assembler.counters);
    if sporks.limitLelantus {
      WithinSporkBlock(pool, Lelantus, params, vtx, assembler.inBlock, black, assembler.counters, sporks.lelantusLimit);
    }
    if sporks.limitSpark {
      WithinSporkBlock(pool, Spark, params, vtx, assembler.inBlock, black, assembler.counters, sporks.sparkLimit);
    }
  }

  /** Only a private spend is ever turned down, and none if there is room for all. */
  lemma Filled(pool: Pool, c: Params, vtx: seq<BlockTx>, inBlock: set<TxId>, black: set<TxId>, n: Counters)
    requires Assembled(pool, c, vtx, inBlock, black, n)
    ensures forall t: TxId :: t < |pool| && (t in inBlock || !TryAdd(c, n, pool[t]).0) ==>
      FromPool(t) in vtx || (IsPrivate(pool[t]) && !Roomy(pool, c))
  {
    hide TryAdd, Roomy, Exact, ParentsFirst, WithinLimits;
    forall t: TxId | t < |pool| && (t in inBlock || !TryAdd(c, n, pool[t]).0)
      ensures FromPool(t) in vtx || (IsPrivate(pool[t]) && !Roomy(pool, c))
    {
      if t !in inBlock {
        StaysDown(c, n, n, pool[t]);
        if Roomy(pool, c) && FromPool(t) !in vtx {
          RoomForIt(pool, c, vtx, n, t);
        }
      }
    }
  }

  lemma PoolPasses(pool: Pool, c: Params, vtx: seq<BlockTx>)
    requires InputsAccepted(pool, c) && TotalsOk(pool, c, vtx)
    ensures LelantusOk(pool, c, vtx)
  {
  }

  lemma Finished(pool: Pool, c: Params, vtx: seq<BlockTx>, inBlock: set<TxId>, black: set<TxId>, n: Counters)
    requires BlacklistOk(pool, black) && Assembled(pool, c, vtx, inBlock, black, n)
    ensures ParentsFirst(pool, vtx)
    ensures forall t :: t in black ==> FromPool(t) !in vtx
    ensures forall s, d :: 0 <= s < |pool| && IsPrivate(pool[s]) && IsAncestor(pool, s, d) ==> FromPool(d) !in vtx
    ensures forall t: TxId :: FromPool(t) in vtx ==> t < |pool|
    ensures SparkOk(pool, c, vtx)
    ensures TotalsOk(pool, c, vtx) && (InputsAccepted(pool, c) ==> LelantusOk(pool, c, vtx))
  {
    hide LelantusOk, SparkOk, TotalsOk, TotalAmount, TotalInputs;
    if InputsAccepted(pool, c) {
      PoolPasses(pool, c, vtx);
    }
  }

  lemma WithinSporkBlock(pool: Pool, k: Kind, c: Params, vtx: seq<BlockTx>, inBlock: set<TxId>, black: set<TxId>,
                         n: Counters, limit: nat)
    requires Assembled(pool, c, vtx, inBlock, black, n) && WithinSpork(pool, k, black, limit)
    ensures TotalAmount(pool, k, vtx) <= limit
  {
    BlockSum(pool, k, vtx);
    assert Spends(pool, k, vtx) <= Unlisted(pool, k, black);
    SetSumMonotone(Amounts(pool, k), Spends(pool, k, vtx), Unlisted(pool, k, black), |pool|);
  }
}
