/**
The dependency graph of the memory pool (src/txmempool.cpp), as far as block assembly needs it: the
searches for ancestors and descendants, and the counts and sizes the entries carry.
*/
module Mempool {
  import opened Basics

  type TxId = nat

  datatype Tx = Tx(
    parents: set<TxId>, size: nat, nCountWithAncestors: nat, nSizeWithAncestors: nat,
    isLelantusJoinSplit: bool, lelantusAmount: nat, lelantusInputs: nat,
    isSparkSpend: bool, sparkAmount: nat,
    collateralTaken: bool, collateralSpent: bool)

  /**
  The pool's transactions, named so that every parent has a smaller number; any finite acyclic pool has such
  names.
  */
  type Pool = seq<Tx>

  ghost predicate WellFormed(pool: Pool) {
    forall t, p :: 0 <= t < |pool| && p in pool[t].parents ==> p < t
  }

  function Children(pool: Pool, t: TxId): set<TxId> {
    set c | 0 <= c < |pool| && t in pool[c].parents
  }

  /** t depends on a, directly or not. */
  ghost predicate IsAncestor(pool: Pool, a: TxId, t: TxId)
    requires WellFormed(pool)
    decreases t
  {
    t < |pool| && exists p :: p in pool[t].parents && (p == a || IsAncestor(pool, a, p))
  }

  ghost function Ancestors(pool: Pool, t: TxId): set<TxId>
    requires WellFormed(pool)
  {
    set a | 0 <= a < |pool| && IsAncestor(pool, a, t)
  }

  ghost function Descendants(pool: Pool, t: TxId): set<TxId>
    requires WellFormed(pool)
  {
    set d | 0 <= d < |pool| && IsAncestor(pool, t, d)
  }

  lemma {:induction false} AncestorBelow(pool: Pool, a: TxId, t: TxId)
    requires WellFormed(pool) && IsAncestor(pool, a, t)
    ensures a < t < |pool|
    decreases t
  {
    var p :| p in pool[t].parents && (p == a || IsAncestor(pool, a, p));
    if p != a {
      AncestorBelow(pool, a, p);
    }
  }

  lemma {:induction false} AncestorTransitive(pool: Pool, a: TxId, b: TxId, c: TxId)
    requires WellFormed(pool) && IsAncestor(pool, a, b) && IsAncestor(pool, b, c)
    ensures IsAncestor(pool, a, c)
    decreases c
  {
    var p :| p in pool[c].parents && (p == b || IsAncestor(pool, b, p));
    if p != b {
      AncestorTransitive(pool, a, b, p);
    }
  }

  lemma ParentIsAncestor(pool: Pool, p: TxId, t: TxId)
    requires WellFormed(pool) && t < |pool| && p in pool[t].parents
    ensures IsAncestor(pool, p, t)
  {
  }

  // ---------------------------------------------------------------------------------------------
  // Closed sets

  /** Holds every child of every member. */
  ghost predicate ClosedDown(pool: Pool, s: set<TxId>) {
    forall x, c :: x in s && c in Children(pool, x) ==> c in s
  }

  /** Holds every parent of every member. */
  ghost predicate ClosedUp(pool: Pool, s: set<TxId>) {
    forall x, p :: x in s && x < |pool| && p in pool[x].parents ==> p in s
  }

  lemma {:induction false} ClosedDownHolds(pool: Pool, s: set<TxId>, a: TxId, d: TxId)
    requires WellFormed(pool) && ClosedDown(pool, s) && a in s && IsAncestor(pool, a, d)
    ensures d in s
    decreases d
  {
    var p :| p in pool[d].parents && (p == a || IsAncestor(pool, a, p));
    if p != a {
      ClosedDownHolds(pool, s, a, p);
    }
    assert d in Children(pool, p);
  }

  lemma {:induction false} ClosedUpHolds(pool: Pool, s: set<TxId>, a: TxId, d: TxId)
    requires WellFormed(pool) && ClosedUp(pool, s) && d in s && IsAncestor(pool, a, d)
    ensures a in s
    decreases d
  {
    var p :| p in pool[d].parents && (p == a || IsAncestor(pool, a, p));
    if p != a {
      ClosedUpHolds(pool, s, a, p);
    }
  }

  /** Adds an entry and its descendants to a set, walking only children that are not in it yet. */
  method CalculateDescendants(pool: Pool, entry: TxId, setDescendants: set<TxId>) returns (r: set<TxId>)
    requires WellFormed(pool) && entry < |pool|
    requires ClosedDown(pool, setDescendants)
    ensures r == setDescendants + {entry} + Descendants(pool, entry) && ClosedDown(pool, r)
  {
    r := setDescendants;
    var stage := {};
    if entry !in r {
      stage := {entry};
    }
    ghost var reach := {entry} + Descendants(pool, entry);
    while stage != {}
      invariant setDescendants <= r <= setDescendants + reach && stage <= reach && stage !! r
      invariant entry in r + stage
      invariant forall x, c :: x in r && c in Children(pool, x) ==> c in r || c in stage
      decreases setDescendants + reach - r
    {
      var it :| it in stage;
      r := r + {it};
      stage := stage - {it};
      ChildrenReached(pool, entry, it);
      stage := stage + set c | c in Children(pool, it) && c !in r;
    }
    forall d | d in reach ensures d in r {
      if d != entry {
        ClosedDownHolds(pool, r, entry, d);
      }
    }
  }

  lemma ChildrenReached(pool: Pool, e: TxId, t: TxId)
    requires WellFormed(pool) && (t == e || IsAncestor(pool, e, t))
    ensures Children(pool, t) <= Descendants(pool, e)
  {
    forall c | c in Children(pool, t) ensures IsAncestor(pool, e, c) {
      ParentIsAncestor(pool, t, c);
      if t != e {
        AncestorTransitive(pool, e, t, c);
      }
    }
  }

  lemma ParentsReached(pool: Pool, e: TxId, t: TxId)
    requires WellFormed(pool) && e < |pool| && (t == e || IsAncestor(pool, t, e))
    ensures t < |pool| && pool[t].parents <= Ancestors(pool, e)
  {
    if t != e {
      AncestorBelow(pool, t, e);
    }
    forall p | p in pool[t].parents ensures p < |pool| && IsAncestor(pool, p, e) {
      ParentIsAncestor(pool, p, t);
      if t != e {
        AncestorTransitive(pool, p, t, e);
      }
    }
  }

  /** CalculateMemPoolAncestors, for an entry of the pool and without limits. */
  method CalculateAncestors(pool: Pool, entry: TxId) returns (setAncestors: set<TxId>)
    requires WellFormed(pool) && entry < |pool|
    ensures setAncestors == Ancestors(pool, entry)
  {
    setAncestors := {};
    var parentHashes := pool[entry].parents;
    ghost var reach := Ancestors(pool, entry);
    ParentsReached(pool, entry, entry);
    while parentHashes != {}
      invariant setAncestors <= reach && parentHashes <= reach && parentHashes !! setAncestors
      invariant pool[entry].parents <= setAncestors + parentHashes
      invariant forall x, p :: x in setAncestors && p in pool[x].parents ==> p in setAncestors || p in parentHashes
      decreases reach - setAncestors
    {
      var stageit :| stageit in parentHashes;
      setAncestors := setAncestors + {stageit};
      parentHashes := parentHashes - {stageit};
      ParentsReached(pool, entry, stageit);
      parentHashes := parentHashes + set p | p in pool[stageit].parents && p !in setAncestors;
    }
    forall a | a in reach ensures a in setAncestors {
      var p :| p in pool[entry].parents && (p == a || IsAncestor(pool, a, p));
      if p != a {
        ClosedUpHolds(pool, setAncestors, a, p);
      }
    }
  }

  // ---------------------------------------------------------------------------------------------
  // Counts and sizes

  /** The counts and sizes that the entries cache are right. */
  ghost predicate CachesRight(pool: Pool) {
    && WellFormed(pool)
    && forall t :: 0 <= t < |pool| ==>
         && pool[t].nCountWithAncestors == |Ancestors(pool, t)| + 1
         && pool[t].nSizeWithAncestors == TotalSize(pool, Ancestors(pool, t) + {t})
  }

  lemma CachesWellFormed(pool: Pool)
    requires CachesRight(pool)
    ensures WellFormed(pool)
  {
  }

  /** Sorting by this count puts parents first. */
  lemma CountGrows(pool: Pool, a: TxId, t: TxId)
    requires CachesRight(pool) && IsAncestor(pool, a, t)
    ensures a < |pool| && t < |pool| && pool[a].nCountWithAncestors < pool[t].nCountWithAncestors
  {
    AncestorBelow(pool, a, t);
    var upper := Ancestors(pool, a) + {a};
    forall x | x in upper ensures x in Ancestors(pool, t) {
      if x != a {
        AncestorTransitive(pool, x, a, t);
      }
    }
    assert a !in Ancestors(pool, a) by {
      if IsAncestor(pool, a, a) {
        AncestorBelow(pool, a, a);
      }
    }
    SubsetSize(upper, Ancestors(pool, t));
  }

  /** The total size of the transactions below n that are in s. */
  ghost function SizeBelow(pool: Pool, s: set<TxId>, n: nat): nat
    requires n <= |pool|
  {
    if n == 0 then 0
    else
      var t: TxId := n - 1;
      SizeBelow(pool, s, t) + if t in s then pool[t].size else 0
  }

  ghost function TotalSize(pool: Pool, s: set<TxId>): nat {
    SizeBelow(pool, s, |pool|)
  }

  lemma {:induction false} SizeWithout(pool: Pool, s: set<TxId>, x: TxId, n: nat)
    requires n <= |pool|
    ensures SizeBelow(pool, s, n) == SizeBelow(pool, s - {x}, n) + if x in s && x < n then pool[x].size else 0
  {
    if n > 0 {
      SizeWithout(pool, s, x, n - 1);
    }
  }

  lemma {:induction false} SizeMonotone(pool: Pool, s: set<TxId>, r: set<TxId>, n: nat)
    requires n <= |pool| && s <= r
    ensures SizeBelow(pool, s, n) <= SizeBelow(pool, r, n)
  {
    if n > 0 {
      SizeMonotone(pool, s, r, n - 1);
    }
  }

  // ---------------------------------------------------------------------------------------------
  // Sorting

  ghost predicate Distinct(list: seq<TxId>) {
    forall j, k :: 0 <= j < k < |list| ==> list[j] != list[k]
  }

  ghost predicate SortedBy(key: TxId -> nat, list: seq<TxId>) {
    forall j, k :: 0 <= j < k < |list| ==> key(list[j]) <= key(list[k])
  }

  lemma {:induction false} MinExists(s: set<TxId>, key: TxId -> nat) returns (x: TxId)
    requires s != {}
    ensures x in s && forall y :: y in s ==> key(x) <= key(y)
  {
    x :| x in s;
    if s != {x} {
      var z := MinExists(s - {x}, key);
      if key(z) < key(x) {
        x := z;
      }
    }
  }

  /** The members of a set in the order of a key; ties come out in any order. */
  method Sort(s: set<TxId>, key: TxId -> nat) returns (list: seq<TxId>)
    ensures Distinct(list) && SortedBy(key, list) && (forall t :: t in list <==> t in s)
  {
    list := [];
    var rest := s;
    while rest != {}
      invariant rest <= s && Distinct(list) && SortedBy(key, list)
      invariant forall t :: t in list <==> t in s && t !in rest
      invariant forall k, t :: 0 <= k < |list| && t in rest ==> key(list[k]) <= key(t)
    {
      ghost var m := MinExists(rest, key);
      var x :| x in rest && forall y :: y in rest ==> key(x) <= key(y);
      list := list + [x];
      rest := rest - {x};
    }
  }
}
