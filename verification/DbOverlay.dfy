/**
A database transaction held in memory over a parent (CDBTransaction and CDBTransactionIterator,
src/dbwrapper.h:403-551, 553-702).
*/
module DbOverlay {
  import opened Basics

  type Key = seq<nat>
  type Value = nat

  /** A written value and the size of its serialization. */
  datatype Holder = Holder(value: Value, memoryUsage: nat)

  // ---------------------------------------------------------------------------------------------
  // Keys are ordered byte by byte

  predicate Less(a: Key, b: Key) {
    if b == [] then false
    else if a == [] then true
    else if a[0] != b[0] then a[0] < b[0]
    else Less(a[1..], b[1..])
  }

  lemma {:induction false} LessIrreflexive(a: Key)
    ensures !Less(a, a)
  {
    if a != [] {
      LessIrreflexive(a[1..]);
    }
  }

  lemma {:induction false} LessTotal(a: Key, b: Key)
    ensures a == b || Less(a, b) || Less(b, a)
  {
    if a != [] && b != [] && a[0] == b[0] {
      LessTotal(a[1..], b[1..]);
      if a[1..] == b[1..] {
        assert a == [a[0]] + a[1..] && b == [b[0]] + b[1..];
      }
    }
  }

  lemma {:induction false} LessTransitive(a: Key, b: Key, c: Key)
    requires Less(a, b) && Less(b, c)
    ensures Less(a, c)
  {
    if a != [] && b != [] && c != [] && a[0] == b[0] && b[0] == c[0] {
      LessTransitive(a[1..], b[1..], c[1..]);
    }
  }

  lemma LessAsymmetric(a: Key, b: Key)
    requires Less(a, b)
    ensures !Less(b, a) && a != b
  {
    LessIrreflexive(a);
    if Less(b, a) {
      LessTransitive(a, b, a);
    }
  }

  ghost predicate Sorted(keys: seq<Key>) {
    forall i, j :: 0 <= i < j < |keys| ==> Less(keys[i], keys[j])
  }

  /** The keys of a map in ascending order, as its iterator gives them. */
  ghost predicate Lists(keys: seq<Key>, s: set<Key>) {
    Sorted(keys) && forall k :: k in keys <==> k in s
  }

  // ---------------------------------------------------------------------------------------------
  // What a transaction shows, and what it weighs

  function Plain(writes: map<Key, Holder>): map<Key, Value> {
    map k | k in writes :: writes[k].value
  }

  /** The parent's entries as they will be after the commit. */
  function View(parent: map<Key, Value>, writes: map<Key, Holder>, deletes: set<Key>): map<Key, Value> {
    (parent - deletes) + Plain(writes)
  }

  lemma ViewWrite(parent: map<Key, Value>, writes: map<Key, Holder>, deletes: set<Key>, k: Key, h: Holder)
    ensures View(parent, writes[k := h], deletes - {k}) == View(parent, writes, deletes)[k := h.value]
  {
  }

  lemma ViewErase(parent: map<Key, Value>, writes: map<Key, Holder>, deletes: set<Key>, k: Key)
    ensures View(parent, writes - {k}, deletes + {k}) == View(parent, writes, deletes) - {k}
  {
  }

  ghost function WritesUsage(writes: map<Key, Holder>): nat
    decreases |writes|
  {
    if writes == map[] then 0
    else
      var k :| k in writes;
      |k| + writes[k].memoryUsage + WritesUsage(writes - {k})
  }

  ghost function DeletesUsage(deletes: set<Key>): nat
    decreases |deletes|
  {
    if deletes == {} then 0
    else
      var k :| k in deletes;
      |k| + DeletesUsage(deletes - {k})
  }

  lemma {:induction false} WritesWithout(writes: map<Key, Holder>, k: Key)
    requires k in writes
    ensures WritesUsage(writes) == |k| + writes[k].memoryUsage + WritesUsage(writes - {k})
    decreases |writes|
  {
    var x :| x in writes && WritesUsage(writes) == |x| + writes[x].memoryUsage + WritesUsage(writes - {x});
    if x != k {
      WritesWithout(writes - {x}, k);
      WritesWithout(writes - {k}, x);
      assert writes - {x} - {k} == writes - {k} - {x};
    }
  }

  lemma {:induction false} DeletesWithout(deletes: set<Key>, k: Key)
    requires k in deletes
    ensures DeletesUsage(deletes) == |k| + DeletesUsage(deletes - {k})
    decreases |deletes|
  {
    var x :| x in deletes && DeletesUsage(deletes) == |x| + DeletesUsage(deletes - {x});
    if x != k {
      DeletesWithout(deletes - {x}, k);
      DeletesWithout(deletes - {k}, x);
      assert deletes - {x} - {k} == deletes - {k} - {x};
    }
  }

  lemma WritesPut(writes: map<Key, Holder>, k: Key, h: Holder)
    ensures WritesUsage(writes[k := h]) ==
      WritesUsage(writes) + |k| + h.memoryUsage - if k in writes then |k| + writes[k].memoryUsage else 0
  {
    WritesWithout(writes[k := h], k);
    if k in writes {
      WritesWithout(writes, k);
      assert writes[k := h] - {k} == writes - {k};
    } else {
      assert writes[k := h] - {k} == writes;
    }
  }

  lemma DeletesPut(deletes: set<Key>, k: Key)
    requires k !in deletes
    ensures DeletesUsage(deletes + {k}) == DeletesUsage(deletes) + |k|
  {
    DeletesWithout(deletes + {k}, k);
    assert deletes + {k} - {k} == deletes;
  }

  class Database {
    var entries: map<Key, Value>

    constructor (entries: map<Key, Value>)
      ensures this.entries == entries
    {
      this.entries := entries;
    }
  }

  class Transaction {
    const parent: Database
    var writes: map<Key, Holder>
    var deletes: set<Key>
    var memoryUsage: int

    ghost predicate Valid() reads this {
      && writes.Keys !! deletes
      && memoryUsage == WritesUsage(writes) + DeletesUsage(deletes)
    }

    ghost function Shows(): map<Key, Value> reads this, parent { View(parent.entries, writes, deletes) }

    constructor (parent: Database)
      ensures Valid() && this.parent == parent && writes == map[] && deletes == {} && Shows() == parent.entries
    {
      this.parent := parent;
      writes, deletes, memoryUsage := map[], {}, 0;
      new;
      assert Plain(writes) == map[];
    }

    method Write(key: Key, v: Value, size: nat)
      requires Valid()
      modifies this
      ensures Valid() && Shows() == old(Shows())[key := v]
      ensures writes == old(writes)[key := Holder(v, size)] && deletes == old(deletes) - {key}
    {
      hide View;
      WritesPut(writes, key, Holder(v, size));
      ViewWrite(parent.entries, writes, deletes, key, Holder(v, size));
      ghost var d := deletes;
      assert key !in d ==> d - {key} == d;
      if key in deletes {
        DeletesWithout(deletes, key);
        deletes := deletes - {key};
        memoryUsage := memoryUsage - |key|;
      }
      if key in writes {
        memoryUsage := memoryUsage - (|key| + writes[key].memoryUsage);
      }
      writes := writes[key := Holder(v, size)];
      memoryUsage := memoryUsage + |key| + size;
    }

    method Read(key: Key) returns (r: Option<Value>)
      requires Valid()
      ensures r == if key in Shows() then Some(Shows()[key]) else None
    {
      if key in deletes {
        return None;
      }
      if key in writes {
        return Some(writes[key].value);
      }
      return if key in parent.entries then Some(parent.entries[key]) else None;
    }

    method Exists(key: Key) returns (b: bool)
      requires Valid()
      ensures b <==> key in Shows()
    {
      if key in deletes {
        return false;
      }
      if key in writes {
        return true;
      }
      return key in parent.entries;
    }

    method Erase(key: Key)
      requires Valid()
      modifies this
      ensures Valid() && Shows() == old(Shows()) - {key}
      ensures writes == old(writes) - {key} && deletes == old(deletes) + {key}
    {
      hide View;
      ViewErase(parent.entries, writes, deletes, key);
      ghost var w, d := writes, deletes;
      assert (key !in w ==> w - {key} == w) && (key in d ==> d + {key} == d);
      if key in writes {
        WritesWithout(writes, key);
        memoryUsage := memoryUsage - (|key| + writes[key].memoryUsage);
        writes := writes - {key};
      }
      if key !in deletes {
        DeletesPut(deletes, key);
        deletes := deletes + {key};
        memoryUsage := memoryUsage + |key|;
      }
    }

    method Clear()
      modifies this
      ensures Valid() && writes == map[] && deletes == {}
    {
      writes, deletes, memoryUsage := map[], {}, 0;
    }

    /** Writes everything to the parent: it then holds what the transaction showed. */
    method Commit()
      requires Valid() && parent as object != this
      modifies this, parent
      ensures Valid() && writes == map[] && deletes == {}
      ensures parent.entries == old(Shows()) && Shows() == old(Shows())
    {
      ghost var before := parent.entries;
      var todo := deletes;
      while todo != {}
        invariant todo <= deletes && parent.entries == before - (deletes - todo)
        modifies parent
      {
        var k :| k in todo;
        todo := todo - {k};
        parent.entries := parent.entries - {k};
      }
      assert deletes - {} == deletes;
      ghost var done: set<Key> := {};
      todo := writes.Keys;
      while todo != {}
        invariant todo <= writes.Keys && done == writes.Keys - todo
        invariant forall k :: k in parent.entries <==> k in before - deletes || k in done
        invariant forall k :: k in done ==> parent.entries[k] == writes[k].value
        invariant forall k :: k in before - deletes && k !in done ==> parent.entries[k] == before[k]
        modifies parent
      {
        var k :| k in todo;
        todo := todo - {k};
        done := done + {k};
        parent.entries := parent.entries[k := writes[k].value];
      }
      assert parent.entries == View(before, writes, deletes);
      Clear();
      assert Plain(map[]) == map[];
    }
  }

  // ---------------------------------------------------------------------------------------------
  // Iterating

  /** A parent's key that the transaction does not hide. */
  predicate Visible(writes: map<Key, Holder>, deletes: set<Key>, k: Key) {
    k !in deletes && k !in writes
  }

  /** The keys that two positions still have before them. */
  ghost predicate StillThere(writes: map<Key, Holder>, deletes: set<Key>, wkeys: seq<Key>, wi: nat, pkeys: seq<Key>,
                             pi: nat, k: Key) {
    || (exists j :: wi <= j < |wkeys| && wkeys[j] == k)
    || (exists j :: pi <= j < |pkeys| && pkeys[j] == k && Visible(writes, deletes, k))
  }

  /** The first position whose key is not below a key. */
  ghost predicate IsLowerBound(keys: seq<Key>, key: Key, n: nat) {
    && n <= |keys| && (forall j :: 0 <= j < n ==> Less(keys[j], key))
    && (forall j :: n <= j < |keys| ==> !Less(keys[j], key))
  }

  method LowerBound(keys: seq<Key>, key: Key) returns (n: nat)
    requires Sorted(keys)
    ensures IsLowerBound(keys, key, n)
  {
    n := 0;
    while n < |keys| && Less(keys[n], key)
      invariant 0 <= n <= |keys| && forall j :: 0 <= j < n ==> Less(keys[j], key)
    {
      n := n + 1;
    }
    forall j | n <= j < |keys| ensures !Less(keys[j], key) {
      if j > n && Less(keys[j], key) {
        LessTransitive(keys[n], keys[j], key);
      }
    }
  }

  class TransactionIterator {
    const transaction: Transaction
    const wkeys: seq<Key>     // the keys written, in order: what transactionIt runs over
    const pkeys: seq<Key>     // the parent's keys, in order: what parentIt runs over
    var wi: nat
    var pi: nat
    var curIsParent: bool

    /** The transaction has not changed since the iterator was made. */
    ghost predicate Current() reads this, transaction, transaction.parent {
      && transaction.writes.Keys !! transaction.deletes
      && Lists(wkeys, transaction.writes.Keys) && Lists(pkeys, transaction.parent.entries.Keys)
    }

    /** The parent's position is at a visible key, and the smaller of the two is chosen. */
    ghost predicate Settled() reads this, transaction {
      && wi <= |wkeys| && pi <= |pkeys|
      && (pi < |pkeys| ==> Visible(transaction.writes, transaction.deletes, pkeys[pi]))
      && (AtEnd() || (curIsParent <==> pi < |pkeys| && (wi == |wkeys| || !Less(wkeys[wi], pkeys[pi]))))
    }

    predicate AtEnd() reads this { wi >= |wkeys| && pi >= |pkeys| }

    ghost predicate Ahead(k: Key) reads this, transaction {
      StillThere(transaction.writes, transaction.deletes, wkeys, wi, pkeys, pi, k)
    }

    constructor (transaction: Transaction, wkeys: seq<Key>, pkeys: seq<Key>)
      requires transaction.writes.Keys !! transaction.deletes
      requires Lists(wkeys, transaction.writes.Keys) && Lists(pkeys, transaction.parent.entries.Keys)
      ensures Current() && this.transaction == transaction
    {
      this.transaction, this.wkeys, this.pkeys := transaction, wkeys, pkeys;
      wi, pi, curIsParent := |wkeys|, 0, false;
    }

    method SkipDeletedAndOverwritten()
      requires pi <= |pkeys|
      modifies this`pi
      ensures old(pi) <= pi <= |pkeys| && (pi < |pkeys| ==> Visible(transaction.writes, transaction.deletes, pkeys[pi]))
      ensures forall j :: old(pi) <= j < pi ==> !Visible(transaction.writes, transaction.deletes, pkeys[j])
    {
      while pi < |pkeys|
        invariant old(pi) <= pi <= |pkeys|
        invariant forall j :: old(pi) <= j < pi ==> !Visible(transaction.writes, transaction.deletes, pkeys[j])
      {
        if Visible(transaction.writes, transaction.deletes, pkeys[pi]) {
          break;
        }
        pi := pi + 1;
      }
    }

    method DecideCur()
      requires wi <= |wkeys| && pi <= |pkeys|
      modifies this`curIsParent
      ensures AtEnd() || (curIsParent <==> pi < |pkeys| && (wi == |wkeys| || !Less(wkeys[wi], pkeys[pi])))
    {
      if wi < |wkeys| && pi == |pkeys| {
        curIsParent := false;
      } else if wi == |wkeys| && pi < |pkeys| {
        curIsParent := true;
      } else if wi < |wkeys| && pi < |pkeys| {
        curIsParent := !Less(wkeys[wi], pkeys[pi]);
      }
    }

    method SeekToFirst()
      requires Current()
      modifies this
      ensures Current() && Settled() && forall k :: Ahead(k) <==> k in transaction.Shows()
    {
      wi, pi := 0, 0;
      SkipDeletedAndOverwritten();
      DecideCur();
      AllAhead();
    }

    method Seek(key: Key)
      requires Current()
      modifies this
      ensures Current() && Settled() && forall k :: Ahead(k) <==> k in transaction.Shows() && !Less(k, key)
    {
      wi := LowerBound(wkeys, key);
      pi := LowerBound(pkeys, key);
      ghost var p := pi;
      SkipDeletedAndOverwritten();
      DecideCur();
      AheadFrom(key, p);
    }

    lemma AheadFrom(key: Key, p: nat)
      requires Current() && IsLowerBound(wkeys, key, wi) && IsLowerBound(pkeys, key, p) && p <= pi <= |pkeys|
      requires forall j :: p <= j < pi ==> !Visible(transaction.writes, transaction.deletes, pkeys[j])
      ensures forall k :: Ahead(k) <==> k in transaction.Shows() && !Less(k, key)
    {
      hide Less;
      forall k ensures Ahead(k) <==> k in transaction.Shows() && !Less(k, key) {
        if k in transaction.writes {
          assert k in wkeys;
          var j :| 0 <= j < |wkeys| && wkeys[j] == k;
        } else if k in transaction.parent.entries {
          assert k in pkeys;
          var j :| 0 <= j < |pkeys| && pkeys[j] == k;
        }
        assert forall j :: 0 <= j < |wkeys| ==> wkeys[j] in wkeys;
        assert forall j :: 0 <= j < |pkeys| ==> pkeys[j] in pkeys;
      }
    }

    lemma AllAhead()
      requires Current() && wi == 0 && pi <= |pkeys|
      requires forall j :: 0 <= j < pi ==> !Visible(transaction.writes, transaction.deletes, pkeys[j])
      ensures forall k :: Ahead(k) <==> k in transaction.Shows()
    {
      forall k ensures Ahead(k) <==> k in transaction.Shows() {
        if k in transaction.writes {
          assert k in wkeys;
          var j :| 0 <= j < |wkeys| && wkeys[j] == k;
        } else if k in transaction.parent.entries {
          assert k in pkeys;
          var j :| 0 <= j < |pkeys| && pkeys[j] == k;
        }
      }
    }

    /** The current key, which is the least of those ahead. */
    function GetKey(): Key
      requires wi <= |wkeys| && pi <= |pkeys| && !AtEnd()
      requires (curIsParent ==> pi < |pkeys|) && (!curIsParent ==> wi < |wkeys|)
      reads this
    {
      if curIsParent then pkeys[pi] else wkeys[wi]
    }

    lemma NoneAhead()
      requires Settled() && AtEnd()
      ensures forall k :: !Ahead(k)
    {
    }

    lemma CurrentAhead()
      requires Current() && Settled() && !AtEnd()
      ensures Ahead(GetKey())
    {
    }

    lemma LeastAhead(k: Key)
      requires Current() && Settled() && !AtEnd() && Ahead(k)
      ensures k == GetKey() || Less(GetKey(), k)
    {
      if wi < |wkeys| && pi < |pkeys| {
        LessTotal(wkeys[wi], pkeys[pi]);
      }
      if j :| wi <= j < |wkeys| && wkeys[j] == k {
        if j > wi && curIsParent && pi < |pkeys| && wkeys[wi] != pkeys[pi] {
          LessTransitive(pkeys[pi], wkeys[wi], wkeys[j]);
        }
      } else {
        var j :| pi <= j < |pkeys| && pkeys[j] == k && Visible(transaction.writes, transaction.deletes, k);
        if j > pi && !curIsParent {
          LessTransitive(wkeys[wi], pkeys[pi], pkeys[j]);
        }
      }
    }

    /** Leaves exactly the current key behind. */
    method Next()
      requires Current() && Settled()
      modifies this
      ensures Current() && Settled()
      ensures old(AtEnd()) ==> AtEnd()
      ensures !old(AtEnd()) ==> forall k :: Ahead(k) <==> old(Ahead(k)) && k != old(GetKey())
      ensures !old(AtEnd()) ==> wi + pi > old(wi + pi)
    {
      hide StillThere;
      if wi == |wkeys| && pi == |pkeys| {
        return;
      }
      ghost var w, p := wi, pi;
      if curIsParent {
        assert pi < |pkeys|;
        pi := pi + 1;
        SkipDeletedAndOverwritten();
        forall k
          ensures Ahead(k) <==>
            StillThere(transaction.writes, transaction.deletes, wkeys, w, pkeys, p, k) && k != pkeys[p]
        {
          StepParent(transaction.writes, transaction.deletes, wkeys, w, pkeys, p, pi, k);
        }
      } else {
        assert wi < |wkeys|;
        wi := wi + 1;
        forall k
          ensures Ahead(k) <==>
            StillThere(transaction.writes, transaction.deletes, wkeys, w, pkeys, p, k) && k != wkeys[w]
        {
          StepWritten(transaction.writes, transaction.deletes, wkeys, w, pkeys, p, k);
        }
      }
      DecideCur();
    }
  }

  lemma SortedDiffer(keys: seq<Key>, i: nat, j: nat)
    requires Sorted(keys) && i < |keys| && j < |keys| && i != j
    ensures keys[i] != keys[j]
  {
    if i < j {
      LessAsymmetric(keys[i], keys[j]);
    } else {
      LessAsymmetric(keys[j], keys[i]);
    }
  }

  lemma StepWritten(writes: map<Key, Holder>, deletes: set<Key>, wkeys: seq<Key>, wi: nat, pkeys: seq<Key>, pi: nat,
                    k: Key)
    requires Lists(wkeys, writes.Keys) && wi < |wkeys|
    ensures StillThere(writes, deletes, wkeys, wi + 1, pkeys, pi, k) <==>
      StillThere(writes, deletes, wkeys, wi, pkeys, pi, k) && k != wkeys[wi]
  {
    assert wkeys[wi] in wkeys;
    forall j | wi < j < |wkeys| ensures wkeys[j] != wkeys[wi] {
      SortedDiffer(wkeys, wi, j);
    }
  }

  lemma StepParent(writes: map<Key, Holder>, deletes: set<Key>, wkeys: seq<Key>, wi: nat, pkeys: seq<Key>, pi: nat,
                   next: nat, k: Key)
    requires Lists(wkeys, writes.Keys) && Sorted(pkeys) && pi < next <= |pkeys|
    requires Visible(writes, deletes, pkeys[pi])
    requires forall j :: pi + 1 <= j < next ==> !Visible(writes, deletes, pkeys[j])
    ensures StillThere(writes, deletes, wkeys, wi, pkeys, next, k) <==>
      StillThere(writes, deletes, wkeys, wi, pkeys, pi, k) && k != pkeys[pi]
  {
    forall j | pi < j < |pkeys| ensures pkeys[j] != pkeys[pi] {
      SortedDiffer(pkeys, pi, j);
    }
    forall j | 0 <= j < |wkeys| ensures wkeys[j] in wkeys {}
  }

  /**
  Going through a whole transaction: every entry once, in ascending order, as the parent will hold them
  after a commit.
  */
  method ReadAll(it: TransactionIterator) returns (keys: seq<Key>, values: seq<Value>)
    requires it.Current() && it.transaction.Valid()
    modifies it
    ensures Lists(keys, it.transaction.Shows().Keys)
    ensures |values| == |keys|
    ensures forall i :: 0 <= i < |keys| ==>
      keys[i] in it.transaction.Shows() && values[i] == it.transaction.Shows()[keys[i]]
  {
    hide StillThere, View, Less, Lists;
    var t := it.transaction;
    ghost var shows := t.Shows();
    ghost var ahead := shows.Keys;
    keys, values := [], [];
    it.SeekToFirst();
    while !it.AtEnd()
      invariant it.Current() && it.Settled() && t.Valid() && t.Shows() == shows
      invariant |values| == |keys| && Read(keys, ahead, shows.Keys)
      invariant forall k :: it.Ahead(k) <==> k in ahead
      invariant forall i :: 0 <= i < |keys| ==> keys[i] in shows && values[i] == shows[keys[i]]
      decreases |it.wkeys| + |it.pkeys| - it.wi - it.pi
    {
      var k := it.GetKey();
      it.CurrentAhead();
      forall x | x in ahead && x != k ensures Less(k, x) {
        it.LeastAhead(x);
      }
      ReadOne(keys, ahead, shows.Keys, k);
      var v := t.Read(k);
      keys := keys + [k];
      values := values + [v.value];
      it.Next();
      ahead := ahead - {k};
    }
    it.NoneAhead();
    ReadEverything(keys, ahead, shows.Keys);
  }

  /** Part of the keys has been read, in order, and the others come after them. */
  ghost predicate Read(keys: seq<Key>, ahead: set<Key>, all: set<Key>) {
    && Sorted(keys) && ahead <= all && (forall k :: k in keys <==> k in all && k !in ahead)
    && forall i, x :: 0 <= i < |keys| && x in ahead ==> Less(keys[i], x)
  }

  lemma ReadOne(keys: seq<Key>, ahead: set<Key>, all: set<Key>, k: Key)
    requires Read(keys, ahead, all) && k in ahead && forall x :: x in ahead && x != k ==> Less(k, x)
    ensures Read(keys + [k], ahead - {k}, all)
  {
    hide Less;
    var more := keys + [k];
    forall x ensures x in more <==> x in all && x !in ahead - {k} {
      assert x in more <==> x in keys || x == k;
    }
  }

  lemma ReadEverything(keys: seq<Key>, ahead: set<Key>, all: set<Key>)
    requires Read(keys, ahead, all) && forall k :: k !in ahead
    ensures Lists(keys, all)
  {
  }
}
