/**
The unspent-output cache of src/coins.cpp and src/coins.h: a stack of caches over the coin
database, each entry carrying a DIRTY and a FRESH flag.

The first half is a value-level account of a whole stack: what every view shows, what each
operation does, and the proof that any run of operations shows exactly the coins of one plain map
per view.  The second half is the code itself, as linked objects that update their fields, with
every method proved against the first half.
*/
module Coins {
  import opened Basics

  // ---------------------------------------------------------------------------------------------
  // Coins and entries

  datatype OutPoint = OutPoint(hash: nat, n: nat)

  /** A script together with the heap memory it owns (memusage::DynamicUsage). */
  datatype Script = Script(bytes: seq<bv8>, memory: nat) {
    predicate IsUnspendable() {
      (|bytes| > 0 && bytes[0] == OP_RETURN) || |bytes| > MAX_SCRIPT_SIZE
    }
  }

  const OP_RETURN: bv8 := 0x6a
  const MAX_SCRIPT_SIZE := 10000

  datatype Coin = Coin(value: int, script: Script, coinBase: bool, height: nat) {
    predicate IsSpent() {
      value == -1
    }
  }

  /** What Coin::Clear leaves behind. */
  const CLEARED := Coin(-1, Script([], 0), false, 0)

  datatype Entry = Entry(coin: Coin, isDirty: bool, isFresh: bool)

  type CoinsMap = map<OutPoint, Entry>

  function Live(c: Coin): Option<Coin> {
    if c.IsSpent() then None else Some(c)
  }

  function Lookup<K, V>(m: map<K, V>, k: K): Option<V> {
    if k in m then Some(m[k]) else None
  }

  // ---------------------------------------------------------------------------------------------
  // A stack of caches, as a value.  View 0 is the database; view n is the n-th cache above it.

  datatype Stack = Stack(disk: map<OutPoint, Coin>, layers: seq<CoinsMap>)

  /** The answer of GetCoin on view n: a cache may answer with a spent coin. */
  function Get(s: Stack, n: nat, o: OutPoint): Option<Coin>
    requires n <= |s.layers|
  {
    if n == 0 then Lookup(s.disk, o)
    else if o in s.layers[n-1] then Some(s.layers[n-1][o].coin)
    else Get(s, n-1, o)
  }

  /** The unspent coin that view n shows at an outpoint. */
  function Unspent(s: Stack, n: nat, o: OutPoint): Option<Coin>
    requires n <= |s.layers|
  {
    match Get(s, n, o)
    case None => None
    case Some(c) => Live(c)
  }

  /** FRESH means the parent view has no unspent coin; not DIRTY means the entry agrees with the parent view. */
  ghost predicate EntryOk(s: Stack, n: nat, o: OutPoint)
    requires n < |s.layers| && o in s.layers[n]
  {
    var e := s.layers[n][o];
    && (e.isFresh ==> Unspent(s, n, o) == None)
    && (!e.isDirty ==> Unspent(s, n, o) == Live(e.coin))
  }

  ghost predicate Inv(s: Stack) {
    && (forall o :: o in s.disk ==> !s.disk[o].IsSpent())
    && (forall n, o :: 0 <= n < |s.layers| && o in s.layers[n] ==> EntryOk(s, n, o))
  }

  // ---------------------------------------------------------------------------------------------
  // The operations

  /** FetchCoin on view n: every cache from n down to the first one that knows the outpoint is filled. */
  function Fetch(s: Stack, n: nat, o: OutPoint): (r: Stack)
    requires n <= |s.layers|
    ensures |r.layers| == |s.layers| && r.disk == s.disk
    ensures forall k :: n <= k < |s.layers| ==> r.layers[k] == s.layers[k]
  {
    if n == 0 || o in s.layers[n-1] then s
    else
      var t := Fetch(s, n-1, o);
      match Get(s, n-1, o)
      case None => t
      case Some(c) => t.(layers := t.layers[n-1 := t.layers[n-1][o := Entry(c, false, c.IsSpent())]])
  }

  /** AddCoin on one cache. */
  function AddEntry(m: CoinsMap, o: OutPoint, coin: Coin, overwrite: bool): CoinsMap {
    if coin.script.IsUnspendable() then m
    else
      var was := if o in m then m[o] else Entry(CLEARED, false, false);
      var mark := !overwrite && !was.isDirty;
      m[o := Entry(coin, true, was.isFresh || mark)]
  }

  /** The throw in AddCoin: the cache itself holds an unspent coin and no overwrite was announced. */
  predicate AddThrows(m: CoinsMap, o: OutPoint, coin: Coin, overwrite: bool) {
    !coin.script.IsUnspendable() && !overwrite && o in m && !m[o].coin.IsSpent()
  }

  /** SpendCoin on one cache, after the fetch. */
  function SpendEntry(m: CoinsMap, o: OutPoint): CoinsMap {
    if o !in m then m
    else if m[o].isFresh then m - {o}
    else m[o := Entry(CLEARED, true, false)]
  }

  function UncacheEntry(m: CoinsMap, o: OutPoint): CoinsMap {
    if o in m && !m[o].isDirty && !m[o].isFresh then m - {o} else m
  }

  /** One child entry met by BatchWrite, against what the parent cache holds. */
  function MergeEntry(us: Option<Entry>, child: Entry): Option<Entry> {
    if !child.isDirty then us
    else match us
      case None =>
        if child.isFresh && child.coin.IsSpent() then None else Some(Entry(child.coin, true, child.isFresh))
      case Some(e) =>
        if e.isFresh && child.coin.IsSpent() then None else Some(Entry(child.coin, true, e.isFresh))
  }

  function MergeAt(us: CoinsMap, child: CoinsMap, o: OutPoint): Option<Entry> {
    if o in child then MergeEntry(Lookup(us, o), child[o]) else Lookup(us, o)
  }

  /** BatchWrite of a whole child map into a parent cache. */
  function Merge(us: CoinsMap, child: CoinsMap): CoinsMap {
    map o | o in us.Keys + child.Keys && MergeAt(us, child, o).Some? :: MergeAt(us, child, o).value
  }

  /** The "FRESH flag misapplied" error of BatchWrite. */
  predicate Misapplied(us: CoinsMap, child: CoinsMap, o: OutPoint) {
    o in child && child[o].isDirty && child[o].isFresh && o in us && !us[o].coin.IsSpent()
  }

  function DiskAt(disk: map<OutPoint, Coin>, child: CoinsMap, o: OutPoint): Option<Coin> {
    if o in child && child[o].isDirty then Live(child[o].coin) else Lookup(disk, o)
  }

  /** BatchWrite of a whole child map into the database. */
  function DiskMerge(disk: map<OutPoint, Coin>, child: CoinsMap): map<OutPoint, Coin> {
    map o | o in disk.Keys + child.Keys && DiskAt(disk, child, o).Some? :: DiskAt(disk, child, o).value
  }

  /** The first half of a flush: the n-th layer is written into the view below it. */
  function WrittenDown(s: Stack, n: nat): (t: Stack)
    requires n < |s.layers|
    ensures |t.layers| == |s.layers|
  {
    if n == 0 then s.(disk := DiskMerge(s.disk, s.layers[0]))
    else s.(layers := s.layers[n-1 := Merge(s.layers[n-1], s.layers[n])])
  }

  /** Flush of view n into view n-1. */
  function FlushStack(s: Stack, n: nat): Stack
    requires 1 <= n <= |s.layers|
  {
    var t := WrittenDown(s, n-1);
    t.(layers := t.layers[n-1 := map[]])
  }

  // ---------------------------------------------------------------------------------------------
  // How views depend on layers

  lemma {:induction false} GetFrame(s: Stack, t: Stack, n: nat, o: OutPoint)
    requires n <= |s.layers| && n <= |t.layers|
    requires s.disk == t.disk && s.layers[..n] == t.layers[..n]
    ensures Get(s, n, o) == Get(t, n, o)
  {
    if n > 0 {
      assert s.layers[n-1] == s.layers[..n][n-1] == t.layers[n-1];
      assert s.layers[..n-1] == s.layers[..n][..n-1] == t.layers[..n-1];
      GetFrame(s, t, n-1, o);
    }
  }

  /** A view that still shows the same coin at an outpoint passes it on to every view above it. */
  lemma {:induction false} UnspentAbove(s: Stack, t: Stack, k: nat, n: nat, o: OutPoint)
    requires k <= n <= |s.layers| == |t.layers|
    requires forall i :: k <= i < n ==> s.layers[i] == t.layers[i]
    requires Unspent(s, k, o) == Unspent(t, k, o)
    ensures Unspent(s, n, o) == Unspent(t, n, o)
  {
    if k < n { UnspentAbove(s, t, k, n-1, o); }
  }

  /** Replacing one layer without changing what its view shows changes no view, and keeps the invariant. */
  lemma ReplaceLayer(s: Stack, k: nat, n: nat, m: CoinsMap, t: Stack)
    requires k < |s.layers| && n == k + 1 && Inv(s)
    requires t == s.(layers := s.layers[k := m])
    requires forall o :: o in m ==> EntryOk(t, k, o)
    requires forall o :: Unspent(t, n, o) == Unspent(s, n, o)
    ensures Inv(t)
    ensures forall j, o :: 0 <= j <= |s.layers| ==> Unspent(t, j, o) == Unspent(s, j, o)
  {
    forall j, o | 0 <= j <= |s.layers|
      ensures Unspent(t, j, o) == Unspent(s, j, o)
    {
      if j <= k { GetFrame(s, t, j, o); } else { UnspentAbove(s, t, n, j, o); }
    }
    forall j, o | 0 <= j < |t.layers| && o in t.layers[j]
      ensures EntryOk(t, j, o)
    {
      if j != k { assert EntryOk(s, j, o); }
    }
  }

  // ---------------------------------------------------------------------------------------------
  // Each operation keeps the invariant, and what it does to the views

  /** Fetching at any view changes no view; afterwards the entry is present exactly when GetCoin answers. */
  lemma {:induction false} FetchCorrect(s: Stack, n: nat, o: OutPoint)
    requires n <= |s.layers| && Inv(s)
    ensures Inv(Fetch(s, n, o))
    ensures forall k, p :: 0 <= k <= |s.layers| ==> Unspent(Fetch(s, n, o), k, p) == Unspent(s, k, p)
    ensures Get(Fetch(s, n, o), n, o) == Get(s, n, o)
    ensures n > 0 ==> (o in Fetch(s, n, o).layers[n-1] <==> Get(s, n, o).Some?)
  {
    if n > 0 && o !in s.layers[n-1] {
      var t := Fetch(s, n-1, o);
      FetchCorrect(s, n-1, o);
      match Get(s, n-1, o)
      case None =>
      case Some(c) =>
        var m := t.layers[n-1][o := Entry(c, false, c.IsSpent())];
        var u := t.(layers := t.layers[n-1 := m]);
        assert Fetch(s, n, o) == u;
        forall p ensures Unspent(u, n, p) == Unspent(t, n, p) {
          GetFrame(t, u, n-1, p);
        }
        forall p | p in m ensures EntryOk(u, n-1, p) {
          GetFrame(t, u, n-1, p);
          if p != o { assert EntryOk(t, n-1, p); }
        }
        ReplaceLayer(t, n-1, n, m, u);
    }
  }

  /** Uncaching at any view changes no view; it drops exactly an entry without flags. */
  lemma UncacheCorrect(s: Stack, n: nat, o: OutPoint)
    requires 1 <= n <= |s.layers| && Inv(s)
    ensures var t := s.(layers := s.layers[n-1 := UncacheEntry(s.layers[n-1], o)]);
      Inv(t) && forall k, p :: 0 <= k <= |s.layers| ==> Unspent(t, k, p) == Unspent(s, k, p)
    ensures var was, now := s.layers[n-1], UncacheEntry(s.layers[n-1], o);
      && (o in now <==> o in was && (was[o].isDirty || was[o].isFresh))
      && (forall p :: p != o ==> Lookup(now, p) == Lookup(was, p)) && (o in now ==> now[o] == was[o])
  {
    var m := UncacheEntry(s.layers[n-1], o);
    var t := s.(layers := s.layers[n-1 := m]);
    forall p | p in m ensures EntryOk(t, n-1, p) {
      GetFrame(s, t, n-1, p);
      assert EntryOk(s, n-1, p);
    }
    forall p ensures Unspent(t, n, p) == Unspent(s, n, p) {
      GetFrame(s, t, n-1, p);
      if p in s.layers[n-1] { assert EntryOk(s, n-1, p); }
    }
    ReplaceLayer(s, n-1, n, m, t);
  }

  /** Writing one entry of the topmost cache changes the top view at that outpoint only. */
  lemma TopEntry(s: Stack, m: CoinsMap, o: OutPoint)
    requires |s.layers| >= 1 && Inv(s)
    requires var top := s.layers[|s.layers|-1]; m - {o} == top - {o}
    requires var n := |s.layers|-1; o in m ==>
      && (m[o].isFresh ==> Unspent(s, n, o) == None)
      && (!m[o].isDirty ==> Unspent(s, n, o) == Live(m[o].coin))
    ensures var n := |s.layers|; var t := s.(layers := s.layers[n-1 := m]);
      && Inv(t)
      && (forall k, p :: 0 <= k <= n && (k < n || p != o) ==> Unspent(t, k, p) == Unspent(s, k, p))
      && Unspent(t, n, o) == (if o in m then Live(m[o].coin) else Unspent(s, n-1, o))
  {
    var n := |s.layers|;
    var top := s.layers[n-1];
    var t := s.(layers := s.layers[n-1 := m]);
    forall p | p != o ensures p in m <==> p in top ensures p in m ==> m[p] == top[p] {
      assert p in m <==> p in m - {o};
      assert p in top <==> p in top - {o};
      if p in m { assert m[p] == (m - {o})[p] == (top - {o})[p] == top[p]; }
    }
    forall k, p | 0 <= k < n ensures Unspent(t, k, p) == Unspent(s, k, p) { GetFrame(s, t, k, p); }
    forall p | p != o ensures Unspent(t, n, p) == Unspent(s, n, p) { GetFrame(s, t, n-1, p); }
    assert Unspent(t, n-1, o) == Unspent(s, n-1, o);
    forall k, p | 0 <= k < n && p in t.layers[k] ensures EntryOk(t, k, p) {
      if k < n-1 || p != o { assert EntryOk(s, k, p); }
    }
  }

  /**
  AddCoin on the top view shows the new coin there and changes nothing else.  Under the caller's
  promise -- without possible_overwrite no unspent coin is visible -- AddCoin does not throw.
  */
  lemma AddCorrect(s: Stack, o: OutPoint, coin: Coin, overwrite: bool)
    requires |s.layers| >= 1 && Inv(s) && !coin.IsSpent()
    requires !overwrite ==> Unspent(s, |s.layers|, o) == None
    ensures var n := |s.layers|; var t := s.(layers := s.layers[n-1 := AddEntry(s.layers[n-1], o, coin, overwrite)]);
      && !AddThrows(s.layers[n-1], o, coin, overwrite)
      && Inv(t)
      && (forall k, p :: 0 <= k <= n && (k < n || p != o) ==> Unspent(t, k, p) == Unspent(s, k, p))
      && Unspent(t, n, o) == (if coin.script.IsUnspendable() then Unspent(s, n, o) else Some(coin))
  {
    var n := |s.layers|;
    var top := s.layers[n-1];
    if !coin.script.IsUnspendable() {
      var m := AddEntry(top, o, coin, overwrite);
      assert m - {o} == top - {o};
      if o in top { assert EntryOk(s, n-1, o); }
      TopEntry(s, m, o);
    } else {
      assert s.layers[n-1 := top] == s.layers;
    }
  }

  /** A coin that is added and spent again in one cache leaves no entry, so that it is never written down. */
  lemma AddedAndSpent(m: CoinsMap, o: OutPoint, coin: Coin)
    requires !coin.script.IsUnspendable() && (o in m ==> !m[o].isDirty)
    ensures SpendEntry(AddEntry(m, o, coin, false), o) == m - {o}
  {
  }

  /** Nor is one that is spent, in either cache, after a flush into a cache that did not know it. */
  lemma FlushedAndSpent(us: CoinsMap, child: CoinsMap, later: CoinsMap, o: OutPoint)
    requires o in child && child[o].isDirty && child[o].isFresh && o !in us
    requires o in later && later[o].isDirty && later[o].coin.IsSpent()
    ensures var both := Merge(us, child);
      if child[o].coin.IsSpent() then o !in both
      else o in both && o !in SpendEntry(both, o) && o !in Merge(both, later)
  {
  }

  /** SpendCoin on the top view removes the coin there, hands it out, and changes nothing else. */
  lemma SpendCorrect(s: Stack, o: OutPoint)
    requires |s.layers| >= 1 && Inv(s)
    ensures var n := |s.layers|; var f := Fetch(s, n, o);
      var t := f.(layers := f.layers[n-1 := SpendEntry(f.layers[n-1], o)]);
      && Inv(t)
      && (forall k, p :: 0 <= k <= n && (k < n || p != o) ==> Unspent(t, k, p) == Unspent(s, k, p))
      && Unspent(t, n, o) == None
  {
    var n := |s.layers|;
    FetchCorrect(s, n, o);
    var f := Fetch(s, n, o);
    var top := f.layers[n-1];
    var m := SpendEntry(top, o);
    assert m - {o} == top - {o};
    if o in top { assert EntryOk(f, n-1, o); } else { assert Get(f, n, o) == None; }
    TopEntry(f, m, o);
  }

  /** In a consistent stack no flush can meet the "FRESH flag misapplied" error. */
  lemma NeverMisapplied(s: Stack, n: nat, o: OutPoint)
    requires 2 <= n <= |s.layers| && Inv(s)
    ensures !Misapplied(s.layers[n-2], s.layers[n-1], o)
  {
    if o in s.layers[n-1] { assert EntryOk(s, n-1, o); }
  }

  ghost predicate Applicable(s: Stack, n: nat)
    requires n < |s.layers|
  {
    n > 0 ==> var us, child := s.layers[n-1], s.layers[n]; forall o :: !Misapplied(us, child, o)
  }

  lemma AlwaysApplicable(s: Stack, n: nat)
    requires n < |s.layers| && Inv(s)
    ensures Applicable(s, n)
  {
    if n > 0 {
      var us, child := s.layers[n-1], s.layers[n];
      forall o ensures !Misapplied(us, child, o) { NeverMisapplied(s, n+1, o); }
    }
  }

  /** What the parent cache shows after BatchWrite is what the child showed before. */
  lemma FlushedEntry(s: Stack, n: nat, o: OutPoint)
    requires 2 <= n <= |s.layers| && Inv(s)
    ensures var t := FlushStack(s, n);
      && Unspent(t, n-2, o) == Unspent(s, n-2, o)
      && Unspent(t, n-1, o) == Unspent(s, n, o)
      && (o in t.layers[n-2] ==> EntryOk(t, n-2, o))
  {
    var t := FlushStack(s, n);
    GetFrame(s, t, n-2, o);
    NeverMisapplied(s, n, o);
    var us, child := s.layers[n-2], s.layers[n-1];
    assert t.layers[n-2] == Merge(us, child);
    if o in us { assert EntryOk(s, n-2, o); }
    if o in child { assert EntryOk(s, n-1, o); }
    assert Unspent(s, n-1, o) == if o in us then Live(us[o].coin) else Unspent(s, n-2, o);
  }

  /**
  Flushing view n into view n-1 makes view n-1 show what view n shows; view n itself, the views
  above it and the views two or more below it are unchanged.
  */
  lemma FlushCorrect(s: Stack, n: nat)
    requires 1 <= n <= |s.layers| && Inv(s)
    ensures Inv(FlushStack(s, n))
    ensures forall k, o :: 0 <= k <= |s.layers| && k != n-1 ==> Unspent(FlushStack(s, n), k, o) == Unspent(s, k, o)
    ensures forall o :: Unspent(FlushStack(s, n), n-1, o) == Unspent(s, n, o)
    ensures FlushStack(s, n).layers[n-1] == map[]
  {
    var t := FlushStack(s, n);
    forall o
      ensures Unspent(t, n-1, o) == Unspent(s, n, o)
      ensures n >= 2 && o in t.layers[n-2] ==> EntryOk(t, n-2, o)
    {
      if n == 1 { FlushedToDisk(s, o); } else { FlushedEntry(s, n, o); }
    }
    forall k, o | 0 <= k <= |s.layers| && k != n-1
      ensures Unspent(t, k, o) == Unspent(s, k, o)
    {
      if k <= n-2 { GetFrame(s, t, k, o); }
      else {
        assert Unspent(t, n, o) == Unspent(t, n-1, o);
        UnspentAbove(s, t, n, k, o);
      }
    }
    forall k, o | 0 <= k < |t.layers| && o in t.layers[k]
      ensures EntryOk(t, k, o)
    {
      if k != n-2 { assert EntryOk(s, k, o); }
    }
  }

  lemma FlushedToDisk(s: Stack, o: OutPoint)
    requires |s.layers| >= 1 && Inv(s)
    ensures Unspent(FlushStack(s, 1), 0, o) == Unspent(s, 1, o)
  {
    if o in s.layers[0] { assert EntryOk(s, 0, o); }
    assert Unspent(s, 0, o) == Lookup(s.disk, o);
    var d := DiskMerge(s.disk, s.layers[0]);
    assert Lookup(d, o) == DiskAt(s.disk, s.layers[0], o);
  }

  // ---------------------------------------------------------------------------------------------
  // Runs against the plain specification: one map of unspent coins per view

  datatype Op =
    | Fetching(n: nat, o: OutPoint)
    | Adding(o: OutPoint, coin: Coin, overwrite: bool)
    | Spending(o: OutPoint)
    | Uncaching(n: nat, o: OutPoint)
    | Flushing(n: nat)
    | Pushing
    | Popping

  type Plain = seq<map<OutPoint, Coin>>

  /** The cache that op works on exists; AddCoin is called as its documentation asks. */
  predicate Legal(p: Plain, op: Op)
    requires |p| >= 1
  {
    match op
    case Fetching(n, _) => 1 <= n < |p|
    case Adding(o, coin, overwrite) => |p| > 1 && !coin.IsSpent() && (!overwrite ==> o !in p[|p|-1])
    case Spending(_) => |p| > 1
    case Uncaching(n, _) => 1 <= n < |p|
    case Flushing(n) => 1 <= n < |p|
    case Pushing => true
    case Popping => |p| > 1
  }

  function PlainStep(p: Plain, op: Op): (q: Plain)
    requires |p| >= 1 && Legal(p, op)
    ensures |q| >= 1
  {
    var top := |p| - 1;
    match op
    case Fetching(_, _) => p
    case Adding(o, coin, _) => if coin.script.IsUnspendable() then p else p[top := p[top][o := coin]]
    case Spending(o) => p[top := p[top] - {o}]
    case Uncaching(_, _) => p
    case Flushing(n) => p[n-1 := p[n]]
    case Pushing => p + [p[top]]
    case Popping => p[..top]
  }

  predicate Fits(s: Stack, op: Op) {
    match op
    case Fetching(n, _) => 1 <= n <= |s.layers|
    case Uncaching(n, _) => 1 <= n <= |s.layers|
    case Flushing(n) => 1 <= n <= |s.layers|
    case Pushing => true
    case _ => |s.layers| >= 1
  }

  function Step(s: Stack, op: Op): Stack
    requires Fits(s, op)
  {
    var top := |s.layers| - 1;
    match op
    case Fetching(n, o) => Fetch(s, n, o)
    case Adding(o, coin, overwrite) => s.(layers := s.layers[top := AddEntry(s.layers[top], o, coin, overwrite)])
    case Spending(o) =>
      var f := Fetch(s, |s.layers|, o);
      f.(layers := f.layers[top := SpendEntry(f.layers[top], o)])
    case Uncaching(n, o) => s.(layers := s.layers[n-1 := UncacheEntry(s.layers[n-1], o)])
    case Flushing(n) => FlushStack(s, n)
    case Pushing => s.(layers := s.layers + [map[]])
    case Popping => s.(layers := s.layers[..top])
  }

  /** Every view of the stack shows exactly the coins of its plain map. */
  ghost predicate Shows(s: Stack, p: Plain) {
    && |p| == |s.layers| + 1
    && Inv(s)
    && forall k, o :: 0 <= k < |p| ==> Unspent(s, k, o) == Lookup(p[k], o)
  }

  lemma StepShows(s: Stack, p: Plain, op: Op)
    requires Shows(s, p) && Legal(p, op)
    ensures Fits(s, op) && Shows(Step(s, op), PlainStep(p, op))
  {
    match op
    case Fetching(k, o) => FetchShows(s, p, k, o);
    case Adding(o, coin, overwrite) => AddShows(s, p, o, coin, overwrite);
    case Spending(o) => SpendShows(s, p, o);
    case Uncaching(k, o) => UncacheShows(s, p, k, o);
    case Flushing(k) => FlushShows(s, p, k);
    case Pushing => PushShows(s, p);
    case Popping => PopShows(s, p);
  }

  lemma FetchShows(s: Stack, p: Plain, n: nat, o: OutPoint)
    requires Shows(s, p) && n < |p|
    ensures Shows(Fetch(s, n, o), p)
  {
    FetchCorrect(s, n, o);
  }

  lemma UncacheShows(s: Stack, p: Plain, n: nat, o: OutPoint)
    requires Shows(s, p) && 1 <= n < |p|
    ensures Shows(s.(layers := s.layers[n-1 := UncacheEntry(s.layers[n-1], o)]), p)
  {
    UncacheCorrect(s, n, o);
  }

  lemma FlushShows(s: Stack, p: Plain, n: nat)
    requires Shows(s, p) && 1 <= n < |p|
    ensures Shows(FlushStack(s, n), p[n-1 := p[n]])
  {
    FlushCorrect(s, n);
  }

  lemma AddShows(s: Stack, p: Plain, o: OutPoint, coin: Coin, overwrite: bool)
    requires Shows(s, p) && Legal(p, Adding(o, coin, overwrite))
    ensures Shows(Step(s, Adding(o, coin, overwrite)), PlainStep(p, Adding(o, coin, overwrite)))
  {
    assert Unspent(s, |s.layers|, o) == Lookup(p[|p|-1], o);
    AddCorrect(s, o, coin, overwrite);
  }

  lemma SpendShows(s: Stack, p: Plain, o: OutPoint)
    requires Shows(s, p) && Legal(p, Spending(o))
    ensures Shows(Step(s, Spending(o)), PlainStep(p, Spending(o)))
  {
    SpendCorrect(s, o);
  }

  lemma PushShows(s: Stack, p: Plain)
    requires Shows(s, p)
    ensures Shows(s.(layers := s.layers + [map[]]), p + [p[|p|-1]])
  {
    var n := |s.layers|;
    var t := s.(layers := s.layers + [map[]]);
    forall k, o | 0 <= k <= n ensures Unspent(t, k, o) == Unspent(s, k, o) { GetFrame(s, t, k, o); }
    forall o ensures Unspent(t, n+1, o) == Unspent(s, n, o) { GetFrame(s, t, n, o); }
    forall k, o | 0 <= k < |t.layers| && o in t.layers[k] ensures EntryOk(t, k, o) { assert EntryOk(s, k, o); }
  }

  lemma PopShows(s: Stack, p: Plain)
    requires Shows(s, p) && |s.layers| >= 1
    ensures Shows(s.(layers := s.layers[..|s.layers|-1]), p[..|p|-1])
  {
    var t := s.(layers := s.layers[..|s.layers|-1]);
    forall k, o | 0 <= k <= |t.layers| ensures Unspent(t, k, o) == Unspent(s, k, o) { GetFrame(s, t, k, o); }
    forall k, o | 0 <= k < |t.layers| && o in t.layers[k] ensures EntryOk(t, k, o) { assert EntryOk(s, k, o); }
  }

  predicate LegalRun(p: Plain, ops: seq<Op>)
    requires |p| >= 1
    decreases |ops|
  {
    ops == [] || (Legal(p, ops[0]) && LegalRun(PlainStep(p, ops[0]), ops[1..]))
  }

  function PlainRun(p: Plain, ops: seq<Op>): Plain
    requires |p| >= 1 && LegalRun(p, ops)
    decreases |ops|
  {
    if ops == [] then p else PlainRun(PlainStep(p, ops[0]), ops[1..])
  }

  ghost predicate RunFits(s: Stack, ops: seq<Op>)
    decreases |ops|
  {
    ops == [] || (Fits(s, ops[0]) && RunFits(Step(s, ops[0]), ops[1..]))
  }

  function Run(s: Stack, ops: seq<Op>): Stack
    requires RunFits(s, ops)
    decreases |ops|
  {
    if ops == [] then s else Run(Step(s, ops[0]), ops[1..])
  }

  /** Whatever is fetched, added, spent, uncached, flushed, pushed and popped, the caches show the plain maps. */
  lemma {:induction false} RunShows(s: Stack, p: Plain, ops: seq<Op>)
    requires Shows(s, p) && LegalRun(p, ops)
    ensures RunFits(s, ops) && Shows(Run(s, ops), PlainRun(p, ops))
    decreases |ops|
  {
    if ops != [] {
      StepShows(s, p, ops[0]);
      RunShows(Step(s, ops[0]), PlainStep(p, ops[0]), ops[1..]);
    }
  }

  /** A database with no cache on it is where every run starts. */
  lemma InitialShows(disk: map<OutPoint, Coin>)
    requires forall o :: o in disk ==> !disk[o].IsSpent()
    ensures Shows(Stack(disk, []), [disk])
  {
  }

  // ---------------------------------------------------------------------------------------------
  // Memory accounting: the total over a cache's entries

  ghost function TotalUsage(m: CoinsMap): nat {
    if m == map[] then 0
    else
      var o :| o in m;
      m[o].coin.script.memory + TotalUsage(m - {o})
  }

  function UsageAt(m: CoinsMap, o: OutPoint): nat {
    if o in m then m[o].coin.script.memory else 0
  }

  /** Any entry may be counted first. */
  lemma {:induction false} UsageSplit(m: CoinsMap, o: OutPoint)
    ensures TotalUsage(m) == UsageAt(m, o) + TotalUsage(m - {o})
  {
    if o !in m {
      assert m - {o} == m;
    } else {
      var p :| p in m && TotalUsage(m) == m[p].coin.script.memory + TotalUsage(m - {p});
      if p != o {
        UsageSplit(m - {p}, o);
        UsageSplit(m - {o}, p);
        assert m - {p} - {o} == m - {o} - {p};
      }
    }
  }

  lemma UsagePut(m: CoinsMap, o: OutPoint, e: Entry)
    ensures TotalUsage(m[o := e]) == TotalUsage(m) - UsageAt(m, o) + e.coin.script.memory
  {
    UsageSplit(m, o);
    UsageSplit(m[o := e], o);
    assert m[o := e] - {o} == m - {o};
  }

  // ---------------------------------------------------------------------------------------------
  // The objects

  datatype View = Disk(db: CoinsViewDB) | Cached(cache: CoinsViewCache)

  /** The database at the bottom (CCoinsViewDB of src/txdb.cpp); its writes are taken to succeed. */
  class CoinsViewDB {
    var coins: map<OutPoint, Coin>

    constructor (coins: map<OutPoint, Coin>)
      ensures this.coins == coins
    {
      this.coins := coins;
    }

    method BatchWrite(mapCoins: CoinsMap)
      modifies this
      ensures coins == DiskMerge(old(coins), mapCoins)
    {
      var todo := mapCoins;
      while todo != map[]
        invariant Writing(old(coins), mapCoins, todo, coins)
        decreases |todo|
      {
        var o :| o in todo;
        ghost var was := coins;
        if todo[o].isDirty {
          if todo[o].coin.IsSpent() {
            coins := coins - {o};
          } else {
            coins := coins[o := todo[o].coin];
          }
        }
        WritingStep(old(coins), mapCoins, todo, was, o, coins);
        todo := todo - {o};
      }
      WritingDone(old(coins), mapCoins, coins);
    }
  }

  /** The database's BatchWrite half way: the entries not in todo are written. */
  ghost predicate Writing(disk: map<OutPoint, Coin>, child: CoinsMap, todo: CoinsMap, now: map<OutPoint, Coin>) {
    && todo.Keys <= child.Keys
    && (forall o :: o in todo ==> todo[o] == child[o])
    && (forall o :: Lookup(now, o) == (if o in todo then Lookup(disk, o) else DiskAt(disk, child, o)))
  }

  lemma WritingStep(disk: map<OutPoint, Coin>, child: CoinsMap, todo: CoinsMap, now: map<OutPoint, Coin>,
                    o: OutPoint, next: map<OutPoint, Coin>)
    requires Writing(disk, child, todo, now) && o in todo
    requires forall p :: p != o ==> Lookup(next, p) == Lookup(now, p)
    requires Lookup(next, o) == (if todo[o].isDirty then Live(todo[o].coin) else Lookup(now, o))
    ensures Writing(disk, child, todo - {o}, next)
    ensures |todo - {o}| < |todo|
  {
    var rest := todo - {o};
    forall p ensures Lookup(next, p) == (if p in rest then Lookup(disk, p) else DiskAt(disk, child, p)) {
      assert Lookup(now, p) == (if p in todo then Lookup(disk, p) else DiskAt(disk, child, p));
    }
    assert todo.Keys == rest.Keys + {o};
  }

  lemma WritingDone(disk: map<OutPoint, Coin>, child: CoinsMap, now: map<OutPoint, Coin>)
    requires Writing(disk, child, map[], now)
    ensures now == DiskMerge(disk, child)
  {
    var want := DiskMerge(disk, child);
    forall o ensures Lookup(now, o) == Lookup(want, o) {
      assert Lookup(now, o) == DiskAt(disk, child, o);
    }
    SameLookups(now, want);
  }

  lemma SameLookups<K(!new), V>(m: map<K, V>, k: map<K, V>)
    requires forall x :: Lookup(m, x) == Lookup(k, x)
    ensures m == k
  {
    forall x ensures x in m <==> x in k ensures x in m ==> m[x] == k[x] {
      assert Lookup(m, x) == Lookup(k, x);
    }
  }

  /** BatchWrite half way: the entries not in todo are merged, none of them misapplied. */
  ghost predicate Merging(us: CoinsMap, child: CoinsMap, todo: CoinsMap, now: CoinsMap) {
    && todo.Keys <= child.Keys
    && (forall o :: o in todo ==> todo[o] == child[o])
    && (forall o :: o !in todo ==> !Misapplied(us, child, o))
    && (forall o :: Lookup(now, o) == (if o in todo then Lookup(us, o) else MergeAt(us, child, o)))
  }

  lemma MergingThrow(us: CoinsMap, child: CoinsMap, todo: CoinsMap, now: CoinsMap, o: OutPoint)
    requires Merging(us, child, todo, now)
    requires o in todo && todo[o].isDirty && todo[o].isFresh && o in now && !now[o].coin.IsSpent()
    ensures Misapplied(us, child, o)
  {
    assert Lookup(now, o) == Lookup(us, o);
  }

  lemma MergingStep(us: CoinsMap, child: CoinsMap, todo: CoinsMap, now: CoinsMap, o: OutPoint, next: CoinsMap)
    requires Merging(us, child, todo, now) && o in todo
    requires todo[o].isDirty && todo[o].isFresh ==> o !in now || now[o].coin.IsSpent()
    requires forall p :: p != o ==> Lookup(next, p) == Lookup(now, p)
    requires Lookup(next, o) == MergeEntry(Lookup(now, o), todo[o])
    ensures Merging(us, child, todo - {o}, next)
    ensures |todo - {o}| < |todo|
  {
    var rest := todo - {o};
    forall p ensures Lookup(next, p) == (if p in rest then Lookup(us, p) else MergeAt(us, child, p)) {
      assert Lookup(now, p) == (if p in todo then Lookup(us, p) else MergeAt(us, child, p));
    }
    forall p | p !in rest ensures !Misapplied(us, child, p) {
      assert Lookup(now, o) == Lookup(us, o);
    }
    assert todo.Keys == rest.Keys + {o};
  }

  lemma MergingDone(us: CoinsMap, child: CoinsMap, now: CoinsMap)
    requires Merging(us, child, map[], now)
    ensures now == Merge(us, child)
  {
    var want := Merge(us, child);
    forall o ensures Lookup(now, o) == Lookup(want, o) {
      assert Lookup(now, o) == MergeAt(us, child, o);
    }
    SameLookups(now, want);
  }

  /** The objects a stack is made of, bottom first. */
  datatype Chain = Chain(db: CoinsViewDB, caches: seq<CoinsViewCache>)

  function Below(ch: Chain, i: nat): View
    requires i < |ch.caches|
  {
    if i == 0 then Disk(ch.db) else Cached(ch.caches[i-1])
  }

  /** Each cache sits on the one before it. */
  ghost predicate Stacked(ch: Chain) {
    && (forall i :: 0 <= i < |ch.caches| ==> ch.caches[i].base == Below(ch, i))
    && (forall i, j :: 0 <= i < j < |ch.caches| ==> ch.caches[i] != ch.caches[j])
  }

  /** A stack of caches that count their memory correctly. */
  ghost predicate Linked(ch: Chain)
    reads ch.caches
  {
    Stacked(ch) && forall i :: 0 <= i < |ch.caches| ==> ch.caches[i].Counted()
  }

  ghost function Snapshot(ch: Chain): (s: Stack)
    reads ch.db, ch.caches
    ensures |s.layers| == |ch.caches| && s.disk == ch.db.coins
    ensures forall i :: 0 <= i < |ch.caches| ==> s.layers[i] == ch.caches[i].cacheCoins
  {
    Stack(ch.db.coins, seq(|ch.caches|, i requires 0 <= i < |ch.caches| reads ch.caches => ch.caches[i].cacheCoins))
  }

  class CoinsViewCache {
    const base: View
    var cacheCoins: CoinsMap
    var cachedCoinsUsage: int

    ghost predicate Counted()
      reads this
    {
      cachedCoinsUsage == TotalUsage(cacheCoins)
    }

    constructor (base: View)
      ensures this.base == base && cacheCoins == map[] && cachedCoinsUsage == 0
    {
      this.base := base;
      cacheCoins := map[];
      cachedCoinsUsage := 0;
    }

    /** Fills this cache and those below; the caller then looks at cacheCoins. */
    method FetchCoin(o: OutPoint, ghost ch: Chain, ghost n: nat)
      requires n < |ch.caches| && ch.caches[n] == this && Linked(ch)
      modifies ch.caches
      ensures Linked(ch) && Snapshot(ch) == Fetch(old(Snapshot(ch)), n+1, o)
      ensures o in cacheCoins <==> Get(old(Snapshot(ch)), n+1, o).Some?
      ensures o in cacheCoins ==> cacheCoins[o].coin == Get(old(Snapshot(ch)), n+1, o).value
      decreases n, 1
    {
      ghost var s := Snapshot(ch);
      assert s.layers[n] == cacheCoins;
      if o in cacheCoins {
        return;
      }
      var tmp := BaseGetCoin(o, ch, n);
      if tmp.None? {
        return;
      }
      ghost var t := Snapshot(ch);
      Emplace(o, tmp.value);
      assert Snapshot(ch).layers == t.layers[n := cacheCoins];
    }

    /** base->GetCoin: the database, or the cache below. */
    method BaseGetCoin(o: OutPoint, ghost ch: Chain, ghost n: nat) returns (coin: Option<Coin>)
      requires n < |ch.caches| && ch.caches[n] == this && Linked(ch)
      modifies ch.caches
      ensures Linked(ch) && Snapshot(ch) == Fetch(old(Snapshot(ch)), n, o)
      ensures coin == Get(old(Snapshot(ch)), n, o)
      ensures cacheCoins == old(cacheCoins)
      decreases n, 0
    {
      assert ch.caches[n].base == Below(ch, n);
      ghost var s := Snapshot(ch);
      match base {
        case Disk(db) =>
          coin := Lookup(db.coins, o);
        case Cached(cache) =>
          coin := cache.GetCoin(o, ch, n-1);
          assert Snapshot(ch).layers[n] == s.layers[n];
      }
    }

    method Emplace(o: OutPoint, coin: Coin)
      requires o !in cacheCoins && Counted()
      modifies this`cacheCoins, this`cachedCoinsUsage
      ensures cacheCoins == old(cacheCoins)[o := Entry(coin, false, coin.IsSpent())]
      ensures Counted()
    {
      UsagePut(cacheCoins, o, Entry(coin, false, coin.IsSpent()));
      cacheCoins := cacheCoins[o := Entry(coin, false, false)];
      if coin.IsSpent() {
        cacheCoins := cacheCoins[o := cacheCoins[o].(isFresh := true)];
      }
      cachedCoinsUsage := cachedCoinsUsage + coin.script.memory;
      assert cacheCoins == old(cacheCoins)[o := Entry(coin, false, coin.IsSpent())];
    }

    method GetCoin(o: OutPoint, ghost ch: Chain, ghost n: nat) returns (coin: Option<Coin>)
      requires n < |ch.caches| && ch.caches[n] == this && Linked(ch)
      modifies ch.caches
      ensures Linked(ch) && Snapshot(ch) == Fetch(old(Snapshot(ch)), n+1, o)
      ensures coin == Get(old(Snapshot(ch)), n+1, o)
      decreases n, 2
    {
      FetchCoin(o, ch, n);
      coin := if o in cacheCoins then Some(cacheCoins[o].coin) else None;
    }

    /** True exactly when the view shows an unspent coin. */
    method HaveCoin(o: OutPoint, ghost ch: Chain, ghost n: nat) returns (have: bool)
      requires n < |ch.caches| && ch.caches[n] == this && Linked(ch)
      modifies ch.caches
      ensures Linked(ch) && Snapshot(ch) == Fetch(old(Snapshot(ch)), n+1, o)
      ensures have <==> Unspent(old(Snapshot(ch)), n+1, o).Some?
    {
      FetchCoin(o, ch, n);
      have := o in cacheCoins && !cacheCoins[o].coin.IsSpent();
    }

    /**
    Returns whether the logic error is thrown.  A throw leaves the coins alone, but not the memory
    count: the coin that stays has been taken off it.
    */
    method AddCoin(o: OutPoint, coin: Coin, possibleOverwrite: bool) returns (thrown: bool)
      requires !coin.IsSpent()
      requires Counted()
      modifies this`cacheCoins, this`cachedCoinsUsage
      ensures thrown == AddThrows(old(cacheCoins), o, coin, possibleOverwrite)
      ensures !thrown ==> cacheCoins == AddEntry(old(cacheCoins), o, coin, possibleOverwrite)
      ensures !thrown ==> Counted()
      ensures thrown ==> cacheCoins == old(cacheCoins)
      ensures thrown ==> cachedCoinsUsage == old(cachedCoinsUsage) - old(cacheCoins)[o].coin.script.memory
    {
      if coin.script.IsUnspendable() {
        return false;
      }
      var inserted := o !in cacheCoins;
      if inserted {
        cacheCoins := cacheCoins[o := Entry(CLEARED, false, false)];
      }
      var mark := false;
      if !inserted {
        cachedCoinsUsage := cachedCoinsUsage - cacheCoins[o].coin.script.memory;
      }
      if !possibleOverwrite {
        if !cacheCoins[o].coin.IsSpent() {
          return true;
        }
        mark := !cacheCoins[o].isDirty;
      }
      cacheCoins := cacheCoins[o := Entry(coin, true, cacheCoins[o].isFresh || mark)];
      cachedCoinsUsage := cachedCoinsUsage + coin.script.memory;
      UsagePut(old(cacheCoins), o, cacheCoins[o]);
      assert cacheCoins == old(cacheCoins)[o := cacheCoins[o]];
      thrown := false;
    }

    method SpendCoin(o: OutPoint, ghost ch: Chain, ghost n: nat) returns (moveout: Option<Coin>)
      requires n < |ch.caches| && ch.caches[n] == this && Linked(ch)
      modifies ch.caches
      ensures Linked(ch)
      ensures var f := Fetch(old(Snapshot(ch)), n+1, o);
        Snapshot(ch) == f.(layers := f.layers[n := SpendEntry(f.layers[n], o)])
      ensures moveout == Get(old(Snapshot(ch)), n+1, o)
    {
      FetchCoin(o, ch, n);
      ghost var f := Snapshot(ch);
      assert f.layers[n] == ch.caches[n].cacheCoins == cacheCoins;
      if o in cacheCoins {
        moveout := Some(cacheCoins[o].coin);
        EraseSpent(o);
      } else {
        moveout := None;
      }
      assert Snapshot(ch).layers == f.layers[n := SpendEntry(f.layers[n], o)];
    }

    /** The second half of SpendCoin: drop a FRESH entry, clear any other. */
    method EraseSpent(o: OutPoint)
      requires o in cacheCoins && Counted()
      modifies this`cacheCoins, this`cachedCoinsUsage
      ensures cacheCoins == SpendEntry(old(cacheCoins), o)
      ensures Counted()
    {
      UsageSplit(cacheCoins, o);
      UsagePut(cacheCoins, o, Entry(CLEARED, true, false));
      cachedCoinsUsage := cachedCoinsUsage - cacheCoins[o].coin.script.memory;
      if cacheCoins[o].isFresh {
        cacheCoins := cacheCoins - {o};
      } else {
        cacheCoins := cacheCoins[o := Entry(CLEARED, true, false)];
      }
    }

    /** Merges a child's entries in some order; returns whether the logic error is thrown. */
    method BatchWrite(mapCoins: CoinsMap) returns (thrown: bool)
      requires Counted()
      modifies this`cacheCoins, this`cachedCoinsUsage
      ensures thrown <==> exists o :: Misapplied(old(cacheCoins), mapCoins, o)
      ensures !thrown ==> cacheCoins == Merge(old(cacheCoins), mapCoins)
      ensures Counted()
    {
      thrown := false;
      var todo := mapCoins;
      while todo != map[]
        invariant Merging(old(cacheCoins), mapCoins, todo, cacheCoins)
        invariant Counted()
        invariant !thrown
        decreases |todo|
      {
        var o :| o in todo;
        ghost var m := cacheCoins;
        if todo[o].isDirty {
          thrown := MergeOne(o, todo[o]);
          if thrown {
            MergingThrow(old(cacheCoins), mapCoins, todo, m, o);
            return;
          }
        }
        MergingStep(old(cacheCoins), mapCoins, todo, m, o, cacheCoins);
        todo := todo - {o};
      }
      MergingDone(old(cacheCoins), mapCoins, cacheCoins);
    }

    /** The body of BatchWrite's loop, for one dirty child entry. */
    method MergeOne(o: OutPoint, child: Entry) returns (thrown: bool)
      requires child.isDirty && Counted()
      modifies this`cacheCoins, this`cachedCoinsUsage
      ensures thrown <==> child.isFresh && o in old(cacheCoins) && !old(cacheCoins)[o].coin.IsSpent()
      ensures Lookup(cacheCoins, o) ==
        (if thrown then Lookup(old(cacheCoins), o) else MergeEntry(Lookup(old(cacheCoins), o), child))
      ensures forall p :: p != o ==> Lookup(cacheCoins, p) == Lookup(old(cacheCoins), p)
      ensures Counted()
    {
      thrown := false;
      if o !in cacheCoins {
        if !(child.isFresh && child.coin.IsSpent()) {
          UsagePut(cacheCoins, o, Entry(child.coin, true, child.isFresh));
          cacheCoins := cacheCoins[o := Entry(child.coin, true, child.isFresh)];
          cachedCoinsUsage := cachedCoinsUsage + child.coin.script.memory;
        }
      } else {
        var us := cacheCoins[o];
        if child.isFresh && !us.coin.IsSpent() {
          return true;
        }
        UsageSplit(cacheCoins, o);
        cachedCoinsUsage := cachedCoinsUsage - us.coin.script.memory;
        if us.isFresh && child.coin.IsSpent() {
          cacheCoins := cacheCoins - {o};
        } else {
          UsagePut(cacheCoins, o, Entry(child.coin, true, us.isFresh));
          cacheCoins := cacheCoins[o := Entry(child.coin, true, us.isFresh)];
          cachedCoinsUsage := cachedCoinsUsage + child.coin.script.memory;
        }
      }
    }

    /** In a consistent stack a flush never throws, and leaves the views as FlushCorrect says. */
    method Flush(ghost ch: Chain, ghost n: nat) returns (thrown: bool)
      requires n < |ch.caches| && ch.caches[n] == this && Linked(ch) && Inv(Snapshot(ch))
      modifies ch.db, ch.caches
      ensures !thrown
      ensures Linked(ch) && Snapshot(ch) == FlushStack(old(Snapshot(ch)), n+1)
    {
      AlwaysApplicable(Snapshot(ch), n);
      thrown := BaseBatchWrite(ch, n);
      ghost var t := Snapshot(ch);
      cacheCoins := map[];
      cachedCoinsUsage := 0;
      assert Snapshot(ch).layers == t.layers[n := map[]];
    }

    /** base->BatchWrite: into the database, or into the cache below. */
    method BaseBatchWrite(ghost ch: Chain, ghost n: nat) returns (thrown: bool)
      requires n < |ch.caches| && ch.caches[n] == this && Linked(ch) && Applicable(Snapshot(ch), n)
      modifies ch.db, ch.caches
      ensures !thrown && Linked(ch)
      ensures Snapshot(ch) == WrittenDown(old(Snapshot(ch)), n)
    {
      thrown := false;
      assert ch.caches[n].base == Below(ch, n);
      ghost var s := Snapshot(ch);
      assert s.layers[n] == cacheCoins;
      match base {
        case Disk(db) =>
          db.BatchWrite(cacheCoins);
          assert Snapshot(ch).layers == s.layers;
        case Cached(cache) =>
          assert s.layers[n-1] == cache.cacheCoins;
          assert forall o :: !Misapplied(cache.cacheCoins, cacheCoins, o);
          thrown := cache.BatchWrite(cacheCoins);
          assert Snapshot(ch).layers == s.layers[n-1 := cache.cacheCoins];
      }
    }

    method Uncache(o: OutPoint)
      requires Counted()
      modifies this`cacheCoins, this`cachedCoinsUsage
      ensures cacheCoins == UncacheEntry(old(cacheCoins), o)
      ensures Counted()
    {
      if o in cacheCoins && !cacheCoins[o].isDirty && !cacheCoins[o].isFresh {
        UsageSplit(cacheCoins, o);
        cachedCoinsUsage := cachedCoinsUsage - cacheCoins[o].coin.script.memory;
        cacheCoins := cacheCoins - {o};
      }
    }
  }
}
