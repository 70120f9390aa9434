/**
Partial Merkle trees: src/merkleblock.cpp and src/merkleblock.h (BIP 37, "Partial Merkle branch
format").

The tree is given by its builder and its extractor as functions over node coordinates; the class at
the end is the code, whose methods push bits and hashes or advance counters, proved equal to those
functions.  The pair hash is any function; it is taken collision-free only where a lemma says so.
*/
module Merkle {

  /** A 256-bit hash, as a number. */
  type Hash = nat

  const NULL: Hash := 0

  type PairHash = (Hash, Hash) -> Hash

  ghost predicate CollisionFree(H: PairHash) {
    forall a, b, c, d :: H(a, b) == H(c, d) ==> a == c && b == d
  }

  /** MAX_BLOCK_BASE_SIZE / 60. */
  const MAX_TRANSACTIONS := 4000000 / 60

  // ---------------------------------------------------------------------------------------------
  // Tree arithmetic

  function Shl(x: nat, h: nat): nat {
    if h == 0 then x else 2 * Shl(x, h-1)
  }

  function Shr(x: nat, h: nat): nat {
    if h == 0 then x else Shr(x / 2, h-1)
  }

  lemma {:induction false} ShlFacts(x: nat, h: nat)
    ensures Shl(x + 1, h) == Shl(x, h) + Shl(1, h)
    ensures Shl(2 * x, h) == 2 * Shl(x, h)
    ensures Shl(1, h) >= 1 && Shl(0, h) == 0 && Shl(x, h) >= x
  {
    if h > 0 { ShlFacts(x, h-1); }
  }

  lemma {:induction false} ShrIff(m: nat, h: nat, q: nat)
    ensures Shr(m, h) >= q <==> m >= Shl(q, h)
  {
    if h > 0 { ShrIff(m / 2, h-1, q); }
  }

  /** CalcTreeWidth: how many nodes there are at a height. */
  function Width(n: nat, h: nat): nat {
    ShlFacts(0, h);
    Shr(n + Shl(1, h) - 1, h)
  }

  /** A node exists exactly when its first leaf does. */
  lemma WidthIff(n: nat, h: nat, pos: nat)
    ensures pos < Width(n, h) <==> Shl(pos, h) < n
  {
    ShlFacts(pos, h);
    ShrIff(n + Shl(1, h) - 1, h, pos + 1);
  }

  /** The leaves below a node are those from First to Last, exclusive. */
  function First(h: nat, pos: nat): nat {
    Shl(pos, h)
  }

  function Last(n: nat, h: nat, pos: nat): nat {
    if Shl(pos + 1, h) < n then Shl(pos + 1, h) else n
  }

  predicate IsNode(n: nat, h: nat, pos: nat) {
    First(h, pos) < n
  }

  lemma ChildStarts(h: nat, pos: nat)
    requires h >= 1
    ensures Shl(2*pos, h-1) == Shl(pos, h)
    ensures Shl(2*pos+1, h-1) == Shl(pos, h) + Shl(1, h-1)
    ensures Shl(2*pos+1+1, h-1) == Shl(pos+1, h)
    ensures Shl(1, h-1) >= 1
  {
    ShlFacts(pos, h-1);
    ShlFacts(pos + 1, h-1);
    ShlFacts(2*pos, h-1);
    assert 2*pos+1+1 == 2*(pos+1);
  }

  /** The two children split the leaves; a missing right child covers nothing. */
  lemma Children(n: nat, h: nat, pos: nat)
    requires h >= 1 && IsNode(n, h, pos)
    ensures First(h-1, 2*pos) == First(h, pos)
    ensures IsNode(n, h-1, 2*pos)
    ensures 2*pos+1 < Width(n, h-1) <==> IsNode(n, h-1, 2*pos+1)
    ensures IsNode(n, h-1, 2*pos+1) ==>
      Last(n, h-1, 2*pos) == First(h-1, 2*pos+1) && Last(n, h-1, 2*pos+1) == Last(n, h, pos)
    ensures !IsNode(n, h-1, 2*pos+1) ==> Last(n, h-1, 2*pos) == n == Last(n, h, pos)
    ensures First(h, pos) < Last(n, h, pos)
  {
    ChildStarts(h, pos);
    ShlFacts(2*pos+1, h-1);
    WidthIff(n, h-1, 2*pos+1);
  }

  /** The height the constructor and the extractor compute: the first with at most one node. */
  function HeightFrom(n: nat, h: nat): (r: nat)
    ensures r >= h && Width(n, r) <= 1
    ensures forall k :: h <= k < r ==> Width(n, k) > 1
    decreases n - h
  {
    if Width(n, h) > 1 then
      WidthIff(n, h, 1);
      ShlGrows(h);
      HeightFrom(n, h+1)
    else h
  }

  lemma {:induction false} ShlGrows(h: nat)
    ensures Shl(1, h) > h
  {
    if h > 0 { ShlGrows(h-1); }
  }

  function Height(n: nat): nat {
    HeightFrom(n, 0)
  }

  lemma RootCovers(n: nat)
    requires n >= 1
    ensures IsNode(n, Height(n), 0) && First(Height(n), 0) == 0 && Last(n, Height(n), 0) == n
  {
    ShlFacts(0, Height(n));
    WidthIff(n, Height(n), 1);
  }

  // ---------------------------------------------------------------------------------------------
  // Building

  /** The hash of a node: a missing right child counts as a copy of the left one. */
  function NodeHash(H: PairHash, ids: seq<Hash>, h: nat, pos: nat): Hash
    requires IsNode(|ids|, h, pos)
    decreases h
  {
    if h == 0 then ids[pos]
    else
      Children(|ids|, h, pos);
      var left := NodeHash(H, ids, h-1, 2*pos);
      var right := if IsNode(|ids|, h-1, 2*pos+1) then NodeHash(H, ids, h-1, 2*pos+1) else left;
      H(left, right)
  }

  function MerkleRoot(H: PairHash, ids: seq<Hash>): Hash
    requires ids != []
  {
    RootCovers(|ids|);
    NodeHash(H, ids, Height(|ids|), 0)
  }

  ghost predicate AnyMatch(marks: seq<bool>, lo: nat, hi: nat)
    requires hi <= |marks|
  {
    exists p :: lo <= p < hi && marks[p]
  }

  datatype Part = Part(bits: seq<bool>, hashes: seq<Hash>)

  /** TraverseAndBuild: what the subtree at a node appends. */
  ghost function Build(H: PairHash, ids: seq<Hash>, marks: seq<bool>, h: nat, pos: nat): Part
    requires |ids| == |marks| && IsNode(|ids|, h, pos)
    decreases h
  {
    var some := AnyMatch(marks, First(h, pos), Last(|ids|, h, pos));
    if h == 0 || !some then Part([some], [NodeHash(H, ids, h, pos)])
    else
      Children(|ids|, h, pos);
      var l := Build(H, ids, marks, h-1, 2*pos);
      if IsNode(|ids|, h-1, 2*pos+1) then
        var r := Build(H, ids, marks, h-1, 2*pos+1);
        Part([some] + l.bits + r.bits, l.hashes + r.hashes)
      else
        Part([some] + l.bits, l.hashes)
  }

  ghost function BuildAll(H: PairHash, ids: seq<Hash>, marks: seq<bool>): Part
    requires |ids| == |marks| && ids != []
  {
    RootCovers(|ids|);
    Build(H, ids, marks, Height(|ids|), 0)
  }

  // ---------------------------------------------------------------------------------------------
  // Extracting

  datatype Match = Match(hash: Hash, index: nat)

  datatype Extracted = Extracted(hash: Hash, bitsUsed: nat, hashUsed: nat, found: seq<Match>, bad: bool)

  /** The extractor at a node it does not descend into: it takes one bit and one hash, if there are any left. */
  function ExtractHere(bits: seq<bool>, hashes: seq<Hash>, h: nat, pos: nat, b: nat, k: nat): Extracted {
    if b >= |bits| then Extracted(NULL, b, k, [], true)
    else if k >= |hashes| then Extracted(NULL, b+1, k, [], true)
    else Extracted(hashes[k], b+1, k+1, if h == 0 && bits[b] then [Match(hashes[k], pos)] else [], false)
  }

  /** How a node combines what its children gave. */
  function Combine(H: PairHash, l: Extracted, r: Extracted): Extracted {
    Extracted(H(l.hash, r.hash), r.bitsUsed, r.hashUsed, l.found + r.found, l.bad || r.bad || r.hash == l.hash)
  }

  function CombineOne(H: PairHash, l: Extracted): Extracted {
    l.(hash := H(l.hash, l.hash))
  }

  /** TraverseAndExtract for a tree of n leaves, from given positions in the bits and hashes. */
  function Extract(H: PairHash, n: nat, bits: seq<bool>, hashes: seq<Hash>, h: nat, pos: nat, b: nat, k: nat): Extracted
    decreases h
  {
    if h == 0 || b >= |bits| || !bits[b] then ExtractHere(bits, hashes, h, pos, b, k)
    else
      var l := Extract(H, n, bits, hashes, h-1, 2*pos, b+1, k);
      if IsNode(n, h-1, 2*pos+1)
      then Combine(H, l, Extract(H, n, bits, hashes, h-1, 2*pos+1, l.bitsUsed, l.hashUsed))
      else CombineOne(H, l)
  }

  /** What ExtractMatches returns: the root, or NULL on any failure, and what was collected. */
  datatype Answer = Answer(root: Hash, found: seq<Match>)

  function Matches(H: PairHash, n: nat, bits: seq<bool>, hashes: seq<Hash>): Answer {
    if n == 0 || n > MAX_TRANSACTIONS || |hashes| > n || |bits| < |hashes| then Answer(NULL, [])
    else
      var e := Extract(H, n, bits, hashes, Height(n), 0, 0, 0);
      if e.bad || (e.bitsUsed + 7) / 8 != (|bits| + 7) / 8 || e.hashUsed != |hashes| then Answer(NULL, e.found)
      else Answer(e.hash, e.found)
  }

  // ---------------------------------------------------------------------------------------------
  // Soundness: an accepted root vouches for every extracted pair

  ghost predicate Genuine(ids: seq<Hash>, found: seq<Match>) {
    forall m :: m in found ==> m.index < |ids| && m.hash == ids[m.index]
  }

  lemma {:induction false} ExtractSound(H: PairHash, ids: seq<Hash>, bits: seq<bool>, hashes: seq<Hash>,
                                        h: nat, pos: nat, b: nat, k: nat)
    requires CollisionFree(H) && IsNode(|ids|, h, pos)
    requires Extract(H, |ids|, bits, hashes, h, pos, b, k).hash == NodeHash(H, ids, h, pos)
    ensures Genuine(ids, Extract(H, |ids|, bits, hashes, h, pos, b, k).found)
    decreases h
  {
    hide Extract, NodeHash;
    if b < |bits| && h > 0 && bits[b] {
      Children(|ids|, h, pos);
      ExtractInner(H, |ids|, bits, hashes, h, pos, b, k);
      NodeInner(H, ids, h, pos);
      var l := Extract(H, |ids|, bits, hashes, h-1, 2*pos, b+1, k);
      var c := NodeHash(H, ids, h-1, 2*pos);
      if IsNode(|ids|, h-1, 2*pos+1) {
        var r := Extract(H, |ids|, bits, hashes, h-1, 2*pos+1, l.bitsUsed, l.hashUsed);
        var d := NodeHash(H, ids, h-1, 2*pos+1);
        assert H(l.hash, r.hash) == H(c, d);
        ExtractSound(H, ids, bits, hashes, h-1, 2*pos+1, l.bitsUsed, l.hashUsed);
      } else {
        assert H(l.hash, l.hash) == H(c, c);
      }
      ExtractSound(H, ids, bits, hashes, h-1, 2*pos, b+1, k);
    } else {
      ExtractOuter(H, |ids|, bits, hashes, h, pos, b, k);
      if h == 0 { NodeLeaf(H, ids, pos); }
    }
  }

  lemma NodeLeaf(H: PairHash, ids: seq<Hash>, pos: nat)
    requires IsNode(|ids|, 0, pos)
    ensures pos < |ids| && NodeHash(H, ids, 0, pos) == ids[pos]
  {
  }

  lemma NodeInner(H: PairHash, ids: seq<Hash>, h: nat, pos: nat)
    requires h >= 1 && IsNode(|ids|, h, pos) && IsNode(|ids|, h-1, 2*pos)
    ensures var left := NodeHash(H, ids, h-1, 2*pos);
      NodeHash(H, ids, h, pos) == H(left, if IsNode(|ids|, h-1, 2*pos+1) then NodeHash(H, ids, h-1, 2*pos+1) else left)
  {
  }

  lemma ExtractOuter(H: PairHash, n: nat, bits: seq<bool>, hashes: seq<Hash>, h: nat, pos: nat, b: nat, k: nat)
    requires IsNode(n, h, pos) && !(b < |bits| && h > 0 && bits[b])
    ensures Extract(H, n, bits, hashes, h, pos, b, k) == ExtractHere(bits, hashes, h, pos, b, k)
  {
  }

  /**
  If extraction does not fail and its root is the Merkle root of a list of the same length, every
  pair it reports is the transaction id at that index -- whoever made the bits and hashes.
  */
  lemma Soundness(H: PairHash, ids: seq<Hash>, bits: seq<bool>, hashes: seq<Hash>)
    requires CollisionFree(H) && ids != []
    requires Matches(H, |ids|, bits, hashes).root != NULL
    requires Matches(H, |ids|, bits, hashes).root == MerkleRoot(H, ids)
    ensures Genuine(ids, Matches(H, |ids|, bits, hashes).found)
  {
    RootCovers(|ids|);
    ExtractSound(H, ids, bits, hashes, Height(|ids|), 0, 0, 0);
  }

  // ---------------------------------------------------------------------------------------------
  // Which bits and hashes are accepted

  /**
  A partial tree: nodes that are not descended into, with their hash and flag, and nodes with one or two
  children.
  */
  datatype Tree = Tip(hash: Hash, flag: bool) | One(child: Tree) | Two(left: Tree, right: Tree)

  /**
  A tree with the shape of the node at a height and position, over n leaves; only a leaf that is a tip has
  its flag set.
  */
  ghost predicate Shaped(t: Tree, n: nat, h: nat, pos: nat) {
    match t
    case Tip(_, flag) => h == 0 || !flag
    case One(c) => h > 0 && !IsNode(n, h-1, 2*pos+1) && Shaped(c, n, h-1, 2*pos)
    case Two(l, r) => h > 0 && IsNode(n, h-1, 2*pos+1) && Shaped(l, n, h-1, 2*pos) && Shaped(r, n, h-1, 2*pos+1)
  }

  /** The flags in the order of a depth-first walk. */
  function FlagsOf(t: Tree): seq<bool> {
    match t
    case Tip(_, flag) => [flag]
    case One(c) => [true] + FlagsOf(c)
    case Two(l, r) => [true] + FlagsOf(l) + FlagsOf(r)
  }

  function HashesOf(t: Tree): seq<Hash> {
    match t
    case Tip(hash, _) => [hash]
    case One(c) => HashesOf(c)
    case Two(l, r) => HashesOf(l) + HashesOf(r)
  }

  function RootOf(H: PairHash, t: Tree): Hash {
    match t
    case Tip(hash, _) => hash
    case One(c) => H(RootOf(H, c), RootOf(H, c))
    case Two(l, r) => H(RootOf(H, l), RootOf(H, r))
  }

  /** No node has two children of equal hash. */
  predicate TwinFree(H: PairHash, t: Tree) {
    match t
    case Tip(_, _) => true
    case One(c) => TwinFree(H, c)
    case Two(l, r) => TwinFree(H, l) && TwinFree(H, r) && RootOf(H, l) != RootOf(H, r)
  }

  /** The flagged leaves with their indices. */
  function FlaggedIn(t: Tree, h: nat, pos: nat): seq<Match> {
    match t
    case Tip(hash, flag) => if h == 0 && flag then [Match(hash, pos)] else []
    case One(c) => if h == 0 then [] else FlaggedIn(c, h-1, 2*pos)
    case Two(l, r) => if h == 0 then [] else FlaggedIn(l, h-1, 2*pos) + FlaggedIn(r, h-1, 2*pos+1)
  }

  /**
  The bits and hashes are a tree over n leaves, with no hash left over and no bit but those that fill the
  last byte.
  */
  ghost predicate Encodes(n: nat, bits: seq<bool>, hashes: seq<Hash>, t: Tree) {
    && Shaped(t, n, Height(n), 0) && hashes == HashesOf(t)
    && FlagsOf(t) <= bits && (|FlagsOf(t)| + 7) / 8 == (|bits| + 7) / 8
  }

  ghost predicate TreeAt(bits: seq<bool>, hashes: seq<Hash>, t: Tree, b: nat, k: nat) {
    Holds(bits, hashes, Part(FlagsOf(t), HashesOf(t)), b, k)
  }

  /** Where a tree is stored, extraction walks exactly it. */
  lemma {:induction false} ExtractTree(H: PairHash, n: nat, bits: seq<bool>, hashes: seq<Hash>, t: Tree,
                                       h: nat, pos: nat, b: nat, k: nat)
    requires IsNode(n, h, pos) && Shaped(t, n, h, pos) && TreeAt(bits, hashes, t, b, k)
    ensures Extract(H, n, bits, hashes, h, pos, b, k) ==
      Extracted(RootOf(H, t), b + |FlagsOf(t)|, k + |HashesOf(t)|, FlaggedIn(t, h, pos), !TwinFree(H, t))
    decreases t
  {
    hide Extract, IsNode, TreeAt;
    FirstHeld(bits, hashes, t, b, k);
    if t.Tip? {
      ExtractOuter(H, n, bits, hashes, h, pos, b, k);
    } else {
      Children(n, h, pos);
      ExtractInner(H, n, bits, hashes, h, pos, b, k);
      ChildHeld(bits, hashes, t, b, k);
      var l := if t.One? then t.child else t.left;
      ExtractTree(H, n, bits, hashes, l, h-1, 2*pos, b+1, k);
      if t.Two? {
        ExtractTree(H, n, bits, hashes, t.right, h-1, 2*pos+1, b + 1 + |FlagsOf(l)|, k + |HashesOf(l)|);
      }
    }
  }

  lemma FirstHeld(bits: seq<bool>, hashes: seq<Hash>, t: Tree, b: nat, k: nat)
    requires TreeAt(bits, hashes, t, b, k)
    ensures b < |bits| && bits[b] == FlagsOf(t)[0]
    ensures t.Tip? ==> k < |hashes| && hashes[k] == t.hash
  {
    assert bits[b + 0] == FlagsOf(t)[0];
    assert t.Tip? ==> hashes[k + 0] == HashesOf(t)[0];
  }

  lemma ChildHeld(bits: seq<bool>, hashes: seq<Hash>, t: Tree, b: nat, k: nat)
    requires TreeAt(bits, hashes, t, b, k)
    ensures t.One? ==> TreeAt(bits, hashes, t.child, b+1, k)
    ensures t.Two? ==> TreeAt(bits, hashes, t.left, b+1, k)
    ensures t.Two? ==> TreeAt(bits, hashes, t.right, b + 1 + |FlagsOf(t.left)|, k + |HashesOf(t.left)|)
  {
    match t
    case Tip(_, _) =>
    case One(c) =>
      forall i | 0 <= i < |FlagsOf(c)| ensures bits[b + 1 + i] == FlagsOf(c)[i] {
        assert bits[b + (i + 1)] == FlagsOf(t)[i + 1];
      }
    case Two(l, r) =>
      var f, g := |FlagsOf(l)|, |HashesOf(l)|;
      forall i | 0 <= i < f ensures bits[b + 1 + i] == FlagsOf(l)[i] {
        assert bits[b + (i + 1)] == FlagsOf(t)[i + 1];
      }
      forall i | 0 <= i < |FlagsOf(r)| ensures bits[b + 1 + f + i] == FlagsOf(r)[i] {
        assert bits[b + (i + 1 + f)] == FlagsOf(t)[i + 1 + f];
      }
      forall i | 0 <= i < g ensures hashes[k + i] == HashesOf(l)[i] {
        assert hashes[k + i] == HashesOf(t)[i];
      }
      forall i | 0 <= i < |HashesOf(r)| ensures hashes[k + g + i] == HashesOf(r)[i] {
        assert hashes[k + (i + g)] == HashesOf(t)[i + g];
      }
  }

  /** What is extracted without failure is a tree. */
  lemma {:induction false} TreeOf(H: PairHash, n: nat, bits: seq<bool>, hashes: seq<Hash>,
                                  h: nat, pos: nat, b: nat, k: nat) returns (t: Tree)
    requires IsNode(n, h, pos) && !Extract(H, n, bits, hashes, h, pos, b, k).bad
    ensures Shaped(t, n, h, pos) && TreeAt(bits, hashes, t, b, k)
    ensures var e := Extract(H, n, bits, hashes, h, pos, b, k);
      e.bitsUsed == b + |FlagsOf(t)| && e.hashUsed == k + |HashesOf(t)|
    decreases h
  {
    hide Extract, IsNode, TreeAt;
    if h == 0 || b >= |bits| || !bits[b] {
      ExtractOuter(H, n, bits, hashes, h, pos, b, k);
      t := Tip(hashes[k], bits[b]);
      TipHeld(bits, hashes, t, b, k);
    } else {
      Children(n, h, pos);
      ExtractInner(H, n, bits, hashes, h, pos, b, k);
      var e := Extract(H, n, bits, hashes, h-1, 2*pos, b+1, k);
      var l := TreeOf(H, n, bits, hashes, h-1, 2*pos, b+1, k);
      if IsNode(n, h-1, 2*pos+1) {
        var r := TreeOf(H, n, bits, hashes, h-1, 2*pos+1, e.bitsUsed, e.hashUsed);
        t := Two(l, r);
      } else {
        t := One(l);
      }
      ParentHeld(bits, hashes, t, b, k);
    }
  }

  lemma TipHeld(bits: seq<bool>, hashes: seq<Hash>, t: Tree, b: nat, k: nat)
    requires b < |bits| && k < |hashes| && t == Tip(hashes[k], bits[b])
    ensures TreeAt(bits, hashes, t, b, k)
  {
  }

  lemma ParentHeld(bits: seq<bool>, hashes: seq<Hash>, t: Tree, b: nat, k: nat)
    requires b < |bits| && bits[b] && !t.Tip?
    requires t.One? ==> TreeAt(bits, hashes, t.child, b+1, k)
    requires t.Two? ==> TreeAt(bits, hashes, t.left, b+1, k)
    requires t.Two? ==> TreeAt(bits, hashes, t.right, b + 1 + |FlagsOf(t.left)|, k + |HashesOf(t.left)|)
    ensures TreeAt(bits, hashes, t, b, k)
  {
    var first := if t.One? then t.child else t.left;
    var f, g := |FlagsOf(first)|, |HashesOf(first)|;
    forall i | 0 <= i < |FlagsOf(t)| ensures bits[b + i] == FlagsOf(t)[i] {
      if 0 < i <= f {
        assert bits[b + 1 + (i - 1)] == FlagsOf(first)[i - 1];
      } else if i > f {
        assert bits[b + 1 + f + (i - 1 - f)] == FlagsOf(t.right)[i - 1 - f];
      }
    }
    forall i | 0 <= i < |HashesOf(t)| ensures hashes[k + i] == HashesOf(t)[i] {
      if i < g {
        assert hashes[k + i] == HashesOf(first)[i];
      } else {
        assert hashes[k + g + (i - g)] == HashesOf(t.right)[i - g];
      }
    }
  }

  /**
  The limits on sizes: at least one transaction and no more than fit in a block, no more hashes than leaves,
  a bit for each.
  */
  predicate SizesOk(n: nat, bits: seq<bool>, hashes: seq<Hash>) {
    1 <= n <= MAX_TRANSACTIONS && |hashes| <= n && |hashes| <= |bits|
  }

  /** The trees an answer is given for. */
  ghost predicate Acceptable(H: PairHash, n: nat, bits: seq<bool>, hashes: seq<Hash>, t: Tree) {
    SizesOk(n, bits, hashes) && Encodes(n, bits, hashes, t) && TwinFree(H, t) && RootOf(H, t) != NULL
  }

  /** Such a tree is answered with its root and its flagged leaves. */
  lemma Answered(H: PairHash, n: nat, bits: seq<bool>, hashes: seq<Hash>, t: Tree)
    requires Acceptable(H, n, bits, hashes, t)
    ensures Matches(H, n, bits, hashes) == Answer(RootOf(H, t), FlaggedIn(t, Height(n), 0))
  {
    RootCovers(n);
    ExtractTree(H, n, bits, hashes, t, Height(n), 0, 0, 0);
  }

  /** Whoever made the bits and hashes: there is a root exactly when they are such a tree. */
  lemma AcceptedIff(H: PairHash, n: nat, bits: seq<bool>, hashes: seq<Hash>)
    ensures Matches(H, n, bits, hashes).root != NULL <==> exists t :: Acceptable(H, n, bits, hashes, t)
  {
    if Matches(H, n, bits, hashes).root != NULL {
      RootCovers(n);
      var t := TreeOf(H, n, bits, hashes, Height(n), 0, 0, 0);
      ExtractTree(H, n, bits, hashes, t, Height(n), 0, 0, 0);
      assert hashes == HashesOf(t);
      assert Acceptable(H, n, bits, hashes, t);
    }
    if t :| Acceptable(H, n, bits, hashes, t) {
      Answered(H, n, bits, hashes, t);
    }
  }

  ghost predicate InOrder(f: seq<Match>, lo: nat, hi: nat) {
    && (forall i :: 0 <= i < |f| ==> lo <= f[i].index < hi)
    && (forall i, j :: 0 <= i < j < |f| ==> f[i].index < f[j].index)
  }

  lemma InOrderConcat(f: seq<Match>, g: seq<Match>, lo: nat, mid: nat, hi: nat)
    requires InOrder(f, lo, mid) && InOrder(g, mid, hi) && lo <= mid <= hi
    ensures InOrder(f + g, lo, hi)
  {
  }

  /** Indices come out in strictly increasing order, inside the node's range. */
  lemma {:induction false} ExtractInOrder(H: PairHash, n: nat, bits: seq<bool>, hashes: seq<Hash>,
                                          h: nat, pos: nat, b: nat, k: nat)
    requires IsNode(n, h, pos)
    ensures InOrder(Extract(H, n, bits, hashes, h, pos, b, k).found, First(h, pos), Last(n, h, pos))
    decreases h
  {
    hide Extract;
    ShlFacts(pos, h);
    if b < |bits| && h > 0 && bits[b] {
      Children(n, h, pos);
      ExtractInner(H, n, bits, hashes, h, pos, b, k);
      var l := Extract(H, n, bits, hashes, h-1, 2*pos, b+1, k);
      ExtractInOrder(H, n, bits, hashes, h-1, 2*pos, b+1, k);
      ShlFacts(2*pos, h-1);
      if IsNode(n, h-1, 2*pos+1) {
        var r := Extract(H, n, bits, hashes, h-1, 2*pos+1, l.bitsUsed, l.hashUsed);
        ExtractInOrder(H, n, bits, hashes, h-1, 2*pos+1, l.bitsUsed, l.hashUsed);
        ShlFacts(2*pos+1, h-1);
        InOrderConcat(l.found, r.found, First(h, pos), First(h-1, 2*pos+1), Last(n, h, pos));
      }
    } else {
      ExtractOuter(H, n, bits, hashes, h, pos, b, k);
    }
  }

  // ---------------------------------------------------------------------------------------------
  // Round trip

  /** The marked leaves of a range, in order: what the extractor is meant to find. */
  function Marked(ids: seq<Hash>, marks: seq<bool>, lo: nat, hi: nat): (r: seq<Match>)
    requires |ids| == |marks| && lo <= hi <= |ids|
    decreases hi - lo
  {
    if lo == hi then []
    else (if marks[lo] then [Match(ids[lo], lo)] else []) + Marked(ids, marks, lo+1, hi)
  }

  lemma {:induction false} MarkedSplit(ids: seq<Hash>, marks: seq<bool>, lo: nat, mid: nat, hi: nat)
    requires |ids| == |marks| && lo <= mid <= hi <= |ids|
    ensures Marked(ids, marks, lo, hi) == Marked(ids, marks, lo, mid) + Marked(ids, marks, mid, hi)
    decreases hi - lo
  {
    if lo < mid { MarkedSplit(ids, marks, lo+1, mid, hi); }
  }

  lemma {:induction false} MarkedNone(ids: seq<Hash>, marks: seq<bool>, lo: nat, hi: nat)
    requires |ids| == |marks| && lo <= hi <= |ids|
    ensures Marked(ids, marks, lo, hi) == [] <==> !AnyMatch(marks, lo, hi)
    decreases hi - lo
  {
    if lo < hi {
      MarkedNone(ids, marks, lo+1, hi);
      assert AnyMatch(marks, lo, hi) <==> marks[lo] || AnyMatch(marks, lo+1, hi);
    }
  }

  /** Marked lists exactly the marked leaves. */
  lemma {:induction false} MarkedExact(ids: seq<Hash>, marks: seq<bool>, lo: nat, hi: nat, m: Match)
    requires |ids| == |marks| && lo <= hi <= |ids|
    ensures m in Marked(ids, marks, lo, hi) <==> lo <= m.index < hi && marks[m.index] && m.hash == ids[m.index]
    decreases hi - lo
  {
    if lo < hi { MarkedExact(ids, marks, lo+1, hi, m); }
  }

  ghost predicate Distinct(ids: seq<Hash>) {
    forall i, j :: 0 <= i < j < |ids| ==> ids[i] != ids[j]
  }

  /** Two nodes at one height never have the same hash. */
  lemma {:induction false} NodesDiffer(H: PairHash, ids: seq<Hash>, h: nat, p: nat, q: nat)
    requires CollisionFree(H) && Distinct(ids) && p < q
    requires IsNode(|ids|, h, p) && IsNode(|ids|, h, q)
    ensures NodeHash(H, ids, h, p) != NodeHash(H, ids, h, q)
    decreases h
  {
    if h > 0 {
      Children(|ids|, h, p);
      Children(|ids|, h, q);
      NodesDiffer(H, ids, h-1, 2*p, 2*q);
    }
  }

  /** The stored form holds a part's bits from b on, and its hashes from k on. */
  ghost predicate Holds(bits: seq<bool>, hashes: seq<Hash>, p: Part, b: nat, k: nat) {
    && b + |p.bits| <= |bits| && (forall i :: 0 <= i < |p.bits| ==> bits[b + i] == p.bits[i])
    && k + |p.hashes| <= |hashes| && (forall i :: 0 <= i < |p.hashes| ==> hashes[k + i] == p.hashes[i])
  }

  /** Whether some descended node has two children of equal hash, which makes the extractor give up. */
  ghost predicate Twins(H: PairHash, ids: seq<Hash>, marks: seq<bool>, h: nat, pos: nat)
    requires |ids| == |marks| && IsNode(|ids|, h, pos)
    decreases h
  {
    h > 0 && AnyMatch(marks, First(h, pos), Last(|ids|, h, pos)) && (
      Children(|ids|, h, pos);
      || Twins(H, ids, marks, h-1, 2*pos)
      || (IsNode(|ids|, h-1, 2*pos+1) &&
          (|| Twins(H, ids, marks, h-1, 2*pos+1)
           || NodeHash(H, ids, h-1, 2*pos) == NodeHash(H, ids, h-1, 2*pos+1))))
  }

  lemma {:induction false} NoTwins(H: PairHash, ids: seq<Hash>, marks: seq<bool>, h: nat, pos: nat)
    requires CollisionFree(H) && Distinct(ids) && |ids| == |marks| && IsNode(|ids|, h, pos)
    ensures !Twins(H, ids, marks, h, pos)
    decreases h
  {
    if h > 0 {
      Children(|ids|, h, pos);
      NoTwins(H, ids, marks, h-1, 2*pos);
      if IsNode(|ids|, h-1, 2*pos+1) {
        NoTwins(H, ids, marks, h-1, 2*pos+1);
        NodesDiffer(H, ids, h-1, 2*pos, 2*pos+1);
      }
    }
  }

  /** What extraction gives back at a node of a built tree. */
  ghost function Expected(H: PairHash, ids: seq<Hash>, marks: seq<bool>, h: nat, pos: nat, b: nat, k: nat): Extracted
    requires |ids| == |marks| && IsNode(|ids|, h, pos)
  {
    ShlFacts(pos, h);
    var p := Build(H, ids, marks, h, pos);
    Extracted(NodeHash(H, ids, h, pos), b + |p.bits|, k + |p.hashes|,
              Marked(ids, marks, First(h, pos), Last(|ids|, h, pos)), Twins(H, ids, marks, h, pos))
  }

  lemma BuiltLeaf(H: PairHash, ids: seq<Hash>, marks: seq<bool>, bits: seq<bool>, hashes: seq<Hash>,
                  h: nat, pos: nat, b: nat, k: nat)
    requires |ids| == |marks| && IsNode(|ids|, h, pos)
    requires Holds(bits, hashes, Build(H, ids, marks, h, pos), b, k)
    requires h == 0 || !AnyMatch(marks, First(h, pos), Last(|ids|, h, pos))
    ensures Extract(H, |ids|, bits, hashes, h, pos, b, k) == Expected(H, ids, marks, h, pos, b, k)
  {
    var p := Build(H, ids, marks, h, pos);
    ShlFacts(pos, h);
    MarkedNone(ids, marks, First(h, pos), Last(|ids|, h, pos));
    assert bits[b + 0] == p.bits[0] && hashes[k + 0] == p.hashes[0];
    if h == 0 { assert Marked(ids, marks, pos+1, pos+1) == []; }
  }

  lemma {:induction false} ExtractBuilt(H: PairHash, ids: seq<Hash>, marks: seq<bool>, bits: seq<bool>,
                                        hashes: seq<Hash>, h: nat, pos: nat, b: nat, k: nat)
    requires |ids| == |marks| && IsNode(|ids|, h, pos)
    requires Holds(bits, hashes, Build(H, ids, marks, h, pos), b, k)
    ensures Extract(H, |ids|, bits, hashes, h, pos, b, k) == Expected(H, ids, marks, h, pos, b, k)
    decreases h
  {
    if h == 0 || !AnyMatch(marks, First(h, pos), Last(|ids|, h, pos)) {
      BuiltLeaf(H, ids, marks, bits, hashes, h, pos, b, k);
    } else {
      var b', k' := BuiltParts(H, ids, marks, bits, hashes, h, pos, b, k);
      ExtractBuilt(H, ids, marks, bits, hashes, h-1, 2*pos, b+1, k);
      if IsNode(|ids|, h-1, 2*pos+1) {
        ExtractBuilt(H, ids, marks, bits, hashes, h-1, 2*pos+1, b', k');
      }
      BuiltInner(H, ids, marks, bits, hashes, h, pos, b, k, b', k');
    }
  }

  lemma BuiltInner(H: PairHash, ids: seq<Hash>, marks: seq<bool>, bits: seq<bool>, hashes: seq<Hash>,
                   h: nat, pos: nat, b: nat, k: nat, b': nat, k': nat)
    requires h >= 1 && |ids| == |marks| && IsNode(|ids|, h, pos) && IsNode(|ids|, h-1, 2*pos)
    requires AnyMatch(marks, First(h, pos), Last(|ids|, h, pos)) && b < |bits| && bits[b]
    requires var l := Build(H, ids, marks, h-1, 2*pos); b' == b + 1 + |l.bits| && k' == k + |l.hashes|
    requires Extract(H, |ids|, bits, hashes, h-1, 2*pos, b+1, k) == Expected(H, ids, marks, h-1, 2*pos, b+1, k)
    requires IsNode(|ids|, h-1, 2*pos+1) ==>
      Extract(H, |ids|, bits, hashes, h-1, 2*pos+1, b', k') == Expected(H, ids, marks, h-1, 2*pos+1, b', k')
    ensures Extract(H, |ids|, bits, hashes, h, pos, b, k) == Expected(H, ids, marks, h, pos, b, k)
  {
    var l := Extract(H, |ids|, bits, hashes, h-1, 2*pos, b+1, k);
    assert l.bitsUsed == b' && l.hashUsed == k';
    if IsNode(|ids|, h-1, 2*pos+1) {
      var r := Extract(H, |ids|, bits, hashes, h-1, 2*pos+1, b', k');
      assert Expected(H, ids, marks, h, pos, b, k) == Combine(H, l, r) by { ExpectedBoth(H, ids, marks, h, pos, b, k); }
      assert Extract(H, |ids|, bits, hashes, h, pos, b, k) == Combine(H, l, r) by {
        ExtractInner(H, |ids|, bits, hashes, h, pos, b, k);
      }
    } else {
      assert Expected(H, ids, marks, h, pos, b, k) == CombineOne(H, l) by { ExpectedOne(H, ids, marks, h, pos, b, k); }
      ExtractInner(H, |ids|, bits, hashes, h, pos, b, k);
    }
  }

  lemma ExtractInner(H: PairHash, n: nat, bits: seq<bool>, hashes: seq<Hash>, h: nat, pos: nat, b: nat, k: nat)
    requires h >= 1 && IsNode(n, h, pos) && b < |bits| && bits[b]
    ensures var l := Extract(H, n, bits, hashes, h-1, 2*pos, b+1, k);
      Extract(H, n, bits, hashes, h, pos, b, k) ==
      if IsNode(n, h-1, 2*pos+1)
      then Combine(H, l, Extract(H, n, bits, hashes, h-1, 2*pos+1, l.bitsUsed, l.hashUsed))
      else CombineOne(H, l)
  {
    Children(n, h, pos);
  }

  lemma ExpectedBoth(H: PairHash, ids: seq<Hash>, marks: seq<bool>, h: nat, pos: nat, b: nat, k: nat)
    requires h >= 1 && |ids| == |marks|
    requires IsNode(|ids|, h, pos) && IsNode(|ids|, h-1, 2*pos) && IsNode(|ids|, h-1, 2*pos+1)
    requires AnyMatch(marks, First(h, pos), Last(|ids|, h, pos))
    ensures var l := Build(H, ids, marks, h-1, 2*pos);
      Expected(H, ids, marks, h, pos, b, k) ==
      Combine(H, Expected(H, ids, marks, h-1, 2*pos, b+1, k),
                 Expected(H, ids, marks, h-1, 2*pos+1, b+1+|l.bits|, k+|l.hashes|))
  {
    Children(|ids|, h, pos);
    BothMarked(ids, marks, h, pos);
  }

  lemma ExpectedOne(H: PairHash, ids: seq<Hash>, marks: seq<bool>, h: nat, pos: nat, b: nat, k: nat)
    requires h >= 1 && |ids| == |marks|
    requires IsNode(|ids|, h, pos) && IsNode(|ids|, h-1, 2*pos) && !IsNode(|ids|, h-1, 2*pos+1)
    requires AnyMatch(marks, First(h, pos), Last(|ids|, h, pos))
    ensures var l := Expected(H, ids, marks, h-1, 2*pos, b+1, k);
      Expected(H, ids, marks, h, pos, b, k) == CombineOne(H, l)
  {
    Children(|ids|, h, pos);
  }

  /** An inner node's part is its children's parts after one set bit. */
  lemma BuiltParts(H: PairHash, ids: seq<Hash>, marks: seq<bool>, bits: seq<bool>, hashes: seq<Hash>,
                   h: nat, pos: nat, b: nat, k: nat) returns (b': nat, k': nat)
    requires h >= 1 && |ids| == |marks| && IsNode(|ids|, h, pos)
    requires AnyMatch(marks, First(h, pos), Last(|ids|, h, pos))
    requires Holds(bits, hashes, Build(H, ids, marks, h, pos), b, k)
    ensures b < |bits| && bits[b] && IsNode(|ids|, h-1, 2*pos)
    ensures var l := Build(H, ids, marks, h-1, 2*pos);
      && Holds(bits, hashes, l, b+1, k)
      && b' == b + 1 + |l.bits| && k' == k + |l.hashes|
    ensures IsNode(|ids|, h-1, 2*pos+1) ==> Holds(bits, hashes, Build(H, ids, marks, h-1, 2*pos+1), b', k')
  {
    Children(|ids|, h, pos);
    var p, l := Build(H, ids, marks, h, pos), Build(H, ids, marks, h-1, 2*pos);
    var r := if IsNode(|ids|, h-1, 2*pos+1) then Build(H, ids, marks, h-1, 2*pos+1) else Part([], []);
    assert p == Part([true] + l.bits + r.bits, l.hashes + r.hashes);
    assert bits[b + 0] == p.bits[0];
    PartsHold(bits, hashes, l, r, b, k);
    b', k' := b + 1 + |l.bits|, k + |l.hashes|;
  }

  lemma PartsHold(bits: seq<bool>, hashes: seq<Hash>, l: Part, r: Part, b: nat, k: nat)
    requires Holds(bits, hashes, Part([true] + l.bits + r.bits, l.hashes + r.hashes), b, k)
    ensures Holds(bits, hashes, l, b+1, k) && Holds(bits, hashes, r, b+1+|l.bits|, k+|l.hashes|)
  {
    var p := Part([true] + l.bits + r.bits, l.hashes + r.hashes);
    forall i | 0 <= i < |l.bits| ensures bits[b+1+i] == l.bits[i] { assert bits[b + (1+i)] == p.bits[1+i]; }
    forall i | 0 <= i < |r.bits| ensures bits[b+1+|l.bits|+i] == r.bits[i] {
      assert bits[b + (1+|l.bits|+i)] == p.bits[1+|l.bits|+i];
    }
    forall i | 0 <= i < |l.hashes| ensures hashes[k+i] == l.hashes[i] { assert hashes[k+i] == p.hashes[i]; }
    forall i | 0 <= i < |r.hashes| ensures hashes[k+|l.hashes|+i] == r.hashes[i] {
      assert hashes[k + (|l.hashes|+i)] == p.hashes[|l.hashes|+i];
    }
  }

  lemma BothMarked(ids: seq<Hash>, marks: seq<bool>, h: nat, pos: nat)
    requires h >= 1 && |ids| == |marks| && IsNode(|ids|, h, pos) && IsNode(|ids|, h-1, 2*pos+1)
    ensures var n := |ids|;
      && First(h-1, 2*pos) <= Last(n, h-1, 2*pos) && First(h-1, 2*pos+1) <= Last(n, h-1, 2*pos+1)
      && First(h, pos) <= Last(n, h, pos)
      && Marked(ids, marks, First(h, pos), Last(n, h, pos)) ==
         Marked(ids, marks, First(h-1, 2*pos), Last(n, h-1, 2*pos)) +
         Marked(ids, marks, First(h-1, 2*pos+1), Last(n, h-1, 2*pos+1))
  {
    Children(|ids|, h, pos);
    ShlFacts(2*pos, h-1);
    ShlFacts(2*pos+1, h-1);
    MarkedSplit(ids, marks, First(h, pos), First(h-1, 2*pos+1), Last(|ids|, h, pos));
  }

  // ---------------------------------------------------------------------------------------------
  // Size of the stored form

  lemma SumBound(a: nat, b: nat, x: nat, y: nat, h: nat)
    requires h >= 1 && a <= 1 + x * (h-1) && b <= 1 + y * (h-1) && x + y >= 1
    ensures a + b <= 1 + (x + y) * h
  {
    assert (x + y) * h == x * (h-1) + y * (h-1) + x + y;
  }

  lemma RaiseBound(a: nat, x: nat, h: nat)
    requires h >= 1 && a <= 1 + x * (h-1)
    ensures a <= 1 + x * h
  {
    assert x * h == x * (h-1) + x;
  }

  lemma AnyBound(x: nat, h: nat)
    ensures 1 <= 1 + x * h
  {
  }

  /** Descended nodes that have a left child only. */
  ghost function Lone(n: nat, marks: seq<bool>, h: nat, pos: nat): nat
    requires n == |marks| && IsNode(n, h, pos)
    decreases h
  {
    if h == 0 || !AnyMatch(marks, First(h, pos), Last(n, h, pos)) then 0
    else
      Children(n, h, pos);
      Lone(n, marks, h-1, 2*pos) + (if IsNode(n, h-1, 2*pos+1) then Lone(n, marks, h-1, 2*pos+1) else 1)
  }

  /** A descended node stores one bit more than its children, and their hashes. */
  lemma InnerSize(H: PairHash, ids: seq<Hash>, marks: seq<bool>, h: nat, pos: nat)
    requires h >= 1 && |ids| == |marks| && IsNode(|ids|, h, pos)
    requires AnyMatch(marks, First(h, pos), Last(|ids|, h, pos))
    ensures IsNode(|ids|, h-1, 2*pos)
    ensures var p, l := Build(H, ids, marks, h, pos), Build(H, ids, marks, h-1, 2*pos);
      if IsNode(|ids|, h-1, 2*pos+1) then
        var r := Build(H, ids, marks, h-1, 2*pos+1);
        |p.bits| == 1 + |l.bits| + |r.bits| && |p.hashes| == |l.hashes| + |r.hashes|
      else |p.bits| == 1 + |l.bits| && |p.hashes| == |l.hashes|
  {
    Children(|ids|, h, pos);
  }

  /** At most one hash per leaf, and the exact number of bits. */
  lemma {:induction false} PartSize(H: PairHash, ids: seq<Hash>, marks: seq<bool>, h: nat, pos: nat)
    requires |ids| == |marks| && IsNode(|ids|, h, pos)
    ensures var p := Build(H, ids, marks, h, pos);
      && 1 <= |p.hashes| <= Last(|ids|, h, pos) - First(h, pos)
      && |p.bits| + 1 == 2 * |p.hashes| + Lone(|ids|, marks, h, pos)
    decreases h
  {
    if h > 0 && AnyMatch(marks, First(h, pos), Last(|ids|, h, pos)) {
      Children(|ids|, h, pos);
      InnerSize(H, ids, marks, h, pos);
      PartSize(H, ids, marks, h-1, 2*pos);
      if IsNode(|ids|, h-1, 2*pos+1) { PartSize(H, ids, marks, h-1, 2*pos+1); }
    } else {
      ShlFacts(pos, h);
    }
  }

  ghost function MarkedBelow(ids: seq<Hash>, marks: seq<bool>, h: nat, pos: nat): nat
    requires |ids| == |marks| && IsNode(|ids|, h, pos)
  {
    ShlFacts(pos, h);
    |Marked(ids, marks, First(h, pos), Last(|ids|, h, pos))|
  }

  lemma MarkedBelowInner(ids: seq<Hash>, marks: seq<bool>, h: nat, pos: nat)
    requires h >= 1 && |ids| == |marks| && IsNode(|ids|, h, pos)
    ensures IsNode(|ids|, h-1, 2*pos)
    ensures MarkedBelow(ids, marks, h, pos) == MarkedBelow(ids, marks, h-1, 2*pos) +
      (if IsNode(|ids|, h-1, 2*pos+1) then MarkedBelow(ids, marks, h-1, 2*pos+1) else 0)
  {
    Children(|ids|, h, pos);
    if IsNode(|ids|, h-1, 2*pos+1) { BothMarked(ids, marks, h, pos); }
  }

  lemma MarkedBelowSome(ids: seq<Hash>, marks: seq<bool>, h: nat, pos: nat)
    requires |ids| == |marks| && IsNode(|ids|, h, pos) && AnyMatch(marks, First(h, pos), Last(|ids|, h, pos))
    ensures MarkedBelow(ids, marks, h, pos) >= 1
  {
    ShlFacts(pos, h);
    MarkedNone(ids, marks, First(h, pos), Last(|ids|, h, pos));
  }

  /** At most one hash per level of each match, and one more. */
  lemma {:induction false} PartHashes(H: PairHash, ids: seq<Hash>, marks: seq<bool>, h: nat, pos: nat)
    requires |ids| == |marks| && IsNode(|ids|, h, pos)
    ensures |Build(H, ids, marks, h, pos).hashes| <= 1 + MarkedBelow(ids, marks, h, pos) * h
    decreases h
  {
    if h > 0 && AnyMatch(marks, First(h, pos), Last(|ids|, h, pos)) {
      InnerSize(H, ids, marks, h, pos);
      MarkedBelowInner(ids, marks, h, pos);
      MarkedBelowSome(ids, marks, h, pos);
      PartHashes(H, ids, marks, h-1, 2*pos);
      var x := MarkedBelow(ids, marks, h-1, 2*pos);
      if IsNode(|ids|, h-1, 2*pos+1) {
        PartHashes(H, ids, marks, h-1, 2*pos+1);
        SumBound(|Build(H, ids, marks, h-1, 2*pos).hashes|, |Build(H, ids, marks, h-1, 2*pos+1).hashes|,
                 x, MarkedBelow(ids, marks, h-1, 2*pos+1), h);
      } else {
        RaiseBound(|Build(H, ids, marks, h-1, 2*pos).hashes|, x, h);
      }
    } else {
      AnyBound(MarkedBelow(ids, marks, h, pos), h);
    }
  }

  /** The documented bounds on the number N of stored hashes. */
  lemma HashBounds(H: PairHash, ids: seq<Hash>, marks: seq<bool>)
    requires |ids| == |marks| && ids != []
    ensures var N := |BuildAll(H, ids, marks).hashes|;
      1 <= N <= |ids| && N <= 1 + |Marked(ids, marks, 0, |ids|)| * Height(|ids|)
  {
    RootCovers(|ids|);
    PartSize(H, ids, marks, Height(|ids|), 0);
    PartHashes(H, ids, marks, Height(|ids|), 0);
  }

  // ---------------------------------------------------------------------------------------------
  // Nodes with a single child

  /** Each width is half the one below, rounded up: only the last node of a level may have a single child. */
  lemma LastChild(n: nat, h: nat)
    requires h >= 1 && n >= 1
    ensures Width(n, h) >= 1 && IsNode(n, h, Width(n, h) - 1)
    ensures Width(n, h-1) == 2 * Width(n, h) - if IsNode(n, h-1, 2 * Width(n, h) - 1) then 0 else 1
  {
    hide Width, Shl;
    ShlFacts(0, h);
    var w := Width(n, h);
    WidthIff(n, h, 0);
    WidthIff(n, h, w - 1);
    WidthIff(n, h, w);
    Children(n, h, w - 1);
    ChildStarts(h, w);
    WidthIff(n, h-1, 2*w);
    WidthIff(n, h-1, 2*w - 1);
    WidthIff(n, h-1, 2*w - 2);
  }

  /** How many levels have a last node with a single child and a marked leaf. */
  ghost function LonePath(marks: seq<bool>, h: nat): nat {
    if h == 0 then 0 else LonePath(marks, h-1) + if IsLone(marks, h) then 1 else 0
  }

  ghost predicate IsLone(marks: seq<bool>, h: nat)
    requires h >= 1
  {
    var n := |marks|;
    n >= 1 && Width(n, h-1) % 2 == 1 && Width(n, h) >= 1 && AnyMatch(marks, First(h, Width(n, h) - 1), n)
  }

  /** Last nodes of lower levels are below those of higher ones. */
  lemma {:induction false} NoLonePath(marks: seq<bool>, h: nat)
    requires marks != [] && Width(|marks|, h) >= 1 && !AnyMatch(marks, First(h, Width(|marks|, h) - 1), |marks|)
    ensures LonePath(marks, h) == 0
  {
    hide Width, Shl;
    if h > 0 {
      var n := |marks|;
      LastChild(n, h);
      ChildStarts(h, Width(n, h) - 1);
      assert Width(n, h-1) >= 1;
      ShlFacts(Width(n, h-1) - 1, h-1);
      assert First(h-1, Width(n, h-1) - 1) >= First(h, Width(n, h) - 1);
      NoLonePath(marks, h-1);
    }
  }

  lemma {:induction false} LoneIs(marks: seq<bool>, h: nat, pos: nat)
    requires marks != [] && IsNode(|marks|, h, pos)
    ensures Lone(|marks|, marks, h, pos) == if pos == Width(|marks|, h) - 1 then LonePath(marks, h) else 0
    decreases h
  {
    hide Width, Shl;
    var n := |marks|;
    if h > 0 {
      LastChild(n, h);
      WidthIff(n, h, pos);
      Children(n, h, pos);
      LastIs(n, h, pos);
      if AnyMatch(marks, First(h, pos), Last(n, h, pos)) {
        LoneIs(marks, h-1, 2*pos);
        if IsNode(n, h-1, 2*pos+1) {
          LoneIs(marks, h-1, 2*pos+1);
        }
      } else if pos == Width(n, h) - 1 {
        NoLonePath(marks, h);
      }
    }
  }

  /** The last node reaches to the last leaf, and any other has both children. */
  lemma LastIs(n: nat, h: nat, pos: nat)
    requires h >= 1 && IsNode(n, h, pos)
    ensures pos == Width(n, h) - 1 ==> Last(n, h, pos) == n
    ensures pos != Width(n, h) - 1 ==> IsNode(n, h-1, 2*pos+1) && 2*pos + 1 != Width(n, h-1) - 1
  {
    hide Width, Shl;
    WidthIff(n, h, pos);
    WidthIff(n, h, pos + 1);
    LastChild(n, h);
    Children(n, h, pos);
  }

  /** The single-child nodes that the builder descends through, from widths and marks alone; at most one per level. */
  lemma LoneAtRoot(marks: seq<bool>)
    requires marks != []
    ensures var n := |marks|;
      IsNode(n, Height(n), 0) && Lone(n, marks, Height(n), 0) == LonePath(marks, Height(n)) <= Height(n)
  {
    var n := |marks|;
    RootCovers(n);
    WidthIff(n, Height(n), 0);
    LoneIs(marks, Height(n), 0);
    LonePathBound(marks, Height(n));
  }

  lemma {:induction false} LonePathBound(marks: seq<bool>, h: nat)
    ensures LonePath(marks, h) <= h
    ensures LonePath(marks, h) == 0 <==> forall l :: 1 <= l <= h ==> !IsLone(marks, l)
  {
    if h > 0 {
      LonePathBound(marks, h-1);
    }
  }

  // ---------------------------------------------------------------------------------------------
  // The documented bounds on the number of bits and on the size

  /**
  The comment on the serialization format promises at most 2*N-1 flag bits.  That holds exactly when no
  level's last node has a single child and a marked leaf, which depends only on the number of
  transactions and on which are marked.
  */
  lemma BitBound(H: PairHash, ids: seq<Hash>, marks: seq<bool>)
    requires |ids| == |marks| && ids != []
    ensures var p := BuildAll(H, ids, marks);
      && |p.bits| == 2 * |p.hashes| - 1 + LonePath(marks, Height(|ids|))
      && (|p.bits| <= 2 * |p.hashes| - 1 <==> forall l :: 1 <= l <= Height(|ids|) ==> !IsLone(marks, l))
  {
    RootCovers(|ids|);
    PartSize(H, ids, marks, Height(|ids|), 0);
    LoneAtRoot(marks);
    LonePathBound(marks, Height(|ids|));
  }

  /** Marking the last of three transactions stores 2 hashes and 4 bits. */
  lemma BitBoundFails(H: PairHash, ids: seq<Hash>)
    requires |ids| == 3
    ensures var p := BuildAll(H, ids, [false, false, true]);
      |p.bits| > 2 * |p.hashes| - 1
  {
    hide Width;
    var marks := [false, false, true];
    WidthsOf(3);
    WidthHalves(3, 0);
    WidthHalves(3, 1);
    HeightIs(3, 2);
    assert marks[2] && First(1, 1) == 2;
    assert IsLone(marks, 1);
    BitBound(H, ids, marks);
  }

  lemma WidthsOf(n: nat)
    ensures Width(n, 0) == n
  {
  }

  lemma WidthHalves(n: nat, h: nat)
    requires n >= 1
    ensures Width(n, h + 1) == (Width(n, h) + 1) / 2
  {
    hide Width;
    LastChild(n, h + 1);
  }

  /** The height is where the width reaches one. */
  lemma HeightIs(n: nat, h: nat)
    requires Width(n, h) <= 1 && forall k :: 0 <= k < h ==> Width(n, k) > 1
    ensures Height(n) == h
  {
  }

  /** The length of a compact size, the prefix of a stored vector. */
  function PrefixSize(n: nat): nat {
    if n < 253 then 1 else if n <= 0xFFFF then 3 else if n <= 0xFFFF_FFFF then 5 else 9
  }

  function Bytes(bits: nat): nat { (bits + 7) / 8 }

  /** The size of a stored partial tree: the number of transactions, the hashes, the bytes of flag bits. */
  function StoredSize(p: Part): nat {
    4 + PrefixSize(|p.hashes|) + 32 * |p.hashes| + PrefixSize(Bytes(|p.bits|)) + Bytes(|p.bits|)
  }

  /** 10 + ceil(32.25 * N), the documented guarantee. */
  function SizeLimit(hashes: nat): nat { 10 + 32 * hashes + (hashes + 3) / 4 }

  /** When a tree of N hashes and so many single-child nodes is within the limit. */
  predicate FitsLimit(hashes: nat, lone: nat)
    requires hashes >= 1
  {
    var b := Bytes(2 * hashes - 1 + lone);
    PrefixSize(hashes) + PrefixSize(b) + b <= 6 + (hashes + 3) / 4
  }

  /** The documented guarantee on the size holds exactly when this condition on hashes and single-child nodes does. */
  lemma SizeBound(H: PairHash, ids: seq<Hash>, marks: seq<bool>)
    requires |ids| == |marks| && ids != []
    ensures var p := BuildAll(H, ids, marks);
      && |p.hashes| >= 1
      && (StoredSize(p) <= SizeLimit(|p.hashes|) <==> FitsLimit(|p.hashes|, LonePath(marks, Height(|ids|))))
  {
    HashBounds(H, ids, marks);
    BitBound(H, ids, marks);
  }

  /** Without single-child nodes: up to 65535 hashes, and no further. */
  lemma FitsWithoutLone(hashes: nat)
    requires hashes >= 1
    ensures FitsLimit(hashes, 0) <==> hashes <= 65535
  {
  }

  /** With at most 252 hashes always, in any block that a partial tree may stand for. */
  lemma SizeBoundSmall(H: PairHash, ids: seq<Hash>, marks: seq<bool>)
    requires |ids| == |marks| && 1 <= |ids| <= MAX_TRANSACTIONS
    ensures var p := BuildAll(H, ids, marks); |p.hashes| <= 252 ==> StoredSize(p) <= SizeLimit(|p.hashes|)
  {
    SizeBound(H, ids, marks);
    LonePathBound(marks, Height(|ids|));
    HeightBound(|ids|);
  }

  lemma HeightBound(n: nat)
    requires n <= MAX_TRANSACTIONS
    ensures Height(n) <= 17
  {
    hide Width, Shl;
    WidthIff(n, 17, 1);
    ShlOf17();
  }

  lemma ShlOf17()
    ensures Shl(1, 17) == 131072
  {
    assert Shl(1, 5) == 32;
    assert Shl(1, 10) == 1024;
    assert Shl(1, 15) == 32768;
  }

  /** Everything marked: a hash for every leaf. */
  lemma {:induction false} AllHashes(H: PairHash, ids: seq<Hash>, marks: seq<bool>, h: nat, pos: nat)
    requires |ids| == |marks| && IsNode(|ids|, h, pos) && forall k :: 0 <= k < |marks| ==> marks[k]
    ensures |Build(H, ids, marks, h, pos).hashes| == Last(|ids|, h, pos) - First(h, pos)
    decreases h
  {
    hide Shl, Width;
    ShlFacts(pos, h);
    assert marks[First(h, pos)];
    if h > 0 {
      Children(|ids|, h, pos);
      InnerSize(H, ids, marks, h, pos);
      AllHashes(H, ids, marks, h-1, 2*pos);
      if IsNode(|ids|, h-1, 2*pos+1) { AllHashes(H, ids, marks, h-1, 2*pos+1); }
    } else {
      LeafRange(|ids|, pos);
    }
  }

  lemma LeafRange(n: nat, pos: nat)
    requires IsNode(n, 0, pos)
    ensures Last(n, 0, pos) == First(0, pos) + 1
  {
  }

  /** The widths of 1012 leaves: levels 2 and 3 are odd. */
  lemma WidthsOf1012()
    ensures Height(1012) == 10 && Width(1012, 2) == 253 && Width(1012, 3) == 127 && Width(1012, 4) == 64
  {
    hide Width;
    WidthsOf(1012);
    WidthHalves(1012, 0);
    WidthHalves(1012, 1);
    WidthHalves(1012, 2);
    WidthHalves(1012, 3);
    WidthHalves(1012, 4);
    WidthHalves(1012, 5);
    WidthHalves(1012, 6);
    WidthHalves(1012, 7);
    WidthHalves(1012, 8);
    WidthHalves(1012, 9);
    HeightIs(1012, 10);
  }

  /** The guarantee fails: a block of 1012 transactions, all marked, takes 32648 bytes instead of 32647. */
  lemma SizeBoundFails(H: PairHash, ids: seq<Hash>)
    requires |ids| == 1012
    ensures var p := BuildAll(H, ids, seq(1012, _ => true)); |p.hashes| == 1012 && StoredSize(p) > SizeLimit(1012)
  {
    hide Width, Shl, FitsLimit;
    var marks := seq(1012, _ => true);
    RootCovers(1012);
    AllHashes(H, ids, marks, Height(1012), 0);
    WidthsOf1012();
    LastMarked(marks, 3);
    LastMarked(marks, 4);
    LonePathGrows(marks, 10);
    SizeBound(H, ids, marks);
    TooMuch(LonePath(marks, 10));
  }

  lemma LastMarked(marks: seq<bool>, h: nat)
    requires h >= 1 && marks != [] && Width(|marks|, h-1) % 2 == 1 && forall k :: 0 <= k < |marks| ==> marks[k]
    ensures IsLone(marks, h)
  {
    LastChild(|marks|, h);
    assert marks[First(h, Width(|marks|, h) - 1)];
  }

  lemma {:induction false} LonePathGrows(marks: seq<bool>, h: nat)
    requires h >= 4 && IsLone(marks, 3) && IsLone(marks, 4)
    ensures LonePath(marks, h) >= 2
    decreases h
  {
    hide IsLone;
    if h > 4 {
      LonePathGrows(marks, h-1);
    } else {
      assert LonePath(marks, 3) >= 1;
    }
  }

  lemma TooMuch(lone: nat)
    requires lone >= 2
    ensures !FitsLimit(1012, lone)
  {
    assert Bytes(2 * 1012 - 1 + lone) >= 254;
  }

  // ---------------------------------------------------------------------------------------------
  // Packing the bits into bytes, least significant bit first

  /** 1 << k, for a bit of a byte. */
  function Mask(k: nat): bv8
    requires k < 8
  {
    if k == 0 then 1 else if k == 1 then 2 else if k == 2 then 4 else if k == 3 then 8
    else if k == 4 then 16 else if k == 5 then 32 else if k == 6 then 64 else 128
  }

  predicate BitAt(bytes: seq<bv8>, p: nat)
    requires p < 8 * |bytes|
  {
    bytes[p / 8] & Mask(p % 8) != 0
  }

  lemma OrMask(x: bv8, j: nat, k: nat)
    requires j < 8 && k < 8
    ensures (x | Mask(k)) & Mask(j) != 0 <==> j == k || x & Mask(j) != 0
  {
  }

  /** vBytes[p / 8] |= bit << (p % 8) */
  function OrBit(bytes: seq<bv8>, p: nat, bit: bool): (r: seq<bv8>)
    requires p < 8 * |bytes|
    ensures |r| == |bytes|
  {
    bytes[p / 8 := bytes[p / 8] | (if bit then Mask(p % 8) else 0)]
  }

  lemma OrBitAt(bytes: seq<bv8>, p: nat, bit: bool, q: nat)
    requires p < 8 * |bytes| && q < 8 * |bytes|
    ensures BitAt(OrBit(bytes, p, bit), q) <==> BitAt(bytes, q) || (bit && q == p)
  {
    if p / 8 == q / 8 { OrMask(bytes[p / 8], q % 8, p % 8); }
  }

  method Pack(bits: seq<bool>) returns (bytes: seq<bv8>)
    ensures |bytes| == (|bits| + 7) / 8
    ensures forall p :: 0 <= p < 8 * |bytes| ==> (BitAt(bytes, p) <==> p < |bits| && bits[p])
  {
    bytes := seq((|bits| + 7) / 8, _ => 0 as bv8);
    for p := 0 to |bits|
      invariant |bytes| == (|bits| + 7) / 8
      invariant forall q :: 0 <= q < 8 * |bytes| ==> (BitAt(bytes, q) <==> q < p && bits[q])
    {
      forall q | 0 <= q < 8 * |bytes| ensures BitAt(OrBit(bytes, p, bits[p]), q) <==> q < p + 1 && bits[q] {
        OrBitAt(bytes, p, bits[p], q);
      }
      bytes := OrBit(bytes, p, bits[p]);
    }
  }

  method Unpack(bytes: seq<bv8>) returns (bits: seq<bool>)
    ensures |bits| == 8 * |bytes|
    ensures forall p :: 0 <= p < |bits| ==> (bits[p] <==> BitAt(bytes, p))
  {
    bits := [];
    for p := 0 to 8 * |bytes|
      invariant |bits| == p
      invariant forall q :: 0 <= q < p ==> (bits[q] <==> BitAt(bytes, q))
    {
      bits := bits + [bytes[p / 8] & Mask(p % 8) != 0];
    }
  }

  /** The bits as they come back from a stream: padded with zeros to a whole number of bytes. */
  function Padded(bits: seq<bool>): (r: seq<bool>)
    ensures |r| == 8 * ((|bits| + 7) / 8) && bits <= r
  {
    bits + seq(8 * ((|bits| + 7) / 8) - |bits|, _ => false)
  }

  /**
  Building a partial tree, storing it and reading it back, and extracting gives the true Merkle root
  and exactly the marked transactions with their indices, in order.
  */
  lemma RoundTrip(H: PairHash, ids: seq<Hash>, marks: seq<bool>)
    requires CollisionFree(H) && Distinct(ids) && |ids| == |marks| && 1 <= |ids| <= MAX_TRANSACTIONS
    ensures var p := BuildAll(H, ids, marks);
      Matches(H, |ids|, Padded(p.bits), p.hashes) == Answer(MerkleRoot(H, ids), Marked(ids, marks, 0, |ids|))
  {
    var n, h, p := |ids|, Height(|ids|), BuildAll(H, ids, marks);
    RootCovers(n);
    PartSize(H, ids, marks, h, 0);
    NoTwins(H, ids, marks, h, 0);
    assert Holds(Padded(p.bits), p.hashes, p, 0, 0);
    ExtractBuilt(H, ids, marks, Padded(p.bits), p.hashes, h, 0, 0, 0);
  }

  // ---------------------------------------------------------------------------------------------
  // The code

  lemma BuildChildren(H: PairHash, ids: seq<Hash>, marks: seq<bool>, h: nat, pos: nat) returns (l: Part, r: Part)
    requires h >= 1 && |ids| == |marks| && IsNode(|ids|, h, pos)
    requires AnyMatch(marks, First(h, pos), Last(|ids|, h, pos))
    ensures IsNode(|ids|, h-1, pos*2) && l == Build(H, ids, marks, h-1, pos*2)
    ensures pos*2+1 < Width(|ids|, h-1) <==> IsNode(|ids|, h-1, pos*2+1)
    ensures r == if IsNode(|ids|, h-1, pos*2+1) then Build(H, ids, marks, h-1, pos*2+1) else Part([], [])
    ensures Build(H, ids, marks, h, pos) == Part([true] + l.bits + r.bits, l.hashes + r.hashes)
  {
    Children(|ids|, h, pos);
    l := Build(H, ids, marks, h-1, pos*2);
    r := if IsNode(|ids|, h-1, pos*2+1) then Build(H, ids, marks, h-1, pos*2+1) else Part([], []);
  }

  lemma Regroup<T>(a: seq<T>, b: seq<T>, c: seq<T>, d: seq<T>)
    ensures a + b + c + d == a + (b + c + d)
    ensures b == [] ==> a + b == a && a + c + d == a + (c + d)
    ensures d == [] ==> a + b + c + d == a + b + c
  {
  }

  class PartialMerkleTree {
    const H: PairHash
    var nTransactions: nat
    var vBits: seq<bool>
    var vHash: seq<Hash>
    var fBad: bool

    /** From a block's transaction ids and the mask of those that match. */
    constructor (H: PairHash, vTxid: seq<Hash>, vMatch: seq<bool>)
      requires |vTxid| == |vMatch| && vTxid != []
      ensures this.H == H && nTransactions == |vTxid| && !fBad
      ensures vBits == BuildAll(H, vTxid, vMatch).bits && vHash == BuildAll(H, vTxid, vMatch).hashes
    {
      this.H := H;
      nTransactions, fBad := |vTxid|, false;
      vBits, vHash := [], [];
      new;
      var nHeight := CalcHeight();
      RootCovers(|vTxid|);
      TraverseAndBuild(nHeight, 0, vTxid, vMatch);
      assert [] + BuildAll(H, vTxid, vMatch).bits == vBits;
    }

    /** From the fields of a stream. */
    constructor Read(H: PairHash, nTransactions: nat, vHash: seq<Hash>, vBytes: seq<bv8>)
      ensures this.H == H && this.nTransactions == nTransactions && this.vHash == vHash && !fBad
      ensures |vBits| == 8 * |vBytes| && forall p :: 0 <= p < |vBits| ==> (vBits[p] <==> BitAt(vBytes, p))
    {
      this.H := H;
      this.nTransactions, this.vHash, fBad := nTransactions, vHash, false;
      new;
      vBits := Unpack(vBytes);
    }

    method CalcHeight() returns (nHeight: nat)
      ensures nHeight == Height(nTransactions)
    {
      nHeight := 0;
      while Width(nTransactions, nHeight) > 1
        invariant HeightFrom(nTransactions, nHeight) == Height(nTransactions)
        decreases HeightFrom(nTransactions, nHeight) - nHeight
      {
        nHeight := nHeight + 1;
      }
    }

    method CalcHash(height: nat, pos: nat, vTxid: seq<Hash>) returns (hash: Hash)
      requires |vTxid| == nTransactions && IsNode(nTransactions, height, pos)
      ensures hash == NodeHash(H, vTxid, height, pos)
      decreases height
    {
      if height == 0 {
        hash := vTxid[pos];
      } else {
        Children(nTransactions, height, pos);
        var left := CalcHash(height-1, pos*2, vTxid);
        var right := left;
        if pos*2+1 < Width(nTransactions, height-1) {
          right := CalcHash(height-1, pos*2+1, vTxid);
        }
        hash := H(left, right);
      }
    }

    /** The loop that asks whether a node has a matched txid below it. */
    method ParentOfMatch(height: nat, pos: nat, vMatch: seq<bool>) returns (fParentOfMatch: bool)
      requires |vMatch| == nTransactions && IsNode(nTransactions, height, pos)
      ensures fParentOfMatch == AnyMatch(vMatch, First(height, pos), Last(nTransactions, height, pos))
    {
      fParentOfMatch := false;
      var p := Shl(pos, height);
      ghost var last := Last(nTransactions, height, pos);
      assert p <= last by { ShlFacts(pos, height); }
      while p < Shl(pos + 1, height) && p < nTransactions
        invariant First(height, pos) <= p <= last
        invariant fParentOfMatch <==> AnyMatch(vMatch, First(height, pos), p)
      {
        fParentOfMatch := fParentOfMatch || vMatch[p];
        p := p + 1;
      }
    }

    method TraverseAndBuild(height: nat, pos: nat, vTxid: seq<Hash>, vMatch: seq<bool>)
      requires |vTxid| == |vMatch| == nTransactions && IsNode(nTransactions, height, pos)
      modifies this`vBits, this`vHash
      ensures vBits == old(vBits) + Build(H, vTxid, vMatch, height, pos).bits
      ensures vHash == old(vHash) + Build(H, vTxid, vMatch, height, pos).hashes
      decreases height
    {
      ghost var part := Build(H, vTxid, vMatch, height, pos);
      var fParentOfMatch := ParentOfMatch(height, pos, vMatch);
      vBits := vBits + [fParentOfMatch];
      if height == 0 || !fParentOfMatch {
        var hash := CalcHash(height, pos, vTxid);
        vHash := vHash + [hash];
      } else {
        ghost var l, r := BuildChildren(H, vTxid, vMatch, height, pos);
        TraverseAndBuild(height-1, pos*2, vTxid, vMatch);
        if pos*2+1 < Width(nTransactions, height-1) {
          TraverseAndBuild(height-1, pos*2+1, vTxid, vMatch);
          assert vBits == old(vBits) + [true] + l.bits + r.bits;
          assert vHash == old(vHash) + l.hashes + r.hashes;
        } else {
          assert r == Part([], []);
        }
        Regroup(old(vBits), [true], l.bits, r.bits);
        Regroup(old(vHash), [], l.hashes, r.hashes);
        assert vBits == old(vBits) + part.bits;
      }
    }

    /** Advances the two counters from the given positions; the matches below the node are handed up. */
    method TraverseAndExtract(height: nat, pos: nat, nBitsUsed: nat, nHashUsed: nat)
        returns (hash: Hash, bitsUsed: nat, hashUsed: nat, found: seq<Match>)
      modifies this`fBad
      ensures var e := Extract(H, nTransactions, vBits, vHash, height, pos, nBitsUsed, nHashUsed);
        e == Extracted(hash, bitsUsed, hashUsed, found, e.bad) && fBad == (old(fBad) || e.bad)
      decreases height
    {
      if nBitsUsed >= |vBits| {
        fBad := true;
        return NULL, nBitsUsed, nHashUsed, [];
      }
      var fParentOfMatch := vBits[nBitsUsed];
      bitsUsed, hashUsed := nBitsUsed + 1, nHashUsed;
      if height == 0 || !fParentOfMatch {
        if hashUsed >= |vHash| {
          fBad := true;
          return NULL, bitsUsed, hashUsed, [];
        }
        hash := vHash[hashUsed];
        hashUsed := hashUsed + 1;
        found := [];
        if height == 0 && fParentOfMatch {
          found := [Match(hash, pos)];
        }
      } else {
        ghost var e := Extract(H, nTransactions, vBits, vHash, height, pos, nBitsUsed, nHashUsed);
        ghost var l := Extract(H, nTransactions, vBits, vHash, height-1, pos*2, nBitsUsed + 1, nHashUsed);
        WidthIff(nTransactions, height-1, pos*2+1);
        var left;
        left, bitsUsed, hashUsed, found := TraverseAndExtract(height-1, pos*2, bitsUsed, hashUsed);
        assert l == Extracted(left, bitsUsed, hashUsed, found, l.bad) && fBad == (old(fBad) || l.bad);
        var right := left;
        if pos*2+1 < Width(nTransactions, height-1) {
          ghost var r := Extract(H, nTransactions, vBits, vHash, height-1, pos*2+1, bitsUsed, hashUsed);
          var more;
          right, bitsUsed, hashUsed, more := TraverseAndExtract(height-1, pos*2+1, bitsUsed, hashUsed);
          found := found + more;
          if right == left {
            fBad := true;
          }
          assert e == Combine(H, l, r);
        } else {
          assert e == CombineOne(H, l);
        }
        hash := H(left, right);
      }
    }

    /** The root, or NULL on failure; the pairs collected on the way. */
    method ExtractMatches() returns (root: Hash, found: seq<Match>)
      modifies this`fBad
      ensures var a := Matches(H, nTransactions, vBits, vHash);
        found == a.found && root == if old(fBad) then NULL else a.root
      ensures root != NULL <==> !old(fBad) && exists t :: Acceptable(H, nTransactions, vBits, vHash, t)
    {
      AcceptedIff(H, nTransactions, vBits, vHash);
      hide Acceptable;
      root, found := NULL, [];
      if nTransactions == 0 || nTransactions > MAX_TRANSACTIONS || |vHash| > nTransactions || |vBits| < |vHash| {
        return;
      }
      var nHeight := CalcHeight();
      var hash, nBitsUsed, nHashUsed;
      hash, nBitsUsed, nHashUsed, found := TraverseAndExtract(nHeight, 0, 0, 0);
      if fBad || (nBitsUsed + 7) / 8 != (|vBits| + 7) / 8 || nHashUsed != |vHash| {
        return;
      }
      root := hash;
    }
  }

  /** One node builds and stores a partial tree, another reads it and extracts the matches. */
  method Relay(H: PairHash, vTxid: seq<Hash>, vMatch: seq<bool>) returns (root: Hash, found: seq<Match>)
    requires CollisionFree(H) && Distinct(vTxid) && |vTxid| == |vMatch| && 1 <= |vTxid| <= MAX_TRANSACTIONS
    ensures root == MerkleRoot(H, vTxid) && found == Marked(vTxid, vMatch, 0, |vTxid|)
  {
    var sent := new PartialMerkleTree(H, vTxid, vMatch);
    var vBytes := Pack(sent.vBits);
    var received := new PartialMerkleTree.Read(H, sent.nTransactions, sent.vHash, vBytes);
    assert received.vBits == Padded(sent.vBits);
    RoundTrip(H, vTxid, vMatch);
    root, found := received.ExtractMatches();
  }
}
