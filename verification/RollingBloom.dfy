/** The rolling Bloom filter (CRollingBloomFilter, src/bloom.cpp:322-418). */
module RollingBloom {
  import opened Basics

  // ---------------------------------------------------------------------------------------------
  // 64-bit words, bit by bit

  /** A word as its bits, the lowest first. */
  type Word = w: seq<bool> | |w| == 64 witness seq(64, _ => false)

  function And(x: Word, y: Word): Word { seq(64, i requires 0 <= i < 64 => x[i] && y[i]) }
  function Or(x: Word, y: Word): Word { seq(64, i requires 0 <= i < 64 => x[i] || y[i]) }
  function Xor(x: Word, y: Word): Word { seq(64, i requires 0 <= i < 64 => x[i] != y[i]) }
  function Not(x: Word): Word { seq(64, i requires 0 <= i < 64 => !x[i]) }

  /** One bit, shifted left; and a word shifted right. */
  function Shl(on: bool, b: nat): Word { seq(64, i => on && i == b) }
  function Shr(x: Word, b: nat): Word { seq(64, i requires 0 <= i < 64 => i + b < 64 && x[i + b]) }

  /** The negative of one bit: all ones or all zeros. */
  function Mask(on: bool): Word { seq(64, _ => on) }

  // ---------------------------------------------------------------------------------------------
  // Two-bit cells: 0 for unset, otherwise the number of a generation

  /** The place of a cell: one bit in each of two neighbouring words, the first one at an even position. */
  datatype Place = Place(word: nat, bit: nat)

  predicate InRange(size: nat, p: Place) {
    p.word % 2 == 0 && p.word + 1 < size && p.bit < 64
  }

  function Cell(data: seq<Word>, p: Place): nat
    requires InRange(|data|, p)
  {
    (if data[p.word][p.bit] then 1 else 0) + (if data[p.word + 1][p.bit] then 2 else 0)
  }

  /** Two words with every cell that holds the generation cleared. */
  function Wiped(p1: Word, p2: Word, gen: nat): (Word, Word) {
    var mask := Or(Xor(p1, Mask(gen % 2 == 1)), Xor(p2, Mask(gen / 2 == 1)));
    (And(p1, mask), And(p2, mask))
  }

  lemma WipedCell(data: seq<Word>, next: seq<Word>, gen: nat, p: Place)
    requires InRange(|data|, p) && |data| == |next| && 1 <= gen <= 3
    requires (next[p.word], next[p.word + 1]) == Wiped(data[p.word], data[p.word + 1], gen)
    ensures Cell(next, p) == if Cell(data, p) == gen then 0 else Cell(data, p)
  {
  }

  function Replaced(x: Word, b: nat, on: bool): Word {
    Or(And(x, Not(Shl(true, b))), Shl(on, b))
  }

  /** The data with one cell set. */
  function CellSet(data: seq<Word>, p: Place, gen: nat): (next: seq<Word>)
    requires InRange(|data|, p)
    ensures |next| == |data|
  {
    var low, high := Replaced(data[p.word], p.bit, gen % 2 == 1), Replaced(data[p.word + 1], p.bit, gen / 2 == 1);
    data[p.word := low][p.word + 1 := high]
  }

  /** Setting one cell leaves the others alone. */
  lemma SetCell(data: seq<Word>, p: Place, gen: nat, q: Place)
    requires InRange(|data|, p) && InRange(|data|, q) && gen <= 3
    ensures Cell(CellSet(data, p, gen), q) == if q == p then gen else Cell(data, q)
  {
  }

  /** The number of a generation, of which three are in use at a time. */
  function Number(g: nat): nat { g % 3 + 1 }

  /** A cell that was set in generation a, or again since. */
  predicate Fresh(v: nat, a: nat, g: nat) {
    || (a <= g && v == Number(g))
    || (a + 1 <= g && v == Number(g - 1))
    || (a + 2 <= g && v == Number(g - 2))
  }

  type Hash<!Key> = (nat, Key) -> nat

  /** The cell of a key for one hash function. */
  function At<Key>(hash: Hash<Key>, size: nat, n: nat, key: Key): (p: Place)
    requires size >= 2 && size % 2 == 0
    ensures InRange(size, p)
  {
    var h := hash(n, key);
    var pos := (h / 64) % size;
    Place(pos - pos % 2, h % 64)
  }

  predicate Even(data: seq<Word>) { |data| >= 2 && |data| % 2 == 0 }

  /** All cells of a key were set in its generation or since. */
  ghost predicate AllFresh<Key>(data: seq<Word>, hash: Hash<Key>, hashes: nat, key: Key, a: nat, g: nat)
    requires Even(data)
  {
    forall n :: 0 <= n < hashes ==> Fresh(Cell(data, At(hash, |data|, n, key)), a, g)
  }

  /** So for the keys of the last three generations. */
  ghost predicate Remembers<Key>(data: seq<Word>, hash: Hash<Key>, hashes: nat, per: nat, history: seq<Key>, g: nat)
    requires per > 0 && Even(data)
  {
    forall i :: 0 <= i < |history| && i / per + 2 >= g ==> AllFresh(data, hash, hashes, history[i], i / per, g)
  }

  lemma GenerationOf(i: nat, g: nat, per: nat)
    requires per > 0
    ensures i < (g + 1) * per ==> i / per <= g
    ensures g * per <= i ==> i / per >= g
  {
    assert i == (i / per) * per + i % per;
    if i / per > g {
      MulMonotone(g + 1, i / per, per);
    } else if i / per < g {
      MulMonotone(i / per + 1, g, per);
    }
  }

  /** The generation that is wiped is the one before the last three. */
  lemma NextGeneration(v: nat, a: nat, g: nat)
    requires Fresh(v, a, g) && a + 2 >= g + 1
    ensures v != Number(g + 1) && v != 0 && Fresh(v, a, g + 1)
  {
  }

  lemma WipeRemembers<Key>(data: seq<Word>, next: seq<Word>, hash: Hash<Key>, hashes: nat, per: nat, history: seq<Key>,
                           g: nat)
    requires per > 0 && Even(data) && Remembers(data, hash, hashes, per, history, g) && |next| == |data|
    requires forall w :: 0 <= w < |data| && w % 2 == 0 ==> WordsWiped(data, next, w, Number(g + 1))
    ensures Remembers(next, hash, hashes, per, history, g + 1)
  {
    hide Wiped, Cell, Number, At;
    NumberBounds(g + 1);
    forall i | 0 <= i < |history| && i / per + 2 >= g + 1
      ensures AllFresh(next, hash, hashes, history[i], i / per, g + 1)
    {
      forall n | 0 <= n < hashes ensures Fresh(Cell(next, At(hash, |next|, n, history[i])), i / per, g + 1) {
        var p := At(hash, |data|, n, history[i]);
        assert Fresh(Cell(data, p), i / per, g);
        NextGeneration(Cell(data, p), i / per, g);
        assert WordsWiped(data, next, p.word, Number(g + 1));
        WipedCell(data, next, Number(g + 1), p);
      }
    }
  }

  ghost predicate WordsWiped(data: seq<Word>, next: seq<Word>, w: nat, gen: nat)
    requires |data| == |next|
  {
    w + 1 < |data| && (next[w], next[w + 1]) == Wiped(data[w], data[w + 1], gen)
  }

  lemma NumberBounds(g: nat)
    ensures 1 <= Number(g) <= 3
  {
  }

  lemma SetRemembers<Key>(data: seq<Word>, p: Place, hash: Hash<Key>, hashes: nat, per: nat, history: seq<Key>, g: nat)
    requires per > 0 && Even(data) && Remembers(data, hash, hashes, per, history, g) && InRange(|data|, p)
    requires |history| <= (g + 1) * per
    ensures Remembers(CellSet(data, p, Number(g)), hash, hashes, per, history, g)
  {
    hide CellSet, Cell, Number, At;
    NumberBounds(g);
    var next := CellSet(data, p, Number(g));
    forall i | 0 <= i < |history| && i / per + 2 >= g ensures AllFresh(next, hash, hashes, history[i], i / per, g) {
      GenerationOf(i, g, per);
      forall n | 0 <= n < hashes ensures Fresh(Cell(next, At(hash, |next|, n, history[i])), i / per, g) {
        SetCell(data, p, Number(g), At(hash, |data|, n, history[i]));
      }
    }
  }

  /** A key whose cells have all just been set is remembered too. */
  lemma Remembered<Key>(data: seq<Word>, hash: Hash<Key>, hashes: nat, per: nat, history: seq<Key>, key: Key, g: nat)
    requires per > 0 && Even(data) && Remembers(data, hash, hashes, per, history, g)
    requires g * per <= |history| < (g + 1) * per
    requires forall n :: 0 <= n < hashes ==> Cell(data, At(hash, |data|, n, key)) == Number(g)
    ensures Remembers(data, hash, hashes, per, history + [key], g)
  {
    hide Cell, At, Number;
    var all := history + [key];
    GenerationOf(|history|, g, per);
    assert AllFresh(data, hash, hashes, key, g, g);
    forall i | 0 <= i < |all| && i / per + 2 >= g ensures AllFresh(data, hash, hashes, all[i], i / per, g) {
      if i < |history| {
        assert all[i] == history[i];
      }
    }
  }

  // ---------------------------------------------------------------------------------------------
  // Forgetting: no cell is set but by a key of the last three generations

  /** The n-th hash of key i, which is of the last three generations, gives this cell. */
  ghost predicate Gives<Key>(hash: Hash<Key>, size: nat, hashes: nat, per: nat, history: seq<Key>, g: nat, p: Place,
                             i: int, n: int)
    requires per > 0 && size >= 2 && size % 2 == 0
  {
    && 0 <= i < |history| && 0 <= n < hashes && g <= i / per + 2 && i / per <= g
    && At(hash, size, n, history[i]) == p
  }

  ghost predicate Given<Key>(hash: Hash<Key>, size: nat, hashes: nat, per: nat, history: seq<Key>, g: nat, p: Place)
    requires per > 0 && size >= 2 && size % 2 == 0
  {
    exists i, n :: Gives(hash, size, hashes, per, history, g, p, i, n)
  }

  /** A cell holds the number of the generation of a key that gives it. */
  ghost predicate Traced<Key>(hash: Hash<Key>, size: nat, hashes: nat, per: nat, history: seq<Key>, g: nat, p: Place,
                              v: nat)
    requires per > 0 && size >= 2 && size % 2 == 0
  {
    exists i, n :: Gives(hash, size, hashes, per, history, g, p, i, n) && v == Number(i / per)
  }

  /** So for every cell that is set, but for those of a key that is being inserted. */
  ghost predicate Forgets<Key>(data: seq<Word>, hash: Hash<Key>, hashes: nat, per: nat, history: seq<Key>, g: nat,
                               pending: set<Place>)
    requires per > 0 && Even(data)
  {
    forall p :: InRange(|data|, p) && Cell(data, p) != 0 && p !in pending ==>
      Traced(hash, |data|, hashes, per, history, g, p, Cell(data, p))
  }

  /** Wiping the cells of the next number leaves only the last two generations and the new one. */
  lemma WipeForgets<Key>(data: seq<Word>, next: seq<Word>, hash: Hash<Key>, hashes: nat, per: nat, history: seq<Key>,
                         g: nat)
    requires per > 0 && Even(data) && Forgets(data, hash, hashes, per, history, g, {}) && |next| == |data|
    requires forall w :: 0 <= w < |data| && w % 2 == 0 ==> WordsWiped(data, next, w, Number(g + 1))
    ensures Forgets(next, hash, hashes, per, history, g + 1, {})
  {
    hide Wiped, Cell, At, Number;
    NumberBounds(g + 1);
    forall p | InRange(|next|, p) && Cell(next, p) != 0
      ensures Traced(hash, |next|, hashes, per, history, g + 1, p, Cell(next, p))
    {
      assert WordsWiped(data, next, p.word, Number(g + 1));
      WipedCell(data, next, Number(g + 1), p);
      var i, n :| Gives(hash, |data|, hashes, per, history, g, p, i, n) && Cell(data, p) == Number(i / per);
      SameNumber(i / per, g);
      assert Gives(hash, |data|, hashes, per, history, g + 1, p, i, n);
    }
  }

  lemma SameNumber(a: nat, g: nat)
    requires a <= g <= a + 2 && Number(a) != Number(g + 1)
    ensures g + 1 <= a + 2
  {
  }

  lemma SetForgets<Key>(data: seq<Word>, p: Place, v: nat, hash: Hash<Key>, hashes: nat, per: nat, history: seq<Key>,
                        g: nat, pending: set<Place>)
    requires per > 0 && Even(data) && Forgets(data, hash, hashes, per, history, g, pending) && InRange(|data|, p)
    requires v <= 3
    ensures Forgets(CellSet(data, p, v), hash, hashes, per, history, g, pending + {p})
  {
    hide CellSet, Cell, At, Number, Traced;
    var next := CellSet(data, p, v);
    forall q | InRange(|next|, q) && Cell(next, q) != 0 && q !in pending + {p}
      ensures Traced(hash, |next|, hashes, per, history, g, q, Cell(next, q))
    {
      SetCell(data, p, v, q);
    }
  }

  /** The key is inserted: its cells, too, are given by a recent key. */
  lemma InsertForgets<Key>(data: seq<Word>, hash: Hash<Key>, hashes: nat, per: nat, history: seq<Key>, key: Key,
                           g: nat, pending: set<Place>)
    requires per > 0 && Even(data) && Forgets(data, hash, hashes, per, history, g, pending)
    requires |history| / per == g
    requires forall p :: p in pending ==>
      InRange(|data|, p) && Cell(data, p) == Number(g) && exists n :: 0 <= n < hashes && At(hash, |data|, n, key) == p
    ensures Forgets(data, hash, hashes, per, history + [key], g, {})
  {
    hide Cell, At, Number;
    var all, last := history + [key], |history|;
    forall p | InRange(|data|, p) && Cell(data, p) != 0
      ensures Traced(hash, |data|, hashes, per, all, g, p, Cell(data, p))
    {
      if p in pending {
        var n :| 0 <= n < hashes && At(hash, |data|, n, key) == p;
        assert Gives(hash, |data|, hashes, per, all, g, p, last, n);
      } else {
        var i, n :| Gives(hash, |data|, hashes, per, history, g, p, i, n) && Cell(data, p) == Number(i / per);
        assert Gives(hash, |data|, hashes, per, all, g, p, i, n);
      }
    }
  }

  lemma CellSetWords(was: seq<Word>, p: Place, gen: nat, now: seq<Word>)
    requires InRange(|was|, p) && |now| == |was|
    requires now[p.word] == Replaced(was[p.word], p.bit, gen % 2 == 1)
    requires now[p.word + 1] == Replaced(was[p.word + 1], p.bit, gen / 2 == 1)
    requires forall w :: 0 <= w < |was| && w != p.word && w != p.word + 1 ==> now[w] == was[w]
    ensures now == CellSet(was, p, gen)
  {
  }

  class Filter<Key> {
    const nHashFuncs: nat
    const nElements: nat
    const nEntriesPerGeneration: nat
    var hash: Hash<Key>               // the hash functions the current tweak picks
    const data: array<Word>
    var nEntriesThisGeneration: nat
    var nGeneration: nat
    ghost var generation: nat         // generations begun since the last reset, not counting the first
    ghost var history: seq<Key>       // keys inserted since the last reset

    ghost predicate Valid()
      reads this, data
    {
      && nElements > 0 && nEntriesPerGeneration == (nElements + 1) / 2 && Even(data[..])
      && nGeneration == Number(generation)
      && |history| == generation * nEntriesPerGeneration + nEntriesThisGeneration
      && nEntriesThisGeneration <= nEntriesPerGeneration
      && Remembers(data[..], hash, nHashFuncs, nEntriesPerGeneration, history, generation)
      && Forgets(data[..], hash, nHashFuncs, nEntriesPerGeneration, history, generation, {})
    }

    /**
    From the two numbers that follow from the false-positive rate in floating point: the rounded number of
    hash functions, of which there are between 1 and 50, and the number of cells, of which a pair of words
    holds 64.
    */
    constructor (nElements: nat, rounded: int, nFilterBits: nat, hash: Hash<Key>)
      requires nElements > 0 && nFilterBits > 0
      ensures Valid() && history == [] && this.nElements == nElements && this.hash == hash && fresh(data)
      ensures 1 <= nHashFuncs <= 50 && (1 <= rounded <= 50 ==> nHashFuncs == rounded)
      ensures nFilterBits <= 32 * data.Length < nFilterBits + 64
    {
      this.nElements, nHashFuncs, this.hash := nElements, Max(1, Min(rounded, 50)), hash;
      nEntriesPerGeneration := (nElements + 1) / 2;
      data := new Word[(nFilterBits + 63) / 64 * 2](_ => seq(64, _ => false));
      nEntriesThisGeneration, nGeneration := 0, 1;
      generation, history := 0, [];
    }

    /** Forgets everything, and hashes with a newly drawn tweak from then on. */
    method Reset(tweaked: Hash<Key>)
      requires Valid()
      modifies this`hash, this`nEntriesThisGeneration, this`nGeneration, this`generation, this`history, data
      ensures Valid() && hash == tweaked && history == [] && generation == 0
      ensures forall w :: 0 <= w < data.Length ==> data[w] == Mask(false)
    {
      hash := tweaked;
      nEntriesThisGeneration, nGeneration := 0, 1;
      generation, history := 0, [];
      var w := 0;
      while w < data.Length
        invariant 0 <= w <= data.Length && forall v :: 0 <= v < w ==> data[v] == Mask(false)
        modifies data
      {
        data[w] := Mask(false);
        w := w + 1;
      }
    }

    /** Clears the cells that hold a generation. */
    method Wipe(gen: nat)
      requires Even(data[..])
      modifies data
      ensures forall w :: 0 <= w < data.Length && w % 2 == 0 ==> WordsWiped(old(data[..]), data[..], w, gen)
    {
      hide Wiped;
      ghost var was := data[..];
      var p := 0;
      while p < data.Length
        invariant 0 <= p <= data.Length && p % 2 == 0
        invariant forall w :: 0 <= w < p && w % 2 == 0 ==>
          w + 1 < data.Length && (data[w], data[w + 1]) == Wiped(was[w], was[w + 1], gen)
        invariant forall w :: p <= w < data.Length ==> data[w] == was[w]
      {
        var words := Wiped(data[p], data[p + 1], gen);
        data[p] := words.0;
        data[p + 1] := words.1;
        p := p + 2;
      }
    }

    /** Starts the next generation, clearing the cells of the oldest one. */
    method NextGenerationStarts()
      requires Valid() && nEntriesThisGeneration == nEntriesPerGeneration
      modifies this`nEntriesThisGeneration, this`nGeneration, this`generation, data
      ensures Valid() && history == old(history) && nEntriesThisGeneration == 0
    {
      hide Remembers, Forgets, WordsWiped;
      nEntriesThisGeneration := 0;
      nGeneration := nGeneration + 1;
      if nGeneration == 4 {
        nGeneration := 1;
      }
      assert nGeneration == Number(generation + 1);
      Wipe(nGeneration);
      WipeRemembers(old(data[..]), data[..], hash, nHashFuncs, nEntriesPerGeneration, history, generation);
      WipeForgets(old(data[..]), data[..], hash, nHashFuncs, nEntriesPerGeneration, history, generation);
      generation := generation + 1;
      assert generation * nEntriesPerGeneration == (generation - 1) * nEntriesPerGeneration + nEntriesPerGeneration;
    }

    method Insert(key: Key)
      requires Valid()
      modifies this`nEntriesThisGeneration, this`nGeneration, this`generation, this`history, data
      ensures Valid() && history == old(history) + [key]
    {
      hide Remembers, Forgets, CellSet, Cell, At, Number;
      if nEntriesThisGeneration == nEntriesPerGeneration {
        NextGenerationStarts();
      }
      assert (generation + 1) * nEntriesPerGeneration == generation * nEntriesPerGeneration + nEntriesPerGeneration;
      assert generation * nEntriesPerGeneration <= |history| < (generation + 1) * nEntriesPerGeneration;
      nEntriesThisGeneration := nEntriesThisGeneration + 1;
      NumberBounds(generation);
      ghost var pending: set<Place> := {};
      var n := 0;
      while n < nHashFuncs
        invariant 0 <= n <= nHashFuncs
        invariant forall p :: p in pending ==> exists m :: 0 <= m < n && At(hash, data.Length, m, key) == p
        invariant Forgets(data[..], hash, nHashFuncs, nEntriesPerGeneration, history, generation, pending)
        invariant Remembers(data[..], hash, nHashFuncs, nEntriesPerGeneration, history, generation)
        invariant forall m :: 0 <= m < n ==> Cell(data[..], At(hash, data.Length, m, key)) == nGeneration
        modifies data
      {
        var p := At(hash, data.Length, n, key);
        ghost var was := data[..];
        SetRemembers(was, p, hash, nHashFuncs, nEntriesPerGeneration, history, generation);
        SetForgets(was, p, nGeneration, hash, nHashFuncs, nEntriesPerGeneration, history, generation, pending);
        pending := pending + {p};
        forall m | 0 <= m <= n
          ensures Cell(CellSet(was, p, nGeneration), At(hash, data.Length, m, key)) == nGeneration
        {
          SetCell(was, p, nGeneration, At(hash, data.Length, m, key));
        }
        data[p.word] := Replaced(data[p.word], p.bit, nGeneration % 2 == 1);
        data[p.word + 1] := Replaced(data[p.word + 1], p.bit, nGeneration / 2 == 1);
        CellSetWords(was, p, nGeneration, data[..]);
        n := n + 1;
      }
      Remembered(data[..], hash, nHashFuncs, nEntriesPerGeneration, history, key, generation);
      GenerationOf(|history|, generation, nEntriesPerGeneration);
      InsertForgets(data[..], hash, nHashFuncs, nEntriesPerGeneration, history, key, generation, pending);
      history := history + [key];
    }

    /** No cell of the key is unset. */
    ghost predicate AllSet(key: Key)
      requires Even(data[..])
      reads this`hash, data
    {
      forall n :: 0 <= n < nHashFuncs ==> Cell(data[..], At(hash, data.Length, n, key)) != 0
    }

    /** A cell that some key of the last three generations has. */
    ghost predicate Recent(p: Place)
      requires Valid()
      reads this, data
    {
      Given(hash, data.Length, nHashFuncs, nEntriesPerGeneration, history, generation, p)
    }

    /**
    True exactly for the keys all of whose cells are cells of keys of the last three generations, and so for
    each of the last nElements keys, and even for all of the last three generations.
    */
    method Contains(key: Key) returns (b: bool)
      requires Valid()
      ensures b <==> forall n :: 0 <= n < nHashFuncs ==> Recent(At(hash, data.Length, n, key))
      ensures (exists i :: 0 <= i < |history| && i + nElements >= |history| && history[i] == key) ==> b
      ensures (exists i :: 0 <= i < |history| && i / nEntriesPerGeneration + 2 >= generation && history[i] == key) ==> b
    {
      forall i | 0 <= i < |history| && history[i] == key && i / nEntriesPerGeneration + 2 >= generation
        ensures AllSet(key)
      {
        FreshIsSet(i);
      }
      RecentEnough();
      forall p | InRange(data.Length, p) ensures Cell(data[..], p) != 0 <==> Recent(p) {
        SetIsRecent(p);
      }
      hide Valid, Recent, Remembers, Forgets, AllSet;
      var n := 0;
      while n < nHashFuncs
        invariant 0 <= n <= nHashFuncs && forall m :: 0 <= m < n ==> Cell(data[..], At(hash, data.Length, m, key)) != 0
      {
        var p := At(hash, data.Length, n, key);
        if !Shr(Or(data[p.word], data[p.word + 1]), p.bit)[0] {
          return false;
        }
        n := n + 1;
      }
      return true;
    }

    /** The cells that are set are exactly those of the keys of the last three generations. */
    lemma SetIsRecent(p: Place)
      requires Valid() && InRange(data.Length, p)
      ensures Cell(data[..], p) != 0 <==> Recent(p)
    {
      hide Cell, At, Number;
      if Cell(data[..], p) != 0 {
        assert Traced(hash, data.Length, nHashFuncs, nEntriesPerGeneration, history, generation, p, Cell(data[..], p));
      }
      if Recent(p) {
        var i, n :| Gives(hash, data.Length, nHashFuncs, nEntriesPerGeneration, history, generation, p, i, n);
        FreshIsSet(i);
        assert Cell(data[..], At(hash, data.Length, n, history[i])) != 0;
      }
    }

    lemma FreshIsSet(i: nat)
      requires Valid() && i < |history| && i / nEntriesPerGeneration + 2 >= generation
      ensures AllSet(history[i])
    {
      assert AllFresh(data[..], hash, nHashFuncs, history[i], i / nEntriesPerGeneration, generation);
    }

    /** The last nElements keys are all of the last three generations. */
    lemma RecentEnough()
      requires Valid()
      ensures forall i :: 0 <= i < |history| && i + nElements >= |history| ==>
        i / nEntriesPerGeneration + 2 >= generation
    {
      hide Remembers, Even;
      forall i | 0 <= i < |history| && i + nElements >= |history| ensures i / nEntriesPerGeneration + 2 >= generation {
        RecentGeneration(i, nElements, nEntriesPerGeneration, generation);
      }
    }
  }

  lemma RecentGeneration(i: nat, n: nat, per: nat, generation: nat)
    requires n > 0 && per == (n + 1) / 2 && i + n >= generation * per
    ensures i / per + 2 >= generation
  {
    if generation > 2 {
      assert generation * per == (generation - 2) * per + 2 * per;
      GenerationOf(i, generation - 2, per);
    }
  }
}
