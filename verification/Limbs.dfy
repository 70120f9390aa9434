/** Numbers written as sequences of 32-bit limbs, least significant first (src/arith_uint256.h). */
module Limbs {
  import opened Basics

  const BASE := 0x1_0000_0000

  type Limb = x: nat | x < BASE

  function Pow2(n: nat): (p: nat)
    ensures p >= 1
  {
    if n == 0 then 1 else 2 * Pow2(n - 1)
  }

  function BasePow(n: nat): (p: nat)
    ensures p >= 1
  {
    if n == 0 then 1 else BasePow(n - 1) * BASE
  }

  /** The number that limbs stand for. */
  ghost function Val(s: seq<Limb>): nat {
    if s == [] then 0 else Val(s[..|s| - 1]) + s[|s| - 1] * BasePow(|s| - 1)
  }

  lemma ValNone()
    ensures Val([]) == 0
  {
  }

  lemma ValPush(s: seq<Limb>, i: nat)
    requires i < |s|
    ensures Val(s[..i + 1]) == Val(s[..i]) + s[i] * BasePow(i)
  {
    assert s[..i + 1][..i] == s[..i];
  }

  lemma ValAppend(s: seq<Limb>, x: Limb)
    ensures Val(s + [x]) == Val(s) + x * BasePow(|s|)
  {
    assert (s + [x])[..|s|] == s;
  }

  lemma {:induction false} ValBound(s: seq<Limb>)
    ensures Val(s) < BasePow(|s|)
  {
    if s != [] {
      var n := |s| - 1;
      ValBound(s[..n]);
      var x: nat := s[n];
      MulMonotone(x + 1, BASE, BasePow(n));
      Distribute(x, 1, BasePow(n));
    }
  }

  /** The low limbs and the high limbs. */
  lemma {:induction false} ValSplit(s: seq<Limb>, n: nat)
    requires n <= |s|
    ensures Val(s) == Val(s[..n]) + BasePow(n) * Val(s[n..])
    decreases |s|
  {
    hide Val, BasePow;
    if n == |s| {
      assert s[..n] == s && s[n..] == [];
      ValNone();
    } else {
      var k := |s| - 1;
      var t, x := s[..k], s[k];
      ValSplit(t, n);
      assert t[..n] == s[..n] && s[n..] == t[n..] + [x] && s == t + [x];
      ValAppend(t, x);
      ValAppend(t[n..], x);
      BasePowAdd(n, k - n);
      SplitNumbers(BasePow(n), Val(t[n..]), x, BasePow(k - n));
    }
  }

  lemma SplitNumbers(p: int, v: int, x: int, q: int)
    ensures p * (v + x * q) == p * v + x * (p * q)
  {
  }

  /** Equal high limbs: only the low ones count. */
  lemma ValTail(s: seq<Limb>, t: seq<Limb>, n: nat)
    requires |s| == |t| && n <= |s| && s[n..] == t[n..]
    ensures Val(s) - Val(s[..n]) == Val(t) - Val(t[..n])
  {
    ValSplit(s, n);
    ValSplit(t, n);
  }

  lemma {:induction false} ValZero(s: seq<Limb>)
    requires forall i :: 0 <= i < |s| ==> s[i] == 0
    ensures Val(s) == 0
  {
    if s != [] {
      ValZero(s[..|s| - 1]);
    }
  }

  lemma Distribute(a: int, b: int, c: int)
    ensures (a + b) * c == a * c + b * c
  {
  }

  lemma Assoc(a: int, b: int, c: int)
    ensures (a * b) * c == a * (b * c)
  {
  }

  lemma {:induction false} Pow2Add(a: nat, b: nat)
    ensures Pow2(a + b) == Pow2(a) * Pow2(b)
  {
    if a > 0 {
      Pow2Add(a - 1, b);
      Assoc(2, Pow2(a - 1), Pow2(b));
    }
  }

  lemma Pow2Of32()
    ensures Pow2(32) == BASE
  {
    Pow2Add(16, 16);
    Pow2Add(8, 8);
    assert Pow2(8) == 256 by { Pow2Add(4, 4); assert Pow2(4) == 16; }
  }

  lemma {:induction false} BasePow2(n: nat)
    ensures BasePow(n) == Pow2(32 * n)
  {
    if n > 0 {
      BasePow2(n - 1);
      Pow2Of32();
      Pow2Add(32 * (n - 1), 32);
    }
  }

  lemma {:induction false} BasePowAdd(a: nat, b: nat)
    ensures BasePow(a + b) == BasePow(a) * BasePow(b)
  {
    BasePow2(a);
    BasePow2(b);
    BasePow2(a + b);
    Pow2Add(32 * a, 32 * b);
  }

  lemma {:induction false} Pow2Monotone(a: nat, b: nat)
    requires a <= b
    ensures Pow2(a) <= Pow2(b)
  {
    if a < b {
      Pow2Monotone(a, b - 1);
    }
  }

  /** The quotient and remainder that fit. */
  lemma DivModUnique(x: int, q: int, r: int, m: int)
    requires m > 0 && x == q * m + r && 0 <= r < m
    ensures x / m == q && x % m == r
  {
    var d := x / m - q;
    assert x == (x / m) * m + x % m;
    Distribute(x / m, -q, m);
    assert d * m == r - x % m;
    if d >= 1 {
      MulMonotone(1, d, m);
    } else if d <= -1 {
      MulMonotone(1, -d, m);
    }
  }
}
