/** The shifts of base_uint (src/arith_uint256.cpp:21-54) limb by limb, and what they do to the number. */
module Shifts {
  import opened Limbs
  import opened Basics

  /** Bitwise or. */
  function Or(a: nat, b: nat): nat {
    if a == 0 && b == 0 then 0 else 2 * Or(a / 2, b / 2) + (if a % 2 == 1 || b % 2 == 1 then 1 else 0)
  }

  lemma {:induction false} OrZero(b: nat)
    ensures Or(0, b) == b
  {
    if b != 0 {
      OrZero(b / 2);
    }
  }

  /** Numbers without a common bit are added. */
  lemma {:induction false} OrDisjoint(a: nat, b: nat, s: nat)
    requires a < Pow2(s) && b % Pow2(s) == 0
    ensures Or(a, b) == a + b
    decreases s
  {
    if s == 0 {
      OrZero(b);
    } else {
      HalfMultiple(b, s);
      OrDisjoint(a / 2, b / 2, s - 1);
    }
  }

  lemma HalfMultiple(b: nat, s: nat)
    requires s > 0 && b % Pow2(s) == 0
    ensures b % 2 == 0 && (b / 2) % Pow2(s - 1) == 0
  {
    var p, q := Pow2(s - 1), b / Pow2(s);
    assert b == q * (2 * p);
    Assoc(q, 2, p);
    assert b == 2 * (q * p);
    DivModUnique(b / 2, q, 0, p);
  }

  /** The part of x << s that stays in the limb, and the part that goes to the next one. */
  function Low(x: Limb, s: nat): Limb { (x * Pow2(s)) % BASE }

  function High(x: Limb, s: nat): Limb
    requires s < 32
  {
    DivSmall(x, Pow2(32 - s));
    x / Pow2(32 - s)
  }

  lemma DivSmall(x: nat, p: nat)
    requires p >= 1
    ensures 0 <= x / p <= x
  {
    MulMonotone(1, p, x / p);
  }

  lemma ShiftParts(x: Limb, s: nat)
    requires s < 32
    ensures x * Pow2(s) == Low(x, s) + High(x, s) * BASE
    ensures High(x, s) < Pow2(s) && Low(x, s) % Pow2(s) == 0
  {
    Pow2Add(s, 32 - s);
    Pow2Of32();
    hide Pow2;
    PartsNumbers(x, Pow2(s), Pow2(32 - s));
  }

  lemma PartsNumbers(x: nat, p: nat, q: nat)
    requires p >= 1 && q >= 1 && p * q == BASE && x < BASE
    ensures x * p == (x * p) % BASE + (x / q) * BASE && x / q < p && ((x * p) % BASE) % p == 0
  {
    var h, r := x / q, x % q;
    SplitShift(h, q, r, p);
    BelowProduct(r, q, p);
    DivModUnique(x * p, h, r * p, BASE);
    DivModUnique(r * p, r, 0, p);
    QuotientBelow(x, p, q);
  }

  lemma BelowProduct(r: nat, q: nat, p: nat)
    requires r < q && p >= 1
    ensures r * p < p * q
  {
    MulMonotone(r + 1, q, p);
    Distribute(r, 1, p);
  }

  lemma QuotientBelow(x: nat, p: nat, q: nat)
    requires q >= 1 && x < p * q
    ensures x / q < p
  {
    if x / q >= p {
      MulMonotone(p, x / q, q);
    }
  }

  lemma SplitShift(h: int, q: int, r: int, p: int)
    ensures (h * q + r) * p == h * (p * q) + r * p
  {
    Distribute(h * q, r, p);
    Assoc(h, q, p);
  }

  // ---------------------------------------------------------------------------------------------
  // Left

  function HighBelow(a: seq<Limb>, i: int, s: nat): Limb
    requires s < 32 && i <= |a|
  {
    if i <= 0 then 0 else High(a[i - 1], s)
  }

  /** Limb m of a shifted left by k limbs and s bits. */
  function LeftLimb(a: seq<Limb>, k: nat, s: nat, m: nat): nat
    requires s < 32 && m < |a|
  {
    if m < k then 0 else Low(a[m - k], s) as nat + HighBelow(a, m - k, s)
  }

  lemma LeftFits(a: seq<Limb>, k: nat, s: nat, m: nat)
    requires s < 32 && k <= m < |a|
    ensures Or(HighBelow(a, m - k, s), Low(a[m - k], s)) == LeftLimb(a, k, s, m) < BASE
  {
    var h, l := HighBelow(a, m - k, s), Low(a[m - k], s);
    ShiftParts(a[m - k], s);
    if m > k {
      ShiftParts(a[m - k - 1], s);
    }
    OrDisjoint(h, l, s);
    Multiples(l, h, s);
  }

  lemma LeftCases(a: seq<Limb>, k: nat, s: nat, i: nat)
    requires s < 32 && i < |a|
    ensures HighBelow(a, 0, s) == 0 && HighBelow(a, i + 1, s) == High(a[i], s) && (s == 0 ==> High(a[i], s) == 0)
    ensures i + k < |a| ==> Or(HighBelow(a, i, s), Low(a[i], s)) == LeftLimb(a, k, s, i + k) < BASE
    ensures i < k ==> LeftLimb(a, k, s, i) == 0
  {
    if i + k < |a| {
      LeftFits(a, k, s, i + k);
    }
    if s == 0 {
      Pow2Of32();
    }
  }

  /** A multiple of 2^s below 2^32 leaves room for s bits. */
  lemma Multiples(l: Limb, h: nat, s: nat)
    requires s < 32 && l % Pow2(s) == 0 && h < Pow2(s)
    ensures l + h < BASE
  {
    Pow2Add(s, 32 - s);
    Pow2Of32();
    hide Pow2;
    RoomLeft(l, h, Pow2(s), Pow2(32 - s));
  }

  lemma RoomLeft(l: nat, h: nat, p: nat, q: nat)
    requires p >= 1 && q >= 1 && p * q == BASE && l < BASE && l % p == 0 && h < p
    ensures l + h < BASE
  {
    var d := l / p;
    QuotientBelow(l, q, p);
    MulMonotone(d + 1, q, p);
    Distribute(d, 1, p);
  }

  lemma {:induction false} LeftPrefix(a: seq<Limb>, c: seq<Limb>, k: nat, s: nat, n: nat)
    requires s < 32 && |a| == |c| && n + k <= |a|
    requires forall m :: 0 <= m < |c| ==> c[m] == LeftLimb(a, k, s, m)
    ensures Val(c[..n + k]) + HighBelow(a, n, s) * BasePow(n + k) == Pow2(s) * BasePow(k) * Val(a[..n])
  {
    hide BasePow, Pow2, Low, High;
    if n == 0 {
      ValZero(c[..k]);
      assert Val(a[..0]) == 0;
      assert c[..0 + k] == c[..k];
    } else {
      hide Val;
      var j := n - 1;
      LeftPrefix(a, c, k, s, j);
      ValPush(c, j + k);
      ValPush(a, j);
      ShiftParts(a[j], s);
      BasePowAdd(j, k);
      assert c[j + k] == LeftLimb(a, k, s, j + k);
      assert j + k + 1 == n + k;
      BasePowNext(j + k);
      LeftNumbers(Val(c[..j + k]), HighBelow(a, j, s), Low(a[j], s), High(a[j], s), a[j], Pow2(s), BasePow(j),
        BasePow(k), Val(a[..j]));
    }
  }

  lemma BasePowNext(n: nat)
    ensures BasePow(n + 1) == BasePow(n) * BASE
  {
  }

  lemma LeftNumbers(v: int, h0: int, l: int, h: int, x: int, t: int, p: int, q: int, w: int)
    requires v + h0 * (p * q) == t * q * w && x * t == l + h * BASE
    ensures v + (l + h0) * (p * q) + h * ((p * q) * BASE) == t * q * (w + x * p)
  {
    Distribute(l, h0, p * q);
    LeftScale(l, h, p * q);
    assert l * (p * q) + h * ((p * q) * BASE) == (x * t) * (p * q);
    LeftProduct(x, t, p, q);
    SplitNumbers(t * q, w, x, p);
  }

  lemma LeftScale(l: int, h: int, r: int)
    ensures l * r + h * (r * BASE) == (l + h * BASE) * r
  {
  }

  lemma LeftProduct(x: int, t: int, p: int, q: int)
    ensures (x * t) * (p * q) == x * ((t * q) * p)
  {
  }

  /** The whole: the product with a power of two, as far as it fits. */
  lemma LeftValue(a: seq<Limb>, c: seq<Limb>, k: nat, s: nat)
    requires s < 32 && |a| == |c|
    requires forall m :: 0 <= m < |c| ==> c[m] == LeftLimb(a, k, s, m)
    ensures Val(c) == (Val(a) * Pow2(32 * k + s)) % BasePow(|a|)
  {
    var w := |a|;
    var m := BasePow(w);
    ValBound(c);
    Pow2Add(32 * k, s);
    BasePow2(k);
    if k >= w {
      ValZero(c);
      BasePowAdd(w, k - w);
      TooFar(Val(a), m, BasePow(k - w), Pow2(s));
      DivModUnique(Val(a) * Pow2(32 * k + s), Val(a) * BasePow(k - w) * Pow2(s), 0, m);
    } else {
      var n := w - k;
      LeftPrefix(a, c, k, s, n);
      assert c[..n + k] == c;
      ValSplit(a, n);
      BasePowAdd(n, k);
      var over := HighBelow(a, n, s) + Pow2(s) * Val(a[n..]);
      LeftOver(Val(c), HighBelow(a, n, s), Pow2(s), BasePow(k), BasePow(n), Val(a[..n]), Val(a[n..]));
      DivModUnique(Val(a) * Pow2(32 * k + s), over, Val(c), m);
    }
  }

  lemma TooFar(v: int, m: int, r: int, t: int)
    ensures v * ((m * r) * t) == (v * r * t) * m
  {
  }

  lemma LeftOver(c: int, h: int, t: int, q: int, p: int, low: int, high: int)
    requires c + h * (p * q) == t * q * low
    ensures (low + p * high) * (q * t) == (h + t * high) * (p * q) + c
  {
    Distribute(low, p * high, q * t);
    Distribute(h, t * high, p * q);
    LeftOver1(t, q, low);
    LeftOver2(p, high, q, t);
  }

  lemma LeftOver1(t: int, q: int, low: int)
    ensures low * (q * t) == t * q * low
  {
  }

  lemma LeftOver2(p: int, high: int, q: int, t: int)
    ensures (p * high) * (q * t) == (t * high) * (p * q)
  {
  }

  // ---------------------------------------------------------------------------------------------
  // Right

  /** The part of the next limb that comes down. */
  function LowAbove(a: seq<Limb>, i: nat, s: nat): Limb
    requires s <= 32
  {
    if i < |a| then Low(a[i], 32 - s) else 0
  }

  function Down(x: Limb, s: nat): Limb {
    DivSmall(x, Pow2(s));
    x / Pow2(s)
  }

  /** Limb m of a shifted right by k limbs and s bits. */
  function RightLimb(a: seq<Limb>, k: nat, s: nat, m: nat): nat
    requires s <= 32
  {
    if m + k >= |a| then 0 else Down(a[m + k], s) as nat + LowAbove(a, m + k + 1, s)
  }

  function RemAt(a: seq<Limb>, i: nat, s: nat): nat {
    if i < |a| then a[i] % Pow2(s) else 0
  }

  lemma RightParts(x: Limb, s: nat)
    requires s < 32
    ensures x == Down(x, s) * Pow2(s) + x % Pow2(s) && Down(x, s) < Pow2(32 - s)
    ensures Low(x, 32 - s) == (x % Pow2(s)) * Pow2(32 - s) && Low(x, 32 - s) % Pow2(32 - s) == 0
    ensures Pow2(s) * Pow2(32 - s) == BASE
  {
    hide Pow2;
    Pow2Add(s, 32 - s);
    Pow2Of32();
    RightNumbers(x, Pow2(s), Pow2(32 - s));
  }

  lemma RightNumbers(x: nat, p: nat, q: nat)
    requires p >= 1 && q >= 1 && p * q == BASE && x < BASE
    ensures x / p < q && (x * q) % BASE == (x % p) * q && ((x * q) % BASE) % q == 0
  {
    var h, r := x / p, x % p;
    QuotientBelow(x, q, p);
    SplitShift(h, p, r, q);
    BelowProduct(r, p, q);
    DivModUnique(x * q, h, r * q, BASE);
    DivModUnique(r * q, r, 0, q);
  }

  lemma RightFits(a: seq<Limb>, k: nat, s: nat, m: nat)
    requires s < 32 && m + k < |a|
    ensures Or(Down(a[m + k], s), LowAbove(a, m + k + 1, s)) == RightLimb(a, k, s, m) < BASE
  {
    hide Pow2, Low, Or, Down;
    var l := LowAbove(a, m + k + 1, s);
    RightParts(a[m + k], s);
    if m + k + 1 < |a| {
      RightParts(a[m + k + 1], s);
    } else {
      DivModUnique(0, 0, 0, Pow2(32 - s));
    }
    OrDisjoint(Down(a[m + k], s), l, 32 - s);
    Pow2Of32();
    Pow2Add(32 - s, s);
    RoomLeft(l, Down(a[m + k], s), Pow2(32 - s), Pow2(s));
  }

  /** A limb with one above it, the highest one, and those beyond it. */
  lemma RightCases(a: seq<Limb>, k: nat, s: nat, m: nat)
    requires s < 32
    ensures m + k + 1 < |a| ==> Or(Down(a[m + k], s), Low(a[m + k + 1], 32 - s)) == RightLimb(a, k, s, m) < BASE
    ensures m + k + 1 < |a| && s == 0 ==> RightLimb(a, k, s, m) == Down(a[m + k], s)
    ensures m + k + 1 == |a| ==> RightLimb(a, k, s, m) == Down(a[m + k], s)
    ensures m + k >= |a| ==> RightLimb(a, k, s, m) == 0
  {
    if m + k + 1 < |a| {
      RightFits(a, k, s, m);
      if s == 0 {
        Pow2Of32();
        DivModUnique(a[m + k + 1] * BASE, a[m + k + 1], 0, BASE);
      }
    }
  }

  lemma {:induction false} RightPrefix(b: seq<Limb>, c: seq<Limb>, s: nat, n: nat)
    requires s < 32 && n <= |b| <= |c|
    requires forall m :: 0 <= m < |b| ==> c[m] == RightLimb(b, 0, s, m)
    ensures Pow2(s) * Val(c[..n]) == Val(b[..n]) - RemAt(b, 0, s) + RemAt(b, n, s) * BasePow(n)
  {
    hide Val, Pow2, Down;
    if n == 0 {
      assert c[..0] == [] && b[..0] == [];
      ValNone();
    } else {
      var j := n - 1;
      RightPrefix(b, c, s, j);
      ValPush(c, j);
      ValPush(b, j);
      RightParts(b[j], s);
      if n < |b| {
        RightParts(b[n], s);
      }
      assert c[j] == RightLimb(b, 0, s, j);
      RightStep(Pow2(s), Pow2(32 - s), Val(c[..j]), Val(b[..j]), RemAt(b, 0, s), b[j], Down(b[j], s), RemAt(b, j, s),
        RemAt(b, n, s), BasePow(j));
    }
  }

  lemma RightStep(p: int, q: int, vc: int, vb: int, r0: int, x: int, h: int, r: int, next: int, w: int)
    requires p * q == BASE && p * vc == vb - r0 + r * w && x == h * p + r
    ensures p * (vc + (h + next * q) * w) == vb + x * w - r0 + next * (w * BASE)
  {
    calc {
      p * (vc + (h + next * q) * w);
      { SplitNumbers(p, vc, h + next * q, w); }
      p * vc + (h + next * q) * (p * w);
      { Distribute(h, next * q, p * w); }
      p * vc + h * (p * w) + (next * q) * (p * w);
      { Assoc(h, p, w); RightProduct(next, q, p, w); }
      vb - r0 + r * w + (h * p) * w + next * (w * (p * q));
      { Distribute(h * p, r, w); }
      vb + x * w - r0 + next * (w * BASE);
    }
  }

  lemma RightProduct(n: int, q: int, p: int, w: int)
    ensures (n * q) * (p * w) == n * (w * (p * q))
  {
  }

  /** The whole: the quotient by a power of two. */
  lemma RightValue(a: seq<Limb>, c: seq<Limb>, k: nat, s: nat)
    requires s < 32 && |a| == |c|
    requires forall m :: 0 <= m < |c| ==> c[m] == RightLimb(a, k, s, m)
    ensures Val(c) == Val(a) / Pow2(32 * k + s)
  {
    hide Val, BasePow, Pow2, Down;
    if k >= |a| {
      var w := |a|;
      ValZero(c);
      ValBound(a);
      BasePow2(w);
      Pow2Monotone(32 * w, 32 * k + s);
      DivModUnique(Val(a), 0, Val(a), Pow2(32 * k + s));
    } else {
      RightRest(a, c, k, s);
      BasePow2(k);
      Pow2Add(32 * k, s);
      ValSplit(a, k);
      ValBound(a[..k]);
      RightQuotient(Val(a[..k]), BasePow(k), Val(a[k..]), Pow2(s), Val(c), RemAt(a[k..], 0, s));
    }
  }

  /** Without the limbs that are shifted out as a whole. */
  lemma RightRest(a: seq<Limb>, c: seq<Limb>, k: nat, s: nat)
    requires s < 32 && k < |a| == |c|
    requires forall m :: 0 <= m < |c| ==> c[m] == RightLimb(a, k, s, m)
    ensures Pow2(s) * Val(c) == Val(a[k..]) - RemAt(a[k..], 0, s)
  {
    hide Val, BasePow, Pow2, Down;
    var b, n := a[k..], |a| - k;
    forall m | 0 <= m < n ensures c[m] == RightLimb(b, 0, s, m) {
      assert b[m] == a[m + k];
      assert m + 1 < n ==> b[m + 1] == a[m + k + 1];
    }
    RightPrefix(b, c, s, n);
    assert b[..n] == b;
    ValZero(c[n..]);
    ValSplit(c, n);
  }

  lemma RightQuotient(low: nat, q: nat, vb: nat, p: nat, vc: nat, r0: nat)
    requires p >= 1 && q >= 1 && low < q && r0 < p && p * vc == vb - r0
    ensures vc == (low + q * vb) / (q * p)
  {
    var r := q * r0 + low;
    MulMonotone(r0 + 1, p, q);
    Distribute(r0, 1, q);
    QuotientNumbers(low, q, p, vc, r0);
    DivModUnique(low + q * vb, vc, r, q * p);
  }

  lemma QuotientNumbers(low: int, q: int, p: int, vc: int, r0: int)
    ensures low + q * (p * vc + r0) == vc * (q * p) + (q * r0 + low)
  {
  }

  // ---------------------------------------------------------------------------------------------
  // Comparing

  /** The highest limb that differs decides. */
  lemma HighestDecides(a: seq<Limb>, b: seq<Limb>, i: nat)
    requires |a| == |b| && i < |a| && a[i + 1..] == b[i + 1..] && a[i] < b[i]
    ensures Val(a) < Val(b)
  {
    ValTail(a, b, i + 1);
    ValPush(a, i);
    ValPush(b, i);
    ValBound(a[..i]);
    var x: nat, y: nat := a[i], b[i];
    hide Val, BasePow;
    MulMonotone(x + 1, y, BasePow(i));
    Distribute(x, 1, BasePow(i));
  }

  // ---------------------------------------------------------------------------------------------
  // Bits

  /** n is the position of the highest bit plus one. */
  ghost predicate IsBits(v: nat, n: nat) {
    v < Pow2(n) && (n > 0 ==> Pow2(n - 1) <= v)
  }

  lemma BitsOfLimb(a: seq<Limb>, pos: nat, b: nat)
    requires pos < |a| && (forall k :: pos < k < |a| ==> a[k] == 0) && IsBits(a[pos], b) && b > 0
    ensures IsBits(Val(a), 32 * pos + b)
  {
    hide Val, BasePow, Pow2;
    ValSplit(a, pos + 1);
    ValZero(a[pos + 1..]);
    ValPush(a, pos);
    ValBound(a[..pos]);
    BasePow2(pos);
    Pow2Add(32 * pos, b);
    Pow2Add(32 * pos, b - 1);
    BetweenPowers(Val(a[..pos]), a[pos], BasePow(pos), Pow2(b - 1), Pow2(b));
  }

  lemma BetweenPowers(low: nat, x: nat, p: nat, q: nat, r: nat)
    requires low < p && q <= x < r
    ensures p * q <= low + x * p < p * r
  {
    MulMonotone(x + 1, r, p);
    MulMonotone(q, x, p);
    Distribute(x, 1, p);
  }

  /** Bit b of a number below 2^(b+1). */
  lemma TopBit(x: nat, b: nat)
    requires x < Pow2(b + 1)
    ensures (x / Pow2(b)) % 2 == 1 <==> Pow2(b) <= x
  {
    var p := Pow2(b);
    if x < p {
      DivModUnique(x, 0, x, p);
    } else {
      DivModUnique(x, 1, x - p, p);
    }
  }

  lemma {:induction false} OrCommutes(a: nat, b: nat)
    ensures Or(a, b) == Or(b, a)
  {
    if a != 0 || b != 0 {
      OrCommutes(a / 2, b / 2);
    }
  }

  /** If a number is a multiple of 2^(n+1), then bit n and those below it are clear in its limb. */
  lemma BitClear(a: seq<Limb>, n: nat)
    requires n / 32 < |a| && Val(a) % Pow2(n + 1) == 0
    ensures a[n / 32] % Pow2(n % 32 + 1) == 0
  {
    hide Val, Pow2;
    var k, s := n / 32, n % 32;
    var q, t := BasePow(k), Pow2(s + 1);
    BasePow2(k);
    Pow2Add(32 * k, s + 1);
    assert 32 * k + (s + 1) == n + 1;
    ValSplit(a, k + 1);
    ValPush(a, k);
    ValBound(a[..k]);
    Pow2Add(s + 1, 32 - (s + 1));
    Pow2Of32();
    ClearNumbers(Val(a[..k]), a[k], Val(a[k + 1..]), q, t, Pow2(31 - s));
  }

  lemma ClearNumbers(low: nat, x: nat, rest: nat, q: nat, t: nat, u: nat)
    requires q >= 1 && t >= 1 && t * u == BASE && low < q
    requires (low + x * q + (q * BASE) * rest) % (q * t) == 0
    ensures x % t == 0
  {
    var v := low + x * q + (q * BASE) * rest;
    var m := v / (q * t);
    assert v == m * (q * t);
    ClearRegroup(x, rest, q, t, u, m);
    assert low == (m * t - x - BASE * rest) * q;
    DivModUnique(low, m * t - x - BASE * rest, 0, q);
    DivModUnique(low, 0, low, q);
    assert x == m * t - BASE * rest;
    ClearMultiple(m, t, u, rest);
    DivModUnique(x, m - u * rest, 0, t);
  }

  lemma ClearRegroup(x: int, rest: int, q: int, t: int, u: int, m: int)
    ensures m * (q * t) - x * q - (q * BASE) * rest == (m * t - x - BASE * rest) * q
  {
    Assoc(m, t, q);
    Distribute(m * t - x, -(BASE * rest), q);
    Distribute(m * t, -x, q);
  }

  lemma ClearMultiple(m: int, t: int, u: int, rest: int)
    requires t * u == BASE
    ensures m * t - BASE * rest == (m - u * rest) * t
  {
    Distribute(m, -(u * rest), t);
    Assoc(t, u, rest);
  }

  lemma SetBitValue(a: seq<Limb>, n: nat)
    requires n / 32 < |a| && Val(a) % Pow2(n + 1) == 0
    ensures var k, s := n / 32, n % 32;
      Or(a[k], Pow2(s)) < BASE && Val(a[k := Or(a[k], Pow2(s))]) == Val(a) + Pow2(n)
  {
    hide Val, BasePow, Pow2, Or;
    var k, s := n / 32, n % 32;
    BitClear(a, n);
    SetBitLimb(a[k], s);
    var x: Limb := Or(a[k], Pow2(s));
    var b := a[k := x];
    assert b[k + 1..] == a[k + 1..] && b[..k] == a[..k];
    ValTail(b, a, k + 1);
    ValPush(a, k);
    ValPush(b, k);
    Distribute(a[k], Pow2(s), BasePow(k));
    BasePow2(k);
    Pow2Add(32 * k, s);
    assert 32 * k + s == n;
  }

  lemma SetBitLimb(x: Limb, s: nat)
    requires s < 32 && x % Pow2(s + 1) == 0
    ensures Or(x, Pow2(s)) == x + Pow2(s) < BASE
  {
    hide Pow2, Or;
    Pow2Less(s);
    OrCommutes(x, Pow2(s));
    OrDisjoint(Pow2(s), x, s + 1);
    Pow2Add(s + 1, 32 - (s + 1));
    Pow2Of32();
    RoomLeft(x, Pow2(s), Pow2(s + 1), Pow2(31 - s));
  }

  lemma Pow2Less(s: nat)
    ensures Pow2(s) < Pow2(s + 1)
  {
  }
}
