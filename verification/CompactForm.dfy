/**
The compact form of a 256-bit target in block headers (src/arith_uint256.h, src/arith_uint256.cpp):
one byte counts the bytes of the number, and three give the highest of them, with a sign bit.
*/
module CompactForm {
  import opened Basics
  import opened Limbs
  import opened Shifts

  function Size(c: nat): nat { c / 0x1000000 }

  /** The mantissa; with fewer than three bytes the lowest ones are dropped. */
  function Word(c: nat): nat {
    var w := c % 0x800000;
    if Size(c) <= 3 then
      DivSmall(w, Pow2(8 * (3 - Size(c))));
      w / Pow2(8 * (3 - Size(c)))
    else w
  }

  /** The number that a compact form stands for. */
  function Target(c: nat): nat {
    if Size(c) <= 3 then Word(c) else Word(c) * Pow2(8 * (Size(c) - 3))
  }

  /** The three comparisons of SetCompact find exactly the numbers that need more than 256 bits. */
  lemma TargetFits(c: nat)
    requires c < BASE
    ensures var n, w := Size(c), Word(c);
      Target(c) >= Pow2(256) <==> w != 0 && (n > 34 || (w > 0xff && n > 33) || (w > 0xffff && n > 32))
    ensures Word(c) < 0x800000 && (Size(c) <= 3 ==> Target(c) % Pow2(256) == Target(c))
  {
    hide Pow2;
    var n, w := Size(c), Word(c);
    DivSmall(c % 0x800000, Pow2(if n <= 3 then 8 * (3 - n) else 0));
    ByteSizes();
    if n <= 3 {
      DivModUnique(w, 0, w, Pow2(256));
    } else {
      var e := 8 * (n - 3);
      if n > 34 {
        Pow2Monotone(256, e);
        if w > 0 {
          MulMonotone(1, w, Pow2(e));
        }
      } else if n == 34 {
        Compare(w, 0x100, Pow2(248));
      } else if n == 33 {
        Compare(w, 0x10000, Pow2(240));
      } else {
        Pow2Monotone(e, 232);
        MulMonotone(w, 0x800000, Pow2(e));
        MulMonotone(Pow2(e), Pow2(232), 0x800000);
      }
    }
  }

  lemma Compare(w: nat, k: nat, p: nat)
    requires p >= 1
    ensures w * p >= k * p <==> w >= k
  {
    if w >= k {
      MulMonotone(k, w, p);
    } else {
      MulMonotone(w + 1, k, p);
      Distribute(w, 1, p);
    }
  }

  lemma ByteSizes()
    ensures Pow2(256) == 0x100 * Pow2(248) && Pow2(256) == 0x10000 * Pow2(240) && Pow2(256) > 0x800000 * Pow2(232)
    ensures Pow2(256) > 0x800000
  {
    hide Pow2;
    Bytes();
    Pow2Add(8, 248);
    Pow2Add(16, 240);
    Pow2Add(24, 232);
    MulMonotone(1, Pow2(232), 0x1000000);
  }

  lemma Bytes()
    ensures Pow2(8) == 0x100 && Pow2(16) == 0x10000 && Pow2(24) == 0x1000000
  {
    assert Pow2(8) == 0x100 by {
      Pow2Add(4, 4);
      assert Pow2(4) == 16;
    }
    hide Pow2;
    Pow2Add(8, 8);
    Pow2Add(8, 16);
  }

  lemma TargetBelow(c: nat)
    requires c < BASE
    ensures Target(c) < Pow2(256) ==> Target(c) + 1 < Pow2(256) && Target(c) % Pow2(256) == Target(c)
    ensures Word(c) == 0 <==> Target(c) == 0
  {
    hide Pow2;
    ByteSizes();
    TargetFits(c);
    if Size(c) > 3 {
      Pow2Twice(8 * (Size(c) - 3));
      TargetEven(Word(c), Pow2(8 * (Size(c) - 3)));
      Pow2Twice(256);
      if Word(c) > 0 {
        MulMonotone(1, Word(c), Pow2(8 * (Size(c) - 3)));
      }
    }
    if Target(c) < Pow2(256) {
      DivModUnique(Target(c), 0, Target(c), Pow2(256));
    }
  }

  lemma Pow2Twice(n: nat)
    requires n > 0
    ensures Pow2(n) % 2 == 0
  {
  }

  lemma TargetEven(w: nat, p: nat)
    requires p % 2 == 0
    ensures (w * p) % 2 == 0
  {
    var h := p / 2;
    assert p == 2 * h;
    Assoc(w, 2, h);
    assert w * p == 2 * (w * h);
  }

  // ---------------------------------------------------------------------------------------------
  // Writing the compact form

  /** The bytes a number takes with a sign bit in front. */
  ghost predicate IsSize(x: nat, e: nat) {
    2 * x < Pow2(8 * e) && (e > 0 ==> Pow2(8 * (e - 1)) <= 2 * x)
  }

  /** Its three highest bytes, of that many. */
  ghost function Mantissa(x: nat, e: nat): nat {
    if e <= 3 then x * Pow2(8 * (3 - e)) else DivSmall(x, Pow2(8 * (e - 3))); x / Pow2(8 * (e - 3))
  }

  ghost predicate IsCompactOf(c: nat, x: nat, negative: bool) {
    && c < BASE && IsSize(x, Size(c)) && c % 0x800000 == Mantissa(x, Size(c))
    && ((c / 0x800000) % 2 == 1 <==> negative && c % 0x800000 != 0)
  }

  /** What the compact form does not hold. */
  ghost function Unit(c: nat): nat { if Size(c) <= 3 then 1 else Pow2(8 * (Size(c) - 3)) }

  /** Reading back gives the number without its lowest bytes, which are less than its 2^15-th part. */
  lemma CompactValue(c: nat, x: nat, negative: bool)
    requires IsCompactOf(c, x, negative)
    ensures Target(c) == x - x % Unit(c) && (Target(c) == x <==> x % Unit(c) == 0)
    ensures x > 0 ==> (x - Target(c)) * 0x8000 < x
  {
    hide Pow2;
    var e := Size(c);
    if e <= 3 {
      var q := Pow2(8 * (3 - e));
      DivModUnique(x * q, x, 0, q);
    } else {
      var p := Pow2(8 * (e - 3));
      assert x == (x / p) * p + x % p;
      Bytes();
      Pow2Add(8 * (e - 3), 16);
      assert 8 * (e - 3) + 16 == 8 * (e - 1);
    }
  }

  /** The forms that writing produces: as few bytes as possible, and none dropped. */
  ghost predicate Canonical(c: nat) {
    var w := c % 0x800000;
    c == 0 || (Size(c) >= 1 && w >= 0x8000 && (Size(c) < 3 ==> w % Pow2(8 * (3 - Size(c))) == 0))
  }

  /** Three bytes or more: the size is right exactly for a mantissa of three bytes. */
  lemma LargeRoundTrip(w: nat, n: nat)
    requires n >= 3 && w < 0x800000
    ensures var x := w * Pow2(8 * (n - 3)); Mantissa(x, n) == w && (IsSize(x, n) <==> w >= 0x8000)
  {
    hide Pow2;
    var p := Pow2(8 * (n - 3));
    Bytes();
    assert n == 3 ==> p == 1 by { SmallPow(); }
    DivModUnique(w * p, w, 0, p);
    Pow2Add(8 * (n - 3), 24);
    Pow2Add(8 * (n - 3), 16);
    Compare(2 * w, 0x1000000, p);
    Compare(2 * w, 0x10000, p);
    assert 2 * (w * p) == (2 * w) * p;
  }

  /** Fewer bytes: the dropped ones must be zero. */
  lemma SmallRoundTrip(w: nat, n: nat, q: nat)
    requires n < 3 && w < 0x800000 && q == Pow2(8 * (3 - n))
    ensures 0 <= w / q
    ensures IsSize(w / q, n) && Mantissa(w / q, n) == w <==> w % q == 0 && (n == 0 || w >= 0x8000)
  {
    hide Pow2;
    var x := w / q;
    assert w == x * q + w % q;
    if w % q == 0 {
      SmallSize(x, n, w);
    }
  }

  /** With the dropped bytes zero, the size is right exactly for three bytes in the mantissa. */
  lemma SmallSize(x: nat, n: nat, w: nat)
    requires n < 3 && w < 0x800000 && w == x * Pow2(8 * (3 - n))
    ensures IsSize(x, n) <==> n == 0 || w >= 0x8000
  {
    hide Pow2;
    Bytes();
    SmallPow();
    if n == 0 {
      assert w == x * 0x1000000;
    } else if n == 1 {
      assert w == x * 0x10000;
    } else {
      assert w == x * 0x100;
    }
  }

  lemma SmallPow()
    ensures Pow2(0) == 1
  {
  }

  /** Reading and writing again gives back exactly the canonical forms. */
  lemma CompactRoundTrip(c: nat)
    requires c < BASE && (c / 0x800000) % 2 == 0
    ensures IsCompactOf(c, Target(c), false) <==> Canonical(c)
  {
    hide Pow2, IsSize, Mantissa;
    var n, w := Size(c), c % 0x800000;
    assert c == n * 0x1000000 + w;
    if n >= 3 {
      SmallPow();
      DivModUnique(w, w, 0, 1);
      LargeRoundTrip(w, n);
    } else {
      SmallRoundTrip(w, n, Pow2(8 * (3 - n)));
      Bytes();
    }
  }

  /** The shifts of GetCompact: the byte count from the bits, and one more byte where the sign bit is taken. */
  lemma CompactSteps(x: nat, bits: nat)
    requires IsBits(x, bits) && bits <= 256
    ensures var n := (bits + 7) / 8; var m := Top(x, n);
      && n <= 32 && (n <= 3 ==> x < 0x1000000) && m < 0x1000000
      && (m < 0x800000 ==> IsSize(x, n) && m == Mantissa(x, n))
      && (m >= 0x800000 ==> IsSize(x, n + 1) && m / 0x100 == Mantissa(x, n + 1))
  {
    hide Pow2;
    var n := (bits + 7) / 8;
    Pow2Monotone(bits, 8 * n);
    if n > 0 {
      Pow2Monotone(8 * (n - 1), bits - 1);
    }
    Bytes();
    SmallPow();
    if n <= 3 {
      SmallSteps(x, n);
    } else {
      LargeSteps(x, n);
    }
  }

  /** The number shifted so that its n bytes become three. */
  ghost function Top(x: nat, n: nat): nat {
    if n <= 3 then x * Pow2(8 * (3 - n)) else DivSmall(x, Pow2(8 * (n - 3))); x / Pow2(8 * (n - 3))
  }

  lemma SmallSteps(x: nat, n: nat)
    requires n <= 3 && x < Pow2(8 * n) && (n > 0 ==> Pow2(8 * (n - 1)) <= x)
    ensures var m := Top(x, n);
      && x < 0x1000000 && m < 0x1000000
      && (m < 0x800000 ==> IsSize(x, n) && m == Mantissa(x, n))
      && (m >= 0x800000 ==> IsSize(x, n + 1) && m / 0x100 == Mantissa(x, n + 1))
  {
    hide Pow2;
    Bytes();
    SmallPow();
    Pow2Add(24, 8);
  }

  lemma LargeSteps(x: nat, n: nat)
    requires n > 3 && x < Pow2(8 * n) && Pow2(8 * (n - 1)) <= x
    ensures var m := Top(x, n);
      && m < 0x1000000
      && (m < 0x800000 ==> IsSize(x, n) && m == Mantissa(x, n))
      && (m >= 0x800000 ==> IsSize(x, n + 1) && m / 0x100 == Mantissa(x, n + 1))
  {
    hide Pow2;
    var p := Pow2(8 * (n - 3));
    Bytes();
    Pow2Add(8 * (n - 3), 24);
    Pow2Add(8 * (n - 3), 8);
    Pow2Add(8 * n, 8);
    DivTwice(x, p, 0x100);
    assert Pow2(8 * (n + 1 - 3)) == p * 0x100 && Pow2(8 * n) == p * 0x1000000;
    TopBounds(x, p);
  }

  lemma TopBounds(x: nat, p: nat)
    requires p > 0 && x < p * 0x1000000
    ensures 0 <= x / p < 0x1000000
    ensures if x / p < 0x800000 then 2 * x < p * 0x1000000 else p * 0x1000000 <= 2 * x
  {
    var m := x / p;
    assert x == m * p + x % p;
    Compare(m, 0x1000000, p);
    if m < 0x800000 {
      MulMonotone(m + 1, 0x800000, p);
      Distribute(m, 1, p);
    } else {
      MulMonotone(0x800000, m, p);
    }
  }

  /** The parts put together. */
  lemma Assembled(x: nat, e: nat, m: nat, negative: bool)
    requires e < 256 && m < 0x800000 && IsSize(x, e) && m == Mantissa(x, e)
    ensures IsCompactOf(m + e * 0x1000000 + (if negative && m != 0 then 0x800000 else 0), x, negative)
  {
    hide IsSize, Mantissa;
  }

  lemma DivTwice(x: nat, p: nat, q: nat)
    requires p > 0 && q > 0
    ensures p * q > 0 && (x / p) / q == x / (p * q)
  {
    var a := x / p;
    var b := a / q;
    var low := (a % q) * p + x % p;
    assert x == a * p + x % p && a == b * q + a % q;
    Distribute(b * q, a % q, p);
    Assoc(b, q, p);
    MulMonotone(a % q + 1, q, p);
    Distribute(a % q, 1, p);
    assert q * p == p * q;
    DivModUnique(x, b, low, p * q);
  }
}
