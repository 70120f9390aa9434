/**
Arithmetic on fixed-width unsigned integers (base_uint, src/arith_uint256.h and src/arith_uint256.cpp)
and the proof-of-work value of a block (GetBlockProof, src/chain.cpp).

Every operation works on the limbs in place and is proved to be the operation on integers, modulo
2^BITS where it can exceed the width.
*/
module Arith {
  import opened Basics
  import opened CompactForm
  import opened Limbs
  import opened Shifts

  /** One more limb of a sum: the low part is kept and the carry goes on. */
  lemma CarryPush(r: seq<Limb>, carry: nat, d: nat, sum: int)
    requires Val(r) + carry * BasePow(|r|) == sum
    ensures var n := carry + d;
      Val(r + [n % BASE]) + (n / BASE) * BasePow(|r| + 1) == sum + d * BasePow(|r|)
  {
    var n := carry + d;
    ValAppend(r, n % BASE);
    CarryNumbers(Val(r), carry, d, BasePow(|r|), sum);
  }

  lemma CarryNumbers(v: int, carry: nat, d: nat, p: int, sum: int)
    requires v + carry * p == sum
    ensures var n := carry + d; v + (n % BASE) * p + (n / BASE) * (p * BASE) == sum + d * p
  {
    var n := carry + d;
    Regroup(n % BASE, n / BASE, p);
    Distribute(carry, d, p);
  }

  lemma Regroup(y: int, z: int, p: int)
    ensures y * p + z * (p * BASE) == (z * BASE + y) * p
  {
  }

  /** What is left when the last carry is dropped. */
  lemma DropCarry(v: nat, carry: nat, m: nat, sum: nat)
    requires m > 0 && v + carry * m == sum && v < m
    ensures v == sum % m
  {
    DivModUnique(sum, carry, v, m);
  }

  class BaseUint {
    const pn: array<Limb>

    ghost predicate Valid() { pn.Length >= 2 }

    /** The value, and the first number that is too large. */
    ghost function V(): nat reads pn { Val(pn[..]) }
    ghost function M(): nat { BasePow(pn.Length) }

    constructor Zero(width: nat)
      requires width >= 2
      ensures Valid() && fresh(pn) && pn.Length == width && V() == 0
    {
      pn := new Limb[width](_ => 0);
      new;
      ValZero(pn[..]);
    }

    constructor Copy(b: BaseUint)
      requires b.Valid()
      ensures Valid() && fresh(pn) && pn.Length == b.pn.Length && pn[..] == b.pn[..] && V() == b.V()
    {
      var a := new Limb[b.pn.Length](i requires 0 <= i < b.pn.Length reads b.pn => b.pn[i]);
      pn := a;
      new;
      assert pn[..] == b.pn[..];
    }

    /** operator+=; b may be this very number. */
    method Add(b: BaseUint)
      requires Valid() && b.pn.Length == pn.Length && (b.pn == pn ==> b == this)
      modifies pn
      ensures V() == old(V() + b.V()) % M()
    {
      hide Val, BasePow;
      ghost var x, y := pn[..], b.pn[..];
      ValNone();
      var carry: nat := 0;
      var i := 0;
      while i < pn.Length
        invariant 0 <= i <= pn.Length && carry <= 1
        invariant pn[i..] == x[i..] && (b.pn != pn ==> b.pn[..] == y) && (b.pn == pn ==> y == x)
        invariant Val(pn[..i]) + carry * BasePow(i) == Val(x[..i]) + Val(y[..i])
      {
        AddPush(x, y, pn[..i], carry);
        assert pn[i] == pn[i..][0] == x[i] && b.pn[i] == y[i];
        var n: nat := carry + pn[i] + b.pn[i];
        ghost var before := pn[..i];
        pn[i] := n % BASE;
        assert pn[..i + 1] == before + [n % BASE];
        carry := n / BASE;
        i := i + 1;
      }
      assert pn[..i] == pn[..] && x[..i] == x && y[..i] == y;
      ValBound(pn[..]);
      DropCarry(V(), carry, M(), Val(x) + Val(y));
    }

    /** operator~ */
    method Complement() returns (r: BaseUint)
      requires Valid()
      ensures fresh(r) && fresh(r.pn) && r.Valid() && r.pn.Length == pn.Length && r.V() == M() - 1 - V()
    {
      r := new BaseUint.Zero(pn.Length);
      var i := 0;
      while i < pn.Length
        invariant 0 <= i <= pn.Length && fresh(r.pn) && pn[..] == old(pn[..])
        invariant forall k :: 0 <= k < i ==> r.pn[k] == BASE - 1 - pn[k]
      {
        r.pn[i] := BASE - 1 - pn[i];
        i := i + 1;
      }
      ComplementVal(pn[..], r.pn[..]);
    }

    /** operator++ */
    method Increment()
      requires Valid()
      modifies pn
      ensures V() == (old(V()) + 1) % M()
    {
      hide Val, BasePow;
      ghost var x := pn[..];
      BaseCases(x);
      var i := 0;
      while true
        invariant 0 <= i < pn.Length && pn[i..] == x[i..]
        invariant Val(pn[..i]) + 1 * BasePow(i) == Val(x[..i]) + 1
        decreases pn.Length - i
      {
        ghost var before := pn[..i];
        assert pn[i] == pn[i..][0] == x[i];
        CarryPush(before, 1, x[i], Val(x[..i]) + 1);
        ValPush(x, i);
        var n: nat := pn[i] as nat + 1;
        pn[i] := n % BASE;
        assert pn[..i + 1] == before + [n % BASE] && pn[i + 1..] == x[i + 1..];
        if pn[i] != 0 || i == pn.Length - 1 {
          break;
        }
        i := i + 1;
      }
      IncrementEnd(x, pn[..], i);
    }

    /** operator- */
    method Negate() returns (r: BaseUint)
      requires Valid()
      ensures fresh(r) && fresh(r.pn) && r.Valid() && r.pn.Length == pn.Length && r.V() == (M() - V()) % M()
    {
      r := Complement();
      r.Increment();
    }

    /** operator-= */
    method Subtract(b: BaseUint)
      requires Valid() && b.pn.Length == pn.Length && (b.pn == pn ==> b == this)
      modifies pn
      ensures V() == (old(V()) - old(b.V())) % M()
    {
      hide Val, BasePow;
      ghost var x, y := V(), b.V();
      ValBound(b.pn[..]);
      var n := b.Negate();
      Add(n);
      SubtractMod(x, y, M());
    }

    /** operator*= with a 32-bit number. */
    method MultiplySmall(b32: Limb)
      requires Valid()
      modifies pn
      ensures V() == (old(V()) * b32) % M()
    {
      hide Val, BasePow, Product, Scaled;
      ghost var x := pn[..];
      ScaleNone(x, b32);
      var carry: nat := 0;
      var i := 0;
      while i < pn.Length
        invariant 0 <= i <= pn.Length && carry < BASE && forall k :: i <= k < pn.Length ==> pn[k] == x[k]
        invariant Scaled(pn[..i], carry, x, b32)
      {
        ghost var before := pn[..i];
        var n: nat := carry + Product(b32, pn[i]);
        assert n < 0x1_0000_0000_0000_0000;
        ScalePush(before, carry, x, b32);
        pn[i] := n % BASE;
        assert pn[..i + 1] == before + [n % BASE];
        carry := n / BASE;
        i := i + 1;
      }
      assert pn[..i] == pn[..];
      ScaleDone(pn[..], carry, x, b32);
    }

    /** The inner loop of operator*=: adds one limb's multiple of b, j limbs up. */
    method AddRow(j: nat, aj: Limb, b: BaseUint) returns (carry: nat)
      requires Valid() && b.pn.Length == pn.Length && (b.pn == pn ==> b == this) && j < pn.Length
      requires b == this ==> forall k :: 0 <= k < pn.Length ==> pn[k] == 0
      modifies pn
      ensures b != this ==> V() + carry * M() == old(V()) + aj * BasePow(j) * Val(b.pn[..][..pn.Length - j])
      ensures b == this ==> forall k :: 0 <= k < pn.Length ==> pn[k] == 0
    {
      hide Val, BasePow, Product, Row;
      ghost var x, y := pn[..], b.pn[..];
      carry := 0;
      var i := 0;
      RowNone(x, y, aj, j);
      assert pn[..j] == x[..j];
      while i + j < pn.Length
        invariant 0 <= i <= pn.Length - j && carry < BASE && pn[i + j..] == x[i + j..]
        invariant b != this ==> b.pn[..] == y
        invariant b == this ==> carry == 0 && forall k :: 0 <= k < pn.Length ==> pn[k] == 0
        invariant b != this ==> Row(pn[..i + j], carry, x, y, aj, i, j)
      {
        ghost var before := pn[..i + j];
        assert pn[i + j] == pn[i + j..][0] == x[i + j];
        ProductZero(aj);
        var n: nat := carry + pn[i + j] + Product(aj, b.pn[i]);
        assert n < 0x1_0000_0000_0000_0000;
        if b != this {
          assert b.pn[i] == y[i];
          RowPush(before, carry, x, y, aj, i, j);
        }
        pn[i + j] := n % BASE;
        assert pn[..i + j + 1] == before + [n % BASE];
        assert i + j + 1 == i + 1 + j;
        carry := n / BASE;
        i := i + 1;
      }
      assert pn[..i + j] == pn[..];
      if b != this {
        RowAll(pn[..], carry, x, y, aj, i, j);
      }
    }

    /**
    operator*=, which is the product as long as the two are different objects: it clears this number
    before it reads b, so a number multiplied by itself in place becomes 0.
    */
    method Multiply(b: BaseUint)
      requires Valid() && b.pn.Length == pn.Length && (b.pn == pn ==> b == this)
      modifies pn
      ensures b != this ==> V() == old(V() * b.V()) % M()
      ensures b == this ==> V() == 0
    {
      hide Val, BasePow;
      ghost var y := b.pn[..];
      var a := pn[..];
      Clear();
      BaseCases(a);
      ghost var over: int := 0;
      var j := 0;
      while j < pn.Length
        invariant 0 <= j <= pn.Length && (b != this ==> b.pn[..] == y)
        invariant b == this ==> forall k :: 0 <= k < pn.Length ==> pn[k] == 0
        invariant b != this ==> V() + over * M() == Val(a[..j]) * Val(y)
      {
        ghost var was := V();
        var carry := AddRow(j, a[j], b);
        if b != this {
          over := RowDone(V(), was, over, carry, a, y, j);
        }
        j := j + 1;
      }
      assert a[..j] == a;
      if b == this {
        ValZero(pn[..]);
      } else {
        ValBound(pn[..]);
        DivModUnique(Val(a) * Val(y), over, V(), M());
      }
    }

    method Clear()
      modifies pn
      ensures V() == 0 && forall k :: 0 <= k < pn.Length ==> pn[k] == 0
    {
      var i := 0;
      while i < pn.Length
        invariant 0 <= i <= pn.Length && forall k :: 0 <= k < i ==> pn[k] == 0
      {
        pn[i] := 0;
        i := i + 1;
      }
      ValZero(pn[..]);
    }

    /** operator<<= */
    method ShiftLeft(shift: nat)
      requires Valid()
      modifies pn
      ensures V() == (old(V()) * Pow2(shift)) % M()
    {
      hide Val, BasePow, Pow2, Or, Low, High, LeftLimb, HighBelow;
      var a := pn[..];
      Clear();
      var k, s := shift / 32, shift % 32;
      var w := pn.Length;
      LeftCases(a, k, s, 0);
      forall m | 0 <= m < w && m < k ensures LeftLimb(a, k, s, m) == 0 {
        LeftCases(a, k, s, m);
      }
      var i := 0;
      while i < w
        invariant 0 <= i <= w
        invariant forall m :: 0 <= m < w && m < k + i ==> pn[m] == LeftLimb(a, k, s, m)
        invariant k + i < w ==> pn[k + i] == HighBelow(a, i, s)
        invariant forall m :: k + i < m < w ==> pn[m] == 0
      {
        LeftCases(a, k, s, i);
        OrZero(High(a[i], s));
        if i + k + 1 < w && s != 0 {
          pn[i + k + 1] := Or(pn[i + k + 1], High(a[i], s));
        }
        if i + k < w {
          pn[i + k] := Or(pn[i + k], Low(a[i], s));
        }
        i := i + 1;
      }
      LeftValue(a, pn[..], k, s);
    }

    /** operator>>= */
    method ShiftRight(shift: nat)
      requires Valid()
      modifies pn
      ensures V() == old(V()) / Pow2(shift)
    {
      hide Val, BasePow, Pow2, Or, Low, High, Down, RightLimb;
      var a := pn[..];
      Clear();
      var k, s := shift / 32, shift % 32;
      var w := pn.Length;
      var i := 0;
      while i < w
        invariant 0 <= i <= w
        invariant forall m :: 0 <= m && m + k + 1 < i ==> pn[m] == RightLimb(a, k, s, m)
        invariant 0 <= i - k - 1 < w ==> pn[i - k - 1] == Down(a[i - 1], s)
        invariant forall m :: 0 <= m < w && m + k >= i ==> pn[m] == 0
      {
        if i - k - 1 >= 0 {
          RightCases(a, k, s, i - k - 1);
        }
        if i - k - 1 >= 0 && s != 0 {
          pn[i - k - 1] := Or(pn[i - k - 1], Low(a[i], 32 - s));
        }
        if i - k >= 0 {
          OrZero(Down(a[i], s));
          pn[i - k] := Or(pn[i - k], Down(a[i], s));
        }
        i := i + 1;
      }
      forall m | 0 <= m < w ensures pn[m] == RightLimb(a, k, s, m) {
        RightCases(a, k, s, m);
      }
      RightValue(a, pn[..], k, s);
    }

    method CompareTo(b: BaseUint) returns (c: int)
      requires Valid() && b.pn.Length == pn.Length
      ensures c == if V() < b.V() then -1 else if V() > b.V() then 1 else 0
    {
      hide Val;
      ghost var x, y := pn[..], b.pn[..];
      var i := pn.Length - 1;
      while i >= 0
        invariant -1 <= i < pn.Length && forall k :: i < k < pn.Length ==> x[k] == y[k]
      {
        if pn[i] < b.pn[i] {
          HighestDecides(x, y, i);
          return -1;
        }
        if pn[i] > b.pn[i] {
          HighestDecides(y, x, i);
          return 1;
        }
        i := i - 1;
      }
      assert x == y;
      return 0;
    }

    /** The position of the highest bit plus one, or 0. */
    method Bits() returns (n: nat)
      requires Valid()
      ensures IsBits(V(), n) && n <= 32 * pn.Length
    {
      hide Val, Pow2;
      ghost var a := pn[..];
      var pos := pn.Length - 1;
      while pos >= 0
        invariant -1 <= pos < pn.Length && forall k :: pos < k < pn.Length ==> pn[k] == 0
      {
        if pn[pos] != 0 {
          Pow2Of32();
          var bits := 31;
          while bits > 0
            invariant 0 <= bits <= 31 && pn[pos] < Pow2(bits + 1)
          {
            TopBit(pn[pos], bits);
            if (pn[pos] / Pow2(bits)) % 2 == 1 {
              BitsOfLimb(a, pos, bits + 1);
              return 32 * pos + bits + 1;
            }
            bits := bits - 1;
          }
          SmallPowers();
          BitsOfLimb(a, pos, 1);
          return 32 * pos + 1;
        }
        pos := pos - 1;
      }
      SmallPowers();
      ValZero(a);
      return 0;
    }

    /** Sets a bit of a number that has neither it nor a lower one. */
    method SetBit(shift: nat)
      requires Valid() && shift / 32 < pn.Length && V() % Pow2(shift + 1) == 0
      modifies pn
      ensures V() == old(V()) + Pow2(shift)
    {
      hide Val, Pow2, Or;
      ghost var a := pn[..];
      SetBitValue(a, shift);
      var k := shift / 32;
      pn[k] := Or(pn[k], Pow2(shift % 32));
      assert pn[..] == a[k := pn[k]];
    }

    /** operator/=: shift and subtract.  Division by zero, which the source reports by an exception, leaves 0. */
    method Divide(b: BaseUint) returns (ok: bool)
      requires Valid() && b.pn.Length == pn.Length && (b.pn == pn ==> b == this)
      modifies pn
      ensures ok <==> old(b.V()) != 0
      ensures V() == if ok then old(V()) / old(b.V()) else 0
    {
      hide Val, Pow2, BasePow, Dividing, IsBits;
      ghost var x, y := V(), b.V();
      var div := new BaseUint.Copy(b);
      var num := new BaseUint.Copy(this);
      Clear();
      var num_bits := num.Bits();
      var div_bits := div.Bits();
      ZeroBits(y, div_bits);
      if div_bits == 0 {
        return false;
      }
      if div_bits > num_bits {
        SmallerBits(x, num_bits, y, div_bits);
        return true;
      }
      var shift: int := num_bits - div_bits;
      AlignBits(x, num_bits, y, div_bits, pn.Length);
      div.ShiftLeft(shift);
      while shift >= 0
        invariant -1 <= shift < 32 * pn.Length && fresh(num.pn) && fresh(div.pn)
        invariant num.pn != pn && div.pn != pn && num.pn != div.pn
        invariant num.Valid() && div.Valid() && num.pn.Length == div.pn.Length == pn.Length
        invariant Dividing(x, y, V(), num.V(), shift + 1)
        invariant shift >= 0 ==> div.V() == y * Pow2(shift)
      {
        DivideBit(num, div, shift, x, y);
        shift := shift - 1;
      }
      Divided(x, y, V(), num.V());
      return true;
    }

    /** One turn of the loop. */
    method DivideBit(num: BaseUint, div: BaseUint, shift: nat, ghost x: nat, ghost y: nat)
      requires Valid() && num.pn != pn && div.pn != pn && num.pn != div.pn && shift / 32 < pn.Length
      requires num.pn.Length == div.pn.Length == pn.Length
      requires Dividing(x, y, V(), num.V(), shift + 1) && div.V() == y * Pow2(shift)
      modifies pn, num.pn, div.pn
      ensures Dividing(x, y, V(), num.V(), shift)
      ensures shift > 0 ==> div.V() == y * Pow2(shift - 1)
    {
      hide Val, Pow2, BasePow;
      DivideStep(x, y, V(), num.V(), shift);
      HalfShift(y, shift);
      var c := num.CompareTo(div);
      if c >= 0 {
        ValBound(num.pn[..]);
        DivModUnique(num.V() - div.V(), 0, num.V() - div.V(), M());
        num.Subtract(div);
        SetBit(shift);
      }
      div.ShiftRight(1);
    }

    /** operator= from a 64-bit number. */
    method Assign(b: nat)
      requires Valid() && b < 0x1_0000_0000_0000_0000
      modifies pn
      ensures V() == b
    {
      hide Val;
      Clear();
      pn[0] := b % BASE;
      pn[1] := b / BASE;
      ghost var a := pn[..];
      TwoLimbs(a);
      ValZero(a[2..]);
    }

    /** The compact form of a number: a byte count and the three highest bytes, with a sign bit. */
    method SetCompact(nCompact: nat) returns (fNegative: bool, fOverflow: bool)
      requires Valid() && pn.Length == 8 && nCompact < BASE
      modifies pn
      ensures V() == Target(nCompact) % Pow2(256)
      ensures fOverflow <==> Target(nCompact) >= Pow2(256)
      ensures fNegative <==> Word(nCompact) != 0 && (nCompact / 0x800000) % 2 == 1
    {
      hide Val, Pow2;
      var nSize := nCompact / 0x1000000;
      var nWord := nCompact % 0x800000;
      TargetFits(nCompact);
      if nSize <= 3 {
        nWord := nWord / Pow2(8 * (3 - nSize));
        Assign(nWord);
      } else {
        Assign(nWord);
        ShiftLeft(8 * (nSize - 3));
      }
      BasePow2(8);
      fNegative := nWord != 0 && (nCompact / 0x800000) % 2 == 1;
      fOverflow := nWord != 0 && (nSize > 34 || (nWord > 0xff && nSize > 33) || (nWord > 0xffff && nSize > 32));
    }

    /** The lowest 64 bits. */
    method GetLow64() returns (r: nat)
      requires Valid()
      ensures r == V() % 0x1_0000_0000_0000_0000
    {
      hide Val;
      ghost var a := pn[..];
      TwoLimbs(a);
      r := pn[0] + pn[1] * BASE;
      DivModUnique(Val(a), Val(a[2..]), r, 0x1_0000_0000_0000_0000);
    }

    /** The three highest of n bytes. */
    method TopBytes(n: nat) returns (m: nat)
      requires Valid() && (n <= 3 ==> V() < 0x1000000) && Top(V(), n) < 0x1000000
      ensures m == Top(V(), n)
    {
      hide Val, Pow2;
      SmallMod(Top(V(), n));
      if n <= 3 {
        var low := GetLow64();
        SmallMod(V());
        m := low * Pow2(8 * (3 - n)) % BASE;
      } else {
        var bn := new BaseUint.Copy(this);
        bn.ShiftRight(8 * (n - 3));
        var low := bn.GetLow64();
        m := low % BASE;
      }
    }

    /** The compact form, in which the highest bit of the mantissa is the sign. */
    method GetCompact(fNegative: bool) returns (nCompact: nat)
      requires Valid() && pn.Length == 8
      ensures IsCompactOf(nCompact, V(), fNegative)
    {
      hide Val, Pow2, IsSize, Mantissa, IsBits, Top, IsCompactOf;
      var bits := Bits();
      var nSize := (bits + 7) / 8;
      CompactSteps(V(), bits);
      nCompact := TopBytes(nSize);
      if (nCompact / 0x800000) % 2 == 1 {
        nCompact := nCompact / 0x100;
        nSize := nSize + 1;
      }
      assert nCompact < 0x800000 && nSize < 256;
      Assembled(V(), nSize, nCompact, fNegative);
      nCompact := nCompact + nSize * 0x1000000 + (if fNegative && nCompact != 0 then 0x800000 else 0);
    }
  }

  /** Three bytes fit. */
  lemma SmallMod(x: nat)
    requires x < 0x1000000
    ensures x % BASE == x && x % 0x1_0000_0000_0000_0000 == x
  {
  }

  lemma TwoLimbs(a: seq<Limb>)
    requires |a| >= 2
    ensures Val(a) == a[0] + a[1] * BASE + 0x1_0000_0000_0000_0000 * Val(a[2..])
  {
    ValSplit(a, 2);
    ValPush(a, 1);
    ValPush(a, 0);
    BasePows();
    assert a[..0] == [];
    hide Val, BasePow;
    ValNone();
  }

  lemma BasePows()
    ensures BasePow(0) == 1 && BasePow(1) == BASE && BasePow(2) == 0x1_0000_0000_0000_0000
  {
    assert BasePow(1) == BasePow(0) * BASE;
    assert BasePow(2) == BasePow(1) * BASE;
  }

  /** Whether the header's target counts: neither negative nor too large nor zero. */
  predicate Accepted(nBits: nat) {
    Target(nBits) < Pow2(256) && Target(nBits) > 0 && (nBits / 0x800000) % 2 == 0
  }

  /** The expected number of hashes for a block: 2^256 divided by target + 1, without ever forming 2^256. */
  method GetBlockProof(nBits: nat) returns (r: BaseUint)
    requires nBits < BASE
    ensures r.Valid() && r.pn.Length == 8
    ensures r.V() == if Accepted(nBits) then Pow2(256) / (Target(nBits) + 1) else 0
  {
    hide Val, Pow2, BasePow, Target;
    r := new BaseUint.Zero(8);
    var bnTarget := new BaseUint.Zero(8);
    var fNegative, fOverflow := bnTarget.SetCompact(nBits);
    TargetBelow(nBits);
    var isZero := bnTarget.CompareTo(r);
    if !(fNegative || fOverflow || isZero == 0) {
      r := ProofOf(bnTarget);
    }
  }

  /** One less than 2^256 minus the target, divided by target + 1, and one more. */
  method ProofOf(bnTarget: BaseUint) returns (r: BaseUint)
    requires bnTarget.Valid() && bnTarget.pn.Length == 8 && 0 < bnTarget.V() && bnTarget.V() + 1 < Pow2(256)
    modifies bnTarget.pn
    ensures r.Valid() && r.pn.Length == 8 && r.V() == Pow2(256) / (old(bnTarget.V()) + 1)
  {
    hide Val, Pow2, BasePow;
    ghost var t := bnTarget.V();
    BasePow2(8);
    r := bnTarget.Complement();
    var one := new BaseUint.Zero(8);
    one.Assign(1);
    bnTarget.Add(one);
    DivModUnique(t + 1, 0, t + 1, Pow2(256));
    var ok := r.Divide(bnTarget);
    ProofNumbers(t, Pow2(256));
    r.Add(one);
  }

  lemma ProofNumbers(t: nat, m: nat)
    requires 1 <= t && t + 1 < m
    ensures (m - 1 - t) / (t + 1) + 1 == m / (t + 1)
    ensures ((m - 1 - t) / (t + 1) + 1) % m == (m - 1 - t) / (t + 1) + 1
  {
    var q, r := (m - 1 - t) / (t + 1), (m - 1 - t) % (t + 1);
    DivModUnique(m, q + 1, r, t + 1);
    MulMonotone(2, t + 1, q);
    DivModUnique(q + 1, 0, q + 1, m);
  }

  /** The invariant of the division: what is left plus what is taken out, and how small what is left is. */
  ghost predicate Dividing(x: nat, y: nat, q: nat, rest: nat, n: nat) {
    rest + q * y == x && rest < y * Pow2(n) && q % Pow2(n) == 0
  }

  lemma DivideStep(x: nat, y: nat, q: nat, rest: nat, shift: nat)
    requires Dividing(x, y, q, rest, shift + 1)
    ensures if rest >= y * Pow2(shift) then Dividing(x, y, q + Pow2(shift), rest - y * Pow2(shift), shift)
            else Dividing(x, y, q, rest, shift)
  {
    var p := Pow2(shift);
    assert Pow2(shift + 1) == 2 * p;
    hide Pow2;
    var m := q / (2 * p);
    assert q == m * (2 * p);
    Assoc(m, 2, p);
    DivModUnique(q, m * 2, 0, p);
    Distribute(m * 2, 1, p);
    DivModUnique(q + p, m * 2 + 1, 0, p);
    Distribute(q, p, y);
    DoubleShift(y, p);
  }

  lemma DoubleShift(y: int, p: int)
    ensures y * (2 * p) == y * p + y * p && p * y == y * p
  {
  }

  lemma HalfShift(y: nat, shift: nat)
    ensures shift > 0 ==> (y * Pow2(shift)) / Pow2(1) == y * Pow2(shift - 1)
  {
    if shift > 0 {
      var p := Pow2(shift - 1);
      assert Pow2(shift) == 2 * p && Pow2(1) == 2;
      DoubleShift(y, p);
    }
  }

  lemma ZeroBits(y: nat, bits: nat)
    requires IsBits(y, bits)
    ensures bits == 0 <==> y == 0
  {
  }

  lemma Divided(x: nat, y: nat, q: nat, rest: nat)
    requires Dividing(x, y, q, rest, 0)
    ensures y > 0 && q == x / y
  {
    SmallPowers();
    DivModUnique(x, q, rest, y);
  }

  lemma SmallPowers()
    ensures Pow2(0) == 1 && Pow2(1) == 2
  {
  }

  lemma SmallerBits(x: nat, n: nat, y: nat, m: nat)
    requires IsBits(x, n) && IsBits(y, m) && n < m
    ensures y > 0 && x / y == 0
  {
    Pow2Monotone(n, m - 1);
    DivModUnique(x, 0, x, y);
  }

  lemma AlignBits(x: nat, n: nat, y: nat, m: nat, w: nat)
    requires IsBits(x, n) && IsBits(y, m) && 0 < m <= n <= 32 * w
    ensures (y * Pow2(n - m)) % BasePow(w) == y * Pow2(n - m)
    ensures Dividing(x, y, 0, x, n - m + 1)
  {
    var k := n - m;
    hide Pow2;
    DivModUnique(0, 0, 0, Pow2(k + 1));
    Pow2Add(m, k);
    Pow2Add(m - 1, k + 1);
    Pow2Monotone(n, 32 * w);
    BasePow2(w);
    MulMonotone(y + 1, Pow2(m), Pow2(k));
    Distribute(y, 1, Pow2(k));
    MulMonotone(Pow2(m - 1), y, Pow2(k + 1));
    DivModUnique(y * Pow2(k), 0, y * Pow2(k), BasePow(w));
  }

  lemma ProductZero(a: Limb)
    ensures Product(a, 0) == 0
  {
  }

  /** i limbs of b, times one limb, have been added j limbs up. */
  ghost predicate Row(r: seq<Limb>, carry: nat, x: seq<Limb>, y: seq<Limb>, aj: Limb, i: nat, j: nat) {
    && |x| == |y| && i + j <= |x| && |r| == i + j
    && Val(r) + carry * BasePow(i + j) == Val(x[..i + j]) + aj * BasePow(j) * Val(y[..i])
  }

  lemma RowNone(x: seq<Limb>, y: seq<Limb>, aj: Limb, j: nat)
    requires |x| == |y| && j <= |x|
    ensures Row(x[..j], 0, x, y, aj, 0, j)
  {
    assert Val(y[..0]) == 0;
  }

  lemma RowAll(r: seq<Limb>, carry: nat, x: seq<Limb>, y: seq<Limb>, aj: Limb, i: nat, j: nat)
    requires Row(r, carry, x, y, aj, i, j) && i + j == |x|
    ensures Val(r) + carry * BasePow(|x|) == Val(x) + aj * BasePow(j) * Val(y[..|x| - j])
  {
    assert x[..i + j] == x;
  }

  lemma RowPush(r: seq<Limb>, carry: nat, x: seq<Limb>, y: seq<Limb>, aj: Limb, i: nat, j: nat)
    requires Row(r, carry, x, y, aj, i, j) && i + j < |x|
    ensures var n: nat := carry + x[i + j] + Product(aj, y[i]); Row(r + [n % BASE], n / BASE, x, y, aj, i + 1, j)
  {
    hide Val, BasePow;
    var d: nat := x[i + j] as nat + (aj as nat) * y[i];
    assert i + 1 + j == i + j + 1;
    CarryPush(r, carry, d, Val(x[..i + j]) + aj * BasePow(j) * Val(y[..i]));
    ValPush(x, i + j);
    ValPush(y, i);
    BasePowAdd(i, j);
    RowNumbers(x[i + j], aj, y[i], BasePow(i), BasePow(j), Val(y[..i]));
  }

  lemma RowNumbers(x: int, a: int, y: int, p: int, q: int, v: int)
    ensures (x + a * y) * (p * q) == x * (p * q) + a * q * (v + y * p) - a * q * v
  {
    Distribute(x, a * y, p * q);
    RowProduct(a, y, p, q);
    SplitNumbers(a * q, v, y, p);
  }

  lemma RowProduct(a: int, y: int, p: int, q: int)
    ensures (a * y) * (p * q) == y * ((a * q) * p)
  {
  }

  lemma RowDone(now: int, was: int, over: int, carry: int, a: seq<Limb>, y: seq<Limb>, j: nat) returns (next: int)
    requires |a| == |y| && j < |a|
    requires was + over * BasePow(|a|) == Val(a[..j]) * Val(y)
    requires now + carry * BasePow(|a|) == was + a[j] * BasePow(j) * Val(y[..|a| - j])
    ensures now + next * BasePow(|a|) == Val(a[..j + 1]) * Val(y)
  {
    hide Val, BasePow;
    var n := |a| - j;
    var rest := Val(y[n..]);
    next := carry + over + a[j] * rest;
    ValSplit(y, n);
    ValPush(a, j);
    BasePowAdd(j, n);
    RowEnd(now, was, over, carry, Val(a[..j]), a[j], BasePow(j), BasePow(n), Val(y[..n]), rest);
  }

  lemma RowEnd(now: int, was: int, over: int, carry: int, va: int, x: int, p: int, q: int, low: int, rest: int)
    requires was + over * (p * q) == va * (low + q * rest)
    requires now + carry * (p * q) == was + x * p * low
    ensures now + (carry + over + x * rest) * (p * q) == (va + x * p) * (low + q * rest)
  {
    calc {
      now + (carry + over + x * rest) * (p * q);
      { Distribute(carry + over, x * rest, p * q); Distribute(carry, over, p * q); }
      now + carry * (p * q) + over * (p * q) + (x * rest) * (p * q);
      was + over * (p * q) + x * p * low + (x * rest) * (p * q);
      va * (low + q * rest) + x * p * low + (x * rest) * (p * q);
      { RowProduct(x, rest, q, p); SplitNumbers(x * p, low, rest, q); }
      va * (low + q * rest) + (x * p) * (low + rest * q);
      { Distribute(va, x * p, low + q * rest); }
      (va + x * p) * (low + q * rest);
    }
  }

  lemma BaseCases(x: seq<Limb>)
    ensures Val(x[..0]) == 0 && BasePow(0) == 1
  {
  }

  lemma {:induction false} ComplementVal(s: seq<Limb>, t: seq<Limb>)
    requires |s| == |t| && forall k :: 0 <= k < |s| ==> t[k] == BASE - 1 - s[k]
    ensures Val(s) + Val(t) == BasePow(|s|) - 1
  {
    if s != [] {
      var n := |s| - 1;
      ComplementVal(s[..n], t[..n]);
      Distribute(s[n], t[n], BasePow(n));
    }
  }

  lemma IncrementEnd(x: seq<Limb>, r: seq<Limb>, i: nat)
    requires |x| == |r| && i < |x| && r[i + 1..] == x[i + 1..]
    requires var n: nat := x[i] as nat + 1;
      r[i] == n % BASE && Val(r[..i + 1]) + (n / BASE) * BasePow(i + 1) == Val(x[..i + 1]) + 1
    requires r[i] != 0 || i == |x| - 1
    ensures Val(r) == (Val(x) + 1) % BasePow(|x|)
  {
    hide Val, BasePow;
    var n: nat := x[i] as nat + 1;
    ValTail(r, x, i + 1);
    ValBound(r);
    if r[i] == 0 {
      assert r[..i + 1] == r && x[..i + 1] == x;
      DropCarry(Val(r), n / BASE, BasePow(|x|), Val(x) + 1);
    } else {
      assert n / BASE == 0;
      DropCarry(Val(r), 0, BasePow(|x|), Val(x) + 1);
    }
  }

  lemma SubtractMod(x: int, y: int, m: int)
    requires 0 <= x && 0 <= y < m
    ensures (x + (m - y) % m) % m == (x - y) % m
  {
    if y == 0 {
      DivModUnique(m, 1, 0, m);
    } else {
      DivModUnique(m - y, 0, m - y, m);
      var q, r := (x - y) / m, (x - y) % m;
      DivModUnique(x + m - y, q + 1, r, m);
    }
  }

  lemma ProductBound(a: nat, b: nat)
    requires a < BASE && b < BASE
    ensures 0 <= a * b <= (BASE - 1) * (BASE - 1)
  {
    ProductWithin(a, b, BASE - 1);
  }

  lemma ProductWithin(a: nat, b: nat, m: nat)
    requires a <= m && b <= m
    ensures 0 <= a * b <= m * m
  {
    MulMonotone(a, m, b);
    MulMonotone(b, m, m);
    assert m * b == b * m;
  }

  /** The product of two limbs, in 64 bits. */
  function Product(a: Limb, b: Limb): (r: nat)
    ensures r <= (BASE - 1) * (BASE - 1)
  {
    var x: nat, y: nat := a, b;
    ProductBound(x, y);
    x * y
  }

  /** The low limbs of a multiple, and the carry. */
  ghost predicate Scaled(r: seq<Limb>, carry: nat, x: seq<Limb>, b: Limb) {
    |r| <= |x| && Val(r) + carry * BasePow(|r|) == Val(x[..|r|]) * b
  }

  lemma ScaleNone(x: seq<Limb>, b: Limb)
    ensures Scaled([], 0, x, b)
  {
  }

  lemma ScalePush(r: seq<Limb>, carry: nat, x: seq<Limb>, b: Limb)
    requires Scaled(r, carry, x, b) && |r| < |x|
    ensures var n := carry + Product(b, x[|r|]); Scaled(r + [n % BASE], n / BASE, x, b)
  {
    hide Val, BasePow;
    var i := |r|;
    CarryPush(r, carry, (b as nat) * x[i], Val(x[..i]) * b);
    ValPush(x, i);
    ScaleOne(Val(x[..i]), x[i], BasePow(i), b);
  }

  lemma ScaleDone(r: seq<Limb>, carry: nat, x: seq<Limb>, b: Limb)
    requires Scaled(r, carry, x, b) && |r| == |x|
    ensures Val(r) == (Val(x) * b) % BasePow(|x|)
  {
    hide Val, BasePow;
    assert x[..|r|] == x;
    ValBound(r);
    DropCarry(Val(r), carry, BasePow(|x|), Val(x) * b);
  }

  lemma ScaleOne(v: int, x: int, p: int, b: int)
    ensures v * b + (b * x) * p == (v + x * p) * b
  {
  }

  lemma AddPush(x: seq<Limb>, y: seq<Limb>, r: seq<Limb>, carry: nat)
    requires |x| == |y| && |r| < |x|
    requires Val(r) + carry * BasePow(|r|) == Val(x[..|r|]) + Val(y[..|r|])
    ensures var n: nat := carry + x[|r|] + y[|r|];
      Val(r + [n % BASE]) + (n / BASE) * BasePow(|r| + 1) == Val(x[..|r| + 1]) + Val(y[..|r| + 1])
  {
    hide Val, BasePow;
    var i := |r|;
    var d: nat := x[i] as nat + y[i];
    CarryPush(r, carry, d, Val(x[..i]) + Val(y[..i]));
    ValPush(x, i);
    ValPush(y, i);
    Distribute(x[i], y[i], BasePow(i));
  }
}
