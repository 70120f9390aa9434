/** Base-58 text for byte strings (src/base58.cpp:22-110). */
module Base58 {
  import opened Limbs
  import opened Basics

  // ---------------------------------------------------------------------------------------------
  // Numbers in a base, most significant digit first

  function Pow(b: nat, n: nat): nat {
    if n == 0 then 1 else Pow(b, n - 1) * b
  }

  ghost predicate AreDigits(ds: seq<nat>, base: nat) {
    forall k :: 0 <= k < |ds| ==> ds[k] < base
  }

  ghost function Value(ds: seq<nat>, base: nat): nat {
    if ds == [] then 0 else Value(ds[..|ds| - 1], base) * base + ds[|ds| - 1]
  }

  /** The digits of a number, without leading zeros; none for 0. */
  function Digits(n: nat, base: nat): seq<nat>
    requires base >= 2
  {
    if n == 0 then [] else Digits(n / base, base) + [n % base]
  }

  lemma {:induction false} DigitsValue(n: nat, base: nat)
    requires base >= 2
    ensures Value(Digits(n, base), base) == n && AreDigits(Digits(n, base), base)
    ensures n > 0 ==> Digits(n, base) != [] && Digits(n, base)[0] != 0
  {
    if n != 0 {
      var q, r := n / base, n % base;
      Quotient(n, base);
      DigitsValue(q, base);
      ValueAppend(Digits(q, base), r, base);
    }
  }

  lemma Quotient(n: nat, base: nat)
    requires n > 0 && base >= 2
    ensures n == (n / base) * base + n % base && 0 <= n / base < n
  {
    MulMonotone(2, base, n / base);
  }

  /** A number has only one list of digits that does not start with a zero. */
  lemma {:induction false} ValueDigits(ds: seq<nat>, base: nat)
    requires base >= 2 && AreDigits(ds, base) && (ds != [] ==> ds[0] != 0)
    ensures Digits(Value(ds, base), base) == ds
  {
    if ds != [] {
      var init, d := ds[..|ds| - 1], ds[|ds| - 1];
      ValueDigits(init, base);
      var v := Value(init, base);
      LastDigit(v, base, d);
      if init == [] {
        assert ds == [d];
      } else {
        ValuePositive(init, base);
        MulPositive(v, base);
      }
    }
  }

  lemma MulPositive(a: nat, b: nat)
    requires a >= 1 && b >= 1
    ensures a * b >= 1
  {
  }

  lemma LastDigit(v: nat, base: nat, d: nat)
    requires base >= 2 && d < base
    ensures (v * base + d) / base == v && (v * base + d) % base == d
  {
    DivModUnique(v * base + d, v, d, base);
  }

  lemma {:induction false} ValuePositive(ds: seq<nat>, base: nat)
    requires base >= 2 && ds != [] && ds[0] != 0
    ensures Value(ds, base) > 0
  {
    if |ds| > 1 {
      ValuePositive(ds[..|ds| - 1], base);
      MulPositive(Value(ds[..|ds| - 1], base), base);
    }
  }

  lemma ValueAppend(ds: seq<nat>, d: nat, base: nat)
    ensures Value(ds + [d], base) == Value(ds, base) * base + d
  {
    assert (ds + [d])[..|ds|] == ds;
  }

  lemma {:induction false} ValuePrepend(d: nat, ds: seq<nat>, base: nat)
    ensures Value([d] + ds, base) == d * Pow(base, |ds|) + Value(ds, base)
  {
    if ds == [] {
      assert [d] + ds == [] + [d];
      ValueAppend([], d, base);
    } else {
      var init, x := ds[..|ds| - 1], ds[|ds| - 1];
      ValuePrepend(d, init, base);
      assert [d] + ds == ([d] + init) + [x];
      ValueAppend([d] + init, x, base);
      PrependNumbers(d, Pow(base, |init|), Value(init, base), base);
    }
  }

  lemma PrependNumbers(d: int, p: int, v: int, b: int)
    ensures (d * p + v) * b == d * (p * b) + v * b
  {
  }

  lemma {:induction false} ValueBound(ds: seq<nat>, base: nat)
    requires base >= 1 && AreDigits(ds, base)
    ensures Value(ds, base) < Pow(base, |ds|)
  {
    if ds != [] {
      var v := Value(ds[..|ds| - 1], base);
      ValueBound(ds[..|ds| - 1], base);
      MulMonotone(v + 1, Pow(base, |ds| - 1), base);
      assert (v + 1) * base == v * base + base;
    }
  }

  function Zeros(n: nat): seq<nat> { seq(n, _ => 0) }

  lemma {:induction false} ValueZeros(n: nat, ds: seq<nat>, base: nat)
    ensures Value(Zeros(n) + ds, base) == Value(ds, base)
  {
    if n == 0 {
      assert Zeros(0) + ds == ds;
    } else {
      ValueZeros(n - 1, ds, base);
      assert Zeros(n) + ds == [0] + (Zeros(n - 1) + ds);
      ValuePrepend(0, Zeros(n - 1) + ds, base);
    }
  }

  /** How many zeros a list starts with. */
  function LeadingZeros(ds: seq<nat>): (n: nat)
    ensures n <= |ds| && (forall k :: 0 <= k < n ==> ds[k] == 0) && (n < |ds| ==> ds[n] != 0)
  {
    if ds == [] || ds[0] != 0 then 0 else 1 + LeadingZeros(ds[1..])
  }

  lemma StripZeros(ds: seq<nat>, n: nat)
    requires n <= |ds| && (forall k :: 0 <= k < n ==> ds[k] == 0) && (n < |ds| ==> ds[n] != 0)
    ensures n == LeadingZeros(ds) && ds == Zeros(n) + ds[n..]
  {
    assert ds[..n] == Zeros(n);
  }

  // ---------------------------------------------------------------------------------------------
  // The buffers are large enough

  lemma {:induction false} PowAdd(b: nat, m: nat, n: nat)
    ensures Pow(b, m + n) == Pow(b, m) * Pow(b, n)
  {
    if n > 0 {
      PowAdd(b, m, n - 1);
      Assoc(Pow(b, m), Pow(b, n - 1), b);
    }
  }

  lemma {:induction false} PowMul(b: nat, m: nat, n: nat)
    ensures Pow(b, m * n) == Pow(Pow(b, m), n)
  {
    if n == 0 {
      assert m * n == 0;
    } else {
      PowMul(b, m, n - 1);
      assert m * n == m * (n - 1) + m;
      PowAdd(b, m * (n - 1), m);
    }
  }

  lemma {:induction false} PowMonotone(b: nat, m: nat, n: nat)
    requires b >= 1 && m <= n
    ensures 1 <= Pow(b, m) <= Pow(b, n)
  {
    if n > m {
      PowMonotone(b, m, n - 1);
      MulMonotone(1, b, Pow(b, n - 1));
    } else if m > 0 {
      PowMonotone(b, m - 1, m - 1);
      MulPositive(Pow(b, m - 1), b);
    }
  }

  lemma {:induction false} PowBase(a: nat, b: nat, n: nat)
    requires a <= b
    ensures Pow(a, n) <= Pow(b, n)
  {
    if n > 0 {
      PowBase(a, b, n - 1);
      MulMonotone(Pow(a, n - 1), Pow(b, n - 1), a);
      MulMonotone(a, b, Pow(b, n - 1));
    }
  }

  lemma {:induction false} PowStrict(a: nat, b: nat, n: nat)
    requires a < b && n > 0
    ensures Pow(a, n) < Pow(b, n)
  {
    PowBase(a, b, n - 1);
    PowMonotone(b, 0, n - 1);
    MulMonotone(Pow(a, n - 1), Pow(b, n - 1), a);
    MulMonotone(a + 1, b, Pow(b, n - 1));
    assert (a + 1) * Pow(b, n - 1) == a * Pow(b, n - 1) + Pow(b, n - 1);
  }

  /** a^m <= b^n follows from a power of it. */
  lemma PowRoot(a: nat, b: nat, k: nat)
    requires k > 0 && Pow(a, k) <= Pow(b, k)
    ensures a <= b
  {
    if a > b {
      PowStrict(b, a, k);
    }
  }

  lemma PowsOf2()
    ensures Pow(2, 8) == 256 && Pow(2, 29) == 0x2000_0000 && Pow(2, 128) == 0x1_0000_0000_0000_0000_0000_0000_0000_0000
  {
    assert Pow(2, 8) == 256 by { PowAdd(2, 4, 4); assert Pow(2, 4) == 16; }
    assert Pow(2, 5) == 32;
    hide Pow;
    PowAdd(2, 8, 8);
    PowAdd(2, 16, 8);
    PowAdd(2, 24, 5);
    PowAdd(2, 16, 16);
    PowAdd(2, 32, 32);
    PowAdd(2, 64, 64);
  }

  lemma PowsOf58()
    ensures Pow(58, 2) == 3364 && Pow(58, 5) == 656356768 && Pow(58, 10) == 656356768 * 656356768
  {
    assert Pow(58, 1) == 58 && Pow(58, 2) == 3364;
    hide Pow;
    PowAdd(58, 2, 2);
    PowAdd(58, 4, 1);
    PowAdd(58, 5, 5);
  }

  lemma ConstantsEncode()
    ensures Pow(2, 29) <= Pow(58, 5) && Pow(2, 8) == 256
  {
    PowsOf2();
    PowsOf58();
  }

  lemma ConstantsDecode()
    ensures Pow(58, 22) <= Pow(2, 129)
  {
    hide Pow;
    PowsOf2();
    PowsOf58();
    PowAdd(58, 10, 10);
    PowAdd(58, 20, 2);
    PowAdd(2, 128, 1);
    PowFirst(2);
  }

  lemma PowFirst(b: nat)
    ensures Pow(b, 1) == b
  {
  }

  /** size of EncodeBase58: n bytes fit into n * 138 / 100 + 1 digits. */
  lemma EncodeFits(n: nat)
    ensures Pow(256, n) <= Pow(58, n * 138 / 100 + 1)
  {
    hide Pow;
    var k := n * 138 / 100 + 1;
    ConstantsEncode();
    PowMul(2, 8, n);
    PowMul(Pow(256, n), 1, 5);
    PowMul(2, 8 * n, 5);
    PowMul(58, k, 5);
    PowMul(58, 5, k);
    PowMul(2, 29, k);
    assert (8 * n) * 5 <= 29 * k && k * 5 == 5 * k;
    PowMonotone(2, (8 * n) * 5, 29 * k);
    PowBase(Pow(2, 29), Pow(58, 5), k);
    PowRoot(Pow(256, n), Pow(58, k), 5);
  }

  /** size of DecodeBase58: n characters fit into n * 733 / 1000 + 1 bytes. */
  lemma DecodeFits(n: nat)
    ensures Pow(58, n) <= Pow(256, n * 733 / 1000 + 1)
  {
    hide Pow;
    var k := n * 733 / 1000 + 1;
    ConstantsEncode();
    ConstantsDecode();
    PowMul(2, 8, k);
    PowMul(58, n, 22);
    PowMul(58, 22, n);
    PowMul(2, 129, n);
    PowMul(2, 8 * k, 22);
    assert n * 22 == 22 * n && 129 * n <= (8 * k) * 22;
    PowBase(Pow(58, 22), Pow(2, 129), n);
    PowMonotone(2, 129 * n, (8 * k) * 22);
    PowRoot(Pow(58, n), Pow(256, k), 22);
  }

  // ---------------------------------------------------------------------------------------------
  // Multiplying a buffer of digits and adding one more

  /** The last i digits of the buffer are done. */
  ghost predicate Done(now: seq<nat>, was: seq<nat>, base: nat, times: nat, digit: nat, i: nat, carry: nat) {
    && i <= |now| == |was|
    && Value(now[|now| - i..], base) + carry * Pow(base, i) == times * Value(was[|was| - i..], base) + digit
  }

  lemma DoneNone(was: seq<nat>, base: nat, times: nat, digit: nat)
    ensures Done(was, was, base, times, digit, 0, digit)
  {
    assert was[|was|..] == [];
  }

  lemma DoneStep(now: seq<nat>, was: seq<nat>, base: nat, times: nat, digit: nat, i: nat, carry: nat)
    requires Done(now, was, base, times, digit, i, carry) && i < |now| && base >= 2
    ensures var k := |now| - i - 1; var c := carry + times * was[k];
      Done(now[k := c % base], was, base, times, digit, i + 1, c / base)
  {
    hide Pow, Value;
    var k := |now| - i - 1;
    var c := carry + times * was[k];
    var next := now[k := c % base];
    assert was[k..] == [was[k]] + was[k + 1..];
    assert next[k..] == [c % base] + now[k + 1..];
    ValuePrepend(was[k], was[k + 1..], base);
    ValuePrepend(c % base, now[k + 1..], base);
    var p, t, v := Pow(base, i), Value(was[k + 1..], base), Value(now[k + 1..], base);
    assert c == (c / base) * base + c % base;
    PowNext(base, i);
    StepNumbers(v, carry, p, times, t, digit, was[k], c / base, c % base, base);
  }

  lemma PowNext(b: nat, n: nat)
    ensures Pow(b, n + 1) == Pow(b, n) * b
  {
  }

  lemma StepNumbers(v: int, carry: int, p: int, times: int, t: int, digit: int, d: int, q: int, r: int, b: int)
    requires v + carry * p == times * t + digit && carry + times * d == q * b + r
    ensures (r * p + v) + q * (p * b) == times * (d * p + t) + digit
  {
    calc {
      (r * p + v) + q * (p * b);
      { SplitNumbers(q, 0, b, p); Distribute(q * b, r, p); }
      (q * b + r) * p + v;
      { Distribute(carry, times * d, p); }
      carry * p + (times * d) * p + v;
      times * t + digit + (times * d) * p;
      { Assoc(times, d, p); Distribute(d * p, t, times); }
      times * (d * p + t) + digit;
    }
  }

  /** The inner loop of both conversions: the assert on the carry holds as long as the result fits. */
  method MultiplyAdd(buf: array<nat>, length: nat, base: nat, times: nat, digit: nat) returns (newLength: nat)
    requires base >= 2 && length <= buf.Length && AreDigits(buf[..], base)
    requires forall k :: 0 <= k < buf.Length - length ==> buf[k] == 0
    requires times * Value(buf[..], base) + digit < Pow(base, buf.Length)
    modifies buf
    ensures newLength <= buf.Length && AreDigits(buf[..], base)
    ensures forall k :: 0 <= k < buf.Length - newLength ==> buf[k] == 0
    ensures Value(buf[..], base) == times * old(Value(buf[..], base)) + digit
  {
    hide Value, Pow, Done;
    ghost var was := buf[..];
    var carry := digit;
    DoneNone(was, base, times, digit);
    var i := 0;
    while (carry != 0 || i < length) && i < buf.Length
      invariant 0 <= i <= buf.Length && carry >= 0
      invariant Done(buf[..], was, base, times, digit, i, carry)
      invariant forall k :: 0 <= k < buf.Length - i ==> buf[k] == was[k]
      invariant AreDigits(buf[..], base)
      decreases buf.Length - i
    {
      ghost var now := buf[..];
      DoneStep(now, was, base, times, digit, i, carry);
      var k := buf.Length - 1 - i;
      carry := carry + times * buf[k];
      buf[k] := carry % base;
      assert buf[..] == now[k := buf[k]];
      carry := carry / base;
      i := i + 1;
    }
    AllDone(buf[..], was, base, times, digit, i, carry);
    assert carry == 0;
    newLength := i;
  }

  lemma AllDone(now: seq<nat>, was: seq<nat>, base: nat, times: nat, digit: nat, i: nat, carry: nat)
    requires Done(now, was, base, times, digit, i, carry) && base >= 2
    requires forall k :: 0 <= k < |now| - i ==> now[k] == was[k]
    requires i == |now| || (carry == 0 && forall k :: 0 <= k < |now| - i ==> was[k] == 0)
    requires times * Value(was, base) + digit < Pow(base, |now|)
    ensures carry == 0 && Value(now, base) == times * Value(was, base) + digit
  {
    hide Value, Pow;
    var n := |now| - i;
    if n > 0 {
      ZeroPrefix(now, n, base);
      ZeroPrefix(was, n, base);
    } else {
      assert now[0..] == now && was[0..] == was;
      if carry > 0 {
        MulMonotone(1, carry, Pow(base, i));
      }
    }
  }

  lemma ZeroPrefix(ds: seq<nat>, n: nat, base: nat)
    requires n <= |ds| && forall k :: 0 <= k < n ==> ds[k] == 0
    ensures Value(ds, base) == Value(ds[n..], base)
  {
    assert ds[..n] == Zeros(n);
    assert ds == Zeros(n) + ds[n..];
    ValueZeros(n, ds[n..], base);
  }

  // ---------------------------------------------------------------------------------------------
  // Text

  type Byte = x: nat | x < 256

  /** The alphabet, in order: 1-9, A-H, J-N, P-Z, a-k, m-z. */
  function Letter(d: nat): char
    requires d < 58
  {
    if d < 9 then ('1' as int + d) as char
    else if d < 17 then ('A' as int + d - 9) as char
    else if d < 22 then ('J' as int + d - 17) as char
    else if d < 33 then ('P' as int + d - 22) as char
    else if d < 44 then ('a' as int + d - 33) as char
    else ('m' as int + d - 44) as char
  }

  /** The position of a character in the alphabet (strchr), from position k on. */
  function Find(c: char, k: nat): (r: Option<nat>)
    requires k <= 58
    ensures r.Some? ==> k <= r.value < 58 && Letter(r.value) == c
    ensures r.None? ==> forall j :: k <= j < 58 ==> Letter(j) != c
    decreases 58 - k
  {
    if k == 58 then None else if Letter(k) == c then Some(k) else Find(c, k + 1)
  }

  lemma LettersDiffer(d: nat, e: nat)
    requires d < 58 && e < 58 && Letter(d) == Letter(e)
    ensures d == e
  {
  }

  lemma FindLetter(d: nat)
    requires d < 58
    ensures Find(Letter(d), 0) == Some(d)
  {
    LettersDiffer(d, Find(Letter(d), 0).value);
  }

  function Text(ds: seq<nat>): string
    requires forall k :: 0 <= k < |ds| ==> ds[k] < 58
  {
    seq(|ds|, k requires 0 <= k < |ds| => Letter(ds[k]))
  }

  predicate IsSpace(c: char) {
    c == ' ' || 9 <= c as int <= 13
  }

  predicate Known(s: string) {
    forall k :: 0 <= k < |s| ==> Find(s[k], 0).Some?
  }

  function FromText(s: string): seq<nat>
    requires Known(s)
  {
    seq(|s|, k requires 0 <= k < |s| => Find(s[k], 0).value)
  }

  lemma TextRoundTrip(ds: seq<nat>)
    requires forall k :: 0 <= k < |ds| ==> ds[k] < 58
    ensures Known(Text(ds)) && FromText(Text(ds)) == ds
    ensures forall k :: 0 <= k < |ds| ==> !IsSpace(Text(ds)[k]) && Text(ds)[k] != '\0'
  {
    forall k | 0 <= k < |ds| ensures Find(Text(ds)[k], 0) == Some(ds[k]) {
      FindLetter(ds[k]);
    }
  }

  lemma FromTextRoundTrip(s: string)
    requires Known(s)
    ensures AreDigits(FromText(s), 58) && Text(FromText(s)) == s
  {
  }

  // ---------------------------------------------------------------------------------------------
  // What the two functions compute

  function Ones(n: nat): string { seq(n, _ => '1') }

  /** One '1' for each leading zero byte, and the rest as a number in base 58. */
  ghost function Encoded(bytes: seq<Byte>): string {
    var v := Value(bytes, 256);
    DigitsValue(v, 58);
    Ones(LeadingZeros(bytes)) + Text(Digits(v, 58))
  }

  /** The text up to the first NUL, which is all that a C string holds. */
  function CStr(s: string): string {
    if s == "" || s[0] == '\0' then "" else [s[0]] + CStr(s[1..])
  }

  function SkipSpaces(s: string): string {
    if s != "" && IsSpace(s[0]) then SkipSpaces(s[1..]) else s
  }

  function CountOnes(s: string): (n: nat)
    ensures n <= |s| && (forall k :: 0 <= k < n ==> s[k] == '1') && (n < |s| ==> s[n] != '1')
  {
    if s != "" && s[0] == '1' then 1 + CountOnes(s[1..]) else 0
  }

  function WordLength(s: string): (n: nat)
    ensures n <= |s| && (forall k :: 0 <= k < n ==> !IsSpace(s[k])) && (n < |s| ==> IsSpace(s[n]))
  {
    if s != "" && !IsSpace(s[0]) then 1 + WordLength(s[1..]) else 0
  }

  /** Spaces around a word of the alphabet are skipped; its leading '1's are zero bytes, the rest a number. */
  ghost function Decoded(str: string): Option<seq<nat>> {
    var t := SkipSpaces(CStr(str));
    var z := CountOnes(t);
    var u := t[z..];
    var n := WordLength(u);
    if !Known(u[..n]) || SkipSpaces(u[n..]) != "" then None
    else Some(Zeros(z) + Digits(Value(FromText(u[..n]), 58), 256))
  }

  // ---------------------------------------------------------------------------------------------
  // Each inverts the other

  lemma LeadingZerosOf(n: nat, ds: seq<nat>)
    requires ds != [] ==> ds[0] != 0
    ensures LeadingZeros(Zeros(n) + ds) == n
  {
    var all := Zeros(n) + ds;
    assert all[n..] == ds;
    StripZeros(all, n);
  }

  lemma {:induction false} NoCut(s: string)
    requires forall k :: 0 <= k < |s| ==> s[k] != '\0'
    ensures CStr(s) == s
  {
    if s != "" {
      NoCut(s[1..]);
    }
  }

  lemma {:induction false} CountOnesOf(n: nat, s: string)
    requires s != "" ==> s[0] != '1'
    ensures CountOnes(Ones(n) + s) == n && (Ones(n) + s)[n..] == s
  {
  }

  /** What is decoded from a text of the form that encoding gives. */
  lemma DecodedPlain(z: nat, ds: seq<nat>)
    requires AreDigits(ds, 58) && (ds != [] ==> ds[0] != 0)
    ensures Decoded(Ones(z) + Text(ds)) == Some(Zeros(z) + Digits(Value(ds, 58), 256))
  {
    hide Value, Digits, Find, Letter;
    TextRoundTrip(ds);
    var t := Text(ds);
    var s := Ones(z) + t;
    forall k | 0 <= k < |s| ensures s[k] != '\0' && !IsSpace(s[k]) {
      assert k >= z ==> s[k] == t[k - z];
    }
    NoCut(s);
    if ds != [] {
      assert t[0] == Letter(ds[0]);
      LettersDifferFromOne(ds[0]);
    }
    CountOnesOf(z, t);
    assert WordLength(t) == |t| && t[..|t|] == t;
  }

  /** Decoding an encoded byte string gives it back. */
  lemma DecodeEncode(bytes: seq<Byte>)
    ensures Decoded(Encoded(bytes)) == Some(bytes)
  {
    hide Decoded, Text, Value, Digits;
    var v, z := Value(bytes, 256), LeadingZeros(bytes);
    DigitsValue(v, 58);
    NoDigits(v, 58);
    DecodedPlain(z, Digits(v, 58));
    StripZeros(bytes, z);
    ZeroPrefix(bytes, z, 256);
    ValueDigits(bytes[z..], 256);
  }

  lemma NoDigits(v: nat, base: nat)
    requires base >= 2
    ensures v == 0 ==> Digits(v, base) == []
  {
  }

  lemma LettersDifferFromOne(d: nat)
    requires 0 < d < 58
    ensures Letter(d) != '1'
  {
  }

  ghost predicate Plain(str: string) {
    forall k :: 0 <= k < |str| ==> !IsSpace(str[k]) && str[k] != '\0'
  }

  lemma DecodedWord(str: string)
    requires Plain(str)
    ensures var z := CountOnes(str); var u := str[z..];
      Decoded(str) == if Known(u) then Some(Zeros(z) + Digits(Value(FromText(u), 58), 256)) else None
  {
    hide Value, Digits, Find;
    NoCut(str);
    var u := str[CountOnes(str)..];
    assert WordLength(u) == |u| && u[..|u|] == u;
  }

  lemma EncodedBack(z: nat, ds: seq<nat>)
    requires AreDigits(ds, 58) && (ds != [] ==> ds[0] != 0)
    ensures var b := Zeros(z) + Digits(Value(ds, 58), 256); AreDigits(b, 256) && Encoded(b) == Ones(z) + Text(ds)
  {
    hide Value, Digits, Letter;
    var v := Value(ds, 58);
    DigitsValue(v, 256);
    NoDigits(v, 256);
    LeadingZerosOf(z, Digits(v, 256));
    ValueZeros(z, Digits(v, 256), 256);
    ValueDigits(ds, 58);
  }

  /** Encoding what was decoded from a text without spaces gives it back. */
  lemma EncodeDecode(str: string)
    requires Plain(str) && Decoded(str).Some?
    ensures var b := Decoded(str).value; AreDigits(b, 256) && Encoded(b) == str
  {
    hide Value, Digits, Decoded, Encoded, Find;
    DecodedWord(str);
    var z := CountOnes(str);
    var u := str[z..];
    FromTextRoundTrip(u);
    if u != "" {
      FindOne(u[0]);
    }
    EncodedBack(z, FromText(u));
    assert str == Ones(z) + u;
  }

  lemma FindOne(c: char)
    ensures Find(c, 0) == Some(0) ==> c == '1'
  {
  }

  // ---------------------------------------------------------------------------------------------
  // What is accepted

  ghost predicate AllSpaces(s: string) {
    forall k :: 0 <= k < |s| ==> IsSpace(s[k])
  }

  /** The spaces at the start, and the rest. */
  lemma {:induction false} SpacesFirst(s: string) returns (a: string)
    ensures AllSpaces(a) && s == a + SkipSpaces(s)
  {
    if s != "" && IsSpace(s[0]) {
      a := SpacesFirst(s[1..]);
      a := [s[0]] + a;
    } else {
      a := "";
    }
  }

  lemma {:induction false} SpacesSkipped(a: string, s: string)
    requires AllSpaces(a) && (s != "" ==> !IsSpace(s[0]))
    ensures SkipSpaces(a + s) == s
  {
    if a == "" {
      assert a + s == s;
    } else {
      assert (a + s)[1..] == a[1..] + s;
      SpacesSkipped(a[1..], s);
    }
  }

  lemma {:induction false} CutFree(s: string)
    ensures forall k :: 0 <= k < |CStr(s)| ==> CStr(s)[k] != '\0'
  {
    if s != "" && s[0] != '\0' {
      CutFree(s[1..]);
    }
  }

  /** Decoding a word with spaces after it. */
  ghost function WordOf(t: string): (string, string) {
    var z := CountOnes(t);
    var n := WordLength(t[z..]);
    (t[..z + n], t[z + n..])
  }

  lemma Slices(t: string, z: nat, n: nat)
    requires z + n <= |t|
    ensures t == t[..z + n] + t[z + n..]
    ensures t[..z + n][z..] == t[z..][..n]
    ensures t[z + n..] == t[z..][n..]
  {
  }

  lemma WordSplits(t: string)
    ensures var (w, c) := WordOf(t); t == w + c
  {
    hide CountOnes, WordLength;
    var z := CountOnes(t);
    Slices(t, z, WordLength(t[z..]));
  }

  lemma WordPlain(t: string, z: nat, n: nat)
    requires z + n <= |t| && (forall k :: 0 <= k < |t| ==> t[k] != '\0')
    requires (forall k :: 0 <= k < z ==> t[k] == '1') && (forall k :: 0 <= k < n ==> !IsSpace(t[z..][k]))
    ensures Plain(t[..z + n])
  {
    hide IsSpace;
    var w := t[..z + n];
    forall k | 0 <= k < |w| ensures !IsSpace(w[k]) && w[k] != '\0' {
      assert w[k] == t[k];
      if k < z {
        OneIsNoSpace();
      } else {
        assert t[z..][k - z] == t[k];
      }
    }
  }

  lemma WordIs(t: string)
    requires forall k :: 0 <= k < |t| ==> t[k] != '\0'
    ensures var (w, c) := WordOf(t); var z := CountOnes(t); var u := t[z..];
      && Plain(w) && CountOnes(w) == z
      && w[z..] == u[..WordLength(u)] && c == u[WordLength(u)..]
  {
    hide CountOnes, WordLength, IsSpace, Plain;
    var z := CountOnes(t);
    var n := WordLength(t[z..]);
    var w := t[..z + n];
    WordPlain(t, z, n);
    Slices(t, z, n);
    assert forall k :: 0 <= k < z ==> w[k] == t[k];
    assert n > 0 ==> w[z] == t[z];
    OnesCounted(w, z);
  }

  lemma OneIsNoSpace()
    ensures !IsSpace('1')
  {
  }

  lemma WordBefore(w: string, c: string)
    requires Plain(w) && (c != "" ==> IsSpace(c[0]))
    ensures WordOf(w + c) == (w, c)
  {
    var t := w + c;
    var z := CountOnes(w);
    OnesCounted(t, z);
    var u := t[z..];
    assert forall k :: 0 <= k < |w| - z ==> u[k] == w[z + k];
    assert c != "" ==> u[|w| - z] == c[0];
  }

  /** A text is decoded as its first word is, if there are only spaces around it. */
  lemma DecodedBetween(str: string)
    ensures var (w, c) := WordOf(SkipSpaces(CStr(str)));
      Plain(w) && Decoded(str) == if SkipSpaces(c) == "" then Decoded(w) else None
  {
    hide Value, Digits, Find, Known, FromText;
    CutFree(str);
    var a := SpacesFirst(CStr(str));
    var t := SkipSpaces(CStr(str));
    assert forall k :: 0 <= k < |t| ==> t[k] == CStr(str)[|a| + k];
    WordIs(t);
    hide CStr, IsSpace, SkipSpaces;
    DecodedWord(WordOf(t).0);
  }

  lemma OnlySpaces(c: string)
    requires SkipSpaces(c) == ""
    ensures AllSpaces(c)
  {
    var a := SpacesFirst(c);
    assert a + "" == a;
  }

  lemma Regrouped(a: string, w: string, c: string)
    ensures a + (w + c) == a + w + c
  {
  }

  /** A text is its first word with spaces before it, and something after it. */
  lemma WordAround(str: string) returns (a: string)
    ensures var (w, c) := WordOf(SkipSpaces(CStr(str)));
      AllSpaces(a) && CStr(str) == a + w + c && (SkipSpaces(c) == "" ==> AllSpaces(c))
  {
    hide WordOf, CStr, AllSpaces, SkipSpaces;
    a := SpacesFirst(CStr(str));
    var t := SkipSpaces(CStr(str));
    WordSplits(t);
    var (w, c) := WordOf(t);
    Regrouped(a, w, c);
    if SkipSpaces(c) == "" {
      OnlySpaces(c);
    }
  }

  /** Exactly the encodings are decoded, with any spaces before and after them. */
  lemma DecodedIff(str: string, b: seq<Byte>)
    ensures Decoded(str) == Some(b) <==> exists a, c :: Around(str, b, a, c)
  {
    hide Decoded, Encoded, CStr, SkipSpaces, WordOf, Plain, AllSpaces;
    DecodedBetween(str);
    var (w, c) := WordOf(SkipSpaces(CStr(str)));
    var a := WordAround(str);
    if Decoded(str) == Some(b) {
      EncodeDecode(w);
      assert Around(str, b, a, c);
    }
    if x, y :| Around(str, b, x, y) {
      BetweenSpaces(str, b, x, y);
    }
  }

  ghost predicate Around(str: string, b: seq<Byte>, a: string, c: string) {
    AllSpaces(a) && AllSpaces(c) && CStr(str) == a + Encoded(b) + c
  }

  lemma BetweenSpaces(str: string, b: seq<Byte>, a: string, c: string)
    requires Around(str, b, a, c)
    ensures Decoded(str) == Some(b)
  {
    hide Decoded, Encoded, CStr, WordOf, IsSpace, SkipSpaces;
    DecodeEncode(b);
    EncodedPlain(b);
    DecodedBetween(str);
    var e := Encoded(b);
    Regrouped(a, e, c);
    SpacesGone(c);
    SpacesGone("");
    if e == "" {
      assert a + e + c == a + c;
      SpacesGone(a + c);
      WordBefore(e, e);
      assert e + e == e;
    } else {
      SpacesSkipped(a, e + c);
      WordBefore(e, c);
    }
  }

  lemma SpacesGone(a: string)
    requires AllSpaces(a)
    ensures SkipSpaces(a) == ""
  {
    SpacesSkipped(a, "");
    assert a + "" == a;
  }

  lemma EncodedPlain(b: seq<Byte>)
    ensures Plain(Encoded(b))
  {
    hide Value, Digits, Letter;
    var v, z := Value(b, 256), LeadingZeros(b);
    DigitsValue(v, 58);
    TextRoundTrip(Digits(v, 58));
    var t := Text(Digits(v, 58));
    var s := Ones(z) + t;
    forall k | 0 <= k < |s| ensures s[k] != '\0' && !IsSpace(s[k]) {
      assert k >= z ==> s[k] == t[k - z];
    }
  }

  // ---------------------------------------------------------------------------------------------
  // The code

  method EncodeBase58(bytes: seq<Byte>) returns (str: string)
    ensures str == Encoded(bytes)
  {
    hide Value, Pow, Digits, Letter;
    var zeroes := 0;
    while zeroes != |bytes| && bytes[zeroes] == 0
      invariant 0 <= zeroes <= |bytes| && forall k :: 0 <= k < zeroes ==> bytes[k] == 0
      decreases |bytes| - zeroes
    {
      zeroes := zeroes + 1;
    }
    StripZeros(bytes, zeroes);
    ZeroPrefix(bytes, zeroes, 256);
    var b58, length := ToBase58(bytes[zeroes..]);
    var it := SkipZeros(b58, b58.Length - length);
    StrippedDigits(b58[..], it, 58);
    assert b58[..][it..] == b58[it..];
    str := Ones(zeroes) + Text(b58[it..]);
  }

  /** The loop over the bytes. */
  method ToBase58(bytes: seq<nat>) returns (b58: array<nat>, length: nat)
    requires AreDigits(bytes, 256)
    ensures length <= b58.Length && AreDigits(b58[..], 58) && (forall k :: 0 <= k < b58.Length - length ==> b58[k] == 0)
    ensures Value(b58[..], 58) == Value(bytes, 256)
  {
    hide Value, Pow;
    var size := |bytes| * 138 / 100 + 1;
    b58 := new nat[size](_ => 0);
    EncodeFits(|bytes|);
    ZeroValue(b58[..], bytes);
    length := 0;
    var pbegin := 0;
    while pbegin != |bytes|
      invariant 0 <= pbegin <= |bytes| && length <= size && fresh(b58) && b58.Length == size && AreDigits(b58[..], 58)
      invariant forall k :: 0 <= k < size - length ==> b58[k] == 0
      invariant Value(b58[..], 58) == Value(bytes[..pbegin], 256)
      decreases |bytes| - pbegin
    {
      Room(bytes, pbegin, 256, 58, size);
      length := MultiplyAdd(b58, length, 58, 256, bytes[pbegin]);
      pbegin := pbegin + 1;
    }
    assert bytes[..|bytes|] == bytes;
  }

  /** The start of the number in the buffer. */
  method SkipZeros(buf: array<nat>, start: nat) returns (it: nat)
    requires start <= buf.Length && forall k :: 0 <= k < start ==> buf[k] == 0
    ensures it <= buf.Length && (forall k :: 0 <= k < it ==> buf[k] == 0) && (it < buf.Length ==> buf[it] != 0)
  {
    it := start;
    while it != buf.Length && buf[it] == 0
      invariant start <= it <= buf.Length && forall k :: 0 <= k < it ==> buf[k] == 0
      decreases buf.Length - it
    {
      it := it + 1;
    }
  }

  lemma ZeroValue(ds: seq<nat>, rest: seq<nat>)
    requires forall k :: 0 <= k < |ds| ==> ds[k] == 0
    ensures Value(ds, 58) == Value(rest[..0], 256) == 0 == Value(ds, 256) && Value(rest[..0], 58) == 0
  {
    ZeroPrefix(ds, |ds|, 58);
    ZeroPrefix(ds, |ds|, 256);
    assert ds[|ds|..] == [];
  }

  /** One digit more still fits. */
  lemma Room(rest: seq<nat>, n: nat, from: nat, base: nat, size: nat)
    requires n < |rest| && AreDigits(rest, from) && from >= 1 && Pow(from, |rest|) <= Pow(base, size)
    ensures from * Value(rest[..n], from) + rest[n] == Value(rest[..n + 1], from) < Pow(base, size)
  {
    assert rest[..n + 1] == rest[..n] + [rest[n]];
    ValueAppend(rest[..n], rest[n], from);
    ValueBound(rest[..n + 1], from);
    PowMonotone(from, n + 1, |rest|);
  }

  lemma StrippedDigits(ds: seq<nat>, it: nat, base: nat)
    requires base >= 2 && AreDigits(ds, base) && it <= |ds|
    requires (forall k :: 0 <= k < it ==> ds[k] == 0) && (it < |ds| ==> ds[it] != 0)
    ensures ds[it..] == Digits(Value(ds, base), base)
  {
    ZeroPrefix(ds, it, base);
    ValueDigits(ds[it..], base);
  }

  method DecodeBase58(str: string) returns (r: Option<seq<nat>>)
    ensures r == Decoded(str)
  {
    hide Value, Pow, Digits, Letter, Find, Known, SkipSpaces, CStr;
    var s := CStr(str);
    assert s[0..] == s;
    var psz := SkipSpace(s, 0);
    var zeroes := SkipOnes(s[psz..]);
    assert s[psz..][zeroes..] == s[psz + zeroes..];
    psz := psz + zeroes;
    var ok, b256, length, n := ToBase256(s[psz..]);
    if !ok {
      return None;
    }
    assert s[psz..][n..] == s[psz + n..];
    psz := SkipSpace(s, psz + n);
    if psz != |s| {
      return None;
    }
    var it := SkipZeros(b256, b256.Length - length);
    StrippedDigits(b256[..], it, 256);
    assert b256[..][it..] == b256[it..];
    r := Some(Zeros(zeroes) + b256[it..]);
  }

  method SkipOnes(t: string) returns (zeroes: nat)
    ensures zeroes == CountOnes(t)
  {
    zeroes := 0;
    while zeroes < |t| && t[zeroes] == '1'
      invariant 0 <= zeroes <= |t| && forall k :: 0 <= k < zeroes ==> t[k] == '1'
    {
      zeroes := zeroes + 1;
    }
    OnesCounted(t, zeroes);
  }

  method SkipSpace(s: string, start: nat) returns (psz: nat)
    requires start <= |s|
    ensures psz <= |s| && s[psz..] == SkipSpaces(s[start..])
  {
    psz := start;
    while psz < |s| && IsSpace(s[psz])
      invariant start <= psz <= |s| && SkipSpaces(s[psz..]) == SkipSpaces(s[start..])
    {
      assert s[psz..][1..] == s[psz + 1..];
      psz := psz + 1;
    }
  }

  /** The loop over the characters up to the next space: false if one is not in the alphabet. */
  method ToBase256(u: string) returns (ok: bool, b256: array<nat>, length: nat, n: nat)
    ensures ok <==> Known(u[..WordLength(u)])
    ensures ok ==> n == WordLength(u) && length <= b256.Length && AreDigits(b256[..], 256)
    ensures ok ==> forall k :: 0 <= k < b256.Length - length ==> b256[k] == 0
    ensures ok ==> Value(b256[..], 256) == Value(FromText(u[..n]), 58)
  {
    hide Value, Pow, Letter, Find;
    ghost var w := WordLength(u);
    var size := |u| * 733 / 1000 + 1;
    b256 := new nat[size](_ => 0);
    ghost var ds: seq<nat> := [];
    DecodeFits(|u|);
    ZeroValue(b256[..], ds);
    length := 0;
    n := 0;
    while n < |u| && !IsSpace(u[n])
      invariant 0 <= n <= w && |ds| == n && length <= size && fresh(b256) && b256.Length == size
      invariant AreDigits(ds, 58) && AreDigits(b256[..], 256)
      invariant forall k :: 0 <= k < n ==> Find(u[k], 0) == Some(ds[k])
      invariant forall k :: 0 <= k < size - length ==> b256[k] == 0
      invariant Value(b256[..], 256) == Value(ds, 58)
    {
      var ch := Find(u[n], 0);
      assert u[..w][n] == u[n];
      if ch.None? {
        ok := false;
        return;
      }
      RoomFor(ds, ch.value, |u|, size);
      length := MultiplyAdd(b256, length, 256, 58, ch.value);
      ds := ds + [ch.value];
      n := n + 1;
    }
    ok := true;
    assert Known(u[..n]) && FromText(u[..n]) == ds;
  }

  lemma OnesCounted(t: string, n: nat)
    requires n <= |t| && (forall k :: 0 <= k < n ==> t[k] == '1') && (n < |t| ==> t[n] != '1')
    ensures CountOnes(t) == n
  {
  }

  lemma RoomFor(ds: seq<nat>, d: nat, n: nat, size: nat)
    requires |ds| < n && AreDigits(ds, 58) && d < 58 && Pow(58, n) <= Pow(256, size)
    ensures Value(ds + [d], 58) == 58 * Value(ds, 58) + d < Pow(256, size)
  {
    ValueAppend(ds, d, 58);
    ValueBound(ds + [d], 58);
    PowMonotone(58, |ds| + 1, n);
  }

  // ---------------------------------------------------------------------------------------------
  // The check sum

  /** The first four bytes of the hash of a byte string. */
  type CheckSum = f: seq<Byte> -> seq<Byte> | forall b :: |f(b)| == 4 witness _ => [0, 0, 0, 0]

  method EncodeBase58Check(vchIn: seq<Byte>, hash: CheckSum) returns (str: string)
    ensures str == Encoded(vchIn + hash(vchIn))
  {
    str := EncodeBase58(vchIn + hash(vchIn));
  }

  /** Accepts exactly the texts of byte strings with their check sums, and gives the byte strings back. */
  method DecodeBase58Check(str: string, hash: CheckSum) returns (r: Option<seq<Byte>>)
    ensures forall b: seq<Byte> :: r == Some(b) <==> exists x, y :: Around(str, b + hash(b), x, y)
  {
    hide Around, Decoded, AreDigits;
    forall b: seq<Byte> ensures Decoded(str) == Some(b + hash(b)) <==> exists x, y :: Around(str, b + hash(b), x, y) {
      DecodedIff(str, b + hash(b));
    }
    var d := DecodeBase58(str);
    if d.None? || |d.value| < 4 {
      return None;
    }
    DecodedBytes(str);
    AllBytes(d.value);
    var vch: seq<Byte> := d.value;
    CheckedIff(vch, hash);
    var n := |vch| - 4;
    if hash(vch[..n]) != vch[n..] {
      return None;
    }
    r := Some(vch[..n]);
  }

  lemma CheckedIff(vch: seq<Byte>, hash: CheckSum)
    requires |vch| >= 4
    ensures var n := |vch| - 4; forall b: seq<Byte> :: vch == b + hash(b) <==> b == vch[..n] && hash(b) == vch[n..]
  {
    var n := |vch| - 4;
    forall b: seq<Byte> ensures vch == b + hash(b) <==> b == vch[..n] && hash(b) == vch[n..] {
      assert vch == vch[..n] + vch[n..];
      if vch == b + hash(b) {
        assert |b| == n;
      }
    }
  }

  lemma AllBytes(b: seq<nat>)
    requires AreDigits(b, 256)
    ensures forall k :: 0 <= k < |b| ==> b[k] < 256
  {
  }

  lemma DecodedBytes(str: string)
    requires Decoded(str).Some?
    ensures AreDigits(Decoded(str).value, 256)
  {
    hide Decoded;
    DecodedBetween(str);
    EncodeDecode(WordOf(SkipSpaces(CStr(str))).0);
  }

  /** What is encoded with its check sum is decoded again. */
  method CheckRoundTrip(vchIn: seq<Byte>, hash: CheckSum) returns (r: Option<seq<Byte>>)
    ensures r == Some(vchIn)
  {
    hide Decoded, Encoded, Around;
    var str := EncodeBase58Check(vchIn, hash);
    DecodeEncode(vchIn + hash(vchIn));
    DecodedIff(str, vchIn + hash(vchIn));
    r := DecodeBase58Check(str, hash);
  }
}
