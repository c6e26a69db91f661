/** The 32-bit rolling hash shared by request fingerprints and Slack signatures, and the
    hexadecimal form it is published in. */
module RollingHash {
  import opened Utf16

  const MODULUS: int := 0x1_0000_0000
  const HALF: int := 0x8000_0000

  /** ToInt32 (section 7.1.6 of ECMA-262): the signed 32-bit representative. */
  function ToInt32(n: int): (r: int)
    ensures -HALF <= r < HALF
  {
    var m := n % MODULUS;
    if m >= HALF then m - MODULUS else m
  }

  function ShiftLeft(n: int, bits: nat): int
    requires bits == 5
  {
    ToInt32(ToInt32(n) * 32)
  }

  /** The bitwise conjunction of a number with itself only coerces it to 32 bits. */
  function AndItself(n: int): int {
    ToInt32(n)
  }

  function Step(hash: int, unit: Unit): int {
    AndItself(ShiftLeft(hash, 5) - hash + unit)
  }

  function Hash(t: Text): (h: int)
    ensures -HALF <= h < HALF
  {
    if t == [] then 0 else Step(Hash(t[..|t| - 1]), t[|t| - 1])
  }

  lemma HashOfPrefix(t: Text, i: nat)
    requires i < |t|
    ensures Hash(t[..i + 1]) == Step(Hash(t[..i]), t[i])
    ensures t[..|t|] == t
  {
    assert t[..i + 1][..i] == t[..i];
  }

  lemma RoundIsStep(hash: int, unit: Unit)
    ensures AndItself(ShiftLeft(hash, 5) - hash + unit) == Step(hash, unit)
  {}

  lemma OneMoreRound(t: Text, i: nat, hash: int, unit: Unit)
    requires i < |t| && hash == Hash(t[..i]) && unit == t[i]
    ensures AndItself(ShiftLeft(hash, 5) - hash + unit) == Hash(t[..i + 1])
  {
    HashOfPrefix(t, i);
    RoundIsStep(hash, unit);
  }

  method ComputeHash(t: Text) returns (hash: int)
    ensures hash == Hash(t)
  {
    hash := 0;
    for i := 0 to |t|
      invariant hash == Hash(t[..i])
    {
      var unit := t[i];
      OneMoreRound(t, i, hash, unit);
      hash := AndItself(ShiftLeft(hash, 5) - hash + unit);
    }
    assert t[..|t|] == t;
  }

  // ----- wrapping

  lemma WrapIgnoresMultiples(n: int, k: int)
    ensures ToInt32(n + MODULUS * k) == ToInt32(n)
  {}

  lemma WrapDistance(n: int) returns (k: int)
    ensures ToInt32(n) == n + MODULUS * k
  {
    k := if n % MODULUS >= HALF then -(n / MODULUS) - 1 else -(n / MODULUS);
  }

  lemma WrapKeepsInRange(n: int)
    requires -HALF <= n < HALF
    ensures ToInt32(n) == n
  {}

  /** Wrapping an operand first makes no difference to a wrapped linear expression. */
  lemma WrapInside(factor: int, n: int, offset: int)
    ensures ToInt32(factor * ToInt32(n) + offset) == ToInt32(factor * n + offset)
  {
    var k := WrapDistance(n);
    assert factor * (n + MODULUS * k) == factor * n + MODULUS * (factor * k);
    WrapIgnoresMultiples(factor * n + offset, factor * k);
  }

  /** One round multiplies by 31 and adds the unit, modulo 2^32. */
  lemma StepIsLinear(hash: int, unit: Unit)
    ensures Step(hash, unit) == ToInt32(31 * hash + unit)
  {
    WrapInside(1, ToInt32(hash) * 32, unit - hash);
    WrapInside(32, hash, unit - hash);
  }

  // ----- the polynomial

  /** The units as digits in base 31. */
  function Polynomial(t: Text): int {
    if t == [] then 0 else 31 * Polynomial(t[..|t| - 1]) + t[|t| - 1]
  }

  function Power31(n: nat): int {
    if n == 0 then 1 else 31 * Power31(n - 1)
  }

  lemma StepOfWrapped(p: int, unit: Unit)
    ensures Step(ToInt32(p), unit) == ToInt32(31 * p + unit)
  {
    StepIsLinear(ToInt32(p), unit);
    WrapInside(31, p, unit);
  }

  lemma {:induction false} HashIsPolynomial(t: Text)
    ensures Hash(t) == ToInt32(Polynomial(t))
  {
    if t != [] {
      var front, last := t[..|t| - 1], t[|t| - 1];
      HashIsPolynomial(front);
      StepOfWrapped(Polynomial(front), last);
    }
  }

  lemma {:induction false} PolynomialOfConcatenation(s: Text, t: Text)
    ensures Polynomial(s + t) == Power31(|t|) * Polynomial(s) + Polynomial(t)
  {
    if t == [] {
      assert s + t == s;
    } else {
      var front := t[..|t| - 1];
      PolynomialOfConcatenation(s, front);
      assert (s + t)[..|s + t| - 1] == s + front;
      Regroup(Power31(|front|), Polynomial(s));
    }
  }

  lemma Regroup(a: int, b: int)
    ensures (31 * a) * b == 31 * (a * b)
  {}

  lemma WrapBoth(factor: int, p: int, q: int)
    ensures ToInt32(factor * ToInt32(p) + ToInt32(q)) == ToInt32(factor * p + q)
  {
    WrapInside(factor, p, ToInt32(q));
    var n := factor * p;
    WrapInside(1, q, n);
  }

  /** Hashing may be split anywhere: the hash of a concatenation follows from the two hashes. */
  lemma HashOfConcatenation(s: Text, t: Text)
    ensures Hash(s + t) == ToInt32(Power31(|t|) * Hash(s) + Hash(t))
  {
    HashIsPolynomial(s + t);
    HashIsPolynomial(s);
    HashIsPolynomial(t);
    PolynomialOfConcatenation(s, t);
    WrapBoth(Power31(|t|), Polynomial(s), Polynomial(t));
  }

  // ----- sensitivity

  const INVERSE31: int := 3186588639

  /** 31 has an inverse modulo 2^32, so what goes into a round can be recovered from its result. */
  lemma StepInverts(hash: int, unit: Unit)
    requires -HALF <= hash < HALF
    ensures ToInt32(INVERSE31 * Step(hash, unit) - INVERSE31 * unit) == hash
  {
    StepIsLinear(hash, unit);
    WrapInside(INVERSE31, 31 * hash + unit, -INVERSE31 * unit);
    assert INVERSE31 * (31 * hash + unit) - INVERSE31 * unit == hash + MODULUS * (23 * hash);
    WrapIgnoresMultiples(hash, 23 * hash);
    WrapKeepsInRange(hash);
  }

  lemma StepKeepsHashesApart(a: int, b: int, unit: Unit)
    requires -HALF <= a < HALF && -HALF <= b < HALF
    requires Step(a, unit) == Step(b, unit)
    ensures a == b
  {
    StepInverts(a, unit);
    StepInverts(b, unit);
  }

  lemma UnitIsRecovered(hash: int, unit: Unit)
    ensures ToInt32(Step(hash, unit) - 31 * hash) == unit
  {
    StepIsLinear(hash, unit);
    WrapInside(1, 31 * hash + unit, -31 * hash);
    WrapKeepsInRange(unit);
  }

  /** Units differ by less than the modulus, so a round tells any two apart. */
  lemma StepKeepsUnitsApart(hash: int, a: Unit, b: Unit)
    requires Step(hash, a) == Step(hash, b)
    ensures a == b
  {
    UnitIsRecovered(hash, a);
    UnitIsRecovered(hash, b);
  }

  ghost predicate DifferOnlyAt(s: Text, t: Text, k: nat) {
    && |s| == |t| && k < |s| && s[k] != t[k]
    && forall i :: 0 <= i < |s| && i != k ==> s[i] == t[i]
  }

  function Difference(s: Text, t: Text, k: nat): int
    requires k < |s| && k < |t|
  {
    t[k] as int - s[k] as int
  }

  /** Changing exactly one unit always changes the hash. */
  lemma {:induction false} OneUnitChangesHash(s: Text, t: Text, k: nat)
    requires DifferOnlyAt(s, t, k)
    ensures Hash(s) != Hash(t)
  {
    var n := |s| - 1;
    if k == n {
      assert s[..n] == t[..n];
      if Hash(s) == Hash(t) { StepKeepsUnitsApart(Hash(s[..n]), s[n], t[n]); }
    } else {
      OneUnitChangesHash(s[..n], t[..n], k);
      if Hash(s) == Hash(t) { StepKeepsHashesApart(Hash(s[..n]), Hash(t[..n]), s[n]); }
    }
  }

  /** Changing one unit moves the polynomial by the difference times the power of its position. */
  lemma {:induction false} PolynomialOfChange(s: Text, t: Text, k: nat)
    requires DifferOnlyAt(s, t, k)
    ensures Polynomial(t) == Polynomial(s) + Power31(|s| - 1 - k) * Difference(s, t, k)
  {
    var n := |s| - 1;
    if k == n {
      assert s[..n] == t[..n];
    } else {
      PolynomialOfChange(s[..n], t[..n], k);
      Regroup(Power31(n - 1 - k), Difference(s, t, k));
    }
  }

  lemma {:induction false} Power31IsOdd(n: nat)
    ensures Power31(n) % 2 == 1
  {
    if n > 0 { Power31IsOdd(n - 1); }
  }

  lemma OddProduct(a: int, b: int)
    requires a % 2 == 1 && b % 2 == 1
    ensures (a * b) % 2 == 1
  {
    var i, j := a / 2, b / 2;
    assert a * b == 2 * (2 * i * j + i + j) + 1;
  }

  lemma SumOfHashes(s: Text, t: Text)
    ensures ToInt32(Hash(s) + Hash(t)) == ToInt32(Polynomial(s) + Polynomial(t))
  {
    HashIsPolynomial(s);
    HashIsPolynomial(t);
    WrapBoth(1, Polynomial(s), Polynomial(t));
  }

  lemma OppositeExactlyWhenSumWraps(a: int, b: int)
    requires -HALF <= a < HALF && -HALF <= b < HALF && a != b
    ensures a == -b <==> ToInt32(a + b) == 0
  {}

  lemma OddNeverWrapsToZero(n: int)
    requires n % 2 == 1
    ensures ToInt32(n) != 0
  {
    var k := WrapDistance(n);
    assert MODULUS * k == 2 * (HALF * k);
  }

  // ----- hexadecimal

  function Abs(n: int): nat {
    if n < 0 then -n else n
  }

  /** Number.prototype.toString with radix 16. */
  function ToHex(n: nat): (t: Text)
    ensures t != []
  {
    if n < 16 then [HexDigit(n)] else ToHex(n / 16) + [HexDigit(n % 16)]
  }

  function Zeros(n: nat): (t: Text)
    ensures |t| == n && forall i :: 0 <= i < n ==> t[i] == 0x30
  {
    if n == 0 then [] else Zeros(n - 1) + [0x30]
  }

  /** String.prototype.padStart with '0'. */
  function PadStart(t: Text, width: nat): Text {
    if |t| >= width then t else Zeros(width - |t|) + t
  }

  predicate IsLowerHex(t: Text) {
    forall i :: 0 <= i < |t| ==> 0x30 <= t[i] <= 0x39 || 0x61 <= t[i] <= 0x66
  }

  /** The number a hexadecimal text stands for. */
  function FromHex(t: Text): int {
    if t == [] then 0 else 16 * FromHex(t[..|t| - 1]) + HexValue(t[|t| - 1])
  }

  function Power16(n: nat): nat {
    if n == 0 then 1 else 16 * Power16(n - 1)
  }

  lemma {:induction false} HexReads(n: nat, width: nat)
    requires width > 0 && n < Power16(width)
    ensures |ToHex(n)| <= width && IsLowerHex(ToHex(n)) && FromHex(ToHex(n)) == n
    decreases n
  {
    if n < 16 {
      assert ToHex(n)[..0] == [];
      HexDigitValue(n);
    } else {
      assert width > 1;
      HexReads(n / 16, width - 1);
      HexDigitValue(n % 16);
      assert ToHex(n)[..|ToHex(n)| - 1] == ToHex(n / 16);
    }
  }

  lemma {:induction false} PaddingReads(t: Text, n: nat)
    ensures FromHex(Zeros(n) + t) == FromHex(t)
    decreases |t|, n
  {
    if t == [] {
      assert Zeros(n) + t == Zeros(n);
      if n > 0 {
        PaddingReads([], n - 1);
        assert Zeros(n - 1) + [] == Zeros(n - 1);
        assert Zeros(n)[..n - 1] == Zeros(n - 1);
      }
    } else {
      PaddingReads(t[..|t| - 1], n);
      assert (Zeros(n) + t)[..n + |t| - 1] == Zeros(n) + t[..|t| - 1];
    }
  }

  /** The published form of a hash: padded hexadecimal of its absolute value. */
  function Published(hash: int, width: nat): Text {
    PadStart(ToHex(Abs(hash)), width)
  }

  lemma PowerOfDigits()
    ensures Power16(8) == MODULUS
  {
    assert Power16(4) == 0x1_0000;
  }

  lemma PadStartParts(t: Text, width: nat)
    requires |t| <= width && IsLowerHex(t)
    ensures var r := PadStart(t, width);
            && r == Zeros(width - |t|) + t && |r| == width && IsLowerHex(r)
            && forall i :: 0 <= i < width - |t| ==> r[i] == 0x30
  {
    assert Zeros(0) + t == t;
  }

  /** Every hash fills exactly the width, from eight digits up; the digits are the absolute value,
      and everything before the last eight is zero. */
  lemma PublishedForm(hash: int, width: nat)
    requires -HALF <= hash < HALF && width >= 8
    ensures var t := Published(hash, width);
            && |t| == width && IsLowerHex(t) && FromHex(t) == Abs(hash)
            && forall i :: 0 <= i < width - 8 ==> t[i] == 0x30
  {
    var digits := ToHex(Abs(hash));
    PowerOfDigits();
    HexReads(Abs(hash), 8);
    var zeros := width - |digits|;
    PaddingReads(digits, zeros);
    PadStartParts(digits, width);
  }

  /** Two hashes are published alike exactly when they agree up to sign. */
  lemma PublishedAlikeExactlyWhen(a: int, b: int, width: nat)
    requires -HALF <= a < HALF && -HALF <= b < HALF && width >= 8
    ensures Published(a, width) == Published(b, width) <==> a == b || a == -b
  {
    PublishedForm(a, width);
    PublishedForm(b, width);
  }
}
