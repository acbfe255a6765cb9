/** Binary floating point numbers written out exactly in decimal. */
module ExactDecimal {
  import opened Ints
  import opened Powers
  import opened Limbs
  import opened Numerals
  import opened UnsignedIntegers

  /** The exponent of a number of at least 1. */
  function Up(e: int): nat {
    if e > 0 then e else 0
  }

  /** The number of binary places of a number below. */
  function Down(e: int): nat {
    if e < 0 then -e else 0
  }

  ghost function Two(k: nat): (p: nat)
    ensures p > 0
  {
    PowPositive(2, k);
    Pow(2, k)
  }

  /** `n` at the scale of `d` decimal places is `m * 2^e`. */
  ghost predicate Denotes(n: nat, d: nat, m: nat, e: int) {
    n * Two(Down(e)) == m * Two(Up(e)) * Pow(10, d)
  }

  /** `dec` is the numeral of the whole part, a point and at least one digit, the last one not a needless 0, and stands
      for exactly `m * 2^e`. */
  ghost predicate ExactNumeral(dec: string, m: nat, e: int) {
    exists before, after ::
      && dec == before + "." + after && AllDigits(10, before) && AllDigits(10, after)
      && after != "" && (after == "0" || after[|after| - 1] != '0')
      && before == Numeral(10, Value(10, before)) && Denotes(Value(10, before + after), |after|, m, e)
  }

  /** A mantissa with `n` binary places, and what is left once the zeros at the end are dropped. */
  ghost function Stripped(m: nat, n: nat): (nat, nat) {
    if n > 0 && m % 2 == 0 then Stripped(m / 2, n - 1) else (m, n)
  }

  lemma {:induction false} StrippedParts(m: nat, n: nat)
    ensures var (odd, k) := Stripped(m, n);
            k <= n && m == odd * Two(n - k) && (k > 0 ==> odd % 2 == 1)
    decreases n
  {
    hide Two;
    if n > 0 && m % 2 == 0 {
      StrippedParts(m / 2, n - 1);
      var (odd, k) := Stripped(m / 2, n - 1);
      OneBit(m, n - 1 - k);
      TwoStep(n - 1 - k);
      MulAssoc(2, odd, Two(n - 1 - k));
    } else {
      TwoStep(0);
    }
  }

  /** The number of binary places left fits in an `int` except for an odd mantissa with the least exponent. */
  lemma PlacesFit(m: nat, e: Int32)
    ensures InInt(Stripped(m, Down(e)).1) <==> e > INT_MIN || m % 2 == 0
  {
    var n := Down(e);
    StrippedParts(m, n);
    if n > 0 && m % 2 == 0 {
      StrippedParts(m / 2, n - 1);
    }
  }

  lemma TwoStep(k: nat)
    ensures Two(0) == 1 && Two(k + 1) == 2 * Two(k)
  {
  }

  lemma TwoAdd(j: nat, k: nat)
    ensures Two(j + k) == Two(j) * Two(k)
  {
    PowAdd(2, j, k);
  }

  lemma TwoFive(k: nat)
    ensures Pow(5, k) * Two(k) == Pow(10, k)
  {
    PowBase(5, 2, k);
  }

  lemma HalfAgain(m: nat, k: nat)
    ensures m / Two(k) / 2 == m / Two(k + 1)
    ensures m % Two(k + 1) == m % Two(k) + (if m / Two(k) % 2 == 1 then Two(k) else 0)
  {
    hide Two;
    TwoStep(k);
    HalfQuotient(m, Two(k));
  }

  /** Five to the k-th times the k lowest bits of `m`, with one more bit. */
  lemma FractionStep(f: nat, d: nat, m: nat, k: nat)
    requires f == Pow(5, k) * (m % Two(k)) && d == 5 * Pow(10, k)
    ensures f * 5 + (if m / Two(k) % 2 == 1 then d else 0) == Pow(5, k + 1) * (m % Two(k + 1))
    ensures d * 10 == 5 * Pow(10, k + 1)
  {
    hide Pow, Two;
    HalfAgain(m, k);
    PowNext(5, k);
    PowNext(10, k);
    TwoFive(k);
    var p, q, r := Pow(5, k), Two(k), m % Two(k);
    MulAssoc(5, p, r);
    MulAssoc(5, p, q);
    Distribute(5 * p, r, q);
  }

  /** The fraction of `m / 2^n`, times `10^n`, and the whole part make up `5^n * m`. */
  lemma WholeAndFraction(m: nat, n: nat)
    ensures (m / Two(n)) * Pow(10, n) + Pow(5, n) * (m % Two(n)) == Pow(5, n) * m
    ensures Pow(5, n) * (m % Two(n)) < Pow(10, n)
  {
    hide Pow, Two;
    TwoFive(n);
    PowPositive(5, n);
    var p, q := Pow(5, n), Two(n);
    var w, r := m / q, m % q;
    assert m == q * w + r;
    Distribute(p, q * w, r);
    MulAssoc(p, q, w);
    MulLt(p, r, q);
  }

  /** Dropping zero bits that the exponent makes up for. */
  lemma StrippedQuotient(m: nat, z: nat, n: nat)
    ensures (m * Two(z)) / Two(n + z) == m / Two(n)
  {
    hide Two;
    TwoAdd(n, z);
    var p, q := Two(n), Two(z);
    var w, r := m / p, m % p;
    assert m == p * w + r;
    MulLt(q, r, p);
    assert m * q == (p * q) * w + r * q by {
      Distribute(q, p * w, r);
      MulAssoc(p, q, w);
    }
    DivMod(p * q, w, r * q);
  }

  lemma OneBit(m: nat, z: nat)
    requires m % 2 == 0
    ensures m * Two(z) == (m / 2) * Two(z + 1)
  {
    hide Two;
    TwoStep(z);
    MulAssoc(2, m / 2, Two(z));
  }

  function Repeat(c: char, n: nat): (s: string)
    ensures |s| == n
  {
    if n == 0 then "" else Repeat(c, n - 1) + [c]
  }

  lemma {:induction false} ZerosValue(n: nat, s: string)
    ensures Value(10, Repeat('0', n) + s) == Value(10, s)
    ensures AllDigits(10, s) ==> AllDigits(10, Repeat('0', n) + s)
    decreases n
  {
    if n == 0 {
      assert Repeat('0', 0) + s == s;
    } else {
      ZerosValue(n - 1, "0" + s);
      assert Repeat('0', n) + s == Repeat('0', n - 1) + ("0" + s);
      ValueConcat(10, "0", s);
      assert "0"[..0] == "";
    }
  }

  /** A numeral below `10^n` fits in `n` places. */
  lemma NumeralLength(v: nat, n: nat)
    requires v < Pow(10, n)
    ensures n > 0 ==> |Numeral(10, v)| <= n
    ensures n == 0 ==> Numeral(10, v) == "0"
  {
    hide Pow, Value, Numeral;
    PowSmall(10);
    NumeralValue(10, v);
    NumeralStep(10, v);
    if v > 0 {
      LeadingBound(10, Numeral(10, v));
      PowExponent(10, |Numeral(10, v)| - 1, n);
    }
  }

  class Float {
    const E: Int32
    const M: DWord

    constructor (exponent: Int32, mantissa: DWord)
      ensures E == exponent && M == mantissa
    {
      E, M := exponent, mantissa;
    }

    /** Dropping the bits after the binary point. */
    method Shifted() returns (m: DWord, e: nat)
      ensures e == Up(E) && m == M / Two(Down(E))
    {
      hide Two;
      var x: int := E;
      m := M;
      ghost var k: nat := 0;
      TwoStep(0);
      while x < 0
        invariant x == E + k && (E >= 0 ==> k == 0) && (k > 0 ==> x <= 0)
        invariant m == M / Two(k)
        decreases -x
      {
        HalfAgain(M, k);
        m := m / 2;
        x := x + 1;
        k := k + 1;
      }
      e := x;
    }

    /** The digits before the point. */
    method Integer() returns (s: string)
      ensures s == Numeral(10, M / Two(Down(E)) * Two(Up(E)))
    {
      hide Pow, Val, Numeral;
      var m, e := Shifted();
      var lo, hi := m % BASE, m / BASE;
      var u := new UnsignedInt(lo);
      if hi != 0 {
        var x := new UnsignedInt(hi);
        x.MultiplyWord(0x10000);
        x.MultiplyWord(0x10000);
        u.Add(x);
      }
      assert Val(u.limbs) == m;
      TwoStep(0);
      if e != 0 {
        var y := new UnsignedInt(2);
        y.Power(e);
        u.Multiply(y);
      }
      s := u.ToDec();
    }

    /** The digits after the point: how many zeros in front, and the rest. */
    method Fraction() returns (x: string, zeros: nat)
      requires E > INT_MIN || M % 2 == 0
      ensures var (odd, n) := Stripped(M, Down(E));
              && x == Numeral(10, Pow(5, n) * (odd % Two(n)))
              && zeros + |x| == if n == 0 then 1 else n
    {
      hide Pow, Val, Numeral, Two, Value;
      var e: Int32 := E;
      var m := M;
      var f := new UnsignedInt(0);
      var d := new UnsignedInt(5);
      TwoStep(0);
      while e < 0 && m % 2 == 0
        invariant Stripped(m, Down(e)) == Stripped(M, Down(E)) && e >= E && (e == E ==> m == M)
        invariant Normal(f.limbs) && Val(f.limbs) == 0 && Normal(d.limbs) && Val(d.limbs) == 5
        decreases Down(e)
      {
        m := m / 2;
        e := e + 1;
      }
      ghost var odd: nat := m;
      var digits: Int32 := if e < 0 then -e else 0;
      ghost var n: nat := digits;
      ghost var k: nat := 0;
      PowSmall(5);
      PowSmall(10);
      while e < 0
        invariant k <= n && e == (if n == 0 then e else k - n) && (n == 0 ==> e >= 0)
        invariant m == odd / Two(k) && fresh(f) && fresh(d) && f != d
        invariant Normal(f.limbs) && Val(f.limbs) == Pow(5, k) * (odd % Two(k))
        invariant Normal(d.limbs) && Val(d.limbs) == 5 * Pow(10, k)
        decreases -e
      {
        FractionStep(Val(f.limbs), Val(d.limbs), odd, k);
        HalfAgain(odd, k);
        f.MultiplyWord(5);
        if m % 2 == 1 {
          f.Add(d);
        }
        m := m / 2;
        e := e + 1;
        d.MultiplyWord(10);
        k := k + 1;
      }
      WholeAndFraction(odd, n);
      NumeralLength(Val(f.limbs), n);
      x := f.ToDec();
      zeros := if |x| < digits then digits - |x| else 0;
    }

    /** The decimal numeral, whose value is exactly the number's. */
    method Decimal() returns (dec: string)
      requires E > INT_MIN || M % 2 == 0
      ensures ExactNumeral(dec, M, E)
    {
      hide Pow, Numeral, Value, Two, Denotes, Stripped;
      var before := Integer();
      dec := before;
      var x, zeros := Fraction();
      dec := dec + ".";
      dec := dec + Repeat('0', zeros);
      dec := dec + x;
      ghost var after := Repeat('0', zeros) + x;
      assert dec == before + "." + after;
      PartsExact(before, zeros, x, after, M, E);
      LastDigit(M, Down(E));
    }
  }

  lemma {:induction false} OddPower(n: nat)
    ensures Pow(5, n) % 2 == 1
  {
    if n > 0 {
      OddPower(n - 1);
    }
  }

  lemma OddProduct(a: nat, b: nat)
    requires a % 2 == 1 && b % 2 == 1
    ensures (a * b) % 2 == 1
  {
    var i, j := a / 2, b / 2;
    assert a * b == 2 * (2 * i * j + i + j) + 1;
  }

  lemma OddRemainder(m: nat, n: nat)
    requires m % 2 == 1 && n > 0
    ensures m % Two(n) % 2 == 1
  {
    hide Pow;
    TwoStep(n - 1);
    var q := m / Two(n);
    assert m == Two(n) * q + m % Two(n);
    MulAssoc(2, Two(n - 1), q);
  }

  /** The fraction is 0 or an odd number of the smallest parts, so its last digit is not 0. */
  lemma LastDigit(m: nat, d: nat)
    ensures var (odd, n) := Stripped(m, d); var x := Numeral(10, Pow(5, n) * (odd % Two(n)));
            if n == 0 then x == "0" else x[|x| - 1] != '0'
  {
    hide Pow, Two, Stripped, Numeral;
    StrippedParts(m, d);
    var (odd, n) := Stripped(m, d);
    if n == 0 {
      TwoStep(0);
      NumeralStep(10, 0);
      assert odd % 1 == 0 && Pow(5, 0) * 0 == 0;
    } else {
      OddPower(n);
      OddRemainder(odd, n);
      OddProduct(Pow(5, n), odd % Two(n));
      OddNumeral(Pow(5, n) * (odd % Two(n)));
    }
  }

  lemma OddNumeral(v: nat)
    requires v % 2 == 1
    ensures Numeral(10, v)[|Numeral(10, v)| - 1] != '0'
  {
    hide Numeral;
    NumeralStep(10, v);
    DigitsBack(v % 10);
  }

  /** The digits of the whole part and of the fraction, with zeros between them, stand for exactly the number. */
  lemma PartsExact(before: string, zeros: nat, x: string, after: string, m: nat, e: int)
    requires before == Numeral(10, m / Two(Down(e)) * Two(Up(e))) && after == Repeat('0', zeros) + x
    requires var (odd, n) := Stripped(m, Down(e));
             x == Numeral(10, Pow(5, n) * (odd % Two(n))) && zeros + |x| == if n == 0 then 1 else n
    ensures after != "" && AllDigits(10, before) && AllDigits(10, after) && before == Numeral(10, Value(10, before))
    ensures Denotes(Value(10, before + after), |after|, m, e)
  {
    hide Pow, Numeral, Value, Two, Denotes, Stripped;
    var whole, odd, n := m / Two(Down(e)) * Two(Up(e)), Stripped(m, Down(e)).0, Stripped(m, Down(e)).1;
    StrippedParts(m, Down(e));
    NumeralValue(10, whole);
    NumeralValue(10, Pow(5, n) * (odd % Two(n)));
    ZerosValue(zeros, x);
    ValueConcat(10, before, after);
    ExactValue(whole, n, Down(e) - n, odd, m, e);
  }

  lemma ExactValue(whole: nat, n: nat, z: nat, odd: nat, m: nat, e: int)
    requires n + z == Down(e) && m == odd * Two(z)
    requires whole == m / Two(Down(e)) * Two(Up(e))
    ensures var d := if n == 0 then 1 else n;
            Denotes(whole * Pow(10, d) + Pow(5, n) * (odd % Two(n)), d, m, e)
  {
    hide Pow, Two;
    TwoStep(0);
    PowSmall(10);
    StrippedQuotient(odd, z, n);
    WholeAndFraction(odd, n);
    TwoAdd(n, z);
    TwoFive(n);
    var p, q, r := Pow(5, n), Two(n), Two(z);
    assert (p * odd) * (q * r) == (odd * r) * (p * q) by {
      MulAssoc(p, odd, q * r);
      MulAssoc(odd, q, r);
      MulAssoc(odd * r, p, q);
      MulAssoc(odd, r, q);
      MulAssoc(p, odd * r, q);
    }
    if n == 0 {
      PowSmall(5);
      assert odd % 1 == 0;
    }
  }

  // ----- doubles -----

  const LEADING := 0x10_0000_0000_0000

  /** The fields of a 64-bit word: one bit, eleven bits and the other 52. */
  function Sign(u: DWord): nat {
    u / LEADING / 2048
  }

  function Exponent(u: DWord): nat {
    u / LEADING % 2048
  }

  function Significand(u: DWord): nat {
    u % LEADING
  }

  /** A finite double is `m * 2^e`; the others are infinite or not numbers. */
  datatype Double = Finite(m: int, e: int) | NotFinite

  /** The double a word stands for, as in section 3.4 of IEEE 754-2008. */
  ghost function DoubleValue(u: DWord): Double {
    var sign := if Sign(u) == 0 then 1 else -1;
    if Exponent(u) == 2047 then NotFinite
    else if Exponent(u) == 0 then Finite(sign * Significand(u), -1074)
    else Finite(sign * (LEADING + Significand(u)), Exponent(u) - 1075)
  }

  /** `m * 2^e` is the double `v`. */
  ghost predicate Equals(m: nat, e: int, v: Double) {
    v.Finite? && if e <= v.e then m == v.m * Two(v.e - e) else m * Two(e - v.e) == v.m
  }

  /** The leading bit is put in unless it is there. */
  method FromFields(exponent: Int32, fraction: DWord) returns (x: Float)
    requires InInt(exponent - 1075)
    ensures fresh(x) && x.E == exponent - 1075
    ensures x.M == if fraction / LEADING % 2 == 1 then fraction else fraction + LEADING
  {
    hide Pow;
    FiftyTwo();
    OrBit(fraction, 52);
    OrBound(fraction, LEADING, 64);
    x := new Float(exponent - 1023 - 52, Or(fraction, LEADING));
  }

  /** The sign of the double is dropped, and the leading bit put in whatever the exponent field. */
  method FromDouble(u: DWord) returns (x: Float)
    ensures fresh(x) && x.E == Exponent(u) - 1075 && x.M == LEADING + Significand(u)
    ensures Equals(x.M, x.E, DoubleValue(u)) <==> Sign(u) == 0 && 0 < Exponent(u) < 2047
  {
    DoubleExact(u);
    x := FromFields(Exponent(u), Significand(u));
  }

  lemma FiftyTwo()
    ensures Pow(2, 52) == LEADING && Pow(2, 64) == 0x1_0000_0000_0000_0000
  {
    hide Pow;
    BinaryPowers(13);
    BinaryPowers(16);
    EightPowers();
    PowSmall(16);
    PowAdd(16, 1, 1);
    PowAdd(16, 2, 2);
    PowAdd(16, 8, 4);
    PowAdd(16, 12, 1);
    PowAdd(16, 8, 8);
  }

  /** So the conversion is right exactly for the positive normal doubles. */
  lemma DoubleExact(u: DWord)
    ensures Equals(LEADING + Significand(u), Exponent(u) - 1075, DoubleValue(u)) <==>
              Sign(u) == 0 && 0 < Exponent(u) < 2047
  {
    TwoStep(0);
    assert Two(1) == 2;
  }

  /** -1.5 and infinity are read as positive numbers. */
  lemma SomeDoubles()
    ensures var u := 0xBFF8_0000_0000_0000;
            && DoubleValue(u) == Finite(-3 * 0x8_0000_0000_0000, -52) && Exponent(u) - 1075 == -52
            && LEADING + Significand(u) == 3 * 0x8_0000_0000_0000
            && !Equals(LEADING + Significand(u), -52, DoubleValue(u))
    ensures var u := 0x7FF0_0000_0000_0000;
            DoubleValue(u) == NotFinite && Exponent(u) - 1075 == 972 && LEADING + Significand(u) == LEADING
  {
    DoubleExact(0xBFF8_0000_0000_0000);
  }
}
