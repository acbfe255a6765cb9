/** Strings of digits and the numbers they stand for. */
module Numerals {
  import opened Powers
  import opened Limbs
  import opened Sequences

  const DIGITS := "0123456789abcdef"

  /** The value of a decimal digit; the largest word for any other character. */
  function FromDec(c: char): Word {
    if '0' <= c <= '9' then (c as int) - ('0' as int) else MASK
  }

  function FromHex(c: char): Word {
    if '0' <= c <= '9' then (c as int) - ('0' as int)
    else if 'a' <= c <= 'f' then (c as int) - ('a' as int) + 10
    else if 'A' <= c <= 'F' then (c as int) - ('A' as int) + 10
    else MASK
  }

  ghost predicate AllDigits(b: nat, s: string) {
    forall i :: 0 <= i < |s| ==> FromHex(s[i]) < b
  }

  /** Digits in lower case. */
  ghost predicate Plain(b: nat, s: string) {
    forall i :: 0 <= i < |s| ==> FromHex(s[i]) < b && !('A' <= s[i] <= 'F')
  }

  /** The number a string of digits stands for. */
  function Value(b: nat, s: string): nat {
    if s == "" then 0 else b * Value(b, s[..|s| - 1]) + FromHex(s[|s| - 1])
  }

  /** The numeral of `n` without leading zeros. */
  function Numeral(b: nat, n: nat): (s: string)
    requires 2 <= b <= 16
    ensures s != ""
    decreases n
  {
    LessQuotient(b, n);
    if n < b then [DIGITS[n]] else Numeral(b, n / b) + [DIGITS[n % b]]
  }

  lemma LessQuotient(b: nat, n: nat)
    requires 2 <= b
    ensures n % b < b && n == b * (n / b) + n % b && (n >= b ==> 0 < n / b < n)
  {
    assert n == b * (n / b) + n % b;
    if n >= b {
      MulLe(n / b, 2, b);
    }
  }

  /** Neither empty nor with a needless leading zero, and in lower case. */
  ghost predicate Canonical(b: nat, s: string) {
    && s != ""
    && Plain(b, s)
    && (s == "0" || s[0] != '0')
  }

  lemma DigitsBack(d: nat)
    requires d < 16
    ensures FromHex(DIGITS[d]) == d && !('A' <= DIGITS[d] <= 'F') && (DIGITS[d] == '0' <==> d == 0)
  {
  }

  lemma BackDigits(c: char)
    requires FromHex(c) < 16 && !('A' <= c <= 'F')
    ensures DIGITS[FromHex(c)] == c
  {
  }

  /** The digits in their order, in lower and in upper case, and no other characters. */
  lemma DigitValues(c: char, d: nat)
    requires d < 16
    ensures FromHex(c) == d <==> c == "0123456789abcdef"[d] || c == "0123456789ABCDEF"[d]
    ensures FromHex(c) < 16 || FromHex(c) == MASK
    ensures FromDec(c) == d <==> c == "0123456789abcdef"[d] && d < 10
  {
  }

  function ToLower(c: char): char {
    if 'A' <= c <= 'Z' then ((c as int) + 32) as char else c
  }

  function Lower(s: string): (r: string)
    ensures |r| == |s| && forall i :: 0 <= i < |s| ==> r[i] == ToLower(s[i])
  {
    seq(|s|, i requires 0 <= i < |s| => ToLower(s[i]))
  }

  /** The case of the letters does not matter. */
  lemma {:induction false} LowerValue(b: nat, s: string)
    ensures Value(b, s) == Value(b, Lower(s))
    ensures AllDigits(b, Lower(s)) <==> AllDigits(b, s)
  {
    if s != "" {
      var n := |s| - 1;
      LowerValue(b, s[..n]);
      assert Lower(s)[..n] == Lower(s[..n]);
      assert FromHex(Lower(s)[n]) == FromHex(s[n]);
      assert forall i :: 0 <= i < |s| ==> FromHex(Lower(s)[i]) == FromHex(s[i]);
    }
  }

  lemma LowerPlain(b: nat, s: string)
    requires AllDigits(b, s)
    ensures Plain(b, Lower(s))
    ensures s != "" ==> (s[0] == '0' <==> Lower(s)[0] == '0') && (s == "0" <==> Lower(s) == "0")
  {
  }

  lemma ValuePush(b: nat, t: string, c: char)
    ensures Value(b, t + [c]) == b * Value(b, t) + FromHex(c)
    ensures Value(b, "") == 0
  {
    assert (t + [c])[..|t|] == t;
  }

  lemma CanonicalPush(b: nat, t: string, c: char)
    requires t == "" || (Canonical(b, t) && t[0] != '0')
    requires FromHex(c) < b && !('A' <= c <= 'F')
    ensures Canonical(b, t + [c])
  {
  }

  lemma NumeralStep(b: nat, n: nat)
    requires 2 <= b <= 16
    ensures n < b ==> Numeral(b, n) == "" + [DIGITS[n]]
    ensures n >= b ==> n / b < n && Numeral(b, n) == Numeral(b, n / b) + [DIGITS[n % b]]
    ensures n % b < b && n == b * (n / b) + n % b
  {
    LessQuotient(b, n);
  }

  lemma {:induction false} NumeralValue(b: nat, n: nat)
    requires 2 <= b <= 16
    ensures Canonical(b, Numeral(b, n)) && Value(b, Numeral(b, n)) == n
    ensures n > 0 ==> Numeral(b, n)[0] != '0'
    decreases n
  {
    hide Numeral, Value, Canonical, FromHex;
    NumeralStep(b, n);
    if n < b {
      DigitsBack(n);
      ValuePush(b, "", DIGITS[n]);
      CanonicalPush(b, "", DIGITS[n]);
    } else {
      NumeralValue(b, n / b);
      DigitsBack(n % b);
      ValuePush(b, Numeral(b, n / b), DIGITS[n % b]);
      CanonicalPush(b, Numeral(b, n / b), DIGITS[n % b]);
    }
  }

  lemma {:induction false} ValueBound(b: nat, s: string)
    requires b > 0 && AllDigits(b, s)
    ensures Value(b, s) < Pow(b, |s|)
  {
    if s != "" {
      ValueBound(b, s[..|s| - 1]);
      MulLe(b, Value(b, s[..|s| - 1]) + 1, Pow(b, |s| - 1));
    }
  }

  lemma {:induction false} LeadingBound(b: nat, s: string)
    requires b > 0 && AllDigits(b, s) && s != "" && s[0] != '0'
    ensures Pow(b, |s| - 1) <= Value(b, s)
  {
    var t := s[..|s| - 1];
    if t == "" {
      assert Value(b, t) == 0;
    } else {
      LeadingBound(b, t);
      MulLe(b, Pow(b, |t| - 1), Value(b, t));
    }
  }

  lemma CanonicalPositive(b: nat, t: string)
    requires b > 0 && Canonical(b, t) && t[0] != '0'
    ensures Value(b, t) > 0
  {
    hide Value;
    LeadingBound(b, t);
    PowPositive(b, |t| - 1);
  }

  lemma CanonicalPop(b: nat, t: string, c: char)
    requires Canonical(b, t + [c])
    ensures FromHex(c) < b && !('A' <= c <= 'F')
    ensures t != "" ==> Canonical(b, t) && t[0] != '0'
  {
    assert (t + [c])[|t|] == c;
    assert forall i :: 0 <= i < |t| ==> (t + [c])[i] == t[i];
  }

  /** A canonical string is the numeral of its value. */
  lemma {:induction false} CanonicalNumeral(b: nat, s: string)
    requires 2 <= b <= 16 && s != "" && Canonical(b, s)
    ensures s == Numeral(b, Value(b, s))
  {
    hide Numeral, Value, FromHex, Pow, Canonical;
    var t, c := s[..|s| - 1], s[|s| - 1];
    assert s == t + [c];
    CanonicalPop(b, t, c);
    BackDigits(c);
    ValuePush(b, t, c);
    NumeralStep(b, Value(b, s));
    if t == "" {
      DivMod(b, 0, FromHex(c));
    } else {
      CanonicalNumeral(b, t);
      CanonicalPositive(b, t);
      DivMod(b, Value(b, t), FromHex(c));
    }
  }

  lemma Regroup(p: nat, h: nat, b: nat, r: nat)
    requires r < p && b <= 1
    ensures p * (2 * h + b) + r == (2 * p) * h + (p * b + r) && p * b + r < 2 * p
  {
    Distribute(p, 2 * h, b);
    MulAssoc(p, 2, h);
    MulLe(p, b, 1);
  }

  /** Halving a quotient is dividing by twice as much. */
  lemma HalfQuotient(m: nat, p: nat)
    requires p > 0
    ensures m / p / 2 == m / (2 * p)
    ensures m % (2 * p) == m % p + (if m / p % 2 == 1 then p else 0)
  {
    var q, r := m / p, m % p;
    assert m == p * q + r;
    var h, b := q / 2, q % 2;
    assert q == 2 * h + b;
    Regroup(p, h, b, r);
    DivMod(2 * p, h, p * b + r);
  }

  // ----- digits from the lowest up -----

  /** The value of digits listed from the lowest up. */
  ghost function LowValue(b: nat, r: string): nat {
    if r == "" then 0 else FromHex(r[0]) + b * LowValue(b, r[1..])
  }

  lemma {:induction false} LowPush(b: nat, r: string, c: char)
    ensures LowValue(b, r + [c]) == LowValue(b, r) + Pow(b, |r|) * FromHex(c)
  {
    if r == "" {
      assert r + [c] == [c];
      assert [c][1..] == "";
      assert LowValue(b, [c]) == FromHex(c) + b * LowValue(b, "");
    } else {
      LowPush(b, r[1..], c);
      assert (r + [c])[1..] == r[1..] + [c];
      Distribute(b, LowValue(b, r[1..]), Pow(b, |r| - 1) * FromHex(c));
      MulAssoc(b, Pow(b, |r| - 1), FromHex(c));
    }
  }

  lemma {:induction false} ReversedValue(b: nat, r: string)
    ensures Value(b, Reversed(r)) == LowValue(b, r)
    ensures AllDigits(b, r) ==> AllDigits(b, Reversed(r))
  {
    if r != "" {
      ReversedFirst(r);
      ReversedValue(b, r[1..]);
      var s := Reversed(r);
      assert s[..|s| - 1] == Reversed(r[1..]);
    }
  }

  lemma {:induction false} ReversedFirst<T>(r: seq<T>)
    requires r != []
    ensures Reversed(r) == Reversed(r[1..]) + [r[0]]
  {
    var n := |r| - 1;
    if n == 0 {
      assert r[1..] == r[..0] == [];
    } else {
      ReversedFirst(r[..n]);
      assert r[..n][1..] == r[1..][..n - 1];
    }
  }

  // ----- appending digits on the right -----

  lemma {:induction false} ValueConcat(b: nat, s: string, t: string)
    ensures Value(b, s + t) == Value(b, s) * Pow(b, |t|) + Value(b, t)
  {
    hide Value, Pow;
    if t == "" {
      assert s + t == s;
      ValuePush(b, "", '0');
      PowSmall(b);
    } else {
      var u, c := t[..|t| - 1], t[|t| - 1];
      ValueConcat(b, s, u);
      assert t == u + [c] && s + t == (s + u) + [c];
      ValuePush(b, u, c);
      ValuePush(b, s + u, c);
      PowNext(b, |u|);
      Distribute(b, Value(b, s) * Pow(b, |u|), Value(b, u));
      MulAssoc(b, Value(b, s), Pow(b, |u|));
      MulAssoc(Value(b, s), b, Pow(b, |u|));
    }
  }

  // ----- space for the result -----

  lemma TenPowers()
    ensures Pow(10, 77) ==
            1_0000_0000_0000_0000_0000_0000_0000_0000_0000_0000_0000_0000_0000_0000_0000_0000_0000_0000_0000 * 10
    ensures Pow(10, 106) == Pow(10, 77) * 1_0000_0000_0000_0000_0000_0000_0000_0
  {
    hide Pow;
    PowSmall(10);
    PowAdd(10, 1, 1);
    PowAdd(10, 2, 2);
    PowAdd(10, 4, 4);
    PowAdd(10, 8, 8);
    PowAdd(10, 16, 16);
    PowAdd(10, 32, 32);
    PowAdd(10, 64, 8);
    PowAdd(10, 72, 4);
    PowAdd(10, 76, 1);
    PowAdd(10, 16, 8);
    PowAdd(10, 24, 4);
    PowAdd(10, 28, 1);
    PowAdd(10, 77, 29);
  }

  lemma WordPowers()
    ensures Pow(BASE, 8) == 0x1_0000_0000_0000_0000_0000_0000_0000_0000_0000_0000_0000_0000_0000_0000_0000_0000
    ensures Pow(BASE, 11) == Pow(BASE, 8) * 0x1_0000_0000_0000_0000_0000_0000
  {
    hide Pow;
    PowSmall(BASE);
    PowAdd(BASE, 1, 1);
    PowAdd(BASE, 2, 2);
    PowAdd(BASE, 4, 4);
    PowAdd(BASE, 2, 1);
    PowAdd(BASE, 8, 3);
  }

  lemma BigPowers()
    ensures Pow(BASE, 11) < Pow(10, 106)
    ensures Pow(10, 77) < Pow(BASE, 8)
  {
    hide Pow;
    TenPowers();
    WordPowers();
  }

  /** The decimal numeral of a number of `n` limbs has at most `9n + 7n/11 + 1` digits. */
  lemma DecimalSpace(v: nat, n: nat)
    requires n > 0 && v < Weight(n)
    ensures |Numeral(10, v)| <= 9 * n + 7 * n / 11 + 1
  {
    hide Pow, Numeral, Value;
    var s, k := Numeral(10, v), 9 * n + 7 * n / 11 + 1;
    NumeralValue(10, v);
    if v == 0 {
      NumeralStep(10, 0);
    } else {
      LeadingBound(10, s);
      BigPowers();
      // Weight(n)^11 = (BASE^11)^n <= (10^106)^n <= 10^(11 k)
      PowMul(BASE, n, 11);
      PowMul(BASE, 11, n);
      PowLe(Pow(BASE, 11), Pow(10, 106), n);
      PowMul(10, 106, n);
      PowMonotone(10, 106 * n, k * 11);
      PowMul(10, k, 11);
      if Pow(10, k) < Weight(n) {
        PowLt(Pow(10, k), Weight(n), 11);
      }
      PowExponent(10, |s| - 1, k);
    }
  }

  /** A number of `d` decimal digits needs at most `1 + 8d/77` limbs. */
  lemma LimbSpace(s: seq<Word>, d: nat)
    requires Normal(s) && Val(s) < Pow(10, d)
    ensures |s| <= 1 + d * 8 / 77
  {
    hide Pow, Val;
    if s != [] {
      var n := |s| - 1;
      NormalBound(s);
      BigPowers();
      // (BASE^n)^77 < (10^d)^77 = (10^77)^d <= BASE^(8 d)
      PowLt(Weight(n), Pow(10, d), 77);
      PowMul(10, d, 77);
      PowMul(10, 77, d);
      PowLe(Pow(10, 77), Pow(BASE, 8), d);
      PowMul(BASE, 8, d);
      PowMul(BASE, n, 77);
      PowExponent(BASE, n * 77, 8 * d);
    }
  }
}
