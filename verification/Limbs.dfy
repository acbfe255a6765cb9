/** Little-endian sequences of 32-bit words and the natural numbers they stand for. */
module Limbs {
  import opened Powers

  const BASE := 0x1_0000_0000
  const MASK := 0xFFFF_FFFF
  const WIDE := 0x1_0000_0000_0000_0000

  type Word = x: nat | x < 0x1_0000_0000
  type DWord = x: nat | x < 0x1_0000_0000_0000_0000

  ghost function Val(s: seq<Word>): nat {
    if s == [] then 0 else s[0] + BASE * Val(s[1..])
  }

  ghost predicate Normal(s: seq<Word>) {
    s == [] || s[|s| - 1] != 0
  }

  /** The weight of the limb at position `n`. */
  ghost function Weight(n: nat): (p: nat)
    ensures p > 0
  {
    PowPositive(BASE, n);
    Pow(BASE, n)
  }

  lemma WeightStep(n: nat)
    ensures Weight(0) == 1 && Weight(n + 1) == BASE * Weight(n)
  {
  }

  lemma WeightAdd(m: nat, n: nat)
    ensures Weight(m + n) == Weight(m) * Weight(n)
  {
    PowAdd(BASE, m, n);
  }

  lemma {:induction false} ValConcat(s: seq<Word>, t: seq<Word>)
    ensures Val(s + t) == Val(s) + Weight(|s|) * Val(t)
  {
    if s == [] {
      assert s + t == t;
      WeightStep(0);
    } else {
      ValConcat(s[1..], t);
      assert (s + t)[1..] == s[1..] + t;
      WeightStep(|s| - 1);
      var w, v := Weight(|s| - 1), Val(t);
      assert BASE * (Val(s[1..]) + w * v) == BASE * Val(s[1..]) + (BASE * w) * v;
    }
  }

  lemma ValOne(w: Word)
    ensures Val([w]) == w && Val([]) == 0
  {
    assert [w][1..] == [];
  }

  lemma ValPush(s: seq<Word>, w: Word)
    ensures Val(s + [w]) == Val(s) + Weight(|s|) * w
  {
    ValConcat(s, [w]);
    ValOne(w);
  }

  lemma ValSplit(s: seq<Word>, i: nat)
    requires i <= |s|
    ensures Val(s) == Val(s[..i]) + Weight(i) * Val(s[i..])
  {
    assert s == s[..i] + s[i..];
    ValConcat(s[..i], s[i..]);
  }

  lemma ValNext(s: seq<Word>, i: nat)
    requires i < |s|
    ensures Val(s[..i + 1]) == Val(s[..i]) + Weight(i) * s[i]
    ensures Val(s[i..]) == s[i] + BASE * Val(s[i + 1..])
  {
    assert s[..i + 1] == s[..i] + [s[i]];
    ValPush(s[..i], s[i]);
    assert s[i..][1..] == s[i + 1..];
  }

  lemma ValSet(s: seq<Word>, k: nat, w: Word)
    requires k < |s|
    ensures Val(s[k := w]) + Weight(k) * s[k] == Val(s) + Weight(k) * w
  {
    hide Val, Weight;
    var t := s[k := w];
    ValSplit(s, k);
    ValSplit(t, k);
    assert t[..k] == s[..k];
    ValNext(s, k);
    ValNext(t, k);
    assert t[k + 1..] == s[k + 1..];
    var p, r := Weight(k), BASE * Val(s[k + 1..]);
    Distribute(p, s[k], r);
    Distribute(p, w, r);
  }

  function Zeros(n: nat): (s: seq<Word>)
    ensures |s| == n && forall i :: 0 <= i < n ==> s[i] == 0
  {
    if n == 0 then [] else [0] + Zeros(n - 1)
  }

  lemma {:induction false} ValZeros(s: seq<Word>)
    requires forall i :: 0 <= i < |s| ==> s[i] == 0
    ensures Val(s) == 0
  {
    if s != [] {
      ValZeros(s[1..]);
    }
  }

  lemma ValPad(s: seq<Word>, n: nat)
    ensures Val(s + Zeros(n)) == Val(s)
  {
    ValConcat(s, Zeros(n));
    ValZeros(Zeros(n));
  }

  lemma ValPop(s: seq<Word>)
    requires s != [] && s[|s| - 1] == 0
    ensures Val(s[..|s| - 1]) == Val(s)
  {
    ValNext(s, |s| - 1);
    assert s[..|s|] == s;
  }

  lemma {:induction false} ValBound(s: seq<Word>)
    ensures Val(s) < Weight(|s|)
  {
    if s == [] {
      WeightStep(0);
    } else {
      ValBound(s[1..]);
      WeightStep(|s| - 1);
      MulLe(BASE, Val(s[1..]) + 1, Weight(|s| - 1));
    }
  }

  /** A normal number is at least the weight of its highest limb. */
  lemma NormalBound(s: seq<Word>)
    requires s != [] && Normal(s)
    ensures Weight(|s| - 1) <= Val(s) && Val(s) > 0
  {
    var n := |s| - 1;
    ValNext(s, n);
    assert s[..n + 1] == s;
    MulLe(Weight(n), 1, s[n]);
  }

  lemma TopBound(s: seq<Word>)
    requires s != [] && Val(s) >= Weight(|s| - 1)
    ensures Normal(s)
  {
    if s[|s| - 1] == 0 {
      ValPop(s);
      ValBound(s[..|s| - 1]);
    }
  }

  /** Every number has just one normal form. */
  lemma {:induction false} NormalUnique(s: seq<Word>, t: seq<Word>)
    requires Normal(s) && Normal(t) && Val(s) == Val(t)
    ensures s == t
  {
    if s == [] {
      if t != [] {
        NormalBound(t);
      }
    } else if t == [] {
      NormalBound(s);
    } else {
      assert s[0] == t[0] && Val(s[1..]) == Val(t[1..]) by {
        assert s[0] == Val(s) % BASE && t[0] == Val(t) % BASE;
      }
      NormalUnique(s[1..], t[1..]);
      assert s == [s[0]] + s[1..] && t == [t[0]] + t[1..];
    }
  }

  /** Comparison of equally long numbers from the highest limb down. */
  predicate TopLess(s: seq<Word>, t: seq<Word>)
    requires |s| == |t|
  {
    s != [] &&
    var n := |s| - 1;
    s[n] < t[n] || (s[n] == t[n] && TopLess(s[..n], t[..n]))
  }

  /** Fewer limbs, or as many and less from the top. */
  predicate LessThan(s: seq<Word>, t: seq<Word>) {
    |t| > |s| || (|t| == |s| && TopLess(s, t))
  }

  lemma {:induction false} TopLessValue(s: seq<Word>, t: seq<Word>)
    requires |s| == |t|
    ensures TopLess(s, t) <==> Val(s) < Val(t)
  {
    if s == [] {
      assert t == [];
    } else {
      hide Val, Weight;
      var n := |s| - 1;
      assert s[..n + 1] == s && t[..n + 1] == t;
      ValNext(s, n);
      ValNext(t, n);
      TopLessValue(s[..n], t[..n]);
      ValBound(s[..n]);
      ValBound(t[..n]);
      var p := Weight(n);
      if s[n] < t[n] {
        MulLe(p, s[n] + 1, t[n]);
        Distribute(p, s[n], 1);
      } else if t[n] < s[n] {
        MulLe(p, t[n] + 1, s[n]);
        Distribute(p, t[n], 1);
      }
    }
  }

  /** On normal numbers the comparison of limbs is the comparison of values. */
  lemma LessThanValue(s: seq<Word>, t: seq<Word>)
    requires Normal(s) && Normal(t)
    ensures LessThan(s, t) <==> Val(s) < Val(t)
  {
    if |s| == |t| {
      TopLessValue(s, t);
    } else if |s| < |t| {
      LongerMore(s, t);
    } else {
      LongerMore(t, s);
    }
  }

  lemma LongerMore(s: seq<Word>, t: seq<Word>)
    requires Normal(t) && |s| < |t|
    ensures Val(s) < Val(t)
  {
    ValBound(s);
    NormalBound(t);
    PowMonotone(BASE, |s|, |t| - 1);
  }

  /** A sum of two digits and a carry is a digit and a carry, at any weight. */
  lemma Carry(p: nat, sum: nat)
    ensures p * (sum % BASE) + (BASE * p) * (sum / BASE) == p * sum
  {
    var q, r := sum / BASE, sum % BASE;
    assert sum == BASE * q + r;
    assert p * (BASE * q + r) == p * (BASE * q) + p * r;
    MulAssoc(p, BASE, q);
  }
}
