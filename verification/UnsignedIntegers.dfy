/** Natural numbers of any size, held as 32-bit limbs and changed in place. */
module UnsignedIntegers {
  import opened Powers
  import opened Limbs
  import opened Numerals
  import opened Sequences

  // ----- one step of each loop -----

  lemma AddStep(s: seq<Word>, i: nat, b: nat, c: nat)
    requires i < |s|
    ensures var sum := s[i] + b + c;
            Val(s[i := sum % BASE]) + Weight(i + 1) * (sum / BASE) == Val(s) + Weight(i) * b + Weight(i) * c
  {
    hide Val, Weight;
    var sum := s[i] + b + c;
    ValSet(s, i, sum % BASE);
    WeightStep(i);
    Carry(Weight(i), sum);
    Distribute(Weight(i), s[i] + b, c);
    Distribute(Weight(i), s[i], b);
  }

  lemma SubStep(s: seq<Word>, i: nat, b: nat, c: nat, w: Word, c': nat)
    requires i < |s| && s[i] - b - c == w - BASE * c'
    ensures Val(s[i := w]) + Weight(i) * b + Weight(i) * c == Val(s) + Weight(i + 1) * c'
  {
    hide Val, Weight;
    ValSet(s, i, w);
    WeightStep(i);
    var p := Weight(i);
    assert p * s[i] + (BASE * p) * c' == p * w + p * b + p * c by {
      MulAssoc(p, BASE, c');
      Distribute(p, s[i], BASE * c');
      Distribute(p, w + b, c);
      Distribute(p, w, b);
    }
  }

  lemma MultiplyStep(s: seq<Word>, o: seq<Word>, i: nat, m: nat, c: nat)
    requires |s| == |o| && i < |s| && s[i..] == o[i..]
    requires Val(s[..i]) + Weight(i) * c == m * Val(o[..i])
    ensures var prod := s[i] * m + c; var t := s[i := prod % BASE];
            t[i + 1..] == o[i + 1..] && Val(t[..i + 1]) + Weight(i + 1) * (prod / BASE) == m * Val(o[..i + 1])
  {
    hide Val, Weight;
    var prod := s[i] * m + c;
    var t := s[i := prod % BASE];
    assert s[i] == o[i] && t[..i] == s[..i];
    ValNext(t, i);
    ValNext(o, i);
    WeightStep(i);
    Carry(Weight(i), prod);
    Distribute(Weight(i), o[i] * m, c);
    Distribute(m, Val(o[..i]), Weight(i) * o[i]);
    assert m * (Weight(i) * o[i]) == Weight(i) * (o[i] * m);
    SuffixTail(s, o, i, prod % BASE);
  }

  /** One product of the inner loop of the long multiplication: `d` is the multiplier's digit at place `i`. */
  lemma ProductStep(r: seq<Word>, l: seq<Word>, i: nat, j: nat, d: nat, c: nat, total: nat)
    requires j < |l| && i + j < |r|
    requires Val(r) + Weight(i + j) * c == total + Weight(i) * (d * Val(l[..j]))
    ensures var prod := d * l[j] + r[i + j] + c;
            Val(r[i + j := prod % BASE]) + Weight(i + j + 1) * (prod / BASE) ==
            total + Weight(i) * (d * Val(l[..j + 1]))
  {
    hide Val, Weight;
    AddStep(r, i + j, d * l[j], c);
    ValNext(l, j);
    WeightAdd(i, j);
    var p, q, v := Weight(i), Weight(j), Val(l[..j]);
    assert p * (d * (v + q * l[j])) == p * (d * v) + (p * q) * (d * l[j]) by {
      Distribute(d, v, q * l[j]);
      Distribute(p, d * v, d * (q * l[j]));
      assert d * (q * l[j]) == q * (d * l[j]);
      MulAssoc(p, q, d * l[j]);
    }
  }

  /** The product of two normal numbers needs all but at most one of the limbs set aside for it. */
  lemma ProductTop(r: seq<Word>, s: seq<Word>, t: seq<Word>)
    requires Normal(s) && Normal(t) && s != [] && t != []
    requires |r| == |s| + |t| && Val(r) == Val(s) * Val(t)
    ensures Normal(r) || Normal(r[..|r| - 1])
  {
    hide Val, Weight;
    var m, n := |s| - 1, |t| - 1;
    NormalBound(s);
    NormalBound(t);
    MulLe(Weight(m), Weight(n), Val(t));
    MulLe(Val(t), Weight(m), Val(s));
    WeightAdd(m, n);
    if !Normal(r) {
      ValPop(r);
      TopBound(r[..|r| - 1]);
    }
  }

  /** So does the quotient by a word. */
  lemma QuotientTop(q: seq<Word>, s: seq<Word>, x: Word, rem: nat)
    requires Normal(s) && s != [] && |q| == |s| && x > 0
    requires Val(s) == x * Val(q) + rem && rem < x
    ensures Normal(q) || Normal(q[..|q| - 1])
  {
    hide Val, Weight;
    var n := |s| - 1;
    NormalBound(s);
    if !Normal(q) && n > 0 {
      ValPop(q);
      if Val(q) < Weight(n - 1) {
        WeightStep(n - 1);
        MulLe(x, Val(q) + 1, Weight(n - 1));
        Distribute(x, Val(q), 1);
        MulLe(Weight(n - 1), x, BASE);
        assert false;
      }
      TopBound(q[..n]);
    }
  }

  lemma SumTop(s: seq<Word>, o: seq<Word>, r: seq<Word>)
    requires Normal(o) && Normal(r) && Val(s) >= Val(o) && Val(s) >= Val(r)
    requires |s| == |o| || |s| == |r|
    ensures Normal(s)
  {
    hide Val, Weight;
    if s != [] {
      NormalBound(if |s| == |o| then o else r);
      TopBound(s);
    }
  }

  lemma SuffixTail(s: seq<Word>, t: seq<Word>, i: nat, w: Word)
    requires |s| == |t| && i < |s| && s[i..] == t[i..]
    ensures s[i] == t[i] && s[i + 1..] == t[i + 1..] && s[i := w][i + 1..] == t[i + 1..]
  {
    assert s[i] == s[i..][0] && t[i] == t[i..][0];
    assert s[i + 1..] == s[i..][1..] && t[i + 1..] == t[i..][1..];
    assert s[i := w][i + 1..] == s[i + 1..];
  }

  class UnsignedInt {
    var limbs: seq<Word>

    constructor (x: Word)
      ensures Normal(limbs) && Val(limbs) == x
      ensures |limbs| <= 1
    {
      ValOne(x);
      limbs := if x > 0 then [x] else [];
    }

    /** The copy constructor. */
    constructor Copy(value: seq<Word>)
      ensures limbs == value
    {
      limbs := value;
    }

    constructor ParseDec(str: string)
      ensures AllDigits(10, str) ==> ParsedDec(str, limbs)
      ensures Normal(limbs) || limbs == [0]
    {
      limbs := [];
      new;
      hide Val, Value, Pow, Weight, FromHex, Normal;
      ghost var valid := AllDigits(10, str);
      NormalHere([]);
      NoValue();
      var segment := 1000000000;
      var first := |str| % 9;
      if first != 0 {
        var seg := ParseSegment(str[..first]);
        AddWord(seg);
        Tidy([], limbs, seg);
      } else {
        assert str[..first] == "";
      }
      var i := first;
      while i < |str|
        invariant first <= i <= |str| && (|str| - i) % 9 == 0
        invariant Normal(limbs) || limbs == [0]
        invariant limbs == [] <==> i == 0
        invariant valid ==> Val(limbs) == Value(10, str[..i])
        decreases |str| - i
      {
        var seg := ParseSegment(str[i..i + 9]);
        TenToNine();
        assert str[..i + 9] == str[..i] + str[i..i + 9];
        ValueConcat(10, str[..i], str[i..i + 9]);
        ghost var before := limbs;
        MultiplyWord(segment);
        Tidy(before, limbs, Val(limbs));
        ghost var between := limbs;
        AddWord(seg);
        Tidy(between, limbs, seg);
        i := i + 9;
      }
      assert str[..|str|] == str;
      if valid {
        ParsedSpace(str, limbs);
      }
    }

    constructor ParseHex(str: string)
      ensures AllDigits(16, str) ==> ParsedHex(str, limbs)
      ensures |limbs| <= (|str| + 7) / 8
    {
      limbs := [];
      new;
      hide Val, Value, Pow, Weight, FromHex, Normal, Or, ShiftLeft;
      ghost var valid := AllDigits(16, str);
      NoValue();
      assert str[|str|..] == "";
      for i := 0 to |str|
        invariant |limbs| == (i + 7) / 8
        invariant valid ==> Val(limbs) == Value(16, str[|str| - i..])
        invariant valid && i % 8 != 0 ==> limbs[i / 8] < Pow(16, i % 8)
      {
        if i % 8 == 0 {
          ValPush(limbs, 0);
          limbs := limbs + [0];
          PowPositive(16, 0);
        }
        var c := str[|str| - i - 1];
        var digit := FromHex(c);
        var shift := 4 * (i % 8);
        if valid {
          HexStep(limbs, str[|str| - i..], c, i);
          assert str[|str| - i - 1..] == [c] + str[|str| - i..];
        }
        OrWord(limbs[|limbs| - 1], ShiftLeft(digit, shift));
        limbs := limbs[|limbs| - 1 := Or(limbs[|limbs| - 1], ShiftLeft(digit, shift))];
      }
      assert str[0..] == str;
      ValOne(0);
      NormalHere(limbs);
      if valid {
        ParsedHexTop(str, limbs);
      }
      if |limbs| == 1 && limbs[0] == 0 {
        NormalHere([]);
        limbs := [];
      }
    }

    /** Arithmetic on words wraps around, as it does when a character is not a digit. */
    static method ParseSegment(str: string) returns (seg: Word)
      ensures AllDigits(10, str) && |str| <= 9 ==> seg == Value(10, str)
    {
      hide Pow, Value, FromHex, FromDec;
      seg := 0;
      NoValue();
      PowSmall(10);
      for i := 0 to |str|
        invariant AllDigits(10, str) && |str| <= 9 ==> seg == Value(10, str[..i]) < Pow(10, i)
      {
        if AllDigits(10, str) && |str| <= 9 {
          assert str[..i + 1] == str[..i] + [str[i]];
          ValuePush(10, str[..i], str[i]);
          SegmentStep(seg, str[i], i);
        }
        seg := (seg * 10) % BASE;
        seg := (seg + FromDec(str[i])) % BASE;
      }
      assert str[..|str|] == str;
    }

    method Swap(other: UnsignedInt)
      modifies this, other
      ensures limbs == old(other.limbs) && other.limbs == old(limbs)
    {
      limbs, other.limbs := other.limbs, limbs;
    }

    method Assign(x: Word)
      modifies this
      ensures Normal(limbs) && Val(limbs) == x
    {
      ValOne(x);
      limbs := if x == 0 then [] else [x];
    }

    /** The result is normal unless 0 is added to an empty number, which leaves one zero limb. */
    method AddWord(x: Word)
      modifies this
      ensures Val(limbs) == old(Val(limbs)) + x
      ensures old(Normal(limbs)) ==> (Normal(limbs) <==> x != 0 || old(limbs) != [])
      ensures limbs != [] && (|limbs| == |old(limbs)| || Normal(limbs) || limbs == [0])
      ensures |limbs| >= |old(limbs)|
    {
      hide Val, Weight;
      ghost var o := limbs;
      if limbs == [] {
        ValOne(x);
        limbs := [x];
        return;
      }
      var sum: DWord := limbs[0] + x;
      AddStep(limbs, 0, x, 0);
      WeightStep(0);
      limbs := limbs[0 := sum % BASE];
      var carry: DWord := if sum > MASK then 1 else 0;
      var i := 1;
      while i < |limbs| && carry != 0
        invariant 1 <= i <= |limbs| == |o| && carry <= 1
        invariant Val(limbs) + Weight(i) * carry == Val(o) + x
        decreases |limbs| - i
      {
        AddStep(limbs, i, 0, carry);
        sum := limbs[i] + carry;
        limbs := limbs[i := sum % BASE];
        carry := if sum > MASK then 1 else 0;
        i := i + 1;
      }
      if carry != 0 {
        ValPush(limbs, carry);
        limbs := limbs + [carry];
      } else if Normal(o) {
        SumTop(limbs, o, o);
      }
    }

    /** `x` may be this very number. */
    method Add(x: UnsignedInt)
      modifies this
      ensures Val(limbs) == old(Val(limbs)) + old(Val(x.limbs))
      ensures old(Normal(limbs)) && old(Normal(x.limbs)) ==> Normal(limbs)
    {
      hide Val, Weight, Normal, Zeros;
      ghost var o, r := limbs, x.limbs;
      if |x.limbs| > |limbs| {
        ValPad(limbs, |x.limbs| - |limbs|);
        limbs := limbs + Zeros(|x.limbs| - |limbs|);
      }
      ghost var n := |limbs|;
      var len := if |limbs| < |x.limbs| then |limbs| else |x.limbs|;
      var carry: DWord := 0;
      AddNothing(r);
      for i := 0 to len
        invariant |limbs| == n && carry <= 1 && |x.limbs| == |r| == len
        invariant x.limbs[i..] == r[i..]
        invariant Val(limbs) + Weight(i) * carry == Val(o) + Val(r[..i])
      {
        assert x.limbs[i] == r[i] by {
          assert x.limbs[i] == x.limbs[i..][0];
        }
        AddStep(limbs, i, r[i], carry);
        ValNext(r, i);
        var sum: DWord := limbs[i] + x.limbs[i] + carry;
        SuffixTail(x.limbs, r, i, sum % BASE);
        limbs := limbs[i := sum % BASE];
        carry := if sum > MASK then 1 else 0;
      }
      assert r[..len] == r;
      var i := len;
      while i < |limbs| && carry != 0
        invariant len <= i <= |limbs| == n && carry <= 1
        invariant Val(limbs) + Weight(i) * carry == Val(o) + Val(r)
        decreases |limbs| - i
      {
        AddStep(limbs, i, 0, carry);
        var sum: DWord := limbs[i] + carry;
        limbs := limbs[i := sum % BASE];
        carry := if sum > MASK then 1 else 0;
        i := i + 1;
      }
      if carry != 0 {
        ValPush(limbs, carry);
        limbs := limbs + [carry];
        NormalHere(limbs);
      } else if Normal(o) && Normal(r) {
        SumTop(limbs, o, r);
      }
    }

    /** False where the program aborts: `x` is greater, or has more limbs, which in normal form it then is. */
    method Sub(x: UnsignedInt) returns (ok: bool)
      modifies this
      ensures ok <==> old(Val(limbs)) >= old(Val(x.limbs)) && |old(x.limbs)| <= |old(limbs)|
      ensures old(Normal(limbs)) && old(Normal(x.limbs)) ==> (ok <==> old(Val(limbs)) >= old(Val(x.limbs)))
      ensures ok ==> Normal(limbs) && Val(limbs) == old(Val(limbs)) - old(Val(x.limbs))
    {
      hide Val, Weight, Normal, LessThan;
      ghost var o, r := limbs, x.limbs;
      NotLess(o, r);
      if Normal(o) && Normal(r) {
        LessThanValue(o, r);
      }
      if LessThan(limbs, x.limbs) {
        return false;
      }
      var len := if |limbs| < |x.limbs| then |limbs| else |x.limbs|;
      var carry: DWord := 0;
      AddNothing(r);
      for i := 0 to len
        invariant |limbs| == |o| && carry <= 1 && |x.limbs| == |r| == len
        invariant x.limbs[i..] == r[i..]
        invariant Val(limbs) + Val(r[..i]) == Val(o) + Weight(i) * carry
      {
        assert x.limbs[i] == r[i] by {
          assert x.limbs[i] == x.limbs[i..][0];
        }
        var sum: DWord := (limbs[i] - x.limbs[i] - carry) % WIDE;
        var borrow := if sum > MASK then 1 else 0;
        Borrow(limbs[i], r[i], carry);
        SubStep(limbs, i, r[i], carry, sum % BASE, borrow);
        ValNext(r, i);
        SuffixTail(x.limbs, r, i, sum % BASE);
        limbs := limbs[i := sum % BASE];
        carry := borrow;
      }
      assert r[..len] == r;
      var i := len;
      while i < |limbs| && carry != 0
        invariant len <= i <= |limbs| == |o| && carry <= 1
        invariant Val(limbs) + Val(r) == Val(o) + Weight(i) * carry
        decreases |limbs| - i
      {
        var sum: DWord := (limbs[i] - carry) % WIDE;
        var borrow := if sum > MASK then 1 else 0;
        Borrow(limbs[i], 0, carry);
        SubStep(limbs, i, 0, carry, sum % BASE, borrow);
        limbs := limbs[i := sum % BASE];
        carry := borrow;
        i := i + 1;
      }
      if carry != 0 {
        ValBound(limbs);
        return false;
      }
      while limbs != [] && limbs[|limbs| - 1] == 0
        invariant Val(limbs) + Val(r) == Val(o)
        decreases |limbs|
      {
        ValPop(limbs);
        limbs := limbs[..|limbs| - 1];
      }
      NormalHere(limbs);
      ok := true;
    }

    method MultiplyWord(x: Word)
      modifies this
      ensures Val(limbs) == old(Val(limbs)) * x
      ensures old(Normal(limbs)) ==> Normal(limbs)
      ensures x != 0 ==> |limbs| >= |old(limbs)| && (|limbs| == |old(limbs)| || Normal(limbs))
    {
      hide Val, Weight, Normal;
      ghost var o := limbs;
      var multiplier: DWord := x;
      if multiplier == 0 {
        ValOne(0);
        NormalHere([]);
        limbs := [];
        return;
      }
      var carry: DWord := 0;
      AddNothing(o);
      for i := 0 to |limbs|
        invariant |limbs| == |o| && carry < BASE
        invariant limbs[i..] == o[i..]
        invariant Val(limbs[..i]) + Weight(i) * carry == x * Val(o[..i])
      {
        MultiplyStep(limbs, o, i, x, carry);
        ProductFits(limbs[i], multiplier, 0, carry);
        var prod: DWord := limbs[i] * multiplier + carry;
        limbs := limbs[i := prod % BASE];
        carry := prod / 0x10000 / 0x10000;
      }
      assert limbs[..|o|] == limbs && o[..|o|] == o;
      if carry != 0 {
        ValPush(limbs, carry);
        limbs := limbs + [carry];
        NormalHere(limbs);
      } else if Normal(o) {
        MulLe(Val(o), 1, x);
        SumTop(limbs, o, o);
      }
    }

    /** `x` may be this very number. */
    method Multiply(x: UnsignedInt)
      modifies this
      ensures Val(limbs) == old(Val(limbs)) * old(Val(x.limbs))
      ensures old(Normal(limbs)) && old(Normal(x.limbs)) ==> Normal(limbs)
    {
      hide Val, Weight, Normal, Zeros;
      ghost var s, t := limbs, x.limbs;
      ValOne(0);
      NormalHere([]);
      if limbs == [] || x.limbs == [] {
        limbs := [];
        return;
      }
      var result := Zeros(|limbs| + |x.limbs|);
      ValZeros(result);
      AddNothing(t);
      for i := 0 to |x.limbs|
        invariant limbs == s && x.limbs == t && |result| == |s| + |t|
        invariant forall k :: i + |s| <= k < |result| ==> result[k] == 0
        invariant Val(result) == Val(s) * Val(t[..i])
      {
        ValNext(t, i);
        RowStep(Val(s), Val(t[..i]), Weight(i), t[i]);
        if x.limbs[i] != 0 {
          result := AddRow(result, i, x.limbs[i]);
        }
      }
      assert t[..|t|] == t;
      NormalHere(result);
      if Normal(s) && Normal(t) {
        ProductTop(result, s, t);
      }
      if result[|result| - 1] == 0 {
        ValPop(result);
        result := result[..|result| - 1];
      }
      limbs := result;
    }

    /** The inner loop of the long multiplication: the number times one digit, added in at that digit's place. */
    method AddRow(r: seq<Word>, i: nat, d: Word) returns (result: seq<Word>)
      requires |r| > i + |limbs| && forall k :: i + |limbs| <= k < |r| ==> r[k] == 0
      ensures |result| == |r| && forall k :: i + |limbs| < k < |r| ==> result[k] == 0
      ensures Val(result) == Val(r) + Weight(i) * (d * Val(limbs))
    {
      hide Val, Weight;
      result := r;
      var carry: DWord := 0;
      AddNothing(limbs);
      for j := 0 to |limbs|
        invariant |result| == |r| && carry < BASE
        invariant forall k :: i + |limbs| <= k < |r| ==> result[k] == 0
        invariant Val(result) + Weight(i + j) * carry == Val(r) + Weight(i) * (d * Val(limbs[..j]))
      {
        ProductStep(result, limbs, i, j, d, carry, Val(r));
        ProductFits(limbs[j], d, result[i + j], carry);
        var prod: DWord := d * limbs[j] + result[i + j] + carry;
        result := result[i + j := prod % BASE];
        carry := prod / 0x10000 / 0x10000;
      }
      assert limbs[..|limbs|] == limbs;
      ValSet(result, i + |limbs|, carry);
      result := result[i + |limbs| := carry];
    }

    /** Leaves the quotient and returns the remainder. */
    method Devide(x: Word) returns (rem: Word)
      requires x != 0 && (Normal(limbs) || limbs == [0])
      modifies this
      ensures Normal(limbs)
      ensures old(Val(limbs)) == x * Val(limbs) + rem && rem < x
      ensures |limbs| <= |old(limbs)|
    {
      hide Val, Weight, Normal;
      ghost var o := limbs;
      var carry: DWord := 0;
      var i := |limbs|;
      AddNothing(o);
      assert o[|o|..] == limbs[|o|..] == o[..0];
      while i > 0
        invariant 0 <= i <= |limbs| == |o| && carry < x
        invariant limbs[..i] == o[..i]
        invariant Val(o[i..]) == x * Val(limbs[i..]) + carry
        decreases i
      {
        PrefixHead(limbs, o, i);
        ShiftFits(carry, limbs[i - 1], x);
        var prod: DWord := carry * BASE;
        prod := prod + limbs[i - 1];
        DivideStep(o, limbs, i - 1, carry, x, prod / x, prod % x);
        limbs := limbs[i - 1 := prod / x];
        carry := prod % x;
        i := i - 1;
      }
      assert o[0..] == o && limbs[0..] == limbs;
      OnePop(limbs, o, x, carry);
      if limbs != [] && limbs[|limbs| - 1] == 0 {
        ValPop(limbs);
        limbs := limbs[..|limbs| - 1];
      }
      rem := carry;
    }

    method Power(n: Word)
      modifies this
      ensures Val(limbs) == Pow(old(Val(limbs)), n) && (old(Normal(limbs)) ==> Normal(limbs))
    {
      hide Val, Normal, Pow;
      ghost var b := Val(limbs);
      PowSmall(b);
      if n == 0 {
        Assign(1);
      } else if n > 1 {
        var result := new UnsignedInt(1);
        var k: nat := n;
        OneTimes(Pow(b, n));
        while k > 0
          invariant old(Normal(limbs)) ==> Normal(limbs) && Normal(result.limbs)
          invariant Val(result.limbs) * Pow(Val(limbs), k) == Pow(b, n)
          decreases k
        {
          SquareStep(Val(result.limbs), Val(limbs), k);
          if k % 2 == 1 {
            result.Multiply(this);
          }
          Multiply(this);
          k := k / 2;
        }
        PowSmall(Val(limbs));
        Swap(result);
      }
    }

    // ----- strings -----

    /** Pushes the nine lowest decimal digits of `x`, from the lowest up. */
    method PushSegment(r: string, x: Word, ghost rest: nat) returns (result: string)
      requires x < 1000000000
      ensures |result| == |r| + 9
      ensures Plain(10, r) ==> Plain(10, result)
      ensures LowValue(10, result) + Pow(10, |result|) * rest ==
              LowValue(10, r) + Pow(10, |r|) * (x + 1000000000 * rest)
    {
      hide LowValue, FromHex, Pow;
      var n: nat := x;
      result := r;
      TenToNine();
      for i := 0 to 9
        invariant |result| == |r| + i && n < Pow(10, 9 - i)
        invariant Plain(10, r) ==> Plain(10, result)
        invariant LowValue(10, result) + Pow(10, |result|) * (n + Pow(10, 9 - i) * rest) ==
                  LowValue(10, r) + Pow(10, |r|) * (x + 1000000000 * rest)
      {
        DigitStep(10, result, n, Pow(10, 8 - i) * rest);
        PowNext(10, 8 - i);
        MulAssoc(10, Pow(10, 8 - i), rest);
        var lsd := n % 10;
        n := n / 10;
        result := result + [DIGITS[lsd]];
      }
    }

    /** Pushes all the digits of `x`, at least one. */
    method PushRest(b: nat, r: string, x: Word) returns (result: string)
      requires b == 10 || b == 16
      ensures |result| > |r| && (Plain(b, r) ==> Plain(b, result))
      ensures LowValue(b, result) == LowValue(b, r) + Pow(b, |r|) * x
      ensures x != 0 ==> FromHex(result[|result| - 1]) != 0
      ensures x == 0 ==> |result| == |r| + 1
    {
      hide LowValue, FromHex, Pow;
      var n: nat;
      result, n := PushDigit(b, r, x);
      while n != 0
        invariant |result| > |r| && (Plain(b, r) ==> Plain(b, result))
        invariant LowValue(b, result) + Pow(b, |result|) * n == LowValue(b, r) + Pow(b, |r|) * x
        invariant x != 0 && n == 0 ==> FromHex(result[|result| - 1]) != 0
        invariant x == 0 ==> n == 0 && |result| == |r| + 1
        decreases n
      {
        result, n := PushDigit(b, result, n);
      }
    }

    /** Moves the lowest digit of `n` to the end of the digits. */
    method PushDigit(b: nat, r: string, n: nat) returns (result: string, left: nat)
      requires b == 10 || b == 16
      ensures |result| == |r| + 1 && (Plain(b, r) ==> Plain(b, result))
      ensures LowValue(b, result) + Pow(b, |result|) * left == LowValue(b, r) + Pow(b, |r|) * n
      ensures if n == 0 then left == 0 else left < n && (left == 0 ==> FromHex(result[|r|]) != 0)
    {
      hide LowValue, FromHex, Pow;
      DigitStep(b, r, n, 0);
      if b == 10 {
        result, left := r + [DIGITS[n % 10]], n / 10;
      } else {
        result, left := r + [DIGITS[n % 16]], n / 16;
      }
    }

    method ToDec() returns (s: string)
      requires Normal(limbs) || limbs == [0]
      ensures s == Numeral(10, Val(limbs))
      ensures limbs != [] ==> |s| <= 9 * |limbs| + 7 * |limbs| / 11 + 1
    {
      hide Val, LowValue, Pow, Numeral, Value, Canonical, FromHex, Weight;
      var segment := 1000000000;
      if limbs == [] {
        NumeralZero();
        return "0";
      }
      var result := "";
      var copy := new UnsignedInt.Copy(limbs);
      ghost var v := Val(limbs);
      NoDigits(10, v);
      while |copy.limbs| > 1
        invariant copy.limbs != [] && fresh(copy)
        invariant Normal(copy.limbs) || (copy.limbs == [0] && limbs == [0] && result == "")
        invariant Plain(10, result)
        invariant LowValue(10, result) + Pow(10, |result|) * Val(copy.limbs) == v
        decreases |copy.limbs|, Val(copy.limbs)
      {
        ghost var before := copy.limbs;
        var x := copy.Devide(segment);
        QuotientLeft(before, copy.limbs, x);
        result := PushSegment(result, x, Val(copy.limbs));
      }
      ValOne(copy.limbs[0]);
      assert copy.limbs == [copy.limbs[0]];
      result := PushRest(10, result, copy.limbs[0]);
      Printed(10, result, v);
      ValBound(limbs);
      DecimalSpace(v, |limbs|);
      return Reversed(result);
    }

    /** A number that is not normal is printed with leading zeros. */
    method ToHex() returns (s: string)
      ensures AllDigits(16, s) && Value(16, s) == Val(limbs)
      ensures Normal(limbs) || limbs == [0] ==> s == Numeral(16, Val(limbs))
      ensures s != "" && (limbs != [] ==> |s| <= 8 * |limbs|)
    {
      hide Val, LowValue, Pow, Numeral, Value, Canonical, FromHex, Weight;
      if limbs == [] {
        NumeralZero();
        return "0";
      }
      var result := "";
      var n := |limbs| - 1;
      AddNothing(limbs);
      NoDigits(16, 0);
      for i := 0 to n
        invariant |result| == 8 * i && Plain(16, result)
        invariant LowValue(16, result) == Val(limbs[..i])
      {
        ValNext(limbs, i);
        HexWeight(i);
        result := PushWord(result, limbs[i]);
      }
      HexWeight(n);
      ValNext(limbs, n);
      assert limbs[..n + 1] == limbs;
      assert Pow(16, |result|) * limbs[n] == Weight(n) * limbs[n];
      result := PushRest(16, result, limbs[n]);
      ReversedValue(16, result);
      ValBound(limbs);
      if limbs[n] != 0 {
        HexSpace(result, |limbs|);
      }
      NormalHere(limbs);
      if Normal(limbs) || limbs == [0] {
        Printed(16, result, Val(limbs));
      }
      return Reversed(result);
    }

    /** Pushes the eight hexadecimal digits of a limb, from the lowest up. */
    method PushWord(r: string, x: Word) returns (result: string)
      ensures |result| == |r| + 8
      ensures Plain(16, r) ==> Plain(16, result)
      ensures LowValue(16, result) == LowValue(16, r) + Pow(16, |r|) * x
    {
      hide LowValue, FromHex, Pow;
      var n: nat := x;
      result := r;
      EightPowers();
      for j := 0 to 8
        invariant |result| == |r| + j && n < Pow(16, 8 - j)
        invariant Plain(16, r) ==> Plain(16, result)
        invariant LowValue(16, result) + Pow(16, |result|) * n == LowValue(16, r) + Pow(16, |r|) * x
      {
        DigitStep(16, result, n, 0);
        PowNext(16, 7 - j);
        var lsd := n % 16;
        n := n / 16;
        result := result + [DIGITS[lsd]];
      }
    }
  }

  lemma EightPowers()
    ensures Pow(16, 8) == BASE && Pow(16, 0) == 1
  {
    hide Pow;
    PowSmall(16);
    PowAdd(16, 1, 1);
    PowAdd(16, 2, 2);
    PowAdd(16, 4, 4);
  }

  lemma HexWeight(i: nat)
    ensures Pow(16, 8 * i) == Weight(i)
  {
    hide Pow;
    EightPowers();
    PowMul(16, 8, i);
  }

  /** Moving the lowest digit of `n` from the rest of the number to the end of the digits. */
  lemma DigitStep(b: nat, r: string, n: nat, rest: nat)
    requires b == 10 || b == 16
    ensures var c := DIGITS[n % b]; var r' := r + [c];
            && FromHex(c) == n % b
            && (Plain(b, r) ==> Plain(b, r'))
            && LowValue(b, r') + Pow(b, |r'|) * (n / b + rest) == LowValue(b, r) + Pow(b, |r|) * (n + b * rest)
  {
    hide LowValue, FromHex, Pow;
    var q, d := n / b, n % b;
    assert n == b * q + d;
    var c := DIGITS[d];
    DigitsBack(d);
    PlainPush(b, r, c);
    LowPush(b, r, c);
    PowNext(b, |r|);
    MoveDigit(b, Pow(b, |r|), q, d, rest);
  }

  lemma PlainPush(b: nat, r: string, c: char)
    requires FromHex(c) < b && !('A' <= c <= 'F')
    ensures Plain(b, r) ==> Plain(b, r + [c])
  {
  }

  lemma MoveDigit(b: nat, p: nat, q: nat, d: nat, rest: nat)
    ensures p * d + (b * p) * (q + rest) == p * (b * q + d + b * rest)
  {
    Distribute(p, b * (q + rest), d);
    MulAssoc(b, p, q + rest);
    MulAssoc(p, b, q + rest);
    Distribute(b, q, rest);
  }

  lemma NumeralZero()
    ensures Numeral(10, Val([])) == "0" && Numeral(16, Val([])) == "0"
    ensures AllDigits(16, "0") && Value(16, "0") == Val([])
  {
    assert "0"[..0] == "";
  }

  lemma NoDigits(b: nat, v: nat)
    ensures LowValue(b, "") + Pow(b, |""|) * v == v && LowValue(b, "") == 0
  {
    assert Pow(b, 0) == 1;
  }

  lemma QuotientLeft(s: seq<Word>, q: seq<Word>, rem: nat)
    requires Normal(s) && Normal(q) && |s| > 1
    requires Val(s) == 1000000000 * Val(q) + rem && rem < 1000000000
    ensures q != [] && Val(q) < Val(s)
  {
    NormalBound(s);
    WeightStep(|s| - 2);
    MulLe(BASE, 1, Weight(|s| - 2));
  }

  /** A number below the weight of a further limb has no more than eight hexadecimal digits a limb. */
  lemma HexSpace(r: string, n: nat)
    requires r != "" && Plain(16, r) && FromHex(r[|r| - 1]) != 0 && LowValue(16, r) < Weight(n)
    ensures |r| <= 8 * n
  {
    hide LowValue, Value, Pow;
    ReversedValue(16, r);
    assert Reversed(r)[0] == r[|r| - 1];
    LeadingBound(16, Reversed(r));
    HexWeight(n);
    PowExponent(16, |r| - 1, 8 * n);
  }

  /** Digits from the lowest up whose last is not zero are a numeral reversed. */
  lemma Printed(b: nat, r: string, v: nat)
    requires b == 10 || b == 16
    requires r != "" && Plain(b, r) && LowValue(b, r) == v
    requires FromHex(r[|r| - 1]) != 0 || |r| == 1
    ensures Reversed(r) == Numeral(b, v)
  {
    hide LowValue, Value, Numeral;
    var s := Reversed(r);
    ReversedValue(b, r);
    forall i | 0 <= i < |s|
      ensures !('A' <= s[i] <= 'F')
    {
      assert s[i] in s;
      ReversedMember(r, s[i]);
    }
    assert s[0] == r[|r| - 1];
    CanonicalNumeral(b, s);
  }

  // ----- parsing -----

  /** What parsing a decimal string leaves: a normal number, but one zero limb for a string of zeros. */
  ghost predicate ParsedDec(str: string, limbs: seq<Word>) {
    && Val(limbs) == Value(10, str)
    && (Normal(limbs) || limbs == [0])
    && (Normal(limbs) <==> str == "" || Value(10, str) > 0)
    && |limbs| <= 1 + |str| * 8 / 77
  }

  /** What parsing a hexadecimal string leaves: a normal number unless the highest limb of several gets only zeros. */
  ghost predicate ParsedHex(str: string, limbs: seq<Word>) {
    && Val(limbs) == Value(16, str)
    && (Normal(limbs) <==> |str| <= 8 || Weight((|str| - 1) / 8) <= Value(16, str))
  }

  lemma NoValue()
    ensures Value(10, "") == 0 && Value(16, "") == 0 && Val([]) == 0
  {
  }

  /** Adding to or multiplying a normal number, or one zero limb, leaves such a number. */
  lemma Tidy(s: seq<Word>, t: seq<Word>, x: nat)
    requires Normal(s) || s == [0]
    requires |t| >= |s| && (|t| == |s| || Normal(t) || t == [0])
    requires s == [] ==> Val(t) == x && (Normal(t) || t == [0])
    requires Normal(s) && s != [] ==> Normal(t)
    ensures Normal(t) || t == [0]
  {
    if s == [0] && |t| == 1 {
      assert t == [t[0]];
    }
  }

  lemma ParsedSpace(str: string, limbs: seq<Word>)
    requires AllDigits(10, str) && Val(limbs) == Value(10, str) && (Normal(limbs) || limbs == [0])
    requires limbs == [] <==> str == ""
    ensures ParsedDec(str, limbs)
  {
    hide Val, Value, Pow, Weight;
    NoValue();
    ValOne(0);
    ValueBound(10, str);
    if Normal(limbs) {
      LimbSpace(limbs, |str|);
      if limbs != [] {
        NormalBound(limbs);
      }
    }
  }

  lemma SegmentStep(seg: Word, c: char, i: nat)
    requires seg < Pow(10, i) && i < 9 && FromHex(c) < 10
    ensures FromDec(c) == FromHex(c) && (seg * 10 % BASE + FromDec(c)) % BASE == 10 * seg + FromHex(c) < Pow(10, i + 1)
  {
    hide Pow;
    PowNext(10, i);
    PowMonotone(10, i + 1, 9);
    TenToNine();
  }

  /** Bitwise or. */
  function Or(x: nat, y: nat): nat {
    if x == 0 then y
    else if y == 0 then x
    else (if x % 2 == 1 || y % 2 == 1 then 1 else 0) + 2 * Or(x / 2, y / 2)
  }

  lemma {:induction false} OrDisjoint(x: nat, z: nat, k: nat)
    requires x < Pow(2, k)
    ensures Or(x, z * Pow(2, k)) == x + z * Pow(2, k)
  {
    if k > 0 {
      MulAssoc(2, z, Pow(2, k - 1));
      OrDisjoint(x / 2, z, k - 1);
    } else {
      assert x == 0;
    }
  }

  /** Shifting a word left drops the bits beyond the 32nd. */
  function ShiftLeft(x: Word, n: nat): Word
    decreases n
  {
    if n == 0 then x else ShiftLeft(2 * x % BASE, n - 1)
  }

  /** Or-ing in one bit adds it unless it is there. */
  lemma {:induction false} OrBit(x: nat, k: nat)
    ensures Pow(2, k) > 0 && Or(x, Pow(2, k)) == if x / Pow(2, k) % 2 == 1 then x else x + Pow(2, k)
    decreases k
  {
    PowPositive(2, k);
    if k > 0 {
      OrBit(x / 2, k - 1);
      PowNext(2, k - 1);
      HalfShift(x, Pow(2, k - 1));
    }
  }

  lemma HalfShift(x: nat, p: nat)
    requires p > 0
    ensures x / (2 * p) == x / 2 / p
  {
    var q, r := x / (2 * p), x % (2 * p);
    assert x == (2 * p) * q + r;
    MulAssoc(2, p, q);
    assert x / 2 == p * q + r / 2;
    DivMod(p, q, r / 2);
  }

  lemma {:induction false} OrBound(x: nat, y: nat, k: nat)
    requires x < Pow(2, k) && y < Pow(2, k)
    ensures Or(x, y) < Pow(2, k)
  {
    if k > 0 && x > 0 && y > 0 {
      OrBound(x / 2, y / 2, k - 1);
    }
  }

  lemma OrWord(x: Word, y: Word)
    ensures Or(x, y) < BASE
  {
    hide Pow, Or;
    BinaryPowers(8);
    EightPowers();
    OrBound(x, y, 32);
  }

  lemma BinaryPowers(e: nat)
    ensures Pow(2, 4 * e) == Pow(16, e)
  {
    hide Pow;
    PowSmall(2);
    PowAdd(2, 1, 1);
    PowAdd(2, 2, 2);
    PowMul(2, 4, e);
  }

  lemma DoubleFirst(x: nat, p: nat)
    ensures x * (2 * p) == (2 * x) * p
  {
  }

  lemma {:induction false} ShiftLeftValue(x: Word, n: nat)
    requires x * Pow(2, n) < BASE
    ensures ShiftLeft(x, n) == x * Pow(2, n)
    decreases n
  {
    hide Pow;
    PowSmall(2);
    if n > 0 {
      var p := Pow(2, n - 1);
      PowNext(2, n - 1);
      DoubleFirst(x, p);
      PowPositive(2, n - 1);
      MulLe(2 * x, 1, p);
      ShiftLeftValue(2 * x, n - 1);
    }
  }

  /** Putting the next higher digit of a limb in its place. */
  lemma HexDigit(top: Word, d: Word, e: nat)
    requires e < 8 && d < 16 && top < Pow(16, e)
    ensures Or(top, ShiftLeft(d, 4 * e)) == top + d * Pow(16, e) < Pow(16, e + 1)
  {
    hide Pow, Or, ShiftLeft;
    BinaryPowers(e);
    var p := Pow(16, e);
    PowNext(16, e);
    MulLe(p, d, 15);
    PowMonotone(16, e + 1, 8);
    EightPowers();
    ShiftLeftValue(d, 4 * e);
    OrDisjoint(top, d, 4 * e);
  }

  lemma HexStep(s: seq<Word>, t: string, c: char, i: nat)
    requires |t| == i && |s| == i / 8 + 1 && FromHex(c) < 16
    requires s[i / 8] < Pow(16, i % 8) && Val(s) == Value(16, t)
    ensures var x := Or(s[i / 8], ShiftLeft(FromHex(c), 4 * (i % 8)));
            x < BASE && x < Pow(16, i % 8 + 1) && Val(s[i / 8 := x]) == Value(16, [c] + t)
  {
    hide Pow, Or, ShiftLeft, Val, Value, Weight, FromHex;
    var k, e, d := i / 8, i % 8, FromHex(c);
    OrWord(s[k], ShiftLeft(d, 4 * e));
    HexDigit(s[k], d, e);
    var x := s[k] + d * Pow(16, e);
    ValSet(s, k, x);
    Distribute(Weight(k), s[k], d * Pow(16, e));
    HexWeight(k);
    PowAdd(16, 8 * k, e);
    MulAssoc(Weight(k), Pow(16, e), d);
    ValueConcat(16, [c], t);
    ValuePush(16, "", c);
    assert "" + [c] == [c];
  }

  lemma ParsedHexTop(str: string, limbs: seq<Word>)
    requires |limbs| == (|str| + 7) / 8 && Val(limbs) == Value(16, str)
    ensures |limbs| != 1 || limbs[0] != 0 ==> ParsedHex(str, limbs)
    ensures |limbs| == 1 && limbs[0] == 0 ==> ParsedHex(str, [])
  {
    hide Val, Value, Weight;
    if |limbs| >= 2 {
      assert |limbs| - 1 == (|str| - 1) / 8;
      if Normal(limbs) {
        NormalBound(limbs);
      }
      if Weight((|str| - 1) / 8) <= Value(16, str) {
        TopBound(limbs);
      }
    } else if |limbs| == 1 {
      ValOne(0);
      assert limbs == [limbs[0]];
    }
  }

  // ----- round trips -----

  /** Parsing what was printed gives back the same limbs, except that 0 becomes one zero limb. */
  lemma DecPrintParse(s: seq<Word>, t: seq<Word>)
    requires Normal(s) && ParsedDec(Numeral(10, Val(s)), t)
    ensures t == s <==> s != []
  {
    hide Val, Value, Numeral, Weight;
    NumeralValue(10, Val(s));
    if s != [] {
      NormalBound(s);
      NormalUnique(s, t);
    } else {
      NoValue();
    }
  }

  /** Printing what was parsed gives back the string exactly when it had no needless leading zero. */
  lemma DecParsePrint(str: string, t: seq<Word>)
    requires AllDigits(10, str) && ParsedDec(str, t)
    ensures Numeral(10, Val(t)) == str <==> str != "" && (str == "0" || str[0] != '0')
  {
    hide Val, Value, Numeral, Weight;
    NumeralValue(10, Val(t));
    if str != "" && (str == "0" || str[0] != '0') {
      CanonicalNumeral(10, str);
    }
  }

  lemma HexPrintParse(s: seq<Word>, t: seq<Word>)
    requires Normal(s) && ParsedHex(Numeral(16, Val(s)), t)
    ensures t == s
  {
    hide Val, Value, Numeral, Weight, Pow;
    var v := Val(s);
    var str := Numeral(16, v);
    NumeralValue(16, v);
    if v > 0 {
      LeadingBound(16, str);
      HexWeight((|str| - 1) / 8);
      PowMonotone(16, 8 * ((|str| - 1) / 8), |str| - 1);
    } else {
      HexZero();
    }
    NormalUnique(s, t);
  }

  lemma HexZero()
    ensures |Numeral(16, 0)| == 1
  {
  }

  /** In hexadecimal the string must also be in lower case. */
  lemma HexParsePrint(str: string, t: seq<Word>)
    requires AllDigits(16, str) && ParsedHex(str, t)
    ensures Numeral(16, Val(t)) == str <==> Canonical(16, str)
  {
    hide Val, Value, Numeral, Weight;
    NumeralValue(16, Val(t));
    if Canonical(16, str) {
      CanonicalNumeral(16, str);
    }
  }

  /** Without a needless leading zero the string is printed back in lower case. */
  lemma HexParseLower(str: string, t: seq<Word>)
    requires AllDigits(16, str) && ParsedHex(str, t)
    ensures Numeral(16, Val(t)) == Lower(str) <==> str != "" && (str == "0" || str[0] != '0')
  {
    hide Val, Value, Numeral, Weight, FromHex;
    NumeralValue(16, Val(t));
    LowerValue(16, str);
    LowerPlain(16, str);
    if str != "" && (str == "0" || str[0] != '0') {
      CanonicalNumeral(16, Lower(str));
    }
  }

  lemma NormalHere(s: seq<Word>)
    ensures Normal(s) <==> s == [] || s[|s| - 1] != 0
  {
  }

  /** After a division one zero limb at most is on top, if the number was normal or a single zero limb. */
  lemma OnePop(q: seq<Word>, o: seq<Word>, x: Word, rem: nat)
    requires (Normal(o) || o == [0]) && |q| == |o| && Val(o) == x * Val(q) + rem && rem < x
    ensures Normal(if q != [] && q[|q| - 1] == 0 then q[..|q| - 1] else q)
  {
    hide Val;
    NormalHere(q);
    if o == [0] {
      ValOne(0);
      ValOne(q[0]);
      assert q == [q[0]];
      if Val(q) > 0 {
        MulLe(x, 1, Val(q));
      }
      NormalHere(q[..0]);
    } else if o != [] {
      QuotientTop(q, o, x, rem);
    }
  }

  lemma NotLess(s: seq<Word>, t: seq<Word>)
    ensures !LessThan(s, t) ==> |t| <= |s|
    ensures LessThan(s, t) && |t| <= |s| ==> Val(s) < Val(t)
  {
    if |s| == |t| {
      TopLessValue(s, t);
    }
  }

  /** A product of two words and two more words fit in 64 bits. */
  lemma ProductFits(a: Word, b: Word, c: Word, d: Word)
    ensures a * b + c + d < WIDE && (a * b + c + d) / BASE < BASE
    ensures (a * b + c + d) / 0x10000 / 0x10000 == (a * b + c + d) / BASE
  {
    MulLe(a, b, MASK);
    MulLe(MASK, a, MASK);
  }

  lemma ShiftFits(carry: nat, w: Word, x: Word)
    requires carry < x
    ensures var y := carry * BASE + w; y < WIDE && y == x * (y / x) + y % x && y / x < BASE && y % x < x
  {
    var y := carry * BASE + w;
    assert y < x * BASE;
    if y / x >= BASE {
      MulLe(x, BASE, y / x);
    }
  }

  lemma PrefixHead(s: seq<Word>, o: seq<Word>, i: nat)
    requires 0 < i <= |s| == |o| && s[..i] == o[..i]
    ensures s[i - 1] == o[i - 1] && s[..i - 1] == o[..i - 1]
  {
    assert s[i - 1] == s[..i][i - 1] && o[i - 1] == o[..i][i - 1];
    assert s[..i - 1] == s[..i][..i - 1] && o[..i - 1] == o[..i][..i - 1];
  }

  lemma DivideStep(o: seq<Word>, s: seq<Word>, i: nat, carry: nat, x: nat, q: Word, r: nat)
    requires |s| == |o| && i < |o| && s[i] == o[i]
    requires Val(o[i + 1..]) == x * Val(s[i + 1..]) + carry
    requires carry * BASE + s[i] == x * q + r
    ensures Val(o[i..]) == x * Val(s[i := q][i..]) + r
  {
    hide Val;
    var t := s[i := q];
    ValNext(o, i);
    ValNext(t, i);
    assert t[i + 1..] == s[i + 1..];
    var v := Val(s[i + 1..]);
    Distribute(x, q, BASE * v);
    assert x * (BASE * v) == BASE * (x * v);
  }

  /** Subtraction of words modulo 2^64 tells the digit and whether to borrow. */
  lemma Borrow(l: Word, b: Word, c: nat)
    requires c <= 1
    ensures var sum := (l - b - c) % WIDE;
            l - b - c == sum % BASE - BASE * (if sum > MASK then 1 else 0)
  {
    var d := l - b - c;
    if d < 0 {
      assert d % WIDE == d + WIDE;
      assert d + WIDE == BASE * MASK + (d + BASE);
    }
  }

  lemma RowStep(s: nat, t: nat, p: nat, d: nat)
    ensures s * (t + p * d) == s * t + p * (d * s)
    ensures d == 0 ==> p * (d * s) == 0
  {
    Distribute(s, t, p * d);
    assert s * (p * d) == p * (d * s) by {
      MulAssoc(p, d, s);
    }
  }

  lemma OneTimes(x: nat)
    ensures 1 * x == x
  {
  }

  /** Squaring the base and halving the exponent. */
  lemma SquareStep(r: nat, b: nat, k: nat)
    requires k > 0
    ensures (if k % 2 == 1 then r * b else r) * Pow(b * b, k / 2) == r * Pow(b, k)
  {
    var h := k / 2;
    PowBase(b, b, h);
    PowAdd(b, h, h);
    if k % 2 == 1 {
      assert Pow(b, k) == b * Pow(b, h + h);
      MulAssoc(r, b, Pow(b, h + h));
    }
  }

  lemma AddNothing(r: seq<Word>)
    ensures Val(r[..0]) == 0
  {
  }
}
