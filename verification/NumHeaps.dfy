/** Binomial coefficients and the number of binary heaps, with a memo table. */
module NumHeaps {
  import opened Powers
  import opened Limbs
  import opened UnsignedIntegers

  // ----- binomial coefficients -----

  ghost function Choose(n: nat, k: nat): nat {
    if k == 0 then 1 else if n == 0 then 0 else Choose(n - 1, k - 1) + Choose(n - 1, k)
  }

  ghost function Factorial(n: nat): (f: nat)
    ensures f > 0
  {
    if n == 0 then 1 else n * Factorial(n - 1)
  }

  lemma {:induction false} ChooseNone(n: nat, k: nat)
    requires k > n
    ensures Choose(n, k) == 0
  {
    if n > 0 {
      ChooseNone(n - 1, k - 1);
      ChooseNone(n - 1, k);
    }
  }

  lemma ChooseEdges(n: nat)
    ensures Choose(n, 0) == 1 && Choose(n, n) == 1
    decreases n
  {
    if n > 0 {
      ChooseEdges(n - 1);
      ChooseNone(n - 1, n);
    }
  }

  lemma Pascal(n: nat, k: nat)
    ensures Choose(n + 1, k + 1) == Choose(n, k) + Choose(n, k + 1)
  {
  }

  /** The step of the product formula: the division is exact. */
  lemma {:induction false} ChooseStep(n: nat, k: nat)
    requires k < n
    ensures Choose(n, k) * (n - k) == Choose(n, k + 1) * (k + 1)
  {
    hide Choose;
    Pascal(n - 1, k);
    ChooseEdges(n - 1);
    ChooseEdges(n);
    if k == 0 {
      if n > 1 {
        ChooseStep(n - 1, 0);
      } else {
        ChooseNone(0, 1);
      }
    } else {
      Pascal(n - 1, k - 1);
      ChooseStep(n - 1, k - 1);
      var a, b, c := Choose(n - 1, k - 1), Choose(n - 1, k), Choose(n - 1, k + 1);
      if k < n - 1 {
        ChooseStep(n - 1, k);
      } else {
        ChooseNone(n - 1, n);
      }
      // a (n - k) = b k and b (n - 1 - k) = c (k + 1), so (a + b) (n - k) = (b + c) (k + 1)
      Distribute(n - k, a, b);
      Distribute(k + 1, b, c);
      Distribute(b, k, n - k);
      Distribute(b, n - 1 - k, 1);
      Distribute(b, k + 1, n - 1 - k);
      assert b * (n - k) == b * (n - 1 - k) + b;
      assert b * (k + 1) == b * k + b;
    }
  }

  lemma {:induction false} ChooseSymmetric(n: nat, k: nat)
    requires k <= n
    ensures Choose(n, k) == Choose(n, n - k)
    decreases n
  {
    hide Choose;
    ChooseEdges(n);
    if 0 < k < n {
      Pascal(n - 1, k - 1);
      Pascal(n - 1, n - k - 1);
      ChooseSymmetric(n - 1, k - 1);
      ChooseSymmetric(n - 1, k);
    }
  }

  lemma {:induction false} ChooseFactorials(n: nat, k: nat)
    requires k <= n
    ensures Choose(n, k) * Factorial(k) * Factorial(n - k) == Factorial(n)
    decreases k
  {
    hide Choose, Factorial;
    ChooseEdges(n);
    FactorialStep(0);
    if k > 0 {
      ChooseFactorials(n, k - 1);
      ChooseStep(n, k - 1);
      FactorialStep(k - 1);
      FactorialStep(n - k);
      var c, d, f, g := Choose(n, k), Choose(n, k - 1), Factorial(k - 1), Factorial(n - k);
      // c k = d (n - k + 1)
      MulAssoc(c, k, f);
      MulAssoc(d, n - k + 1, f);
      MulAssoc(d * f, n - k + 1, g);
      assert c * (k * f) == (d * f) * (n - k + 1);
    }
  }

  lemma FactorialStep(n: nat)
    ensures Factorial(0) == 1 && Factorial(n + 1) == (n + 1) * Factorial(n)
  {
  }

  method Combination(N: nat, M0: nat) returns (result: UnsignedInt)
    requires M0 <= N < 0x8000_0000
    ensures fresh(result) && Normal(result.limbs) && Val(result.limbs) == Choose(N, M0)
  {
    hide Val, Normal, Choose;
    var M := M0;
    ChooseSymmetric(N, M0);
    if M > N / 2 {
      M := N - M;
    }
    result := new UnsignedInt(1);
    ChooseEdges(N);
    for i := 1 to M + 1
      invariant fresh(result) && Normal(result.limbs) && Val(result.limbs) == Choose(N, i - 1)
    {
      ChooseStep(N, i - 1);
      result.MultiplyWord(N - i + 1);
      ghost var before := Val(result.limbs);
      var r := result.Devide(i);
      Exact(before, i, Val(result.limbs), r, Choose(N, i));
      assert r == 0;
    }
  }

  lemma Exact(v: nat, x: nat, q: nat, r: nat, c: nat)
    requires x > 0 && v == x * q + r && r < x && v == c * x
    ensures r == 0 && q == c
  {
    DivMod(x, q, r);
    DivMod(x, c, 0);
  }

  // ----- heaps -----

  function FloorLog(n: nat): (h: nat)
    requires n > 0
    ensures Pow(2, h) <= n < Pow(2, h + 1)
  {
    hide Pow;
    if n == 1 then
      PowSmall(2);
      0
    else
      var h := FloorLog(n / 2);
      LogStep(n, h);
      h + 1
  }

  lemma LogStep(n: nat, h: nat)
    requires Pow(2, h) <= n / 2 < Pow(2, h + 1)
    ensures Pow(2, h + 1) <= n < Pow(2, h + 2)
  {
    hide Pow;
    PowNext(2, h);
    PowNext(2, h + 1);
  }

  /** The number of nodes in the left subtree of the complete binary tree of `n` nodes. */
  function LeftSize(n: nat): (l: nat)
    requires n >= 2
    ensures l < n
  {
    var h := FloorLog(n);
    PowPositive(2, h);
    PowNext(2, h - 1);
    PowPositive(2, h - 1);
    if Pow(2, h) - 1 < n - Pow(2, h - 1) then Pow(2, h) - 1 else n - Pow(2, h - 1)
  }

  lemma ChoosePositive(n: nat, k: nat)
    requires k <= n
    ensures Choose(n, k) > 0
  {
    ChooseFactorials(n, k);
  }

  lemma PositiveProduct(x: nat, y: nat)
    requires x > 0 && y > 0
    ensures x * y > 0
  {
  }

  /** The number of ways to arrange `n` different keys as a heap of that shape. */
  ghost function Heaps(n: nat): (c: nat)
    ensures c > 0
  {
    if n < 2 then 1
    else
      hide LeftSize;
      var l := LeftSize(n);
      var a, b, c := Choose(n - 1, l), Heaps(l), Heaps(n - 1 - l);
      ChoosePositive(n - 1, l);
      PositiveProduct(a, b);
      PositiveProduct(a * b, c);
      a * b * c
  }

  lemma HeapsStep(n: nat)
    ensures n < 2 ==> Heaps(n) == 1
    ensures n >= 2 ==> var l := LeftSize(n); Heaps(n) == Choose(n - 1, l) * Heaps(l) * Heaps(n - 1 - l)
  {
  }

  /** The product of the sizes of all subtrees. */
  ghost function SubtreeProduct(n: nat): (p: nat)
    ensures p > 0
  {
    if n < 2 then 1
    else
      hide LeftSize;
      var l := LeftSize(n);
      var p, q := SubtreeProduct(l), SubtreeProduct(n - 1 - l);
      PositiveProduct(p, q);
      PositiveProduct(n, p * q);
      n * (p * q)
  }

  /** The hook length formula for the complete binary tree. */
  lemma {:induction false} HookFormula(n: nat)
    ensures Heaps(n) * SubtreeProduct(n) == Factorial(n)
  {
    HeapsStep(n);
    hide Heaps, Choose, LeftSize;
    FactorialStep(0);
    if n == 1 {
      FactorialStep(0);
    } else if n >= 2 {
      var l := LeftSize(n);
      var r := n - 1 - l;
      HookFormula(l);
      HookFormula(r);
      ChooseFactorials(n - 1, l);
      FactorialStep(n - 1);
      Hook(n, Choose(n - 1, l), Heaps(l), Heaps(r), SubtreeProduct(l), SubtreeProduct(r));
    }
  }

  lemma Hook(n: nat, c: nat, a: nat, b: nat, p: nat, q: nat)
    ensures (c * a * b) * (n * (p * q)) == n * (c * (a * p) * (b * q))
  {
    MulAssoc(c * a, b, n * (p * q));
    MulAssoc(c * a * b, n, p * q);
    assert (c * a * b) * (p * q) == c * (a * p) * (b * q) by {
      MulAssoc(c * a, b, p * q);
      MulAssoc(b, p, q);
      MulAssoc(c * a, p, b * q);
      MulAssoc(c, a, p);
      MulAssoc(p, b, q);
    }
    MulAssoc(n, c * a * b, p * q);
  }

  type Table = map<nat, seq<Word>>

  /** Up to `n` every number in the table is 0 or right. */
  ghost predicate Right(t: Table, n: int) {
    forall k :: k in t && k <= n && t[k] != [] ==> Normal(t[k]) && Val(t[k]) == Heaps(k)
  }

  /** Beyond `n` nothing changed, and up to it nothing but zeros. */
  ghost predicate Filled(t: Table, t': Table, n: int) {
    && (forall k :: k in t && (k > n || t[k] != []) ==> k in t' && t'[k] == t[k])
    && (forall k :: k in t' && k > n ==> k in t)
  }

  lemma FilledSet(t: Table, t': Table, k: nat, v: seq<Word>, n: int)
    requires Filled(t, t', n) && k <= n && (k !in t || t[k] == [])
    ensures Filled(t, t'[k := v], n)
  {
  }

  lemma FilledNext(t: Table, t': Table, t'': Table, m: int, n: int)
    requires Filled(t, t', n) && Filled(t', t'', m) && m <= n
    ensures Filled(t, t'', n)
  {
  }

  lemma FilledSelf(t: Table, n: int)
    ensures Filled(t, t, n)
  {
  }

  lemma FilledSmall(t: Table, t': Table, n: int)
    requires Filled(t, t', n) && 0 in t && 1 in t && t[0] != [] && t[1] != []
    ensures 0 in t' && 1 in t' && t'[0] != [] && t'[1] != []
  {
  }

  lemma RightSet(t: Table, k: nat, v: seq<Word>, n: int)
    requires Right(t, n) && (k > n || (Normal(v) && (v == [] || Val(v) == Heaps(k))))
    ensures Right(t[k := v], n)
  {
  }

  lemma RightFilled(t: Table, t': Table, m: int, n: int)
    requires Right(t, n) && Right(t', m) && Filled(t, t', m) && m <= n
    ensures Right(t', n)
  {
    forall k | k in t' && k <= n && t'[k] != []
      ensures Normal(t'[k]) && Val(t'[k]) == Heaps(k)
    {
      if k > m {
        assert k in t && t'[k] == t[k];
      }
    }
  }

  lemma RightEmpty(t: Table, k: nat, n: int)
    requires Right(t, n)
    ensures Right(t[k := []], n)
  {
  }

  lemma RightWeaken(t: Table, m: int, n: int)
    requires Right(t, n) && m <= n
    ensures Right(t, m)
  {
  }

  lemma RightMore(t: Table, n: nat)
    requires Right(t, n - 1) && n in t && Normal(t[n]) && Val(t[n]) == Heaps(n)
    ensures Right(t, n)
  {
  }

  lemma RightEntry(t: Table, n: nat)
    requires Right(t, n) && n in t && t[n] != []
    ensures Normal(t[n]) && Val(t[n]) == Heaps(n)
  {
  }

  class HeapTable {
    var table: Table

    constructor ()
      ensures forall n :: Right(table, n)
      ensures 0 in table && 1 in table && table[0] != [] && table[1] != []
    {
      HeapsStep(0);
      HeapsStep(1);
      ValOne(1);
      table := map[0 := [1], 1 := [1]];
    }

    /** The entry of `N` holds the product so far while the entries of smaller numbers are worked out. */
    method NumHeaps(N: nat) returns (result: seq<Word>)
      requires Right(table, N) && N < 0x8000_0000
      requires 0 in table && 1 in table && table[0] != [] && table[1] != []
      modifies this
      ensures Right(table, N) && N in table && table[N] == result
      ensures Normal(result) && Val(result) == Heaps(N)
      ensures Filled(old(table), table, N)
      decreases N, 1
    {
      hide Val, Normal, Heaps, Choose, LeftSize, Right, Filled;
      ghost var t0 := table;
      FilledSelf(t0, N);
      if N !in table {
        RightEmpty(table, N, N);
        FilledSet(t0, table, N, [], N);
        table := table[N := []];
      }
      if table[N] == [] {
        HeapsStep(N);
        ValOne(1);
        RightWeaken(table, N - 1, N);
        var left := LeftSize(N);
        var right := N - 1 - left;
        var u := Combination(N - 1, left);
        Put(N, u.limbs, t0);
        var l := NumSmaller(left, N, t0);
        u := Times(u.limbs, l);
        Put(N, u.limbs, t0);
        var r := NumSmaller(right, N, t0);
        u := Times(u.limbs, r);
        Put(N, u.limbs, t0);
        RightMore(table, N);
      }
      RightEntry(table, N);
      result := table[N];
    }

    method Put(N: nat, v: seq<Word>, ghost t0: Table)
      requires Right(table, N - 1) && Filled(t0, table, N) && (N !in t0 || t0[N] == [])
      modifies this
      ensures Right(table, N - 1) && Filled(t0, table, N) && table == old(table)[N := v]
    {
      RightSet(table, N, v, N - 1);
      FilledSet(t0, table, N, v, N);
      table := table[N := v];
    }

    /** A recursive call leaves the entry of `N` alone. */
    method NumSmaller(k: nat, N: nat, ghost t0: Table) returns (result: seq<Word>)
      requires k < N < 0x8000_0000 && Right(table, N - 1) && Filled(t0, table, N)
      requires 0 in t0 && 1 in t0 && t0[0] != [] && t0[1] != []
      modifies this
      ensures Right(table, N - 1) && Filled(t0, table, N)
      ensures Normal(result) && Val(result) == Heaps(k)
      decreases N, 0
    {
      hide Val, Normal, Heaps, Right, Filled;
      FilledSmall(t0, table, N);
      RightWeaken(table, k, N - 1);
      ghost var t := table;
      result := NumHeaps(k);
      RightFilled(t, table, k, N - 1);
      FilledNext(t0, t, table, k, N);
    }
  }

  method Times(x: seq<Word>, y: seq<Word>) returns (u: UnsignedInt)
    requires Normal(x) && Normal(y)
    ensures fresh(u) && Normal(u.limbs) && Val(u.limbs) == Val(x) * Val(y)
  {
    u := new UnsignedInt.Copy(x);
    var v := new UnsignedInt.Copy(y);
    u.Multiply(v);
  }
}
