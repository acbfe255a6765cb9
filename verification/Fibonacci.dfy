/** Four ways to compute Fibonacci numbers. */
module Fibonacci {
  import opened Ints
  import opened Powers
  import opened Limbs
  import opened Numerals
  import opened UnsignedIntegers

  ghost function Fib(n: nat): nat {
    if n < 2 then n else Fib(n - 2) + Fib(n - 1)
  }

  lemma FibNext(n: nat)
    ensures Fib(n + 2) == Fib(n) + Fib(n + 1) && Fib(0) == 0 && Fib(1) == 1
  {
  }

  /** The addition formula. */
  lemma {:induction false} FibAdd(m: nat, n: nat)
    ensures Fib(m + n + 1) == Fib(m + 1) * Fib(n + 1) + Fib(m) * Fib(n)
  {
    hide Fib;
    FibNext(0);
    if m == 0 {
    } else if m == 1 {
      FibNext(n);
    } else {
      FibAdd(m - 1, n);
      FibAdd(m - 2, n);
      FibNext(m - 2);
      FibNext(m - 1);
      FibNext(m + n - 1);
      var x, y := Fib(n + 1), Fib(n);
      Distribute(x, Fib(m - 1), Fib(m));
      Distribute(y, Fib(m - 2), Fib(m - 1));
    }
  }

  /** The three neighbours of the k-th Fibonacci number. */
  ghost predicate Around(n0: seq<Word>, n1: seq<Word>, n2: seq<Word>, k: nat) {
    && k > 0
    && Normal(n0) && Val(n0) == Fib(k - 1)
    && Normal(n1) && Val(n1) == Fib(k)
    && Normal(n2) && Val(n2) == Fib(k + 1)
  }

  lemma DoubleFib(k: nat)
    requires k > 0
    ensures (Fib(k + 1) + Fib(k - 1)) * Fib(k) == Fib(2 * k)
    ensures Fib(k + 1) * Fib(k + 1) + Fib(k) * Fib(k) == Fib(2 * k + 1)
    ensures Fib(k - 1) * Fib(k - 1) + Fib(k) * Fib(k) == Fib(2 * k - 1)
  {
    hide Fib;
    FibAdd(k, k);
    FibAdd(k - 1, k - 1);
    FibAdd(k, k - 1);
    assert k + (k - 1) + 1 == 2 * k && k - 1 + (k - 1) + 1 == 2 * k - 1;
    Distribute(Fib(k), Fib(k + 1), Fib(k - 1));
  }

  lemma AddFib(k: nat, j: nat)
    requires k > 0 && j > 0
    ensures Fib(k + 1) * Fib(j) + Fib(k) * Fib(j - 1) == Fib(k + j)
    ensures Fib(k + 1) * Fib(j + 1) + Fib(k) * Fib(j) == Fib(k + j + 1)
    ensures Fib(k - 1) * Fib(j - 1) + Fib(k) * Fib(j) == Fib(k + j - 1)
  {
    hide Fib;
    FibAdd(k, j);
    FibAdd(k - 1, j - 1);
    FibAdd(k, j - 1);
    assert k + (j - 1) + 1 == k + j && k - 1 + (j - 1) + 1 == k + j - 1;
  }

  /** Squares the matrix of Fibonacci numbers around the k-th. */
  method Square(n0: UnsignedInt, n1: UnsignedInt, n2: UnsignedInt, t: UnsignedInt, ghost k: nat)
    requires n0 != n1 && n0 != n2 && n0 != t && n1 != n2 && n1 != t && n2 != t
    requires Around(n0.limbs, n1.limbs, n2.limbs, k)
    modifies n0, n1, n2, t
    ensures Around(n0.limbs, n1.limbs, n2.limbs, 2 * k)
  {
    hide Val, Normal, Fib;
    DoubleFib(k);
    t.limbs := n2.limbs;
    t.Add(n0);
    t.Multiply(n1);

    n0.Multiply(n0);
    n1.Multiply(n1);
    n2.Multiply(n2);

    n2.Add(n1);
    n0.Add(n1);
    n1.Swap(t);
  }

  /** Moves from the k-th to the (k+j)-th number. */
  method Advance(n0: UnsignedInt, n1: UnsignedInt, n2: UnsignedInt, t0: UnsignedInt, t1: UnsignedInt, t2: UnsignedInt,
                 s1: UnsignedInt, s2: UnsignedInt, ghost k: nat, ghost j: nat)
    requires n0 != n1 && n0 != n2 && n1 != n2 && s1 != s2
    requires {s1, s2} !! {n0, n1, n2} && {t0, t1, t2} !! {n0, n1, n2, s1, s2}
    requires Around(n0.limbs, n1.limbs, n2.limbs, k) && Around(t0.limbs, t1.limbs, t2.limbs, j)
    modifies n0, n1, n2, s1, s2
    ensures Around(n0.limbs, n1.limbs, n2.limbs, k + j)
  {
    hide Val, Normal, Fib;
    AddFib(k, j);
    s1.limbs := n1.limbs;
    s1.Multiply(t0);

    s2.limbs := n2.limbs;
    s2.Multiply(t1);
    s2.Add(s1);

    n1.Multiply(t1);

    n2.Multiply(t2);
    n2.Add(n1);

    n0.Multiply(t0);
    n0.Add(n1);

    n1.Swap(s2);
  }

  lemma FirstFib(n0: seq<Word>, n1: seq<Word>, n2: seq<Word>)
    requires Normal(n0) && Val(n0) == 0 && Normal(n1) && Val(n1) == 1 && Normal(n2) && Val(n2) == 1
    ensures Around(n0, n1, n2, 1) && Fib(2) == 1
  {
    FibNext(0);
  }

  /** What the bits of `n` will still add when the matrix stands at `j`. */
  ghost function Ahead(j: nat, n: nat): nat {
    2 * j * n
  }

  lemma AheadOne(n: nat)
    ensures Ahead(1, n) == 2 * n
  {
  }

  lemma BitSplit(j: nat, n: nat)
    ensures Ahead(j, n) == Ahead(2 * j, n / 2) + (if n % 2 != 0 then 2 * j else 0)
    ensures Ahead(j, 0) == 0
  {
    assert n == 2 * (n / 2) + n % 2;
    Distribute(2 * j, 2 * (n / 2), n % 2);
    MulAssoc(2 * j, 2, n / 2);
  }

  /** The loop over the bits of `N` but the lowest, which is taken as set. */
  method Climb(n0: UnsignedInt, n1: UnsignedInt, n2: UnsignedInt, N: nat)
    requires n0 != n1 && n0 != n2 && n1 != n2
    requires Around(n0.limbs, n1.limbs, n2.limbs, 1)
    modifies n0, n1, n2
    ensures Around(n0.limbs, n1.limbs, n2.limbs, N / 2 * 2 + 1)
  {
    hide Val, Normal, Fib, Ahead, Around;
    var t0 := new UnsignedInt(0);
    var t1 := new UnsignedInt(1);
    var t2 := new UnsignedInt(1);
    var t3 := new UnsignedInt(0);
    var s1 := new UnsignedInt(0);
    var s2 := new UnsignedInt(0);
    FirstFib(t0.limbs, t1.limbs, t2.limbs);
    var n: nat := N / 2;
    AheadOne(n);
    ghost var k: nat := 1;
    ghost var j: nat := 1;
    while n > 0
      invariant Around(n0.limbs, n1.limbs, n2.limbs, k) && Around(t0.limbs, t1.limbs, t2.limbs, j)
      invariant k > 0 && j > 0 && Ahead(j, n) + k == N / 2 * 2 + 1
      decreases n
    {
      Square(t0, t1, t2, t3, j);
      BitSplit(j, n);
      j := 2 * j;
      if n % 2 != 0 {
        Advance(n0, n1, n2, t0, t1, t2, s1, s2, k, j);
        k := k + j;
      }
      n := n / 2;
    }
    BitSplit(j, 0);
  }

  /** Repeated squaring over the bits from the lowest up; for an even number the answer is one place before. */
  method FastFibonacci(N: nat) returns (s: string)
    ensures s == Numeral(10, Fib(N))
  {
    hide Val, Normal, Numeral, Fib;
    var n0 := new UnsignedInt(0);
    var n1 := new UnsignedInt(1);
    var n2 := new UnsignedInt(1);
    var result := n1;
    FirstFib(n0.limbs, n1.limbs, n2.limbs);
    FibNext(0);
    if N == 0 {
      result := n0;
    } else if N >= 3 {
      if N % 2 == 0 {
        result := n0;
      }
      Climb(n0, n1, n2, N);
    }
    s := result.ToDec();
  }

  /** Repeated squaring over the bits from the highest down; the shift of `bit` overflows for greater numbers. */
  method FasterFibonacci(N: nat) returns (s: string)
    requires N < 0x4000_0000
    ensures s == Numeral(10, Fib(N))
  {
    hide Val, Normal, Numeral, Fib;
    var n0 := new UnsignedInt(0);
    var n1 := new UnsignedInt(1);
    var n2 := new UnsignedInt(1);
    var result := n1;
    var t := new UnsignedInt(0);
    FirstFib(n0.limbs, n1.limbs, n2.limbs);
    FibNext(0);
    if N == 0 {
      result := n0;
    } else if N >= 3 {
      var bit := HighestBit(N);
      ghost var k: nat := 1;
      HalveBit(bit, N);
      bit := bit / 2;
      while bit > 0
        invariant bit > 0 ==> Binary(bit) && k == N / bit / 2
        invariant bit == 0 ==> k == N
        invariant Around(n0.limbs, n1.limbs, n2.limbs, k)
        decreases bit
      {
        Square(n0, n1, n2, t, k);
        k := 2 * k;
        if N / bit % 2 != 0 {
          FibNext(k);
          n0.Swap(n1);
          n1.limbs := n2.limbs;
          n2.Add(n0);
          k := k + 1;
        }
        HalveBit(bit, N);
        bit := bit / 2;
      }
    }
    s := result.ToDec();
  }

  ghost predicate Binary(bit: nat) {
    exists e: nat :: bit == Pow(2, e)
  }

  /** The greatest power of two that is not above `N`, which `int` can hold while it is doubled once too often. */
  method HighestBit(N: nat) returns (bit: nat)
    requires 3 <= N < 0x4000_0000
    ensures Binary(bit) && bit > 1 && N / bit == 1
  {
    hide Pow;
    bit := 1;
    ghost var e: nat := 0;
    PowSmall(2);
    while bit <= N
      invariant bit == Pow(2, e) && 0 < bit <= 2 * N && bit < 0x8000_0000 && (e == 0 ==> bit == 1)
      decreases 2 * N - bit
    {
      PowNext(2, e);
      bit := bit * 2;
      e := e + 1;
    }
    PowNext(2, e - 1);
    PowPositive(2, e - 1);
    bit := bit / 2;
    assert bit == Pow(2, e - 1);
    DivMod(bit, 1, N - bit);
  }

  /** Every power of two that the scan reaches, up to the first above `N`, fits in an `int` exactly below 2^30. */
  lemma ScanFits(N: nat)
    ensures (forall e: nat :: Pow(2, e) <= N ==> InInt(Pow(2, e + 1))) <==> N < 0x4000_0000
  {
    hide Pow;
    PowSmall(2);
    PowAdd(2, 1, 1);
    PowAdd(2, 2, 2);
    PowAdd(2, 4, 4);
    PowAdd(2, 8, 8);
    PowAdd(2, 16, 8);
    PowAdd(2, 24, 4);
    PowAdd(2, 28, 2);
    PowNext(2, 30);
    assert Pow(2, 30) == 0x4000_0000 && !InInt(Pow(2, 30 + 1));
    if N < 0x4000_0000 {
      forall e: nat | Pow(2, e) <= N
        ensures InInt(Pow(2, e + 1))
      {
        PowExponent(2, e, 30);
        PowMonotone(2, e + 1, 30);
        PowPositive(2, e + 1);
      }
    }
  }

  lemma HalveBit(bit: nat, N: nat)
    requires Binary(bit)
    ensures bit > 0 && N / bit == 2 * (N / bit / 2) + N / bit % 2
    ensures bit == 1 ==> N / bit == N && bit / 2 == 0
    ensures bit > 1 ==> bit / 2 > 0 && Binary(bit / 2) && N / bit == N / (bit / 2) / 2
  {
    hide Pow;
    var e: nat :| bit == Pow(2, e);
    PowPositive(2, e);
    PowSmall(2);
    if e > 0 {
      PowNext(2, e - 1);
      PowPositive(2, e - 1);
      HalfQuotient(N, Pow(2, e - 1));
    }
  }

  // ----- the memo table -----

  class FibTable {
    var cache: map<nat, seq<Word>>

    /** Every number in the table is right. */
    ghost predicate Valid()
      reads this
    {
      && 0 in cache && 1 in cache && 2 in cache
      && forall n :: n in cache ==> Normal(cache[n]) && Val(cache[n]) == Fib(n)
    }

    constructor (N: nat)
      ensures Valid() && N in cache
    {
      var zero := new UnsignedInt(0);
      var one := new UnsignedInt(1);
      var two := new UnsignedInt(1);
      cache := map[0 := zero.limbs, 1 := one.limbs, 2 := two.limbs];
      new;
      FibNext(0);
      Calc(N);
    }

    method Calc(N: nat)
      requires Valid()
      modifies this
      ensures Valid() && N in cache
      ensures forall n :: n in old(cache) ==> n in cache && cache[n] == old(cache)[n]
      decreases N
    {
      hide Val, Normal, Fib;
      if N !in cache {
        Calc(N / 2);
        Calc(N / 2 + 1);
        if N % 2 == 1 {
          var a := OddEntry(N / 2);
          cache := cache[N := a];
        } else {
          Calc(N / 2 - 1);
          var a := EvenEntry(N / 2);
          cache := cache[N := a];
        }
      }
    }

    method OddEntry(h: nat) returns (entry: seq<Word>)
      requires Valid() && h > 0 && h in cache && h + 1 in cache
      ensures Normal(entry) && Val(entry) == Fib(2 * h + 1)
    {
      hide Val, Normal, Fib;
      DoubleFib(h);
      var a := new UnsignedInt.Copy(cache[h]);
      a.Multiply(a);
      var b := new UnsignedInt.Copy(cache[h + 1]);
      b.Multiply(b);
      a.Add(b);
      entry := a.limbs;
    }

    method EvenEntry(h: nat) returns (entry: seq<Word>)
      requires Valid() && h > 0 && h - 1 in cache && h in cache && h + 1 in cache
      ensures Normal(entry) && Val(entry) == Fib(2 * h)
    {
      hide Val, Normal, Fib;
      DoubleFib(h);
      var a := new UnsignedInt.Copy(cache[h - 1]);
      var b := new UnsignedInt.Copy(cache[h + 1]);
      a.Add(b);
      var c := new UnsignedInt.Copy(cache[h]);
      a.Multiply(c);
      entry := a.limbs;
    }
  }

  /** Doubling with a memo table. */
  method FastestFibonacci(N: nat) returns (s: string)
    ensures s == Numeral(10, Fib(N))
  {
    var f := new FibTable(N);
    var result := new UnsignedInt.Copy(f.cache[N]);
    s := result.ToDec();
  }

  // ----- the iterator -----

  class FibonacciIterator {
    const fn: UnsignedInt
    const prev: UnsignedInt

    /** The iterator stands at the n-th number. */
    ghost predicate At(n: nat)
      reads this, fn, prev
    {
      fn != prev && n > 0 && Normal(fn.limbs) && Val(fn.limbs) == Fib(n) && Normal(prev.limbs)
        && Val(prev.limbs) == Fib(n - 1)
    }

    constructor ()
      ensures At(1) && fresh(fn) && fresh(prev)
    {
      fn := new UnsignedInt(1);
      prev := new UnsignedInt(0);
      new;
      FibNext(0);
    }

    method Next(ghost n: nat)
      requires At(n)
      modifies fn, prev
      ensures At(n + 1)
    {
      hide Val, Normal, Fib;
      FibNext(n - 1);
      prev.Swap(fn);
      fn.Add(prev);
    }
  }

  /** One addition after another. */
  method LinearFibonacci(N: nat) returns (s: string)
    ensures s == Numeral(10, Fib(N))
  {
    var iter := new FibonacciIterator();
    ghost var n: nat := 1;
    var i := 1;
    while i < N
      invariant n == i && (N > 0 ==> i <= N) && iter.At(n) && fresh(iter.fn) && fresh(iter.prev)
      decreases N - i
    {
      iter.Next(n);
      n := n + 1;
      i := i + 1;
    }
    if N == 0 {
      s := "0";
    } else {
      s := iter.fn.ToDec();
    }
  }
}
