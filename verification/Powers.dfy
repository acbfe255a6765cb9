/** Products, quotients and powers of natural numbers. */
module Powers {

  function Pow(b: nat, n: nat): nat {
    if n == 0 then 1 else b * Pow(b, n - 1)
  }

  lemma {:induction false} PowPositive(b: nat, n: nat)
    requires b > 0
    ensures Pow(b, n) > 0
  {
    if n > 0 {
      PowPositive(b, n - 1);
      assert b * Pow(b, n - 1) > 0;
    }
  }

  lemma PowSmall(b: nat)
    ensures Pow(b, 0) == 1 && Pow(b, 1) == b
  {
    assert Pow(b, 1) == b * Pow(b, 0);
  }

  lemma PowNext(b: nat, n: nat)
    ensures Pow(b, n + 1) == b * Pow(b, n)
  {
  }

  lemma MulAssoc(x: int, y: int, z: int)
    ensures (x * y) * z == x * (y * z) == (x * z) * y
  {
  }

  lemma Distribute(x: int, y: int, z: int)
    ensures x * (y + z) == x * y + x * z
  {
  }

  lemma MulLe(x: nat, y: nat, z: nat)
    requires y <= z
    ensures x * y <= x * z && y * x <= z * x
  {
  }

  lemma MulLt(x: nat, y: nat, z: nat)
    requires y < z && x > 0
    ensures x * y < x * z && y * x < z * x
  {
  }

  lemma {:induction false} PowAdd(b: nat, m: nat, n: nat)
    ensures Pow(b, m + n) == Pow(b, m) * Pow(b, n)
  {
    if m > 0 {
      PowAdd(b, m - 1, n);
      MulAssoc(b, Pow(b, m - 1), Pow(b, n));
    }
  }

  lemma {:induction false} PowMul(b: nat, m: nat, n: nat)
    ensures Pow(b, m * n) == Pow(Pow(b, m), n)
  {
    if n == 0 {
      assert m * n == 0;
    } else {
      PowMul(b, m, n - 1);
      assert m * n == m + m * (n - 1);
      PowAdd(b, m, m * (n - 1));
    }
  }

  lemma {:induction false} PowBase(b: nat, c: nat, n: nat)
    ensures Pow(b * c, n) == Pow(b, n) * Pow(c, n)
  {
    if n > 0 {
      PowBase(b, c, n - 1);
      var x, y := Pow(b, n - 1), Pow(c, n - 1);
      assert (b * c) * (x * y) == (b * x) * (c * y) by {
        MulAssoc(b, c, x * y);
        MulAssoc(b, x, c * y);
        MulAssoc(c, x, y);
        MulAssoc(x, c, y);
      }
    }
  }

  lemma {:induction false} PowLe(b: nat, c: nat, n: nat)
    requires b <= c
    ensures Pow(b, n) <= Pow(c, n)
  {
    if n > 0 {
      PowLe(b, c, n - 1);
      MulLe(b, Pow(b, n - 1), Pow(c, n - 1));
      MulLe(Pow(c, n - 1), b, c);
    }
  }

  lemma {:induction false} PowLt(b: nat, c: nat, n: nat)
    requires b < c && n > 0
    ensures Pow(b, n) < Pow(c, n)
  {
    PowLe(b, c, n - 1);
    PowPositive(c, n - 1);
    MulLe(b, Pow(b, n - 1), Pow(c, n - 1));
    MulLt(Pow(c, n - 1), b, c);
  }

  lemma {:induction false} PowMonotone(b: nat, m: nat, n: nat)
    requires b > 0 && m <= n
    ensures Pow(b, m) <= Pow(b, n)
  {
    PowAdd(b, m, n - m);
    PowPositive(b, n - m);
    MulLe(Pow(b, m), 1, Pow(b, n - m));
  }

  /** A smaller power has a smaller exponent. */
  lemma PowExponent(b: nat, m: nat, n: nat)
    requires b > 0 && Pow(b, m) < Pow(b, n)
    ensures m < n
  {
    if n <= m {
      PowMonotone(b, n, m);
    }
  }

  /** Quotient and remainder are the only ones. */
  lemma DivMod(b: nat, q: nat, r: nat)
    requires r < b
    ensures (b * q + r) / b == q && (b * q + r) % b == r
    ensures q > 0 ==> b * q + r >= b
  {
    if q > 0 {
      MulLe(b, 1, q);
    }
    var n := b * q + r;
    assert b * (n / b) + n % b == n;
    if n / b < q {
      MulLe(b, n / b + 1, q);
      Distribute(b, n / b, 1);
    } else if n / b > q {
      MulLe(b, q + 1, n / b);
      Distribute(b, q, 1);
    }
  }

  lemma TenToNine()
    ensures Pow(10, 0) == 1 && Pow(10, 9) == 1000000000
  {
    hide Pow;
    PowSmall(10);
    PowAdd(10, 1, 1);
    PowAdd(10, 2, 2);
    PowAdd(10, 4, 4);
    PowAdd(10, 8, 1);
  }
}
