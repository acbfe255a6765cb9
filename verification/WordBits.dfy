/** Words of 32 bits as sets of bit positions. */
module WordBits {

  /** The word with bit `i` set; 0 once the bit is shifted out. */
  function OneBit(i: nat): bv32 {
    if i == 0 then 1 else Left(OneBit(i - 1))
  }

  predicate Bit(x: bv32, i: nat) {
    Meets(x, OneBit(i))
  }

  // The operators on words, named so that the proofs about positions need not look inside.

  predicate Meets(x: bv32, m: bv32) { x & m != 0 }
  predicate Single(m: bv32) { m & (m - 1) == 0 }
  function And(x: bv32, y: bv32): bv32 { x & y }
  function Or(x: bv32, y: bv32): bv32 { x | y }
  function Not(x: bv32): bv32 { !x }
  function Left(x: bv32): bv32 { x << 1 }
  function Right(x: bv32): bv32 { x >> 1 }
  function Pred(x: bv32): bv32 { x - 1 }

  lemma MeetsOr(x: bv32, y: bv32, m: bv32)
    ensures Meets(Or(x, y), m) <==> Meets(x, m) || Meets(y, m)
  {
    assert (x | y) & m == (x & m) | (y & m);
  }

  lemma SingleMeet(x: bv32, m: bv32)
    requires m & (m - 1) == 0
    ensures x & m == 0 || x & m == m
  {
  }

  lemma AndWord(x: bv32, y: bv32, m: bv32)
    ensures (x & y) & m == (x & m) & (y & m) && m & m == m && 0 & m == 0 && m & 0 == 0
  {
  }

  lemma MeetsAnd(x: bv32, y: bv32, m: bv32)
    requires Single(m) && m != 0
    ensures Meets(And(x, y), m) <==> Meets(x, m) && Meets(y, m)
  {
    SingleMeet(x, m);
    SingleMeet(y, m);
    AndWord(x, y, m);
  }

  lemma NotWord(x: bv32, m: bv32)
    ensures !x & m == m & !(x & m) && m & !m == 0 && m & !0 == m
  {
  }

  lemma MeetsNot(x: bv32, m: bv32)
    requires Single(m) && m != 0
    ensures Meets(Not(x), m) <==> !Meets(x, m)
  {
    SingleMeet(x, m);
    NotWord(x, m);
  }

  lemma MeetsRight(x: bv32, m: bv32)
    ensures Meets(Right(x), m) <==> Meets(x, Left(m))
  {
  }

  lemma MeetsLeft(x: bv32, m: bv32)
    requires Left(m) != 0 && Single(m)
    ensures Meets(Left(x), Left(m)) <==> Meets(x, m)
  {
  }

  lemma MeetsOne(x: bv32)
    ensures !Meets(Left(x), 1) && !Meets(1, Left(x)) && !Meets(x, 0) && !Meets(0, x)
    ensures Meets(x, x) <==> x != 0
  {
  }

  lemma MeetsShift(x: bv32, y: bv32)
    ensures !Meets(x, y) ==> !Meets(Left(x), Left(y))
  {
    ShiftWord(x, y);
  }

  lemma ShiftWord(x: bv32, y: bv32)
    ensures (x << 1) & (y << 1) == (x & y) << 1 && 0 as bv32 << 1 == 0
  {
  }

  lemma LeftSingle(m: bv32)
    ensures Single(1) && (Single(m) ==> Single(Left(m)))
    ensures Left(0) == 0
  {
  }

  lemma PredLeft(m: bv32)
    ensures Pred(Left(m)) == Or(Left(Pred(m)), 1) && Pred(1) == 0
  {
  }

  /** The lowest set bit of a word. */
  function Lowest(x: bv32): bv32 { x & !(x - 1) }

  lemma LowestOdd(x: bv32)
    requires Meets(x, 1)
    ensures Lowest(x) == 1
  {
  }

  lemma LowestEven(x: bv32)
    requires !Meets(x, 1) && x != 0
    ensures Right(x) != 0 && Right(x) < x && Lowest(x) == Left(Lowest(Right(x)))
  {
    EvenWord(x);
  }

  lemma EvenWord(x: bv32)
    requires x & 1 == 0 && x != 0
    ensures x >> 1 != 0 && x >> 1 < x
    ensures x & !(x - 1) == ((x >> 1) & !((x >> 1) - 1)) << 1
  {
  }

  lemma ClearLowest(x: bv32)
    requires x != 0
    ensures And(x, Pred(x)) == And(x, Not(Lowest(x))) && And(x, Pred(x)) < x
  {
  }

  lemma Powers()
    ensures Left(1) == 2 && Left(2) == 4 && Left(4) == 8 && Left(8) == 16
  {
  }

  // ------------------------------------------------------------------ positions

  lemma {:induction false} OneBitSingle(i: nat)
    ensures Single(OneBit(i))
  {
    hide Single, Left;
    if i == 0 {
      LeftSingle(1);
    } else {
      OneBitSingle(i - 1);
      LeftSingle(OneBit(i - 1));
    }
  }

  lemma {:induction false} OneBitLater(i: nat, k: nat)
    ensures OneBit(i + k) != 0 ==> OneBit(i) != 0
    decreases k
  {
    hide Left;
    if k > 0 {
      OneBitLater(i, k - 1);
      LeftSingle(0);
      assert OneBit(i + k) == Left(OneBit(i + k - 1));
    }
  }

  lemma OneBitLast()
    ensures OneBit(31) == 0x8000_0000 && OneBit(32) == 0
  {
    assert OneBit(8) == 0x100;
    assert OneBit(16) == 0x1_0000;
    assert OneBit(24) == 0x100_0000;
  }

  lemma OneBitInWord(i: nat)
    requires i < 32
    ensures OneBit(i) != 0
  {
    OneBitLast();
    hide OneBit;
    OneBitLater(i, 31 - i);
  }

  lemma {:induction false} OneBitGone(k: nat)
    ensures OneBit(32 + k) == 0
  {
    hide Left;
    OneBitLast();
    if k > 0 {
      OneBitGone(k - 1);
      LeftSingle(0);
    }
  }

  /** A word with one bit set has only that bit. */
  lemma {:induction false} BitOfOneBit(i: nat, j: nat)
    requires i < 32
    ensures Bit(OneBit(i), j) <==> i == j
    decreases j
  {
    hide Meets, Left;
    OneBitInWord(i);
    MeetsOne(OneBit(i));
    if i == j {
    } else if j >= 32 {
      OneBitGone(j - 32);
    } else if i == 0 {
      MeetsOne(OneBit(j - 1));
    } else if j == 0 {
      MeetsOne(OneBit(i - 1));
    } else {
      BitOfOneBit(i - 1, j - 1);
      MeetsShift(OneBit(i - 1), OneBit(j - 1));
    }
  }

  lemma BitOr(x: bv32, y: bv32, i: nat)
    ensures Bit(Or(x, y), i) <==> Bit(x, i) || Bit(y, i)
  {
    hide Meets, Or;
    MeetsOr(x, y, OneBit(i));
  }

  lemma BitAnd(x: bv32, y: bv32, i: nat)
    requires i < 32
    ensures Bit(And(x, y), i) <==> Bit(x, i) && Bit(y, i)
  {
    hide Meets, And, Single;
    OneBitInWord(i);
    OneBitSingle(i);
    MeetsAnd(x, y, OneBit(i));
  }

  lemma BitNot(x: bv32, i: nat)
    requires i < 32
    ensures Bit(Not(x), i) <==> !Bit(x, i)
  {
    hide Meets, Not, Single;
    OneBitInWord(i);
    OneBitSingle(i);
    MeetsNot(x, OneBit(i));
  }

  lemma BitRight(x: bv32, i: nat)
    ensures Bit(Right(x), i) <==> Bit(x, i + 1)
  {
    hide Meets, Right, Left;
    MeetsRight(x, OneBit(i));
  }

  lemma BitLeft(x: bv32, i: nat)
    requires i < 32
    ensures Bit(Left(x), i) <==> i > 0 && Bit(x, i - 1)
  {
    hide Meets, Left, Single;
    if i == 0 {
      MeetsOne(x);
    } else {
      OneBitInWord(i);
      OneBitSingle(i - 1);
      MeetsLeft(x, OneBit(i - 1));
    }
  }

  /** The `n` low bits. */
  lemma {:induction false} BitLow(n: nat, i: nat)
    requires i < 32
    ensures Bit(Pred(OneBit(n)), i) <==> i < n
    decreases n
  {
    hide Meets, Left, Pred, Or, Bit;
    PredLeft(if n == 0 then 0 else OneBit(n - 1));
    if n == 0 {
      BitZero(i);
    } else {
      var x := Pred(OneBit(n - 1));
      BitOr(Left(x), 1, i);
      BitOfOneBit(0, i);
      BitLeft(x, i);
      if i > 0 {
        BitLow(n - 1, i - 1);
      }
    }
  }

  lemma BitZero(i: nat)
    ensures !Bit(0, i)
  {
    hide Meets;
    MeetsOne(OneBit(i));
  }

  /** The number of trailing zero bits, which is the position of the lowest set bit. */
  function TrailingZeros(x: bv32): nat
    requires x != 0
    decreases x
  {
    if Meets(x, 1) then 0
    else
      LowestEven(x);
      1 + TrailingZeros(Right(x))
  }

  lemma {:induction false} TrailingZerosAt(x: bv32)
    requires x != 0
    ensures Bit(x, TrailingZeros(x)) && TrailingZeros(x) < 32
    ensures Lowest(x) == OneBit(TrailingZeros(x))
    decreases x
  {
    hide Meets, Left, Right, Lowest, Bit;
    if Meets(x, 1) {
      LowestOdd(x);
    } else {
      LowestEven(x);
      TrailingZerosAt(Right(x));
      BitRight(x, TrailingZeros(Right(x)));
      BitBounded(x, TrailingZeros(x));
    }
    BitHere(x);
  }

  lemma BitHere(x: bv32)
    ensures Bit(x, 0) <==> Meets(x, 1)
  {
  }

  lemma BitBounded(x: bv32, i: nat)
    requires Bit(x, i)
    ensures i < 32
  {
    hide Meets;
    if i >= 32 {
      OneBitGone(i - 32);
      MeetsOne(x);
    }
  }

  lemma {:induction false} TrailingZerosBelow(x: bv32, j: nat)
    requires x != 0 && j < TrailingZeros(x)
    ensures !Bit(x, j)
    decreases x
  {
    hide Meets, Left, Right, Bit;
    BitHere(x);
    LowestEven(x);
    if j > 0 {
      TrailingZerosBelow(Right(x), j - 1);
      BitRight(x, j - 1);
    }
  }

  /** Clearing the lowest set bit. */
  lemma BitClearLow(x: bv32, j: nat)
    requires x != 0 && j < 32
    ensures Bit(And(x, Pred(x)), j) <==> Bit(x, j) && j != TrailingZeros(x)
  {
    hide Meets, And, Pred, Not, Lowest, Bit, OneBit, TrailingZeros;
    ClearLowest(x);
    TrailingZerosAt(x);
    var m := OneBit(TrailingZeros(x));
    BitOfOneBit(TrailingZeros(x), j);
    BitNot(m, j);
    BitAnd(x, Not(m), j);
  }
}
