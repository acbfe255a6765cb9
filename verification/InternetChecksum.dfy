/** The Internet checksum over 16-bit words, as in section 1 of RFC 1071. */
module InternetChecksum {
  import opened Ints

  type Word16 = x: nat | x < 0x1_0000

  /** As many words as an `int` can hold the sum of. */
  const MAX_WORDS := 32768

  ghost function Sum(data: seq<Word16>): nat {
    if data == [] then 0 else Sum(data[..|data| - 1]) + data[|data| - 1]
  }

  lemma {:induction false} SumBound(data: seq<Word16>)
    ensures Sum(data) <= 0xFFFF * |data|
  {
    if data != [] {
      SumBound(data[..|data| - 1]);
    }
  }

  function Full(n: nat): (data: seq<Word16>)
    ensures |data| == n
  {
    if n == 0 then [] else Full(n - 1) + [0xFFFF]
  }

  lemma {:induction false} FullSum(n: nat)
    ensures Sum(Full(n)) == 0xFFFF * n
  {
    if n > 0 {
      FullSum(n - 1);
      assert Full(n)[..n - 1] == Full(n - 1);
    }
  }

  /** The sum of any so many words fits in an `int` exactly up to the greatest number admitted. */
  lemma WordsFit(n: nat)
    ensures (forall data: seq<Word16> :: |data| == n ==> InInt(Sum(data))) <==> n <= MAX_WORDS
  {
    FullSum(n);
    forall data: seq<Word16> | |data| == n
      ensures Sum(data) <= 0xFFFF * n
    {
      SumBound(data);
    }
    assert |Full(n)| == n;
  }

  /** The sum with end-around carries: the remainder by 65535, where only a sum of 0 gives 0. */
  ghost function Folded(sum: nat): Word16 {
    if sum == 0 then 0 else if sum % 0xFFFF == 0 then 0xFFFF else sum % 0xFFFF
  }

  lemma FoldStep(sum: nat)
    requires sum > 0xFFFF
    ensures var next := sum % 0x1_0000 + sum / 0x1_0000;
            0 < next < sum && Folded(next) == Folded(sum)
  {
    var q, r := sum / 0x1_0000, sum % 0x1_0000;
    assert sum == 0x1_0000 * q + r;
    Congruent(q + r, q);
  }

  lemma Congruent(x: nat, q: nat)
    ensures (x + 0xFFFF * q) % 0xFFFF == x % 0xFFFF
    decreases q
  {
    if q > 0 {
      Congruent(x, q - 1);
      assert x + 0xFFFF * q == (x + 0xFFFF * (q - 1)) + 0xFFFF;
    }
  }

  method InChecksum(data: seq<Word16>) returns (checksum: Word16)
    requires |data| <= MAX_WORDS
    ensures checksum == 0xFFFF - Folded(Sum(data))
  {
    hide Folded;
    var sum: Int32 := 0;
    for i := 0 to |data|
      invariant sum == Sum(data[..i])
    {
      assert data[..i + 1][..i] == data[..i];
      SumBound(data[..i + 1]);
      sum := sum + data[i];
    }
    assert data[..|data|] == data;
    while sum / 0x1_0000 != 0
      invariant sum >= 0 && Folded(sum) == Folded(Sum(data))
      decreases sum
    {
      FoldStep(sum);
      sum := sum % 0x1_0000 + sum / 0x1_0000;
    }
    FoldedSmall(sum);
    checksum := 0xFFFF - sum;
  }

  lemma FoldedSmall(sum: nat)
    requires sum <= 0xFFFF
    ensures Folded(sum) == sum
  {
  }

  lemma {:induction false} SumChange(data: seq<Word16>, i: nat, x: Word16)
    requires i < |data|
    ensures Sum(data[i := x]) + data[i] == Sum(data) + x
  {
    var n := |data| - 1;
    if i < n {
      assert data[i := x][..n] == data[..n][i := x];
      SumChange(data[..n], i, x);
    } else {
      assert data[i := x][..n] == data[..n];
    }
  }

  /**
   * When the checksum of data with 0 in a word is put into that word, checking the data gives 0; and no other value
   * in that word does, but for the two ways to write zero.
   */
  lemma CheckGivesZero(data: seq<Word16>, i: nat, x: Word16)
    requires i < |data| && data[i] == 0
    ensures var c := 0xFFFF - Folded(Sum(data));
            && 0xFFFF - Folded(Sum(data[i := c])) == 0
            && (0xFFFF - Folded(Sum(data[i := x])) == 0 ==> x == c || (c % 0xFFFF == 0 && x % 0xFFFF == 0))
  {
    var c := 0xFFFF - Folded(Sum(data));
    SumChange(data, i, c);
    SumChange(data, i, x);
    var s := Sum(data);
  }

  /** The order of the words does not matter. */
  lemma {:induction false} SwapSum(data: seq<Word16>, i: nat, j: nat)
    requires i < |data| && j < |data|
    ensures Sum(data[i := data[j]][j := data[i]]) == Sum(data)
  {
    SumChange(data, i, data[j]);
    SumChange(data[i := data[j]], j, data[i]);
  }
}
