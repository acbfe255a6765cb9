/** Radix sort: stable counting passes over the decimal digits, from the lowest up. */
module RadixSort {
  import opened Ints
  import opened Powers
  import opened Sequences

  function Digit(x: int, exp: int): (d: int)
    requires x >= 0 && exp > 0
    ensures 0 <= d < 10
  {
    x / exp % 10
  }

  ghost predicate NonNegative(s: seq<int>) {
    forall i :: 0 <= i < |s| ==> s[i] >= 0
  }

  /** The elements with one digit, in their order. */
  ghost function Filter(s: seq<int>, exp: int, d: int): seq<int>
    requires NonNegative(s) && exp > 0
  {
    if s == [] then [] else (if Digit(s[0], exp) == d then [s[0]] else []) + Filter(s[1..], exp, d)
  }

  /** The elements with the digits below `k`, by digit, and those with the same digit in their order. */
  ghost function Buckets(s: seq<int>, exp: int, k: nat): seq<int>
    requires NonNegative(s) && exp > 0
  {
    if k == 0 then [] else Buckets(s, exp, k - 1) + Filter(s, exp, k - 1)
  }

  /** Where the bucket of digit `k` begins. */
  ghost function Start(s: seq<int>, exp: int, k: nat): nat
    requires NonNegative(s) && exp > 0
  {
    |Buckets(s, exp, k)|
  }

  // ----- what the buckets hold -----

  lemma FilterFirst(s: seq<int>, exp: int, d: int)
    requires NonNegative(s) && exp > 0 && s != []
    ensures Filter(s, exp, d) == (if Digit(s[0], exp) == d then [s[0]] else []) + Filter(s[1..], exp, d)
  {
  }

  lemma {:induction false} FilterPush(s: seq<int>, exp: int, d: int, x: int)
    requires NonNegative(s) && x >= 0 && exp > 0
    ensures Filter(s + [x], exp, d) == Filter(s, exp, d) + if Digit(x, exp) == d then [x] else []
  {
    hide Digit;
    if s == [] {
      assert s + [x] == [x];
      assert Filter([x][1..], exp, d) == [];
    } else {
      hide Filter;
      FilterPush(s[1..], exp, d, x);
      assert (s + [x])[1..] == s[1..] + [x];
      FilterFirst(s, exp, d);
      FilterFirst(s + [x], exp, d);
    }
  }

  lemma {:induction false} FilterMember(s: seq<int>, exp: int, d: int, i: nat)
    requires NonNegative(s) && exp > 0 && i < |Filter(s, exp, d)|
    ensures Filter(s, exp, d)[i] >= 0 && Digit(Filter(s, exp, d)[i], exp) == d
    ensures exists k :: 0 <= k < |s| && s[k] == Filter(s, exp, d)[i]
  {
    var f := Filter(s[1..], exp, d);
    if Digit(s[0], exp) == d {
      if i > 0 {
        FilterMember(s[1..], exp, d, i - 1);
        var k :| 0 <= k < |s[1..]| && s[1..][k] == f[i - 1];
        assert s[k + 1] == f[i - 1];
      }
    } else {
      FilterMember(s[1..], exp, d, i);
      var k :| 0 <= k < |s[1..]| && s[1..][k] == f[i];
      assert s[k + 1] == f[i];
    }
  }

  /** The digits below the one `exp` stands for. */
  ghost function Low(x: int, exp: int): int
    requires exp > 0
  {
    x % exp
  }

  /** In order by the lower digits. */
  ghost predicate SortedBelow(s: seq<int>, exp: int)
    requires exp > 0
  {
    forall i, j :: 0 <= i < j < |s| ==> Low(s[i], exp) <= Low(s[j], exp)
  }

  lemma {:induction false} FilterSorted(s: seq<int>, exp: int, d: int)
    requires NonNegative(s) && exp > 0 && SortedBelow(s, exp)
    ensures SortedBelow(Filter(s, exp, d), exp)
  {
    if s != [] {
      FilterSorted(s[1..], exp, d);
      var f := Filter(s[1..], exp, d);
      if Digit(s[0], exp) == d {
        forall j | 0 <= j < |f|
          ensures Low(s[0], exp) <= Low(f[j], exp)
        {
          FilterMember(s[1..], exp, d, j);
        }
      }
    }
  }

  lemma BucketsMember(s: seq<int>, exp: int, k: nat, i: nat) returns (d: nat)
    requires NonNegative(s) && exp > 0 && i < |Buckets(s, exp, k)|
    ensures d < k && Buckets(s, exp, k)[i] >= 0 && Digit(Buckets(s, exp, k)[i], exp) == d
  {
    var b := Buckets(s, exp, k - 1);
    if i < |b| {
      d := BucketsMember(s, exp, k - 1, i);
    } else {
      FilterMember(s, exp, k - 1, i - |b|);
      d := k - 1;
    }
  }

  /** The remainder by one more digit. */
  lemma DigitSplit(x: int, exp: int)
    requires x >= 0 && exp > 0
    ensures exp * 10 > 0 && Low(x, exp * 10) == Digit(x, exp) * exp + Low(x, exp) && 0 <= Low(x, exp) < exp
  {
    var q, r := x / exp, x % exp;
    assert x == exp * q + r;
    Regroup(exp, q / 10, q % 10, r);
    DivMod(exp * 10, q / 10, exp * (q % 10) + r);
  }

  lemma Regroup(exp: nat, h: nat, d: nat, r: nat)
    requires d < 10 && r < exp
    ensures exp * (10 * h + d) + r == (exp * 10) * h + (exp * d + r) && exp * d + r < exp * 10
  {
    Distribute(exp, 10 * h, d);
    MulAssoc(exp, 10, h);
    MulLe(exp, d, 9);
  }

  /** A stable pass over one digit puts in order by that digit and the lower ones. */
  lemma {:induction false} BucketsSorted(s: seq<int>, exp: int, k: nat)
    requires NonNegative(s) && exp > 0 && SortedBelow(s, exp) && exp * 10 > 0
    ensures SortedBelow(Buckets(s, exp, k), exp * 10)
  {
    if k > 0 {
      hide Digit, Low;
      BucketsSorted(s, exp, k - 1);
      FilterSorted(s, exp, k - 1);
      var all := Buckets(s, exp, k);
      forall i, j | 0 <= i < j < |all|
        ensures Low(all[i], exp * 10) <= Low(all[j], exp * 10)
      {
        if j >= |Buckets(s, exp, k - 1)| {
          BucketPair(s, exp, k, i, j);
        }
      }
    }
  }

  /** An element of the last bucket comes after those before it. */
  lemma BucketPair(s: seq<int>, exp: int, k: nat, i: nat, j: nat)
    requires NonNegative(s) && exp > 0 && exp * 10 > 0 && k > 0
    requires i < j < |Buckets(s, exp, k)| && j >= |Buckets(s, exp, k - 1)|
    requires SortedBelow(Filter(s, exp, k - 1), exp)
    ensures Low(Buckets(s, exp, k)[i], exp * 10) <= Low(Buckets(s, exp, k)[j], exp * 10)
  {
    hide Digit, Low, Filter, Buckets;
    BucketsStep(s, exp, k);
    var b, f := Buckets(s, exp, k - 1), Filter(s, exp, k - 1);
    FilterMember(s, exp, k - 1, j - |b|);
    if i >= |b| {
      FilterMember(s, exp, k - 1, i - |b|);
      DigitsOrder(f[i - |b|], f[j - |b|], exp);
    } else {
      var d := BucketsMember(s, exp, k - 1, i);
      DigitsOrder(b[i], f[j - |b|], exp);
    }
  }

  lemma BucketsStep(s: seq<int>, exp: int, k: nat)
    requires NonNegative(s) && exp > 0 && k > 0
    ensures Buckets(s, exp, k) == Buckets(s, exp, k - 1) + Filter(s, exp, k - 1)
  {
  }

  lemma DigitsOrder(x: int, y: int, exp: int)
    requires x >= 0 && y >= 0 && exp > 0 && exp * 10 > 0
    requires Digit(x, exp) < Digit(y, exp) || (Digit(x, exp) == Digit(y, exp) && Low(x, exp) <= Low(y, exp))
    ensures Low(x, exp * 10) <= Low(y, exp * 10)
  {
    hide Digit, Low;
    DigitSplit(x, exp);
    DigitSplit(y, exp);
    if Digit(x, exp) < Digit(y, exp) {
      LowerDigit(Digit(x, exp), Digit(y, exp), exp, Low(x, exp), Low(y, exp));
    }
  }

  lemma LowerDigit(d: nat, e: nat, exp: int, r: int, q: int)
    requires d < e && exp > 0 && 0 <= r < exp && 0 <= q
    ensures d * exp + r <= e * exp + q
  {
    MulLe(exp, d + 1, e);
    Distribute(exp, d, 1);
  }

  /** Every element goes to one bucket. */
  lemma {:induction false} BucketsBag(s: seq<int>, exp: int, k: nat)
    requires NonNegative(s) && exp > 0
    ensures s != [] ==>
              multiset(Buckets(s, exp, k)) ==
              multiset(Buckets(s[1..], exp, k)) + if Digit(s[0], exp) < k then multiset{s[0]} else multiset{}
    ensures s == [] ==> Buckets(s, exp, k) == []
  {
    hide Digit, Filter, Buckets;
    if k == 0 {
      NoBuckets(s, exp);
      if s != [] {
        NoBuckets(s[1..], exp);
      }
    } else {
      BucketsBag(s, exp, k - 1);
      FilterBag(s, exp, k - 1);
      BucketsStep(s, exp, k);
      if s != [] {
        BucketsStep(s[1..], exp, k);
        var x, d := multiset{s[0]}, Digit(s[0], exp);
        FourBags(multiset(Buckets(s[1..], exp, k - 1)), if d < k - 1 then x else multiset{},
                 multiset(Filter(s[1..], exp, k - 1)), if d == k - 1 then x else multiset{});
      }
    }
  }

  lemma NoBuckets(s: seq<int>, exp: int)
    requires NonNegative(s) && exp > 0
    ensures Buckets(s, exp, 0) == []
  {
  }

  lemma FourBags(a: multiset<int>, b: multiset<int>, c: multiset<int>, d: multiset<int>)
    ensures (a + b) + (c + d) == (a + c) + (b + d)
  {
  }

  lemma FilterBag(s: seq<int>, exp: int, d: int)
    requires NonNegative(s) && exp > 0
    ensures s != [] ==>
              multiset(Filter(s, exp, d)) ==
              multiset(Filter(s[1..], exp, d)) + if Digit(s[0], exp) == d then multiset{s[0]} else multiset{}
    ensures s == [] ==> Filter(s, exp, d) == []
  {
    hide Digit;
  }

  lemma BucketsNonNegative(s: seq<int>, exp: int, k: nat)
    requires NonNegative(s) && exp > 0
    ensures NonNegative(Buckets(s, exp, k))
  {
    forall i | 0 <= i < |Buckets(s, exp, k)|
      ensures Buckets(s, exp, k)[i] >= 0
    {
      var d := BucketsMember(s, exp, k, i);
    }
  }

  lemma {:induction false} BucketsPermutation(s: seq<int>, exp: int)
    requires NonNegative(s) && exp > 0
    ensures multiset(Buckets(s, exp, 10)) == multiset(s)
  {
    hide Buckets;
    BucketsBag(s, exp, 10);
    if s != [] {
      BucketsPermutation(s[1..], exp);
      assert s == [s[0]] + s[1..];
    }
  }

  // ----- the passes on the array -----

  lemma {:induction false} FilterSplit(s: seq<int>, exp: int, d: int, i: nat)
    requires NonNegative(s) && exp > 0 && i <= |s|
    ensures Filter(s, exp, d) == Filter(s[..i], exp, d) + Filter(s[i..], exp, d)
    decreases |s| - i
  {
    if i == |s| {
      assert s[..i] == s && s[i..] == [];
    } else {
      FilterSplit(s, exp, d, i + 1);
      assert s[..i + 1] == s[..i] + [s[i]];
      FilterPush(s[..i], exp, d, s[i]);
      assert s[i..][1..] == s[i + 1..];
    }
  }

  lemma {:induction false} StartsRise(s: seq<int>, exp: int, d: nat, e: nat)
    requires NonNegative(s) && exp > 0 && d <= e
    ensures Start(s, exp, d) <= Start(s, exp, e)
    ensures d < e ==> Start(s, exp, d) + |Filter(s, exp, d)| <= Start(s, exp, e)
    decreases e
  {
    if d < e {
      StartsRise(s, exp, d, e - 1);
    }
  }

  /** The part of bucket `d` that the elements from `i` on fill, from the end of the bucket down to `count`. */
  ghost predicate Filled(s: seq<int>, exp: int, output: seq<int>, count: int, i: nat, d: nat)
    requires NonNegative(s) && exp > 0 && i <= |s|
  {
    var f := Filter(s[i..], exp, d);
    && 0 <= count && count + |f| == Start(s, exp, d + 1) <= |output|
    && output[count..count + |f|] == f
  }

  ghost predicate Placed(s: seq<int>, exp: int, output: seq<int>, count: seq<int>, i: nat)
    requires NonNegative(s) && exp > 0 && i <= |s|
  {
    |count| == 10 && |output| == |s| && forall d :: 0 <= d < 10 ==> Filled(s, exp, output, count[d], i, d)
  }

  /** A bucket is filled within its bounds, and room is left for the next element. */
  lemma FilledWithin(s: seq<int>, exp: int, output: seq<int>, count: int, i: nat, d: nat)
    requires NonNegative(s) && exp > 0 && i < |s| && Filled(s, exp, output, count, i + 1, d)
    ensures Start(s, exp, d) + |Filter(s[i..], exp, d)| <= Start(s, exp, d + 1)
    ensures Filter(s[i..], exp, d) == (if Digit(s[i], exp) == d then [s[i]] else []) + Filter(s[i + 1..], exp, d)
    ensures Start(s, exp, d) + (if Digit(s[i], exp) == d then 1 else 0) <= count <= Start(s, exp, d + 1) <= |output|
  {
    hide Start, Buckets;
    assert s[i..][0] == s[i] && s[i..][1..] == s[i + 1..];
    FilterSplit(s, exp, d, i);
    StartEnd(s, exp, d);
  }

  lemma Kept(output: seq<int>, at: int, x: int, a: int, b: int)
    requires 0 <= at < |output| && 0 <= a <= b <= |output| && (at < a || b <= at)
    ensures output[at := x][a..b] == output[a..b]
  {
  }

  /** Taking the next place of its bucket leaves the other buckets alone. */
  lemma FilledOther(s: seq<int>, exp: int, output: seq<int>, count: seq<int>, i: nat, d: nat)
    requires NonNegative(s) && exp > 0 && i < |s| && d < 10 && Placed(s, exp, output, count, i + 1)
    ensures var k := Digit(s[i], exp); 0 < count[k] <= |output|
    ensures var k := Digit(s[i], exp);
            Filled(s, exp, output[count[k] - 1 := s[i]], if d == k then count[k] - 1 else count[d], i, d)
  {
    hide Start, Buckets, Filter;
    var k := Digit(s[i], exp);
    assert Filled(s, exp, output, count[k], i + 1, k) && Filled(s, exp, output, count[d], i + 1, d);
    FilledWithin(s, exp, output, count[k], i, k);
    FilledWithin(s, exp, output, count[d], i, d);
    var f := Filter(s[i + 1..], exp, d);
    if d == k {
      Kept(output, count[k] - 1, s[i], count[k], count[k] + |f|);
      assert output[count[k] - 1 := s[i]][count[k] - 1..count[k] + |f|] == [s[i]] + f;
    } else {
      if d < k {
        StartsRise(s, exp, d + 1, k);
      } else {
        StartsRise(s, exp, k + 1, d);
      }
      Kept(output, count[k] - 1, s[i], count[d], count[d] + |f|);
    }
  }

  lemma StartEnd(s: seq<int>, exp: int, d: nat)
    requires NonNegative(s) && exp > 0
    ensures Start(s, exp, d + 1) == Start(s, exp, d) + |Filter(s, exp, d)|
  {
  }

  lemma PlaceNext(s: seq<int>, exp: int, output: seq<int>, count: seq<int>, i: nat)
    requires NonNegative(s) && exp > 0 && i < |s| && Placed(s, exp, output, count, i + 1)
    ensures var k := Digit(s[i], exp);
            && 0 < count[k] <= |output|
            && Placed(s, exp, output[count[k] - 1 := s[i]], count[k := count[k] - 1], i)
  {
    hide Filled, Digit;
    FilledOther(s, exp, output, count, i, 0);
    var k := Digit(s[i], exp);
    var output', count' := output[count[k] - 1 := s[i]], count[k := count[k] - 1];
    forall d | 0 <= d < 10
      ensures Filled(s, exp, output', count'[d], i, d)
    {
      FilledOther(s, exp, output, count, i, d);
    }
  }

  lemma PlacedNone(s: seq<int>, exp: int, output: seq<int>, count: seq<int>)
    requires NonNegative(s) && exp > 0 && |output| == |s| && |count| == 10
    requires forall d :: 0 <= d < 10 ==> count[d] == Start(s, exp, d + 1)
    ensures Placed(s, exp, output, count, |s|)
  {
    hide Start;
    BucketsLength(s, exp);
    forall d | 0 <= d < 10
      ensures Filled(s, exp, output, count[d], |s|, d)
    {
      assert Filter(s[|s|..], exp, d) == [];
      StartsRise(s, exp, d + 1, 10);
    }
  }

  lemma BucketsLength(s: seq<int>, exp: int)
    requires NonNegative(s) && exp > 0
    ensures Start(s, exp, 10) == |s|
  {
    BucketsPermutation(s, exp);
    assert |multiset(s)| == |s| && |multiset(Buckets(s, exp, 10))| == |Buckets(s, exp, 10)|;
  }

  lemma {:induction false} PlacedAll(s: seq<int>, exp: int, output: seq<int>, count: seq<int>, k: nat)
    requires NonNegative(s) && exp > 0 && Placed(s, exp, output, count, 0) && k <= 10
    ensures Start(s, exp, k) <= |output| && output[..Start(s, exp, k)] == Buckets(s, exp, k)
    decreases k
  {
    if k > 0 {
      PlacedAll(s, exp, output, count, k - 1);
      assert Filled(s, exp, output, count[k - 1], 0, k - 1);
      assert s[0..] == s;
      var a, b := Start(s, exp, k - 1), Start(s, exp, k);
      assert output[..b] == output[..a] + output[a..b];
    }
  }

  /** Counts the digits and adds the counts up, to where each bucket ends. */
  method CountDigits(arr: array<Int32>, exp: int) returns (count: seq<int>)
    requires NonNegative(arr[..]) && exp > 0
    ensures |count| == 10 && forall d :: 0 <= d < 10 ==> count[d] == Start(arr[..], exp, d + 1)
  {
    hide Filter, Digit;
    ghost var s: seq<int> := arr[..];
    count := [0, 0, 0, 0, 0, 0, 0, 0, 0, 0];
    NoFilter(exp);
    for i := 0 to arr.Length
      invariant |count| == 10 && forall d :: 0 <= d < 10 ==> count[d] == |Filter(s[..i], exp, d)|
    {
      var digit := Digit(arr[i], exp);
      assert s[..i + 1] == s[..i] + [s[i]];
      forall d | 0 <= d < 10
        ensures Filter(s[..i + 1], exp, d) == Filter(s[..i], exp, d) + if digit == d then [s[i]] else []
      {
        FilterPush(s[..i], exp, d, s[i]);
      }
      count := count[digit := count[digit] + 1];
    }
    assert s[..arr.Length] == s;
    hide Start;
    StartEnd(s, exp, 0);
    StartNone(s, exp);
    for i := 1 to 10
      invariant |count| == 10
      invariant forall d :: 0 <= d < i ==> count[d] == Start(s, exp, d + 1)
      invariant forall d :: i <= d < 10 ==> count[d] == |Filter(s, exp, d)|
    {
      StartEnd(s, exp, i);
      count := count[i := count[i] + count[i - 1]];
    }
  }

  lemma StartNone(s: seq<int>, exp: int)
    requires NonNegative(s) && exp > 0
    ensures Start(s, exp, 0) == 0
  {
  }

  lemma NoFilter(exp: int)
    requires exp > 0
    ensures forall d :: Filter([], exp, d) == []
  {
  }

  /** One stable pass, from the back so that elements with the same digit keep their order. */
  method CountingSortForRadix(arr: array<Int32>, exp: int)
    requires NonNegative(arr[..]) && exp > 0
    modifies arr
    ensures arr[..] == Buckets(old(arr[..]), exp, 10)
  {
    hide Placed, Buckets, Digit, Start;
    ghost var s: seq<int> := arr[..];
    var n := arr.Length;
    var output := new Int32[n];
    var count := CountDigits(arr, exp);
    PlacedNone(s, exp, output[..], count);
    BucketsLength(s, exp);
    var i := n - 1;
    while i >= 0
      invariant -1 <= i < n && arr[..] == s && Placed(s, exp, output[..], count, i + 1)
      decreases i
    {
      var digit := Digit(arr[i], exp);
      CountTen(s, exp, output[..], count, i + 1);
      PlaceNext(s, exp, output[..], count, i);
      output[count[digit] - 1] := arr[i];
      count := count[digit := count[digit] - 1];
      i := i - 1;
    }
    PlacedAll(s, exp, output[..], count, 10);
    StartLength(s, exp, 10);
    for j := 0 to n
      invariant output[..] == Buckets(s, exp, 10) && arr[..j] == output[..j]
    {
      arr[j] := output[j];
    }
    assert arr[..n] == arr[..] && output[..n] == output[..];
  }

  lemma StartLength(s: seq<int>, exp: int, k: nat)
    requires NonNegative(s) && exp > 0
    ensures Start(s, exp, k) == |Buckets(s, exp, k)|
  {
  }

  lemma CountTen(s: seq<int>, exp: int, output: seq<int>, count: seq<int>, i: nat)
    requires NonNegative(s) && exp > 0 && i <= |s| && Placed(s, exp, output, count, i)
    ensures |count| == 10
  {
  }

  // ----- the whole sort -----

  ghost predicate Sorted(s: seq<int>) {
    forall i, j :: 0 <= i < j < |s| ==> s[i] <= s[j]
  }

  method Extremes(nums: array<Int32>) returns (least: Int32, greatest: Int32)
    requires nums.Length > 0
    ensures least in nums[..] && greatest in nums[..]
    ensures forall i :: 0 <= i < nums.Length ==> least <= nums[i] <= greatest
  {
    least, greatest := nums[0], nums[0];
    for i := 1 to nums.Length
      invariant least in nums[..] && greatest in nums[..]
      invariant forall j :: 0 <= j < i ==> least <= nums[j] <= greatest
    {
      if nums[i] < least {
        least := nums[i];
      }
      if nums[i] > greatest {
        greatest := nums[i];
      }
    }
  }

  ghost function Shifted(s: seq<int>, offset: int): (t: seq<int>)
    ensures |t| == |s| && forall i :: 0 <= i < |s| ==> t[i] == s[i] + offset
  {
    if s == [] then [] else [s[0] + offset] + Shifted(s[1..], offset)
  }

  method Shift(nums: array<Int32>, offset: int)
    requires forall i :: 0 <= i < nums.Length ==> InInt(nums[i] + offset)
    modifies nums
    ensures nums[..] == Shifted(old(nums[..]), offset)
  {
    for i := 0 to nums.Length
      invariant forall j :: 0 <= j < nums.Length ==> nums[j] == old(nums[j]) + if j < i then offset else 0
    {
      nums[i] := nums[i] + offset;
    }
  }

  lemma ShiftedWithout(s: seq<int>, offset: int, i: nat)
    requires i < |s|
    ensures multiset(Shifted(s, offset)) == multiset(Shifted(Without(s, i), offset)) + multiset{s[i] + offset}
  {
    hide Shifted, Without;
    assert Shifted(Without(s, i), offset) == Without(Shifted(s, offset), i);
    WithoutElement(Shifted(s, offset), i);
  }

  lemma WithoutSame(s: seq<int>, t: seq<int>, i: nat)
    requires multiset(s) == multiset(t) && s != [] && i < |t| && t[i] == s[0]
    ensures multiset(Without(s, 0)) == multiset(Without(t, i))
  {
    hide Without;
    WithoutElement(s, 0);
    WithoutElement(t, i);
    OneLess(multiset(Without(s, 0)), multiset(Without(t, i)), s[0]);
  }

  lemma {:induction false} ShiftedBag(s: seq<int>, t: seq<int>, offset: int)
    requires multiset(s) == multiset(t)
    ensures multiset(Shifted(s, offset)) == multiset(Shifted(t, offset))
    decreases |s|
  {
    hide Shifted, Without;
    assert |multiset(s)| == |s| && |multiset(t)| == |t|;
    if s == [] {
      assert t == [];
    } else {
      assert s[0] in multiset(t);
      var i: nat :| i < |t| && t[i] == s[0];
      WithoutSame(s, t, i);
      ShiftedBag(Without(s, 0), Without(t, i), offset);
      ShiftedWithout(s, offset, 0);
      ShiftedWithout(t, offset, i);
    }
  }

  lemma ShiftedBack(s: seq<int>, offset: int)
    ensures Shifted(Shifted(s, offset), -offset) == s && Shifted(s, 0) == s
  {
    hide Shifted;
  }

  /** The next power of ten still fits in an `int`. */
  lemma NextTen(e: nat)
    requires Pow(10, e) < 1000000000
    ensures Pow(10, e + 1) == Pow(10, e) * 10 <= 1000000000
  {
    TenToNine();
    PowExponent(10, e, 9);
    PowMonotone(10, e + 1, 9);
  }

  /** Passes over all the digits of the greatest number. */
  method SortDigits(nums: array<Int32>, maxVal: Int32)
    requires NonNegative(nums[..]) && maxVal < 1000000000
    requires forall i :: 0 <= i < nums.Length ==> nums[i] <= maxVal
    modifies nums
    ensures Sorted(nums[..]) && multiset(nums[..]) == multiset(old(nums[..]))
  {
    hide Buckets, Pow;
    ghost var t: seq<int> := nums[..];
    var exp: Int32 := 1;
    ghost var e: nat := 0;
    TenToNine();
    while maxVal / exp > 0
      invariant 0 < exp == Pow(10, e) && NonNegative(nums[..]) && SortedBelow(nums[..], exp)
      invariant multiset(nums[..]) == multiset(t)
      decreases maxVal - exp
    {
      ghost var before: seq<int> := nums[..];
      BelowMax(maxVal, exp);
      CountingSortForRadix(nums, exp);
      BucketsSorted(before, exp, 10);
      BucketsPermutation(before, exp);
      BucketsNonNegative(before, exp, 10);
      NextTen(e);
      exp := exp * 10;
      e := e + 1;
    }
    AllBelow(nums[..], t, maxVal);
    SortedAtLast(nums[..], exp, maxVal);
  }

  lemma BelowMax(maxVal: int, exp: int)
    requires exp > 0
    ensures maxVal / exp > 0 <==> exp <= maxVal
  {
  }

  lemma AllBelow(s: seq<int>, t: seq<int>, maxVal: int)
    requires multiset(s) == multiset(t) && forall i :: 0 <= i < |t| ==> t[i] <= maxVal
    ensures forall i :: 0 <= i < |s| ==> s[i] <= maxVal
  {
    forall i | 0 <= i < |s|
      ensures s[i] <= maxVal
    {
      assert s[i] in multiset(t);
      var j :| 0 <= j < |t| && t[j] == s[i];
    }
  }

  lemma SortedAtLast(s: seq<int>, exp: int, maxVal: int)
    requires exp > 0 && SortedBelow(s, exp) && NonNegative(s) && !(maxVal / exp > 0)
    requires forall i :: 0 <= i < |s| ==> s[i] <= maxVal
    ensures Sorted(s)
  {
    BelowMax(maxVal, exp);
    forall i | 0 <= i < |s|
      ensures Low(s[i], exp) == s[i]
    {
      DivMod(exp, 0, s[i]);
    }
  }

  // ----- what fits -----

  function Offset(least: int): int {
    if least < 0 then -least else 0
  }

  /** No element is the least `int`, and shifted to start at 0 the elements leave room for the last power of ten. */
  ghost predicate Sortable(s: seq<int>) {
    && (forall i :: 0 <= i < |s| ==> INT_MIN < s[i] < 1000000000)
    && (forall i, j :: 0 <= i < |s| && 0 <= j < |s| ==> s[i] - s[j] < 1000000000)
  }

  ghost predicate Bounds(s: seq<int>, least: int, greatest: int) {
    least in s && greatest in s && forall i :: 0 <= i < |s| ==> least <= s[i] <= greatest
  }

  /** All that the sort computes on the way: the offset, the shifted elements, and the powers of ten up to the first
      above the greatest of them. */
  ghost predicate StepsFit(s: seq<int>, offset: int, greatest: int) {
    && InInt(offset)
    && (forall i :: 0 <= i < |s| ==> InInt(s[i] + offset))
    && (forall e: nat :: Pow(10, e) <= greatest + offset ==> InInt(Pow(10, e + 1)))
  }

  /** The sort stays within `int` exactly on the sortable arrays. */
  lemma StepsFitSortable(s: seq<int>, least: int, greatest: int)
    requires Bounds(s, least, greatest) && forall i :: 0 <= i < |s| ==> InInt(s[i])
    ensures StepsFit(s, Offset(least), greatest) <==> Sortable(s)
  {
    hide Pow;
    TenToNine();
    if StepsFit(s, Offset(least), greatest) {
      assert Pow(10, 10) == 10 * Pow(10, 9) by {
        PowAdd(10, 9, 1);
        PowSmall(10);
      }
      assert !(Pow(10, 9) <= greatest + Offset(least));
    }
    if Sortable(s) {
      forall e: nat | Pow(10, e) <= greatest + Offset(least)
        ensures InInt(Pow(10, e + 1))
      {
        PowSmall(10);
        NextTen(e);
        PowPositive(10, e + 1);
      }
    }
  }

  /** With the least `int` in the array the offset wraps around to a negative number: these two elements are neither
      shifted nor passed over, and stay out of order. */
  lemma LeastElement()
    ensures var s, offset := [INT_MIN + 1, INT_MIN], Wrapped(Offset(INT_MIN));
            && Bounds(s, INT_MIN, INT_MIN + 1) && !Sortable(s) && !InInt(Offset(INT_MIN))
            && !(offset > 0) && !(s[0] / 1 > 0) && !Sorted(s)
  {
    var s := [INT_MIN + 1, INT_MIN];
    assert s[0] == INT_MIN + 1 && s[1] == INT_MIN;
  }

  lemma ShiftFits(s: seq<int>, least: int)
    requires Sortable(s) && least in s && forall i :: 0 <= i < |s| ==> least <= s[i]
    ensures InInt(Offset(least)) && forall i :: 0 <= i < |s| ==> 0 <= s[i] + Offset(least) < 1000000000
    ensures NonNegative(Shifted(s, Offset(least)))
            && forall i :: 0 <= i < |s| ==> Shifted(s, Offset(least))[i] < 1000000000
  {
    hide Shifted;
  }

  /** Numbers of either sign. */
  method RadixSort(nums: array<Int32>)
    requires Sortable(nums[..])
    modifies nums
    ensures Sorted(nums[..]) && multiset(nums[..]) == multiset(old(nums[..]))
  {
    hide Shifted, SortedBelow, Sorted, NonNegative, Sortable;
    if nums.Length == 0 {
      NoneSorted(nums[..]);
      return;
    }
    ghost var s: seq<int> := nums[..];
    var minVal, _ := Extremes(nums);
    ShiftFits(s, minVal);
    var offset: Int32 := if minVal < 0 then -minVal else 0;
    if offset > 0 {
      Shift(nums, offset);
    }
    ghost var t: seq<int> := nums[..];
    NotShifted(s);
    assert t == Shifted(s, offset);
    var _, maxVal := Extremes(nums);
    assert maxVal in t;
    SortDigits(nums, maxVal);
    ghost var u: seq<int> := nums[..];
    ShiftBack(s, t, u, offset);
    if offset > 0 {
      Shift(nums, -offset);
    } else {
      NotShifted(u);
    }
    assert nums[..] == Shifted(u, -offset);
  }

  lemma NoneSorted(s: seq<int>)
    requires s == []
    ensures Sorted(s)
  {
  }

  lemma NotShifted(s: seq<int>)
    ensures Shifted(s, 0) == s
  {
    ShiftedBack(s, 0);
  }

  /** Shifted back, the sorted elements are the old ones again, and sorted. */
  lemma ShiftBack(s: seq<int>, t: seq<int>, u: seq<int>, offset: int)
    requires Sorted(u) && multiset(u) == multiset(t) && t == Shifted(s, offset)
             && forall i :: 0 <= i < |s| ==> InInt(s[i])
    ensures forall i :: 0 <= i < |u| ==> InInt(u[i] + -offset)
    ensures Sorted(Shifted(u, -offset)) && multiset(Shifted(u, -offset)) == multiset(s)
  {
    hide Shifted;
    InRange(u, t, s, offset);
    ShiftedBag(u, t, -offset);
    ShiftedBack(s, offset);
  }

  /** Back from the shift the elements are the old ones again. */
  lemma InRange(u: seq<int>, t: seq<int>, s: seq<int>, offset: int)
    requires multiset(u) == multiset(t) && t == Shifted(s, offset) && forall i :: 0 <= i < |s| ==> InInt(s[i])
    ensures forall i :: 0 <= i < |u| ==> InInt(u[i] + -offset)
  {
    hide Shifted;
    forall i | 0 <= i < |u|
      ensures InInt(u[i] + -offset)
    {
      assert u[i] in multiset(t);
      var j :| 0 <= j < |t| && t[j] == u[i];
    }
  }
}
