/** Reversing sequences and taking elements out. */
module Sequences {

  function Reversed<T>(s: seq<T>): (r: seq<T>)
    ensures |r| == |s|
  {
    if s == [] then [] else [s[|s| - 1]] + Reversed(s[..|s| - 1])
  }

  lemma {:induction false} ReversedMember<T>(s: seq<T>, x: T)
    ensures x in Reversed(s) <==> x in s
  {
    if s != [] {
      ReversedMember(s[..|s| - 1], x);
      assert s == s[..|s| - 1] + [s[|s| - 1]];
    }
  }

  /** `s` without its element at `i`. */
  function Without<T>(s: seq<T>, i: nat): (r: seq<T>)
    requires i < |s|
    ensures |r| == |s| - 1
    ensures forall k: nat :: k < i ==> r[k] == s[k]
    ensures forall k: nat :: i <= k < |r| ==> r[k] == s[k + 1]
  {
    s[..i] + s[i + 1..]
  }

  lemma WithoutElement<T>(s: seq<T>, i: nat)
    requires i < |s|
    ensures multiset(s) == multiset(Without(s, i)) + multiset{s[i]}
  {
    assert s == s[..i] + ([s[i]] + s[i + 1..]);
  }

  lemma TwoPlaces<T>(q: seq<T>, i: nat, j: nat)
    requires i < j < |q|
    ensures q[i] == q[j] ==> multiset(q)[q[i]] >= 2
  {
    WithoutElement(q, i);
    assert Without(q, i)[j - 1] == q[j];
    assert q[j] in multiset(Without(q, i));
  }

  lemma OneLess<T>(a: multiset<T>, b: multiset<T>, x: T)
    requires a + multiset{x} == b + multiset{x}
    ensures a == b
  {
    assert a == a + multiset{x} - multiset{x};
    assert b == b + multiset{x} - multiset{x};
  }

  ghost function Occurrences<T>(s: seq<T>, x: T): nat {
    if s == [] then 0 else Occurrences(s[..|s| - 1], x) + if s[|s| - 1] == x then 1 else 0
  }

  lemma OccurrencesPush<T>(s: seq<T>, x: T, y: T)
    ensures Occurrences(s + [x], y) == Occurrences(s, y) + if x == y then 1 else 0
    ensures Occurrences([], y) == 0
  {
    assert (s + [x])[..|s|] == s;
  }

  lemma {:induction false} OccurrencesConcat<T>(a: seq<T>, b: seq<T>, x: T)
    ensures Occurrences(a + b, x) == Occurrences(a, x) + Occurrences(b, x)
  {
    if b == [] {
      assert a + b == a;
    } else {
      var n := |b| - 1;
      OccurrencesConcat(a, b[..n], x);
      assert (a + b)[..|a + b| - 1] == a + b[..n];
    }
  }

  lemma {:induction false} OccurrencesMember<T>(s: seq<T>, x: T)
    ensures Occurrences(s, x) > 0 <==> x in s
  {
    if s != [] {
      var n := |s| - 1;
      OccurrencesMember(s[..n], x);
      assert s == s[..n] + [s[n]];
    }
  }
}
