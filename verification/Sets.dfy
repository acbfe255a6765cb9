/** Cardinality facts about finite sets that the counting proofs share. */
module Sets {

  lemma SomeMember<T>(s: set<T>) returns (x: T)
    requires s != {}
    ensures x in s
  {
    x :| x in s;
  }

  /** A bijection keeps the number of elements. */
  lemma {:induction false} BijectionSize<A(!new), B(!new)>(xs: set<A>, ys: set<B>, f: A -> B)
    requires forall x :: x in xs ==> f(x) in ys
    requires forall x, x' :: x in xs && x' in xs && f(x) == f(x') ==> x == x'
    requires forall y :: y in ys ==> exists x :: x in xs && f(x) == y
    ensures |xs| == |ys|
    decreases |xs|
  {
    if xs == {} {
      assert forall y :: y !in ys;
      assert ys == {};
    } else {
      var x :| x in xs;
      var xs', ys' := xs - {x}, ys - {f(x)};
      forall y | y in ys'
        ensures exists z :: z in xs' && f(z) == y
      {
        var z :| z in xs && f(z) == y;
        assert z in xs';
      }
      BijectionSize(xs', ys', f);
      assert |xs'| == |xs| - 1;
      assert |ys'| == |ys| - 1;
    }
  }

  /** A subset has no more elements, and only the whole set has as many. */
  lemma {:induction false} SubsetSize<A>(xs: set<A>, ys: set<A>)
    requires xs <= ys
    ensures |xs| <= |ys|
    ensures |xs| == |ys| ==> xs == ys
  {
    assert ys == xs + (ys - xs);
    assert |ys| == |xs| + |ys - xs|;
    if |xs| == |ys| {
      assert ys - xs == {};
    }
  }

  /** The numbers below `n`. */
  ghost function Below(n: nat): (s: set<nat>)
    ensures |s| == n
    ensures forall x: nat :: x in s <==> x < n
  {
    if n == 0 then {} else Below(n - 1) + {n - 1}
  }

  ghost predicate Distinct<T>(b: seq<T>) {
    forall i, j :: 0 <= i < j < |b| ==> b[i] != b[j]
  }

  ghost function Elements<T>(b: seq<T>): set<T> {
    set x | x in b
  }

  lemma {:induction false} DistinctSize<T>(b: seq<T>)
    requires Distinct(b)
    ensures |Elements(b)| == |b|
    decreases |b|
  {
    if b == [] {
      assert Elements(b) == {};
    } else {
      var k := |b| - 1;
      DistinctSize(b[..k]);
      assert b[k] !in b[..k];
      assert Elements(b) == Elements(b[..k]) + {b[k]};
    }
  }

  /** `n` different numbers below `n` are all of them. */
  lemma Pigeonhole(b: seq<nat>, v: nat)
    requires forall i :: 0 <= i < |b| ==> b[i] < |b|
    requires Distinct(b) && v < |b|
    ensures v in b
  {
    DistinctSize(b);
    assert Elements(b) <= Below(|b|);
    assert v in Below(|b|);
    SubsetSize(Elements(b), Below(|b|));
  }

  /** A sequence that holds as many different values as it is long has no repeats, and holds
      nothing else. */
  lemma FullElements<T>(b: seq<T>, want: set<T>)
    requires want <= Elements(b) && |want| == |b|
    ensures Distinct(b) && Elements(b) == want && forall i :: 0 <= i < |b| ==> b[i] in want
  {
    ElementsSize(b);
    SubsetSize(want, Elements(b));
  }

  lemma {:induction false} ElementsSize<T>(b: seq<T>)
    ensures |Elements(b)| <= |b|
    ensures |Elements(b)| == |b| ==> Distinct(b)
    decreases |b|
  {
    if b == [] {
      assert Elements(b) == {};
    } else {
      var k := |b| - 1;
      ElementsSize(b[..k]);
      assert Elements(b) == Elements(b[..k]) + {b[k]};
      if |Elements(b)| == |b| {
        assert b[k] !in b[..k];
      }
    }
  }
}
