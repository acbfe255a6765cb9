/** Weights with code lengths: what a binary code can afford, and what merging the two lightest weights costs. */
module CodeLengths {
  import opened Powers
  import opened Sequences

  function Pow2(n: nat): (p: nat)
    ensures p >= 1
  {
    PowPositive(2, n);
    Pow(2, n)
  }

  lemma SmallPowers()
    ensures Pow2(0) == 1 && Pow2(1) == 2
  {
  }

  ghost predicate AllBelow(l: seq<nat>, d: nat) {
    forall i :: 0 <= i < |l| ==> l[i] <= d
  }

  /** How many of the `Pow2(d)` bit strings of length `d` the codewords of lengths `l` use up. */
  ghost function Room(l: seq<nat>, d: nat): nat
    requires AllBelow(l, d)
  {
    if l == [] then 0 else Pow2(d - l[0]) + Room(l[1..], d)
  }

  /** The lengths satisfy Kraft's inequality. */
  ghost predicate Fits(l: seq<nat>, d: nat) {
    AllBelow(l, d) && Room(l, d) <= Pow2(d)
  }

  /** The total of weight times length. */
  ghost function Cost(w: seq<nat>, l: seq<nat>): nat
    requires |w| == |l|
  {
    if w == [] then 0 else w[0] * l[0] + Cost(w[1..], l[1..])
  }

  lemma {:induction false} RoomWithout(l: seq<nat>, i: nat, d: nat)
    requires i < |l| && AllBelow(l, d)
    ensures AllBelow(Without(l, i), d)
    ensures Room(l, d) == Pow2(d - l[i]) + Room(Without(l, i), d)
  {
    hide Pow2;
    if i == 0 {
      assert Without(l, 0) == l[1..];
    } else {
      RoomWithout(l[1..], i - 1, d);
      assert Without(l, i)[1..] == Without(l[1..], i - 1);
    }
  }

  lemma {:induction false} CostWithout(w: seq<nat>, l: seq<nat>, i: nat)
    requires |w| == |l| && i < |l|
    ensures Cost(w, l) == w[i] * l[i] + Cost(Without(w, i), Without(l, i))
  {
    if i == 0 {
      assert Without(l, 0) == l[1..];
      assert Without(w, 0) == w[1..];
    } else {
      CostWithout(w[1..], l[1..], i - 1);
      assert Without(l, i)[1..] == Without(l[1..], i - 1);
      assert Without(w, i)[1..] == Without(w[1..], i - 1);
    }
  }

  lemma Append(w: seq<nat>, l: seq<nat>, d: nat, x: nat, y: nat)
    requires |w| == |l| && AllBelow(l, d) && y <= d
    ensures AllBelow(l + [y], d)
    ensures Room(l + [y], d) == Room(l, d) + Pow2(d - y)
    ensures Cost(w + [x], l + [y]) == Cost(w, l) + x * y
  {
    hide Pow2, Room, Cost;
    RoomWithout(l + [y], |l|, d);
    CostWithout(w + [x], l + [y], |l|);
    assert Without(l + [y], |l|) == l;
    assert Without(w + [x], |l|) == w;
  }

  lemma Change(w: seq<nat>, l: seq<nat>, d: nat, i: nat, y: nat)
    requires |w| == |l| && AllBelow(l, d) && y <= d && i < |l|
    ensures AllBelow(l[i := y], d)
    ensures Room(l[i := y], d) + Pow2(d - l[i]) == Room(l, d) + Pow2(d - y)
    ensures Cost(w, l[i := y]) + w[i] * l[i] == Cost(w, l) + w[i] * y
  {
    hide Pow2, Room, Cost;
    assert Without(l[i := y], i) == Without(l, i);
    RoomWithout(l, i, d);
    RoomWithout(l[i := y], i, d);
    CostWithout(w, l, i);
    CostWithout(w, l[i := y], i);
  }

  lemma {:induction false} RoomHalved(l: seq<nat>, d: nat)
    requires d > 0 && AllBelow(l, d - 1)
    ensures AllBelow(l, d) && Room(l, d) == 2 * Room(l, d - 1)
  {
    if l != [] {
      RoomHalved(l[1..], d);
    }
  }

  /** Shortening a lone longest codeword keeps Kraft's inequality, so some code no dearer has two longest ones. */
  lemma {:induction false} TwoDeepest(w: seq<nat>, l: seq<nat>, d: nat) returns (l': seq<nat>, d': nat, i: nat, j: nat)
    requires |w| == |l| >= 2 && Fits(l, d)
    ensures |l'| == |l| && Fits(l', d') && d' > 0
    ensures i < |l| && j < |l| && i != j && l'[i] == l'[j] == d'
    ensures Cost(w, l') <= Cost(w, l)
    decreases d
  {
    hide Cost, Without;
    if d == 0 {
      assert false;
    } else if i', j' :| 0 <= i' < |l| && 0 <= j' < |l| && i' != j' && l[i'] == l[j'] == d {
      l', d', i, j := l, d, i', j';
    } else if k: nat :| k < |l| && l[k] == d {
      RoomWithout(l, k, d);
      RoomHalved(Without(l, k), d);
      Change(w, l, d, k, d - 1);
      var m := l[k := d - 1];
      RoomHalved(m, d);
      assert w[k] * (d - 1) <= w[k] * d;
      l', d', i, j := TwoDeepest(w, m, d - 1);
    } else {
      RoomHalved(l, d);
      l', d', i, j := TwoDeepest(w, l, d - 1);
    }
  }

  /** Giving the longest codeword to the lighter of two weights costs no more. */
  lemma Exchange(w: seq<nat>, l: seq<nat>, d: nat, a: nat, i: nat) returns (l': seq<nat>)
    requires |w| == |l| && Fits(l, d) && a < |l| && i < |l|
    requires l[i] == d && w[a] <= w[i]
    ensures |l'| == |l| && Fits(l', d) && l'[a] == d
    ensures forall k: nat :: k < |l| && k != a && k != i ==> l'[k] == l[k]
    ensures Cost(w, l') <= Cost(w, l)
  {
    hide Pow2, Room, Cost;
    var m := l[a := d];
    Change(w, l, d, a, d);
    Change(w, m, d, i, l[a]);
    l' := if a == i then l else m[i := l[a]];
    var x, y := w[i] - w[a], d - l[a];
    assert x * y >= 0;
    assert w[i] * d - w[i] * l[a] == w[i] * y;
    assert w[a] * d - w[a] * l[a] == w[a] * y;
    assert w[i] * y - w[a] * y == x * y;
  }

  ghost predicate Lightest(w: seq<nat>, a: nat) {
    a < |w| && forall k: nat :: k < |w| ==> w[a] <= w[k]
  }

  /** The weights after the one at `a`, and then the one at `b` of the rest, are taken out and their sum put in. */
  ghost function Merged(w: seq<nat>, a: nat, b: nat): seq<nat>
    requires a < |w| && b < |w| - 1
  {
    Without(Without(w, a), b) + [w[a] + Without(w, a)[b]]
  }

  /** Two codewords of the greatest length share a prefix that the merged weight can take. */
  lemma MergeDeepest(w: seq<nat>, l: seq<nat>, d: nat, a: nat, b: nat) returns (l': seq<nat>)
    requires |w| == |l| >= 2 && Fits(l, d) && d > 0
    requires a < |w| && b < |w| - 1 && l[a] == d && Without(l, a)[b] == d
    ensures |l'| == |w| - 1 && Fits(l', d)
    ensures Cost(Merged(w, a, b), l') + w[a] + Without(w, a)[b] == Cost(w, l)
  {
    hide Pow2, Room, Cost, Without;
    var l1, w1 := Without(l, a), Without(w, a);
    var l2, w2 := Without(l1, b), Without(w1, b);
    RoomWithout(l, a, d);
    RoomWithout(l1, b, d);
    CostWithout(w, l, a);
    CostWithout(w1, l1, b);
    Append(w2, l2, d, w[a] + w1[b], d - 1);
    SmallPowers();
    l' := l2 + [d - 1];
    assert (w[a] + w1[b]) * (d - 1) + w[a] + w1[b] == w[a] * d + w1[b] * d;
  }

  /**
   * The greedy step loses nothing: any lengths that fit can be matched, after merging the two lightest weights,
   * by lengths that fit and cost less by at least the merged weight.
   */
  lemma MergeLightest(w: seq<nat>, l: seq<nat>, d: nat, a: nat, b: nat) returns (l': seq<nat>, d': nat)
    requires |w| == |l| >= 2 && Fits(l, d)
    requires Lightest(w, a) && Lightest(Without(w, a), b)
    ensures |l'| == |w| - 1 && Fits(l', d')
    ensures Cost(Merged(w, a, b), l') + w[a] + Without(w, a)[b] <= Cost(w, l)
  {
    hide Pow2, Room, Cost;
    hide Without;
    var m, e, i, j := TwoDeepest(w, l, d);
    var other := if a == j then i else j;
    if a != j {
      m := Exchange(w, m, e, a, i);
    }
    var b0 := if b < a then b else b + 1;
    var o := if other < a then other else other - 1;
    assert w[b0] == Without(w, a)[b] && w[other] == Without(w, a)[o];
    var n := Exchange(w, m, e, b0, other);
    d' := e;
    l' := MergeDeepest(w, n, e, a, b);
  }
}
