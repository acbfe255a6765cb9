/** The queue of subtrees while a Huffman tree is built, and why the result is the cheapest. */
module HuffmanForest {
  import opened CodeLengths
  import opened PrefixCodes
  import opened Sequences
  import opened HuffmanTree
  import opened Sets

  // ----- counting -----

  ghost function Frequencies(text: string): map<char, nat> {
    map c | c in text :: Occurrences(text, c)
  }

  /** `p` lists every entry of `m` once. */
  ghost predicate Tally(p: seq<(char, nat)>, m: map<char, nat>) {
    && Distinct(Chars(p))
    && (forall i :: 0 <= i < |p| ==> p[i].0 in m && p[i].1 == m[p[i].0])
    && (forall c :: c in m <==> c in Chars(p))
  }

  lemma TallyNext(p: seq<(char, nat)>, m: map<char, nat>, c: char, n: nat)
    requires Tally(p, m) && c !in m
    ensures Tally(p + [(c, n)], m[c := n])
  {
    var q := p + [(c, n)];
    assert Chars(q) == Chars(p) + [c];
  }

  lemma {:induction false} DistinctOnce(p: seq<(char, nat)>, x: (char, nat))
    requires Distinct(Chars(p))
    ensures multiset(p)[x] <= 1
  {
    if p != [] {
      assert p == [p[0]] + p[1..];
      assert forall i :: 0 <= i < |p| - 1 ==> Chars(p[1..])[i] == Chars(p)[i + 1];
      DistinctOnce(p[1..], x);
      if x == p[0] {
        assert forall i :: 0 <= i < |p| - 1 ==> p[1..][i] != x by {
          assert forall i :: 0 < i < |p| ==> Chars(p)[0] != Chars(p)[i];
        }
        assert x !in p[1..];
      }
    }
  }

  /** Being a tally does not depend on the order. */
  lemma TallyReordered(p: seq<(char, nat)>, q: seq<(char, nat)>, m: map<char, nat>)
    requires Tally(p, m) && multiset(p) == multiset(q)
    ensures Tally(q, m)
  {
    assert forall x :: x in p <==> x in q by {
      assert forall x :: x in p <==> x in multiset(p);
      assert forall x :: x in q <==> x in multiset(q);
    }
    forall c
      ensures c in Chars(p) <==> c in Chars(q)
    {
      CharsMember(p, c);
      CharsMember(q, c);
    }
    forall i, j | 0 <= i < j < |q|
      ensures Chars(q)[i] != Chars(q)[j]
    {
      DistinctOnce(p, q[i]);
      assert q[i] in p && q[j] in p;
      TwoPlaces(q, i, j);
    }
    forall i | 0 <= i < |q|
      ensures q[i].0 in m && q[i].1 == m[q[i].0]
    {
      assert q[i] in p;
    }
  }

  lemma CharsMember(p: seq<(char, nat)>, c: char)
    ensures c in Chars(p) <==> exists x :: x in p && x.0 == c
  {
    if c in Chars(p) {
      var i :| 0 <= i < |p| && Chars(p)[i] == c;
      assert p[i] in p;
    }
    if x :| x in p && x.0 == c {
      var i :| 0 <= i < |p| && p[i] == x;
      assert Chars(p)[i] == c;
    }
  }

  // ----- forests -----

  ghost predicate SoundAll(q: seq<HuffmanNode>) {
    forall i :: 0 <= i < |q| ==> Sound(q[i])
  }

  ghost predicate LighterAll(q: seq<HuffmanNode>) {
    forall i :: 0 <= i < |q| ==> LighterLeft(q[i])
  }

  ghost function Roots(q: seq<HuffmanNode>): (w: seq<nat>)
    requires SoundAll(q)
    ensures |w| == |q| && forall i :: 0 <= i < |q| ==> w[i] == q[i].freq
  {
    if q == [] then [] else [q[0].freq] + Roots(q[1..])
  }

  ghost function Bag(q: seq<HuffmanNode>): multiset<(char, nat)>
    requires SoundAll(q)
  {
    if q == [] then multiset{} else multiset(Leaves(q[0])) + Bag(q[1..])
  }

  ghost function Inners(q: seq<HuffmanNode>): nat
    requires SoundAll(q)
  {
    if q == [] then 0 else Inner(q[0]) + Inners(q[1..])
  }

  lemma BagHead(n: HuffmanNode, q: seq<HuffmanNode>)
    requires Sound(n) && SoundAll(q)
    ensures SoundAll([n] + q) && Bag([n] + q) == multiset(Leaves(n)) + Bag(q)
  {
    hide Leaves;
    assert ([n] + q)[1..] == q;
  }

  lemma {:induction false} BagWithout(q: seq<HuffmanNode>, i: nat)
    requires SoundAll(q) && i < |q|
    ensures SoundAll(Without(q, i))
    ensures Bag(q) == Bag(Without(q, i)) + multiset(Leaves(q[i]))
  {
    hide Sound, Leaves, Bag, Without;
    assert q == [q[0]] + q[1..];
    BagHead(q[0], q[1..]);
    if i == 0 {
      HeadWithout(q);
    } else {
      BagWithout(q[1..], i - 1);
      TailWithout(q, i);
      BagHead(q[0], Without(q[1..], i - 1));
    }
  }

  lemma {:induction false} InnersWithout(q: seq<HuffmanNode>, i: nat)
    requires SoundAll(q) && i < |q|
    ensures SoundAll(Without(q, i))
    ensures Inners(q) == Inners(Without(q, i)) + Inner(q[i])
  {
    hide Sound, Inner;
    if i == 0 {
      assert Without(q, 0) == q[1..];
    } else {
      InnersWithout(q[1..], i - 1);
      TailWithout(q, i);
    }
  }

  lemma HeadWithout<T>(q: seq<T>)
    requires q != []
    ensures Without(q, 0) == q[1..]
  {
  }

  lemma TailWithout<T>(q: seq<T>, i: nat)
    requires 0 < i < |q|
    ensures Without(q, i) == [q[0]] + Without(q[1..], i - 1)
  {
  }

  lemma ForestWithout(q: seq<HuffmanNode>, i: nat)
    requires SoundAll(q) && i < |q|
    ensures SoundAll(Without(q, i))
    ensures Roots(Without(q, i)) == Without(Roots(q), i)
    ensures Bag(q) == Bag(Without(q, i)) + multiset(Leaves(q[i]))
    ensures Inners(q) == Inners(Without(q, i)) + Inner(q[i])
  {
    hide Sound, Leaves, Inner, Bag, Inners;
    BagWithout(q, i);
    InnersWithout(q, i);
  }

  /** The node that joins `t` and `u`. */
  function Joined(t: HuffmanNode, u: HuffmanNode): HuffmanNode
    requires t.Node? && u.Node?
  {
    Node(MARK, t.freq + u.freq, t, u)
  }

  /** The forest after the trees at `a`, and then at `b` of the rest, are joined. */
  function JoinAt(q: seq<HuffmanNode>, a: nat, b: nat): seq<HuffmanNode>
    requires a < |q| && b < |q| - 1 && q[a].Node? && Without(q, a)[b].Node?
  {
    Without(Without(q, a), b) + [Joined(q[a], Without(q, a)[b])]
  }

  lemma JoinForest(q: seq<HuffmanNode>, a: nat, b: nat)
    requires SoundAll(q) && a < |q| && b < |q| - 1
    ensures Sound(q[a]) && Sound(Without(q, a)[b]) && SoundAll(JoinAt(q, a, b))
    ensures Roots(JoinAt(q, a, b)) == Merged(Roots(q), a, b)
    ensures Bag(JoinAt(q, a, b)) == Bag(q)
    ensures Inners(JoinAt(q, a, b)) == Inners(q) + q[a].freq + Without(q, a)[b].freq
  {
    hide Roots, Bag, Inners, Without;
    ForestWithout(q, a);
    var q1 := Without(q, a);
    ForestWithout(q1, b);
    var t, u := q[a], q1[b];
    var n := Joined(t, u);
    assert Sound(n) && Leaves(n) == Leaves(t) + Leaves(u) && Inner(n) == n.freq + Inner(t) + Inner(u);
    PushForest(Without(q1, b), n);
  }

  lemma PushForest(q: seq<HuffmanNode>, n: HuffmanNode)
    requires SoundAll(q) && Sound(n)
    ensures SoundAll(q + [n])
    ensures Roots(q + [n]) == Roots(q) + [n.freq]
    ensures Bag(q + [n]) == Bag(q) + multiset(Leaves(n))
    ensures Inners(q + [n]) == Inners(q) + Inner(n)
  {
    ForestWithout(q + [n], |q|);
    assert Without(q + [n], |q|) == q;
  }

  lemma NoForest()
    ensures SoundAll([]) && Roots([]) == [] && Bag([]) == multiset{} && Inners([]) == 0
  {
  }

  lemma OneTree(t: HuffmanNode)
    requires Sound(t)
    ensures SoundAll([t]) && Roots([t]) == [t.freq] && Bag([t]) == multiset(Leaves(t)) && Inners([t]) == Inner(t)
  {
    hide Leaves, Inner;
    NoForest();
    assert [t][1..] == [];
  }

  // ----- optimality -----

  /** A least weight exists. */
  lemma {:induction false} SomeLightest(w: seq<nat>) returns (a: nat)
    requires w != []
    ensures Lightest(w, a)
  {
    a := 0;
    if |w| > 1 {
      var b := SomeLightest(w[1..]);
      assert forall k: nat :: 0 < k < |w| ==> w[k] == w[1..][k - 1];
      a := if w[0] <= w[b + 1] then 0 else b + 1;
    }
  }

  /**
   * Whatever lengths the weights `w0` are given within Kraft's inequality, `w` can be given lengths that fit and
   * that, with `inner` added, cost no more.
   */
  ghost predicate Reduces(w0: seq<nat>, w: seq<nat>, inner: nat) {
    forall l: seq<nat>, d: nat :: |l| == |w0| && Fits(l, d) ==> Cheaper(w, inner, Cost(w0, l))
  }

  ghost predicate Cheaper(w: seq<nat>, inner: nat, bound: nat) {
    exists l: seq<nat>, d: nat :: |l| == |w| && Fits(l, d) && Cost(w, l) + inner <= bound
  }

  lemma ReducesSelf(w: seq<nat>)
    ensures Reduces(w, w, 0)
  {
  }

  lemma ReduceStep(w0: seq<nat>, w: seq<nat>, inner: nat, a: nat, b: nat)
    requires Reduces(w0, w, inner) && |w| >= 2
    requires Lightest(w, a) && Lightest(Without(w, a), b)
    ensures Reduces(w0, Merged(w, a, b), inner + w[a] + Without(w, a)[b])
  {
    hide Fits, Cost;
    forall l0: seq<nat>, d0: nat | |l0| == |w0| && Fits(l0, d0)
      ensures Cheaper(Merged(w, a, b), inner + w[a] + Without(w, a)[b], Cost(w0, l0))
    {
      var l: seq<nat>, d: nat :| |l| == |w| && Fits(l, d) && Cost(w, l) + inner <= Cost(w0, l0);
      var l', d' := MergeLightest(w, l, d, a, b);
      assert Cost(Merged(w, a, b), l') + (inner + w[a] + Without(w, a)[b]) <= Cost(w0, l0);
    }
  }

  /** No lengths that fit are cheaper for the leaves of `t` than their depths in `t`. */
  ghost predicate Optimal(t: HuffmanNode)
    requires Sound(t)
  {
    forall l: seq<nat>, d: nat :: |l| == |Leaves(t)| && Fits(l, d) ==> Inner(t) <= Cost(Freqs(Leaves(t)), l)
  }

  /** Lengths follow their weights through a change of order. */
  lemma {:induction false} Rearrange(w: seq<nat>, l: seq<nat>, d: nat, w': seq<nat>) returns (l': seq<nat>)
    requires |w| == |l| && AllBelow(l, d) && multiset(w) == multiset(w')
    ensures |l'| == |w'| && AllBelow(l', d) && Room(l', d) == Room(l, d)
    ensures Cost(w', l') == Cost(w, l)
    decreases |w|
  {
    hide Pow2, Room, Cost, Without;
    assert |multiset(w)| == |w| && |multiset(w')| == |w'|;
    if w == [] {
      l' := [];
      assert w == w' && l == l';
    } else {
      var n := |w'| - 1;
      assert w'[n] in multiset(w);
      var i: nat :| i < |w| && w[i] == w'[n];
      WithoutElement(w, i);
      assert w' == w'[..n] + [w'[n]];
      RoomWithout(l, i, d);
      CostWithout(w, l, i);
      OneLess(multiset(Without(w, i)), multiset(w'[..n]), w'[n]);
      var m := Rearrange(Without(w, i), Without(l, i), d, w'[..n]);
      Append(w'[..n], m, d, w'[n], l[i]);
      l' := m + [l[i]];
    }
  }

  lemma FreqsWithout(p: seq<(char, nat)>, i: nat)
    requires i < |p|
    ensures multiset(Freqs(p)) == multiset(Freqs(Without(p, i))) + multiset{p[i].1}
  {
    hide Freqs, Without;
    assert Freqs(Without(p, i)) == Without(Freqs(p), i);
    WithoutElement(Freqs(p), i);
  }

  lemma {:induction false} FreqsReordered(p: seq<(char, nat)>, q: seq<(char, nat)>)
    requires multiset(p) == multiset(q)
    ensures multiset(Freqs(p)) == multiset(Freqs(q))
    decreases |p|
  {
    hide Freqs, Without;
    assert |multiset(p)| == |p| && |multiset(q)| == |q|;
    if p == [] {
      assert q == [];
    } else {
      assert p[0] in multiset(q);
      var i: nat :| i < |q| && q[i] == p[0];
      WithoutElement(p, 0);
      WithoutElement(q, i);
      OneLess(multiset(Without(p, 0)), multiset(Without(q, i)), p[0]);
      FreqsReordered(Without(p, 0), Without(q, i));
      FreqsWithout(p, 0);
      FreqsWithout(q, i);
    }
  }

  /** When one tree is left, it is optimal for the weights the building started from. */
  lemma LastTree(w0: seq<nat>, t: HuffmanNode)
    requires Sound(t) && Reduces(w0, [t.freq], Inner(t))
    requires multiset(w0) == multiset(Freqs(Leaves(t)))
    ensures Optimal(t)
  {
    hide Leaves, Inner, Cost, Freqs;
    var w := Freqs(Leaves(t));
    forall l: seq<nat>, d: nat | |l| == |Leaves(t)| && Fits(l, d)
      ensures Inner(t) <= Cost(w, l)
    {
      var l0 := Rearrange(w, l, d, w0);
      assert Fits(l0, d);
      assert Cheaper([t.freq], Inner(t), Cost(w0, l0));
    }
  }
}
