/** Multigraphs as adjacency lists with a visited flag on every entry, and the trails through them. */
module EulerTrails {

  type Entry = (int, bool)
  type Graph = map<int, seq<Entry>>
  type Step = (int, int)

  // ----- entries -----

  ghost function Targets(es: seq<Entry>): multiset<int> {
    if es == [] then multiset{} else multiset{es[0].0} + Targets(es[1..])
  }

  /** The targets of the entries not visited yet. */
  ghost function Free(es: seq<Entry>): multiset<int> {
    if es == [] then multiset{} else (if es[0].1 then multiset{} else multiset{es[0].0}) + Free(es[1..])
  }

  lemma {:induction false} TargetsSize(es: seq<Entry>)
    ensures |Targets(es)| == |es|
  {
    if es != [] {
      TargetsSize(es[1..]);
    }
  }

  lemma {:induction false} FreeEntry(es: seq<Entry>, v: int)
    ensures v in Free(es) <==> exists i :: 0 <= i < |es| && es[i] == (v, false)
  {
    if es != [] {
      FreeEntry(es[1..], v);
      assert es == [es[0]] + es[1..];
      if i :| 0 <= i < |es| && es[i] == (v, false) && i > 0 {
        assert es[1..][i - 1] == (v, false);
      }
    }
  }

  lemma {:induction false} Visit(es: seq<Entry>, i: nat)
    requires i < |es| && !es[i].1
    ensures Targets(es[i := (es[i].0, true)]) == Targets(es)
    ensures Free(es[i := (es[i].0, true)]) + multiset{es[i].0} == Free(es)
  {
    var es' := es[i := (es[i].0, true)];
    if i == 0 {
      assert es'[1..] == es[1..];
    } else {
      Visit(es[1..], i - 1);
      assert es'[1..] == es[1..][i - 1 := (es[i].0, true)];
    }
  }

  lemma HeadEntry(e: Entry, es: seq<Entry>)
    ensures Targets([e] + es) == multiset{e.0} + Targets(es)
    ensures Free([e] + es) == (if e.1 then multiset{} else multiset{e.0}) + Free(es)
    ensures Targets([]) == Free([]) == multiset{}
  {
    assert ([e] + es)[1..] == es;
  }

  lemma {:induction false} AppendEntry(es: seq<Entry>, v: int)
    ensures Targets(es + [(v, false)]) == Targets(es) + multiset{v}
    ensures Free(es + [(v, false)]) == Free(es) + multiset{v}
  {
    hide Targets, Free;
    var e := (v, false);
    if es == [] {
      assert es + [e] == [e] + es;
      HeadEntry(e, es);
    } else {
      assert es == [es[0]] + es[1..] && es + [e] == [es[0]] + (es[1..] + [e]);
      HeadEntry(es[0], es[1..]);
      HeadEntry(es[0], es[1..] + [e]);
      AppendEntry(es[1..], v);
    }
  }

  // ----- graphs -----

  ghost function All(g: Graph, x: int): multiset<int> {
    if x in g then Targets(g[x]) else multiset{}
  }

  ghost function Left(g: Graph, x: int): multiset<int> {
    if x in g then Free(g[x]) else multiset{}
  }

  /** What one end of the step adds to the neighbours of `x`. */
  ghost function Half(e: Step, x: int): multiset<int> {
    if e.0 == x then multiset{e.1} else multiset{}
  }

  /** What the step adds to the neighbours of `x`; a loop adds `x` twice. */
  ghost function Near(e: Step, x: int): multiset<int> {
    Half(e, x) + Half((e.1, e.0), x)
  }

  /** The entries come in pairs, one at either end of an edge; a loop has both at its only end. */
  ghost predicate Undirected(g: Graph) {
    && (forall x, y :: Left(g, x)[y] == Left(g, y)[x])
    && (forall x :: Left(g, x)[x] % 2 == 0)
  }

  /** No entry has been visited. */
  ghost predicate Fresh(g: Graph) {
    forall x :: Left(g, x) == All(g, x)
  }

  // ----- trails -----

  /** The neighbours `x` gets from the steps of `t`. */
  ghost function Met(t: seq<Step>, x: int): multiset<int> {
    if t == [] then multiset{} else Near(t[0], x) + Met(t[1..], x)
  }

  /** The steps follow on from each other, from `a` to `b`. */
  ghost predicate Trail(t: seq<Step>, a: int, b: int) {
    if t == [] then a == b else t[0].0 == a && Trail(t[1..], t[0].1, b)
  }

  /** `t` goes along every edge exactly once, parallel edges and loops included. */
  ghost predicate Covers(g: Graph, t: seq<Step>) {
    forall x :: Met(t, x) == All(g, x)
  }

  /** The neighbours `x` gets from the steps between consecutive vertices of a stack. */
  ghost function StackMet(stack: seq<int>, x: int): multiset<int> {
    if |stack| < 2 then multiset{}
    else StackMet(stack[..|stack| - 1], x) + Near((stack[|stack| - 2], stack[|stack| - 1]), x)
  }

  // ----- parity -----

  ghost function Is(x: int, y: int): nat {
    if x == y then 1 else 0
  }

  lemma NearSize(e: Step, x: int)
    ensures |Near(e, x)| == Is(x, e.0) + Is(x, e.1)
  {
  }

  lemma AddParity(a: nat, m: nat, b: nat, r: nat)
    requires r % 2 == (m + b) % 2
    ensures (a + m + r) % 2 == (a + b) % 2
  {
  }

  /** Only the ends of a trail have an odd number of steps at them. */
  lemma {:induction false} TrailParity(t: seq<Step>, a: int, b: int, x: int)
    requires Trail(t, a, b)
    ensures |Met(t, x)| % 2 == (Is(x, a) + Is(x, b)) % 2
  {
    hide Near, Is;
    if t != [] {
      var r := Met(t[1..], x);
      TrailParity(t[1..], t[0].1, b, x);
      NearSize(t[0], x);
      AddParity(Is(x, a), Is(x, t[0].1), Is(x, b), |r|);
      assert |Near(t[0], x) + r| == |Near(t[0], x)| + |r|;
    }
  }

  /** `s` contains the neighbours of its members. */
  ghost predicate Closed(g: Graph, s: set<int>) {
    forall x, y :: x in s && y in All(g, x) ==> y in s
  }

  /** Every edge can be reached from `start`. */
  ghost predicate Reaches(g: Graph, start: int) {
    forall s: set<int> :: start in s && Closed(g, s) ==> forall x :: All(g, x) != multiset{} ==> x in s
  }

  ghost predicate On(t: seq<Step>, x: int) {
    exists i :: 0 <= i < |t| && (t[i].0 == x || t[i].1 == x)
  }

  lemma {:induction false} MetOn(t: seq<Step>, x: int, y: int)
    ensures y in Met(t, x) <==> (x, y) in t || (y, x) in t
  {
    if t != [] {
      MetOn(t[1..], x, y);
      assert t == [t[0]] + t[1..];
    }
  }

  /** Every step of `t` is an edge, both ways. */
  ghost predicate Steps(g: Graph, t: seq<Step>) {
    forall i :: 0 <= i < |t| ==> t[i].1 in All(g, t[i].0) && t[i].0 in All(g, t[i].1)
  }

  lemma {:induction false} TrailForward(g: Graph, t: seq<Step>, a: int, b: int, s: set<int>, i: nat)
    requires Trail(t, a, b) && Closed(g, s) && Steps(g, t) && a in s && i < |t|
    ensures t[i].0 in s && t[i].1 in s
  {
    if i > 0 {
      TrailForward(g, t[1..], t[0].1, b, s, i - 1);
    }
  }

  lemma {:induction false} TrailBackward(g: Graph, t: seq<Step>, a: int, b: int, s: set<int>, i: nat)
    requires Trail(t, a, b) && Closed(g, s) && Steps(g, t) && i < |t| && (t[i].0 in s || t[i].1 in s)
    ensures a in s
  {
    if i > 0 {
      TrailBackward(g, t[1..], t[0].1, b, s, i - 1);
    }
  }

  /** A closed set that contains a vertex of a trail contains the whole trail. */
  lemma TrailInside(g: Graph, t: seq<Step>, a: int, b: int, s: set<int>, x: int, y: int)
    requires Trail(t, a, b) && Closed(g, s) && Steps(g, t) && On(t, y)
    requires x in s && (x == a || On(t, x))
    ensures y in s
  {
    hide Trail, Closed, Steps;
    if x != a {
      var i: nat :| i < |t| && (t[i].0 == x || t[i].1 == x);
      TrailBackward(g, t, a, b, s, i);
    }
    var j: nat :| j < |t| && (t[j].0 == y || t[j].1 == y);
    TrailForward(g, t, a, b, s, j);
  }

  /** Along a covering trail every step is an edge, both ways. */
  lemma CoverSteps(g: Graph, t: seq<Step>)
    requires Covers(g, t)
    ensures Steps(g, t)
  {
    forall i | 0 <= i < |t|
      ensures t[i].1 in All(g, t[i].0) && t[i].0 in All(g, t[i].1)
    {
      assert t[i] in t;
      MetOn(t, t[i].0, t[i].1);
      MetOn(t, t[i].1, t[i].0);
    }
  }

  /**
   * Euler's condition is necessary: when a trail covers the graph, the vertices of odd degree are its two ends, and
   * every edge can be reached from any vertex that is on it.
   */
  lemma TrailNecessary(g: Graph, t: seq<Step>, a: int, b: int, start: int)
    requires Trail(t, a, b) && Covers(g, t)
    requires start == a || All(g, start) != multiset{}
    ensures forall x :: |All(g, x)| % 2 == (Is(x, a) + Is(x, b)) % 2
    ensures Reaches(g, start)
  {
    forall x
      ensures |All(g, x)| % 2 == (Is(x, a) + Is(x, b)) % 2
    {
      TrailParity(t, a, b, x);
      assert Met(t, x) == All(g, x);
    }
    CoverSteps(g, t);
    forall s: set<int> | start in s && Closed(g, s)
      ensures forall x :: All(g, x) != multiset{} ==> x in s
    {
      forall x | All(g, x) != multiset{}
        ensures x in s
      {
        OnCover(g, t, x);
        if start != a {
          OnCover(g, t, start);
        }
        TrailInside(g, t, a, b, s, start, x);
      }
    }
  }

  lemma SomeElement(m: multiset<int>)
    requires m != multiset{}
    ensures exists y :: y in m
  {
    assert (forall y :: y !in m) ==> m == multiset{};
  }

  lemma OnCover(g: Graph, t: seq<Step>, x: int)
    requires Covers(g, t) && All(g, x) != multiset{}
    ensures On(t, x)
  {
    SomeElement(All(g, x));
    var y :| y in All(g, x);
    assert Met(t, x) == All(g, x);
    MetOn(t, x, y);
    if (x, y) in t {
      var i :| 0 <= i < |t| && t[i] == (x, y);
    } else {
      var i :| 0 <= i < |t| && t[i] == (y, x);
    }
  }

  // ----- sums over the vertices -----

  ghost function Sum(m: map<int, nat>): nat {
    if k :| k in m then m[k] + Sum(m - {k}) else 0
  }

  lemma {:induction false} SumWithout(m: map<int, nat>, k: int)
    requires k in m
    ensures Sum(m) == m[k] + Sum(m - {k})
  {
    var j :| j in m && Sum(m) == m[j] + Sum(m - {j});
    if j != k {
      SumWithout(m - {j}, k);
      SumWithout(m - {k}, j);
      assert m - {j} - {k} == m - {k} - {j};
    }
  }

  lemma SumSet(m: map<int, nat>, k: int, n: nat)
    ensures Sum(m[k := n]) + (if k in m then m[k] else 0) == Sum(m) + n
  {
    SumWithout(m[k := n], k);
    if k in m {
      SumWithout(m, k);
      assert m[k := n] - {k} == m - {k};
    } else {
      assert m[k := n] - {k} == m;
    }
  }

  lemma {:induction false} SumZero(m: map<int, nat>)
    ensures Sum(m) == 0 <==> forall k :: k in m ==> m[k] == 0
    decreases |m|
  {
    if k :| k in m {
      SumWithout(m, k);
      SumZero(m - {k});
      assert forall j :: j in m <==> j == k || j in m - {k};
      assert forall j :: j in m - {k} ==> (m - {k})[j] == m[j];
    }
  }

  lemma {:induction false} SumEven(m: map<int, nat>)
    requires forall k :: k in m ==> m[k] % 2 == 0
    ensures Sum(m) % 2 == 0
    decreases |m|
  {
    if k :| k in m {
      SumWithout(m, k);
      SumEven(m - {k});
    }
  }

  ghost function Sizes(g: Graph): map<int, nat> {
    map x | x in g :: |g[x]|
  }

  ghost function FreeSizes(g: Graph): map<int, nat> {
    map x | x in g :: |Free(g[x])|
  }
}
