/** Hierholzer's algorithm on undirected multigraphs, with an explicit stack. */
module Hierholzer {
  import opened EulerTrails
  import opened Sequences
  import opened Sets

  lemma SetEntry(g: Graph, u: int, i: nat)
    requires u in g && i < |g[u]| && !g[u][i].1
    ensures var v := g[u][i].0; var g' := g[u := g[u][i := (v, true)]];
            && g'.Keys == g.Keys
            && (forall x :: All(g', x) == All(g, x))
            && (forall x :: Left(g', x) + Half((u, v), x) == Left(g, x))
            && Sizes(g') == Sizes(g)
            && Sum(FreeSizes(g')) + 1 == Sum(FreeSizes(g))
  {
    hide Targets, Free;
    var v := g[u][i].0;
    var es := g[u][i := (v, true)];
    Visit(g[u], i);
    assert |Free(g[u])| == |Free(es)| + 1;
    SumSet(FreeSizes(g), u, |Free(es)|);
    assert FreeSizes(g[u := es]) == FreeSizes(g)[u := |Free(es)|];
  }

  lemma SymmetricEntry(g: Graph, u: int, v: int)
    requires Undirected(g) && v in Left(g, u)
    ensures u in Left(g, v) && v in g
    ensures u == v ==> Left(g, u)[u] >= 2
  {
    assert Left(g, u)[v] == Left(g, v)[u];
  }

  lemma NearSymmetric(e: Step, x: int, y: int)
    ensures Near(e, x)[y] == Near(e, y)[x]
    ensures Near(e, x)[x] == 0 || Near(e, x)[x] == 2
  {
  }

  lemma SumAt(m: multiset<int>, n: multiset<int>, y: int)
    ensures (m + n)[y] == m[y] + n[y]
  {
  }

  lemma TakenUndirected(g: Graph, g': Graph, e: Step)
    requires Undirected(g) && forall x :: Left(g', x) + Near(e, x) == Left(g, x)
    ensures Undirected(g')
  {
    hide Left, Near;
    forall x, y
      ensures Left(g', x)[y] == Left(g', y)[x]
    {
      assert Left(g, x)[y] == Left(g, y)[x];
      SumAt(Left(g', x), Near(e, x), y);
      SumAt(Left(g', y), Near(e, y), x);
      NearSymmetric(e, x, y);
    }
    forall x
      ensures Left(g', x)[x] % 2 == 0
    {
      assert Left(g, x)[x] % 2 == 0;
      SumAt(Left(g', x), Near(e, x), x);
      NearSymmetric(e, x, x);
    }
  }

  lemma AddedUndirected(g: Graph, g': Graph, e: Step)
    requires Undirected(g) && forall x :: Left(g', x) == Left(g, x) + Near(e, x)
    ensures Undirected(g')
  {
    hide Left, Near;
    forall x, y
      ensures Left(g', x)[y] == Left(g', y)[x]
    {
      assert Left(g, x)[y] == Left(g, y)[x];
      SumAt(Left(g, x), Near(e, x), y);
      SumAt(Left(g, y), Near(e, y), x);
      NearSymmetric(e, x, y);
    }
    forall x
      ensures Left(g', x)[x] % 2 == 0
    {
      assert Left(g, x)[x] % 2 == 0;
      SumAt(Left(g, x), Near(e, x), x);
      NearSymmetric(e, x, x);
    }
  }

  function WithEntry(g: Graph, u: int, v: int): Graph {
    g[u := (if u in g then g[u] else []) + [(v, false)]]
  }

  lemma EntryAdded(g: Graph, u: int, v: int)
    ensures var g' := WithEntry(g, u, v);
            && (forall x :: All(g', x) == All(g, x) + Half((u, v), x))
            && (forall x :: Left(g', x) == Left(g, x) + Half((u, v), x))
  {
    hide Targets, Free;
    var es := if u in g then g[u] else [];
    AppendEntry(es, v);
    NoEntries();
    var g' := WithEntry(g, u, v);
    forall x
      ensures All(g', x) == All(g, x) + Half((u, v), x)
      ensures Left(g', x) == Left(g, x) + Half((u, v), x)
    {
      if x == u {
        assert g'[x] == es + [(v, false)];
      } else {
        assert (x in g' <==> x in g) && (x in g ==> g'[x] == g[x]);
        Associate(All(g, x), multiset{}, multiset{});
      }
    }
  }

  lemma Associate(a: multiset<int>, b: multiset<int>, c: multiset<int>)
    ensures (a + b) + c == a + (b + c) == (a + c) + b
  {
  }

  lemma BothAdded(g: Graph, e: Step)
    ensures var g' := WithEntry(WithEntry(g, e.0, e.1), e.1, e.0);
            && (forall x :: All(g', x) == All(g, x) + Near(e, x))
            && (forall x :: Left(g', x) == Left(g, x) + Near(e, x))
  {
    hide All, Left, Half, WithEntry;
    var g1 := WithEntry(g, e.0, e.1);
    EntryAdded(g, e.0, e.1);
    EntryAdded(g1, e.1, e.0);
    forall x
      ensures All(WithEntry(g1, e.1, e.0), x) == All(g, x) + Near(e, x)
      ensures Left(WithEntry(g1, e.1, e.0), x) == Left(g, x) + Near(e, x)
    {
      Associate(All(g, x), Half(e, x), Half((e.1, e.0), x));
      Associate(Left(g, x), Half(e, x), Half((e.1, e.0), x));
    }
  }

  lemma BothTaken(g: Graph, g1: Graph, g': Graph, e: Step)
    requires forall x :: Left(g1, x) + Half(e, x) == Left(g, x)
    requires forall x :: Left(g', x) + Half((e.1, e.0), x) == Left(g1, x)
    ensures forall x :: Left(g', x) + Near(e, x) == Left(g, x)
  {
    hide Left, Half;
    forall x
      ensures Left(g', x) + Near(e, x) == Left(g, x)
    {
      Associate(Left(g', x), Half(e, x), Half((e.1, e.0), x));
    }
  }

  lemma NoEntries()
    ensures Targets([]) == Free([]) == multiset{}
  {
  }

  class UndirectedEulerian {
    var graph: Graph
    var path: seq<Step>

    constructor ()
      ensures graph == map[] && path == []
    {
      graph, path := map[], [];
    }

    method AddEdge(u: int, v: int)
      requires Undirected(graph)
      modifies this`graph
      ensures graph.Keys == old(graph).Keys + {u, v} && Undirected(graph)
      ensures forall x :: All(graph, x) == All(old(graph), x) + Near((u, v), x)
      ensures forall x :: Left(graph, x) == Left(old(graph), x) + Near((u, v), x)
      ensures Fresh(old(graph)) ==> Fresh(graph)
    {
      hide Undirected, All, Left, Near;
      BothAdded(graph, (u, v));
      graph := WithEntry(graph, u, v);
      graph := WithEntry(graph, v, u);
      AddedUndirected(old(graph), graph, (u, v));
    }

    /** Looks for an entry of `u` that is not visited, and marks it and an entry of the other end that leads back. */
    method TakeEdge(u: int) returns (found: bool, v: int)
      requires Undirected(graph) && u in graph
      modifies this`graph
      ensures !found ==> graph == old(graph) && Left(graph, u) == multiset{}
      ensures old(graph)[u] == [] ==> !found
      ensures found ==> v in graph && Undirected(graph)
      ensures found ==> forall x :: Left(graph, x) + Near((u, v), x) == Left(old(graph), x)
      ensures found ==> Sum(FreeSizes(graph)) + 2 == Sum(FreeSizes(old(graph)))
      ensures graph.Keys == old(graph).Keys && Sizes(graph) == Sizes(old(graph))
      ensures forall x :: All(graph, x) == All(old(graph), x)
    {
      hide Targets, Free, Sum, Sizes, FreeSizes, Undirected, All, Near, Half, Left;
      var i := FindFree(graph[u]);
      if i == |graph[u]| {
        NoneLeft(graph, u);
        return false, 0;
      }
      v := graph[u][i].0;
      FreeLeft(graph, u, i);
      SymmetricEntry(graph, u, v);
      SetEntry(graph, u, i);
      graph := graph[u := graph[u][i := (v, true)]];
      ghost var g1 := graph;
      FoundBack(old(graph), g1, u, v);
      var j := 0;
      while graph[v][j] != (u, false)
        invariant j < |graph[v]|
        invariant exists k :: j <= k < |graph[v]| && graph[v][k] == (u, false)
        decreases |graph[v]| - j
      {
        j := j + 1;
      }
      SetEntry(graph, v, j);
      graph := graph[v := graph[v][j := (u, true)]];
      BothTaken(old(graph), g1, graph, (u, v));
      TakenUndirected(old(graph), graph, (u, v));
      found := true;
    }

    /** The first entry that is not visited, or the length of the list. */
    method FindFree(es: seq<Entry>) returns (i: nat)
      ensures i <= |es| && forall k :: 0 <= k < i ==> es[k].1
      ensures i < |es| ==> !es[i].1
    {
      i := 0;
      while i < |es| && es[i].1
        invariant i <= |es| && forall k :: 0 <= k < i ==> es[k].1
      {
        i := i + 1;
      }
    }

    /** `graph[u]`, which makes an empty list for a vertex that has none. */
    method Touch(u: int)
      requires Undirected(graph)
      modifies this`graph
      ensures Undirected(graph) && graph == if u in old(graph) then old(graph) else old(graph)[u := []]
      ensures forall x :: All(graph, x) == All(old(graph), x) && Left(graph, x) == Left(old(graph), x)
      ensures Sum(Sizes(graph)) == Sum(Sizes(old(graph))) && Sum(FreeSizes(graph)) == Sum(FreeSizes(old(graph)))
    {
      if u !in graph {
        EmptyVertex(graph, u);
        graph := graph[u := []];
      }
    }

    /** Walks until stuck, backs up along the stack and writes down each step it backs up over. */
    method Hierholzer(start: int, ghost e: int)
      requires Undirected(graph) && Fresh(graph) && path == []
      requires forall x :: |All(graph, x)| % 2 == (Is(x, start) + Is(x, e)) % 2
      modifies this
      ensures Searched(old(graph), graph, [], path, start, e)
      ensures forall x :: All(graph, x) == All(old(graph), x)
      ensures Sum(Sizes(graph)) == Sum(Sizes(old(graph)))
      ensures start !in old(graph) ==> graph == old(graph)[start := []]
    {
      hide Undirected, All, Left, Is, Sum, Sizes, FreeSizes, Searched;
      SearchStart(graph, start, e);
      var stack := [start];
      while stack != []
        invariant Searched(old(graph), graph, stack, path, start, e)
        invariant forall x :: All(graph, x) == All(old(graph), x)
        invariant Sum(Sizes(graph)) == Sum(Sizes(old(graph)))
        invariant start !in old(graph) ==>
                    if stack == [] then graph == old(graph)[start := []] else stack == [start] && graph == old(graph)
        decreases Sum(FreeSizes(graph)), |stack|
      {
        var u := stack[|stack| - 1];
        ghost var g := graph;
        SearchedUndirected(old(graph), g, stack, path, start, e);
        Touch(u);
        SearchTouched(old(graph), g, graph, stack, path, start, e);
        g := graph;
        var found, v := TakeEdge(u);
        if found {
          SearchPush(old(graph), g, graph, stack, path, start, e, v);
          stack := stack + [v];
        } else {
          SearchPop(old(graph), g, stack, path, start, e);
          stack := stack[..|stack| - 1];
          if stack != [] {
            path := path + [(stack[|stack| - 1], u)];
          }
        }
      }
    }

    /** Half the number of entries. */
    method CountEdges() returns (edgeCount: nat)
      ensures edgeCount == Sum(Sizes(graph)) / 2
    {
      hide Sum;
      var todo := graph.Keys;
      edgeCount := 0;
      ghost var rest := Sizes(graph);
      while todo != {}
        invariant todo <= graph.Keys
        invariant rest.Keys == todo && forall x :: x in todo ==> rest[x] == |graph[x]|
        invariant edgeCount + Sum(rest) == Sum(Sizes(graph))
        decreases |todo|
      {
        ghost var some := SomeMember(todo);
        var x :| x in todo;
        SumWithout(rest, x);
        edgeCount := edgeCount + |graph[x]|;
        rest := rest - {x};
        todo := todo - {x};
      }
      SumZero(rest);
      edgeCount := edgeCount / 2;
    }

    /** A vertex the graph does not have is left behind with an empty list, unless a degree is odd. */
    method FindEulerCircuit(start: int) returns (b: bool)
      requires Undirected(graph) && Fresh(graph)
      modifies this
      ensures b <==> exists t :: Trail(t, start, start) && Covers(old(graph), t)
      ensures b ==> Trail(Reversed(path), start, start) && Covers(old(graph), Reversed(path))
      ensures b <==> (forall x :: |All(old(graph), x)| % 2 == 0) && Reaches(old(graph), start)
      ensures forall x :: All(graph, x) == All(old(graph), x)
      ensures start !in old(graph) ==>
                && Undirected(graph) && Fresh(graph)
                && graph == if forall x :: |All(old(graph), x)| % 2 == 0 then old(graph)[start := []] else old(graph)
    {
      hide Undirected, All, Fresh, Trail, Covers, Reaches, Sum, Sizes, FreeSizes, Searched;
      path := [];
      var odd := OddVertices();
      ghost var g0 := graph;
      forall x
        ensures |All(g0, x)| % 2 == if x in odd then 1 else 0
      {
        OddDegrees(g0, odd, x);
      }
      ClosedTrailNeeds(g0, start);
      if odd != [] {
        assert |All(g0, odd[0])| % 2 == 1;
        return false;
      }
      UnknownStart(g0, start);
      Hierholzer(start, start);
      var edgeCount := CountEdges();
      SearchResult(g0, graph, path, start, start);
      b := |path| == edgeCount;
    }

    /** The vertices of odd degree, in any order. */
    method OddVertices() returns (odd: seq<int>)
      ensures OddList(graph, odd)
    {
      var todo := graph.Keys;
      odd := [];
      while todo != {}
        invariant todo <= graph.Keys
        invariant forall i, j :: 0 <= i < j < |odd| ==> odd[i] != odd[j]
        invariant forall x :: x in odd <==> x in graph && x !in todo && |graph[x]| % 2 != 0
        decreases |todo|
      {
        ghost var some := SomeMember(todo);
        var x :| x in todo;
        if |graph[x]| % 2 != 0 {
          odd := odd + [x];
        }
        todo := todo - {x};
      }
    }

    /** The starting vertex is any vertex of odd degree, or any vertex at all when there is none. */
    method FindEulerPath() returns (b: bool, ghost start: int)
      requires Undirected(graph) && Fresh(graph)
      requires graph != map[]
      modifies this
      ensures b <==> StartsWell(old(graph), start) && exists t, a, e :: Trail(t, a, e) && Covers(old(graph), t)
      ensures MayStart(old(graph), start) && (SureStart(old(graph)) ==> StartsWell(old(graph), start))
      ensures b ==> exists e :: Trail(Reversed(path), start, e) && Covers(old(graph), Reversed(path))
      ensures b <==> Reaches(old(graph), start) && exists a, e :: OddOnly(old(graph), a, e)
      ensures forall x :: All(graph, x) == All(old(graph), x)
    {
      hide Undirected, All, Fresh, Trail, Covers, Reaches, Sum, Sizes, FreeSizes, Searched;
      hide OddOnly, StartsWell, MayStart, SureStart;
      path := [];
      var odd := OddVertices();
      ghost var g0 := graph;
      StartsAlways(g0);
      ghost var some := SomeMember(graph.Keys);
      var v: int :| v in graph;
      start := v;
      OddPairs(g0, odd);
      PathNeeds(g0);
      StartNeeds(g0, v);
      if |odd| != 0 && |odd| != 2 {
        start := if odd == [] then v else odd[0];
        OddStart(g0, odd, v, start);
        return false, start;
      }
      var startNode := if |odd| == 2 then odd[0] else v;
      ghost var e := if |odd| == 2 then odd[1] else v;
      start := startNode;
      StartNeeds(g0, start);
      OddEnds(g0, odd, start, e);
      OddStart(g0, odd, v, start);
      Hierholzer(startNode, e);
      var edgeCount := CountEdges();
      SearchResult(g0, graph, path, start, e);
      b := |path| == edgeCount;
    }
  }

  /** The vertices of odd degree are `a` and `e`, or none when these are the same. */
  ghost predicate OddOnly(g: Graph, a: int, e: int) {
    forall x :: |All(g, x)| % 2 == (Is(x, a) + Is(x, e)) % 2
  }

  lemma OddEnds(g: Graph, odd: seq<int>, a: int, e: int)
    requires OddList(g, odd) && (odd == [] ==> a == e) && (odd != [] ==> |odd| == 2 && odd[0] == a && odd[1] == e)
    ensures OddOnly(g, a, e) && forall x :: |All(g, x)| % 2 == (Is(x, a) + Is(x, e)) % 2
  {
    hide All, OddList;
    OddElements(g, odd);
    forall x
      ensures |All(g, x)| % 2 == (Is(x, a) + Is(x, e)) % 2
    {
      OddDegrees(g, odd, x);
      assert x in odd <==> odd != [] && (x == a || x == e);
    }
  }

  lemma OddElements(g: Graph, odd: seq<int>)
    requires OddList(g, odd)
    ensures |odd| == 2 ==> odd[0] != odd[1] && odd == [odd[0], odd[1]]
  {
  }

  lemma OddPairs(g: Graph, odd: seq<int>)
    requires OddList(g, odd)
    ensures (exists a, e :: OddOnly(g, a, e)) ==> |odd| == 0 || |odd| == 2
  {
    if a, e :| OddOnly(g, a, e) {
      hide All;
      forall x
        ensures x in odd <==> a != e && (x == a || x == e)
      {
        OddDegrees(g, odd, x);
        assert |All(g, x)| % 2 == (Is(x, a) + Is(x, e)) % 2;
      }
      TwoElements(odd, a, e);
    }
  }

  lemma TwoElements(s: seq<int>, a: int, e: int)
    requires forall i, j :: 0 <= i < j < |s| ==> s[i] != s[j]
    requires forall x :: x in s <==> a != e && (x == a || x == e)
    ensures |s| == if a == e then 0 else 2
  {
    DistinctSize(s);
    assert Elements(s) == if a == e then {} else {a, e};
  }

  /** The search starts at a vertex with an edge, or there are no edges. */
  ghost predicate StartsWell(g: Graph, start: int) {
    All(g, start) != multiset{} || forall x :: All(g, x) == multiset{}
  }

  /** The search may start at `v`: at any vertex of odd degree, or at any vertex at all when there is none. */
  ghost predicate MayStart(g: Graph, v: int) {
    v in g && ((exists x :: |All(g, x)| % 2 == 1) ==> |All(g, v)| % 2 == 1)
  }

  lemma OddStart(g: Graph, odd: seq<int>, v: int, start: int)
    requires OddList(g, odd) && v in g && start == if odd == [] then v else odd[0]
    ensures MayStart(g, start)
  {
    hide All;
    forall x
      ensures |All(g, x)| % 2 == if x in odd then 1 else 0
    {
      OddDegrees(g, odd, x);
    }
  }

  /** Some degree is odd, no vertex has an empty list, or there are no edges. */
  ghost predicate SureStart(g: Graph) {
    || (exists x :: |All(g, x)| % 2 == 1)
    || (forall x :: x in g ==> g[x] != [])
    || (forall x :: All(g, x) == multiset{})
  }

  /** Exactly then the search starts well whichever vertex comes first. */
  lemma StartsAlways(g: Graph)
    ensures (forall v :: MayStart(g, v) ==> StartsWell(g, v)) <==> SureStart(g)
  {
    hide Targets;
    forall x | x in g
      ensures All(g, x) == multiset{} <==> g[x] == []
    {
      TargetsSize(g[x]);
    }
    if v :| v in g && g[v] == [] {
      if forall x :: |All(g, x)| % 2 == 0 {
        assert MayStart(g, v);
      }
    }
    if x :| |All(g, x)| % 2 == 1 {
      forall v | MayStart(g, v)
        ensures StartsWell(g, v)
      {
        assert |All(g, v)| % 2 == 1;
      }
    }
  }

  ghost function Lone(): Graph {
    map[1 := [(1, false), (1, false)], 7 := []]
  }

  lemma LoneEntries(x: int)
    ensures All(Lone(), x) == Left(Lone(), x) == if x == 1 then multiset{1, 1} else multiset{}
  {
    var e: Entry := (1, false);
    HeadEntry(e, []);
    HeadEntry(e, [e]);
    assert [e] + [] == [e] && [e] + [e] == [e, e];
    assert multiset{1} + multiset{1} == multiset{1, 1};
  }

  /** A loop at 1 beside a vertex 7 without edges: the loop is a covering trail, but the search may start at 7. */
  lemma LoneVertex()
    ensures Undirected(Lone()) && Fresh(Lone()) && Trail([(1, 1)], 1, 1) && Covers(Lone(), [(1, 1)])
    ensures MayStart(Lone(), 7) && !StartsWell(Lone(), 7)
  {
    assert 7 in Lone();
    LoneTrail();
    hide All, Left, Trail, Covers, Lone;
    forall x
      ensures All(Lone(), x) == Left(Lone(), x) == if x == 1 then multiset{1, 1} else multiset{}
    {
      LoneEntries(x);
    }
    assert All(Lone(), 1) != multiset{};
    LoneDegrees(Lone());
  }

  lemma LoneDegrees(g: Graph)
    requires 7 in g && forall x :: All(g, x) == Left(g, x) == if x == 1 then multiset{1, 1} else multiset{}
    ensures Undirected(g) && MayStart(g, 7)
  {
    hide All, Left;
    forall x, y
      ensures Left(g, x)[y] == Left(g, y)[x] && Left(g, x)[x] % 2 == 0 && |All(g, x)| % 2 == 0
    {
      assert Left(g, x)[y] == if x == 1 && y == 1 then 2 else 0;
      assert Left(g, y)[x] == if x == 1 && y == 1 then 2 else 0;
    }
  }

  lemma LoneTrail()
    ensures Trail([(1, 1)], 1, 1) && Covers(Lone(), [(1, 1)])
  {
    hide All, Left, Met;
    var t: seq<Step> := [(1, 1)];
    assert t[1..] == [] && Trail([], 1, 1);
    forall x
      ensures Met(t, x) == All(Lone(), x)
    {
      LoneEntries(x);
      MetOneStep((1, 1), x);
      assert multiset{1} + multiset{1} == multiset{1, 1};
    }
  }

  lemma MetOneStep(e: Step, x: int)
    ensures Met([e], x) == Near(e, x)
  {
    assert [e][1..] == [];
  }

  lemma UnknownStart(g: Graph, start: int)
    requires Undirected(g) && Fresh(g)
    ensures start !in g ==> Undirected(g[start := []]) && Fresh(g[start := []])
  {
    hide Undirected, All, Left;
    if start !in g {
      EmptyVertex(g, start);
    }
  }

  /** A trail that covers the graph needs at most two odd vertices. */
  lemma PathNeeds(g: Graph)
    ensures (exists t, a, e :: Trail(t, a, e) && Covers(g, t)) ==> exists a, e :: OddOnly(g, a, e)
  {
    if t, a, e :| Trail(t, a, e) && Covers(g, t) {
      TrailNecessary(g, t, a, e, a);
      assert OddOnly(g, a, e);
    }
  }

  /** All edges can be reached only from a vertex with an edge, and with a covering trail from every such vertex. */
  lemma StartNeeds(g: Graph, start: int)
    ensures Reaches(g, start) ==> StartsWell(g, start)
    ensures StartsWell(g, start) && (exists t, a, e :: Trail(t, a, e) && Covers(g, t)) ==> Reaches(g, start)
    ensures start in g && g[start] != [] ==> StartsWell(g, start)
  {
    hide Trail, Covers, Targets;
    if Reaches(g, start) && All(g, start) == multiset{} {
      assert Closed(g, {start});
    }
    if StartsWell(g, start) && All(g, start) != multiset{} {
      if t, a, e :| Trail(t, a, e) && Covers(g, t) {
        TrailNecessary(g, t, a, e, start);
      }
    }
    if start in g {
      TargetsSize(g[start]);
    }
  }

  /** `odd` lists the vertices of odd degree. */
  ghost predicate OddList(g: Graph, odd: seq<int>) {
    && (forall i, j :: 0 <= i < j < |odd| ==> odd[i] != odd[j])
    && (forall x :: x in odd <==> x in g && |g[x]| % 2 != 0)
  }

  // ----- the search -----

  /** Where the written part of the trail begins. */
  ghost function Anchor(path: seq<Step>, e: int): int {
    if path == [] then e else path[|path| - 1].0
  }

  ghost predicate Conserved(g0: Graph, g: Graph, stack: seq<int>, path: seq<Step>) {
    forall x :: Left(g, x) + (Met(Reversed(path), x) + StackMet(stack, x)) == All(g0, x)
  }

  ghost predicate OddAt(g: Graph, a: int, b: int) {
    forall x :: |Left(g, x)| % 2 == (Is(x, a) + Is(x, b)) % 2
  }

  ghost predicate Emptied(g: Graph, path: seq<Step>) {
    forall i :: 0 <= i < |path| ==> Left(g, path[i].1) == multiset{}
  }

  /**
   * What every step of the search keeps: the entries not visited, the stack and the path share out the edges; the
   * path is a trail; and what is left has odd degree at most at the top of the stack and where the path begins.
   */
  ghost predicate Searched(g0: Graph, g: Graph, stack: seq<int>, path: seq<Step>, start: int, e: int) {
    && Undirected(g)
    && Trail(Reversed(path), Anchor(path, e), e)
    && Conserved(g0, g, stack, path)
    && Emptied(g, path)
    && (if stack == [] then
          Anchor(path, e) == start && Left(g, start) == multiset{} && OddAt(g, start, start)
        else
          stack[0] == start && OddAt(g, stack[|stack| - 1], Anchor(path, e)))
    && Sum(FreeSizes(g)) + 2 * |path| + 2 * (if stack == [] then 0 else |stack| - 1) == Sum(Sizes(g0))
  }

  lemma SearchStart(g: Graph, start: int, e: int)
    requires Undirected(g) && Fresh(g)
    requires forall x :: |All(g, x)| % 2 == (Is(x, start) + Is(x, e)) % 2
    ensures Searched(g, g, [start], [], start, e)
  {
    hide Undirected, Is, Sum, Sizes, FreeSizes, All, Left, Met, StackMet;
    FreshSizes(g);
    assert Fresh(g);
    assert Conserved(g, g, [start], []) by {
      forall x
        ensures Left(g, x) + (Met(Reversed([]), x) + StackMet([start], x)) == All(g, x)
      {
        NothingMet(start, x);
        Associate(Left(g, x), multiset{}, multiset{});
      }
    }
    assert OddAt(g, start, e) by {
      assert forall x :: Left(g, x) == All(g, x);
    }
  }

  lemma NothingMet(start: int, x: int)
    ensures Met(Reversed([]), x) == multiset{} && StackMet([start], x) == multiset{} && StackMet([], x) == multiset{}
  {
  }

  lemma MetStep(e: Step, t: seq<Step>, x: int)
    ensures Met([e] + t, x) == Near(e, x) + Met(t, x)
  {
    assert ([e] + t)[1..] == t;
  }

  lemma FreshSizes(g: Graph)
    requires Fresh(g)
    ensures FreeSizes(g) == Sizes(g)
  {
    forall x | x in g
      ensures |Free(g[x])| == |g[x]|
    {
      assert Left(g, x) == All(g, x);
      TargetsSize(g[x]);
    }
  }

  lemma EmptyVertex(g: Graph, u: int)
    requires Undirected(g) && u !in g
    ensures var g' := g[u := []];
            && Undirected(g')
            && (forall x :: All(g', x) == All(g, x) && Left(g', x) == Left(g, x))
            && Sum(Sizes(g')) == Sum(Sizes(g)) && Sum(FreeSizes(g')) == Sum(FreeSizes(g))
  {
    hide Targets, Free, Sum;
    var g' := g[u := []];
    NoEntries();
    assert Sizes(g') == Sizes(g)[u := 0];
    SumSet(Sizes(g), u, 0);
    assert FreeSizes(g') == FreeSizes(g)[u := 0];
    SumSet(FreeSizes(g), u, 0);
    assert forall x :: Left(g', x) == Left(g, x);
  }

  lemma SearchedUndirected(g0: Graph, g: Graph, stack: seq<int>, path: seq<Step>, start: int, e: int)
    requires Searched(g0, g, stack, path, start, e)
    ensures Undirected(g)
  {
  }

  lemma SearchTouched(g0: Graph, g: Graph, g': Graph, stack: seq<int>, path: seq<Step>, start: int, e: int)
    requires Searched(g0, g, stack, path, start, e) && Undirected(g')
    requires forall x :: Left(g', x) == Left(g, x)
    requires Sum(FreeSizes(g')) == Sum(FreeSizes(g))
    ensures Searched(g0, g', stack, path, start, e)
  {
    hide Undirected, All, Left, Is, Sum, Sizes, FreeSizes, Trail, Reversed, Met, StackMet;
    forall x
      ensures Left(g', x) + (Met(Reversed(path), x) + StackMet(stack, x)) == All(g0, x)
    {
      assert Left(g, x) + (Met(Reversed(path), x) + StackMet(stack, x)) == All(g0, x);
    }
  }

  /** One more step on the stack. */
  lemma SearchPush(g0: Graph, g: Graph, g': Graph, stack: seq<int>, path: seq<Step>, start: int, e: int, v: int)
    requires Searched(g0, g, stack, path, start, e) && stack != [] && Undirected(g')
    requires forall x :: Left(g', x) + Near((stack[|stack| - 1], v), x) == Left(g, x)
    requires Sum(FreeSizes(g')) + 2 == Sum(FreeSizes(g))
    ensures Searched(g0, g', stack + [v], path, start, e)
  {
    hide Undirected, All, Left, Is, Sum, Sizes, FreeSizes, Trail, Reversed, Met, StackMet, Near;
    var u := stack[|stack| - 1];
    var stack' := stack + [v];
    assert Conserved(g0, g', stack', path) by {
      forall x
        ensures Left(g', x) + (Met(Reversed(path), x) + StackMet(stack', x)) == All(g0, x)
      {
        StackMetPush(stack, v, x);
        assert Left(g, x) + (Met(Reversed(path), x) + StackMet(stack, x)) == All(g0, x);
        assert Left(g', x) + Near((u, v), x) == Left(g, x);
        MoveNear(Left(g', x), Near((u, v), x), Met(Reversed(path), x), StackMet(stack, x));
      }
    }
    assert OddAt(g', v, Anchor(path, e)) by {
      forall x
        ensures |Left(g', x)| % 2 == (Is(x, v) + Is(x, Anchor(path, e))) % 2
      {
        assert |Left(g, x)| % 2 == (Is(x, u) + Is(x, Anchor(path, e))) % 2;
        NearSize((u, v), x);
        assert |Left(g', x) + Near((u, v), x)| == |Left(g', x)| + |Near((u, v), x)|;
      }
    }
    assert Emptied(g', path) by {
      forall i | 0 <= i < |path|
        ensures Left(g', path[i].1) == multiset{}
      {
        assert Left(g', path[i].1) + Near((u, v), path[i].1) == Left(g, path[i].1);
      }
    }
  }

  lemma StackMetPush(stack: seq<int>, v: int, x: int)
    requires stack != []
    ensures StackMet(stack + [v], x) == StackMet(stack, x) + Near((stack[|stack| - 1], v), x)
  {
    assert (stack + [v])[..|stack|] == stack;
  }

  lemma MoveNear(a: multiset<int>, n: multiset<int>, m: multiset<int>, s: multiset<int>)
    ensures a + (m + (s + n)) == (a + n) + (m + s)
    ensures a + ((n + m) + s) == a + (m + (s + n))
  {
  }

  /** Being stuck happens only where the path begins. */
  lemma StuckAtAnchor(g: Graph, u: int, anchor: int)
    requires OddAt(g, u, anchor) && Left(g, u) == multiset{}
    ensures u == anchor && forall a :: OddAt(g, a, a)
  {
    hide Left;
    assert |Left(g, u)| % 2 == (Is(u, u) + Is(u, anchor)) % 2;
  }

  lemma TrailBack(path: seq<Step>, p: int, u: int, e: int)
    requires Trail(Reversed(path), u, e)
    ensures Reversed(path + [(p, u)]) == [(p, u)] + Reversed(path)
    ensures Trail(Reversed(path + [(p, u)]), p, e)
  {
    assert (path + [(p, u)])[..|path|] == path;
    assert ([(p, u)] + Reversed(path))[1..] == Reversed(path);
  }

  /** So backing up lengthens the trail by one step. */
  lemma SearchPop(g0: Graph, g: Graph, stack: seq<int>, path: seq<Step>, start: int, e: int)
    requires Searched(g0, g, stack, path, start, e) && stack != []
    requires Left(g, stack[|stack| - 1]) == multiset{}
    ensures var stack' := stack[..|stack| - 1];
            Searched(g0, g, stack',
                     if stack' == [] then path else path + [(stack'[|stack'| - 1], stack[|stack| - 1])], start, e)
  {
    hide Undirected, All, Left, Sum, Sizes, FreeSizes, Near, Is, OddAt, Met, StackMet, Trail, Reversed;
    var u := stack[|stack| - 1];
    StuckAtAnchor(g, u, Anchor(path, e));
    var stack' := stack[..|stack| - 1];
    if stack' == [] {
      assert stack == [start];
      forall x
        ensures StackMet(stack, x) == StackMet(stack', x)
      {
        NothingMet(start, x);
      }
    } else {
      var p := stack'[|stack'| - 1];
      var path' := path + [(p, u)];
      TrailBack(path, p, u, e);
      assert stack == stack' + [u];
      assert Conserved(g0, g, stack', path') by {
        forall x
          ensures Left(g, x) + (Met(Reversed(path'), x) + StackMet(stack', x)) == All(g0, x)
        {
          StackMetPush(stack', u, x);
          MetStep((p, u), Reversed(path), x);
          assert Left(g, x) + (Met(Reversed(path), x) + StackMet(stack, x)) == All(g0, x);
          MoveNear(Left(g, x), Near((p, u), x), Met(Reversed(path), x), StackMet(stack', x));
        }
      }
    }
  }

  lemma FreeLeft(g: Graph, u: int, i: nat)
    requires u in g && i < |g[u]| && !g[u][i].1
    ensures g[u][i].0 in Left(g, u)
  {
    FreeEntry(g[u], g[u][i].0);
  }

  lemma NoneLeft(g: Graph, u: int)
    requires u in g && forall k :: 0 <= k < |g[u]| ==> g[u][k].1
    ensures Left(g, u) == multiset{}
  {
    NoneFree(g[u]);
  }

  /** The other end still has an entry to go back by. */
  lemma FoundBack(g: Graph, g1: Graph, u: int, v: int)
    requires v in g1 && u in Left(g, v) && (u == v ==> Left(g, u)[u] >= 2)
    requires forall x :: Left(g1, x) + Half((u, v), x) == Left(g, x)
    ensures exists k :: 0 <= k < |g1[v]| && g1[v][k] == (u, false)
  {
    SumAt(Left(g1, v), Half((u, v), v), u);
    assert u in Left(g1, v) by {
      hide Left;
      assert Left(g1, v) + Half((u, v), v) == Left(g, v);
    }
    FreeEntry(g1[v], u);
  }

  lemma NoneFree(es: seq<Entry>)
    requires forall k :: 0 <= k < |es| ==> es[k].1
    ensures Free(es) == multiset{}
  {
    forall v
      ensures v !in Free(es)
    {
      FreeEntry(es, v);
    }
  }

  // ----- the outcome -----

  lemma OddDegrees(g: Graph, odd: seq<int>, x: int)
    requires OddList(g, odd)
    ensures |All(g, x)| % 2 == if x in odd then 1 else 0
  {
    if x in g {
      TargetsSize(g[x]);
    }
  }

  lemma {:induction false} TrailFirst(t: seq<Step>, a: int, b: int, e: Step)
    requires Trail(t, a, b) && e in t
    ensures e.0 == a || exists d :: d in t && d.1 == e.0
  {
    var r := t[1..];
    assert t == [t[0]] + r;
    if e != t[0] {
      TrailFirst(r, t[0].1, b, e);
      if e.0 == t[0].1 {
        assert t[0] in t;
      } else {
        var d :| d in r && d.1 == e.0;
        assert d in t;
      }
    }
  }

  /** The vertices the search has been to. */
  ghost function Seen(path: seq<Step>, start: int): set<int> {
    {start} + set i | 0 <= i < |path| :: path[i].1
  }

  lemma SeenEmptied(g0: Graph, g: Graph, path: seq<Step>, start: int, e: int, x: int)
    requires Searched(g0, g, [], path, start, e) && x in Seen(path, start)
    ensures Left(g, x) == multiset{}
  {
    hide Undirected, All, Left, Sum, Sizes, FreeSizes, OddAt, Trail, Reversed, Conserved;
  }

  /** Every edge at a vertex the search has been to was walked, so its other end was seen too. */
  lemma SeenClosed(g0: Graph, g: Graph, path: seq<Step>, start: int, e: int)
    requires Searched(g0, g, [], path, start, e)
    ensures Closed(g0, Seen(path, start))
  {
    hide Undirected, Left, Sum, Sizes, FreeSizes, OddAt, All, Trail, Met, StackMet, Emptied;
    forall x, y | x in Seen(path, start) && y in All(g0, x)
      ensures y in Seen(path, start)
    {
      SeenEmptied(g0, g, path, start, e, x);
      NothingMet(start, x);
      assert Left(g, x) + (Met(Reversed(path), x) + StackMet([], x)) == All(g0, x);
      assert y in Met(Reversed(path), x);
      MetOn(Reversed(path), x, y);
      WalkedSeen(path, start, e, x, y);
    }
  }

  lemma WalkedSeen(path: seq<Step>, start: int, e: int, x: int, y: int)
    requires Trail(Reversed(path), start, e) && ((x, y) in Reversed(path) || (y, x) in Reversed(path))
    ensures y in Seen(path, start)
  {
    hide Trail, Reversed;
    if (x, y) in Reversed(path) {
      ReversedMember(path, (x, y));
      StepSeen(path, start, (x, y));
    } else {
      TrailFirst(Reversed(path), start, e, (y, x));
      if y != start {
        var d :| d in Reversed(path) && d.1 == y;
        ReversedMember(path, d);
        StepSeen(path, start, d);
      }
    }
  }

  lemma StepSeen(path: seq<Step>, start: int, d: Step)
    requires d in path
    ensures d.1 in Seen(path, start)
  {
    var i :| 0 <= i < |path| && path[i] == d;
  }

  /** Whether every entry was visited is told by the length of the path. */
  lemma SearchCount(g0: Graph, g: Graph, path: seq<Step>, start: int, e: int)
    requires Searched(g0, g, [], path, start, e)
    ensures |path| == Sum(Sizes(g0)) / 2 <==> forall x :: Left(g, x) == multiset{}
  {
    hide Undirected, Trail, Reversed, Conserved, Emptied, Free, Sizes, Sum;
    SumZero(FreeSizes(g));
    forall k | k in FreeSizes(g)
      ensures FreeSizes(g)[k] % 2 == 0
    {
      assert |Left(g, k)| % 2 == (Is(k, start) + Is(k, start)) % 2;
    }
    SumEven(FreeSizes(g));
    NoneFreeSizes(g);
  }

  lemma NoneFreeSizes(g: Graph)
    ensures (forall k :: k in FreeSizes(g) ==> FreeSizes(g)[k] == 0) <==> forall x :: Left(g, x) == multiset{}
  {
    hide Free;
    if forall k :: k in FreeSizes(g) ==> FreeSizes(g)[k] == 0 {
      forall x
        ensures Left(g, x) == multiset{}
      {
        if x in g {
          assert FreeSizes(g)[x] == 0;
        }
      }
    }
    if forall x :: Left(g, x) == multiset{} {
      forall k | k in FreeSizes(g)
        ensures FreeSizes(g)[k] == 0
      {
        assert Left(g, k) == multiset{};
      }
    }
  }

  lemma SearchCovers(g0: Graph, g: Graph, path: seq<Step>, start: int, e: int)
    requires Searched(g0, g, [], path, start, e) && forall x :: Left(g, x) == multiset{}
    ensures Trail(Reversed(path), start, e) && Covers(g0, Reversed(path))
  {
    hide Undirected, All, Left, Sum, Sizes, FreeSizes, OddAt, Trail, Reversed, Met, StackMet, Emptied;
    forall x
      ensures Met(Reversed(path), x) == All(g0, x)
    {
      NothingMet(start, x);
      assert Left(g, x) + (Met(Reversed(path), x) + StackMet([], x)) == All(g0, x);
    }
  }

  lemma SearchComplete(g0: Graph, g: Graph, path: seq<Step>, start: int, e: int)
    requires Searched(g0, g, [], path, start, e) && Reaches(g0, start)
    ensures forall x :: Left(g, x) == multiset{}
  {
    hide Undirected, All, Left, Sum, Sizes, FreeSizes, OddAt, Trail, Reversed, Met, StackMet, Emptied, Closed, Searched;
    SeenClosed(g0, g, path, start, e);
    forall x
      ensures Left(g, x) == multiset{}
    {
      if All(g0, x) != multiset{} {
        assert x in Seen(path, start);
        SeenEmptied(g0, g, path, start, e, x);
      } else {
        LeftWithin(g0, g, path, start, e, x);
      }
    }
  }

  lemma LeftWithin(g0: Graph, g: Graph, path: seq<Step>, start: int, e: int, x: int)
    requires Searched(g0, g, [], path, start, e) && All(g0, x) == multiset{}
    ensures Left(g, x) == multiset{}
  {
    hide Undirected, All, Left, Sum, Sizes, FreeSizes, OddAt, Trail, Reversed, Met, StackMet, Emptied;
    assert Left(g, x) + (Met(Reversed(path), x) + StackMet([], x)) == All(g0, x);
  }

  /** The final count accepts exactly when the path covers the graph, which it does when the edges can be reached. */
  lemma SearchResult(g0: Graph, g: Graph, path: seq<Step>, start: int, e: int)
    requires Searched(g0, g, [], path, start, e)
    ensures |path| == Sum(Sizes(g0)) / 2 ==> Trail(Reversed(path), start, e) && Covers(g0, Reversed(path))
    ensures |path| == Sum(Sizes(g0)) / 2 <==> Reaches(g0, start)
  {
    hide Searched, Trail, Covers, Reaches, Left, All, Sum, Sizes;
    SearchCount(g0, g, path, start, e);
    if |path| == Sum(Sizes(g0)) / 2 {
      SearchCovers(g0, g, path, start, e);
      TrailNecessary(g0, Reversed(path), start, e, start);
    }
    if Reaches(g0, start) {
      SearchComplete(g0, g, path, start, e);
    }
  }

  /** A closed trail from `start` needs even degrees and edges that can be reached. */
  lemma ClosedTrailNeeds(g: Graph, start: int)
    ensures (exists t :: Trail(t, start, start) && Covers(g, t)) ==>
            (forall x :: |All(g, x)| % 2 == 0) && Reaches(g, start)
  {
    if t :| Trail(t, start, start) && Covers(g, t) {
      TrailNecessary(g, t, start, start, start);
    }
  }

  // ----- what covering means -----

  /** How often `t` goes along an edge between `x` and `y`, one way or the other. */
  ghost function Uses(t: seq<Step>, x: int, y: int): nat {
    if t == [] then 0 else Uses(t[1..], x, y) + if t[0] == (x, y) || t[0] == (y, x) then 1 else 0
  }

  lemma {:induction false} MetUses(t: seq<Step>, x: int, y: int)
    ensures Met(t, x)[y] == if x == y then 2 * Uses(t, x, y) else Uses(t, x, y)
  {
    hide Near;
    if t != [] {
      MetUses(t[1..], x, y);
      NearUses(t[0], x, y);
    }
  }

  lemma NearUses(e: Step, x: int, y: int)
    ensures Near(e, x)[y] == if e == (x, y) || e == (y, x) then (if x == y then 2 else 1) else 0
  {
  }

  lemma SameCounts<T>(m: multiset<T>, n: multiset<T>)
    requires forall y :: m[y] == n[y]
    ensures m == n
  {
  }

  /** `t` goes as often between any two vertices as `edges` does. */
  ghost predicate SameUses(t: seq<Step>, edges: seq<Step>) {
    forall x, y :: Uses(t, x, y) == Uses(edges, x, y)
  }

  lemma MetSame(t: seq<Step>, edges: seq<Step>, x: int)
    requires SameUses(t, edges)
    ensures Met(t, x) == Met(edges, x)
  {
    hide Met, Uses;
    forall y
      ensures Met(t, x)[y] == Met(edges, x)[y]
    {
      MetUses(t, x, y);
      MetUses(edges, x, y);
      assert Uses(t, x, y) == Uses(edges, x, y);
    }
    SameCounts(Met(t, x), Met(edges, x));
  }

  lemma UsesSame(t: seq<Step>, edges: seq<Step>, x: int, y: int)
    requires Met(t, x) == Met(edges, x)
    ensures Uses(t, x, y) == Uses(edges, x, y)
  {
    MetUses(t, x, y);
    MetUses(edges, x, y);
  }

  /** A trail covers the graph of a list of edges exactly when it goes between any two vertices once per edge. */
  lemma CoversUses(g: Graph, edges: seq<Step>, t: seq<Step>)
    requires forall x :: All(g, x) == Met(edges, x)
    ensures Covers(g, t) <==> SameUses(t, edges)
  {
    hide All, Met, Uses;
    if Covers(g, t) {
      forall x, y
        ensures Uses(t, x, y) == Uses(edges, x, y)
      {
        assert Met(t, x) == All(g, x);
        UsesSame(t, edges, x, y);
      }
    }
    if SameUses(t, edges) {
      forall x
        ensures Met(t, x) == All(g, x)
      {
        MetSame(t, edges, x);
      }
    }
  }
}
