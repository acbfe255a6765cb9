/** The bounded blocking queue as a machine of steps, each taken while holding its lock. */
module QueueProtocol {
  import opened Options

  type Thread = nat

  /**
   * The queue, and the threads inside `take` and `put` that released the lock to wait: those still waiting for a
   * signal, and those woken that have not got the lock back; putters with the item they hold. `put` and `taken` record
   * all the items that went in and out.
   */
  datatype State<T> = State(
    capacity: nat, queue: seq<T>,
    takers: set<Thread>, wokenTakers: set<Thread>,
    putters: map<Thread, T>, wokenPutters: map<Thread, T>,
    put: seq<T>, taken: seq<T>)

  predicate Full<T>(s: State<T>) {
    |s.queue| >= s.capacity
  }

  predicate Absent<T>(s: State<T>, t: Thread) {
    t !in s.takers && t !in s.wokenTakers && t !in s.putters && t !in s.wokenPutters
  }

  /** A signal wakes one waiting taker, any of them, or none if there is none. */
  ghost predicate TakerSignalled<T>(s: State<T>, s': State<T>) {
    if s.takers == {} then s' == s
    else exists w :: w in s.takers && s' == s.(takers := s.takers - {w}, wokenTakers := s.wokenTakers + {w})
  }

  ghost predicate PutterSignalled<T>(s: State<T>, s': State<T>) {
    if s.putters == map[] then s' == s
    else exists w :: w in s.putters &&
                     s' == s.(putters := s.putters - {w}, wokenPutters := s.wokenPutters[w := s.putters[w]])
  }

  /** `put` from the lock on: waits when the queue is full. */
  ghost predicate PutStep<T>(s: State<T>, s': State<T>, t: Thread, x: T) {
    if Full(s) then s' == s.(putters := s.putters[t := x])
    else TakerSignalled(s.(queue := s.queue + [x], put := s.put + [x]), s')
  }

  ghost predicate TakeStep<T>(s: State<T>, s': State<T>, t: Thread) {
    if s.queue == [] then s' == s.(takers := s.takers + {t})
    else PutterSignalled(s.(queue := s.queue[1..], taken := s.taken + [s.queue[0]]), s')
  }

  /** A new call. */
  ghost predicate Arrive<T(!new)>(s: State<T>, s': State<T>) {
    || (exists t: Thread, x :: Absent(s, t) && PutStep(s, s', t, x))
    || (exists t: Thread :: Absent(s, t) && TakeStep(s, s', t))
  }

  /** A woken thread gets the lock and looks again. */
  ghost predicate Resume<T>(s: State<T>, s': State<T>) {
    || (exists t :: t in s.wokenPutters && PutStep(s.(wokenPutters := s.wokenPutters - {t}), s', t, s.wokenPutters[t]))
    || (exists t :: t in s.wokenTakers && TakeStep(s.(wokenTakers := s.wokenTakers - {t}), s', t))
  }

  /** A wait may also end without a signal. */
  ghost predicate Spurious<T>(s: State<T>, s': State<T>) {
    || (exists w :: w in s.takers && s' == s.(takers := s.takers - {w}, wokenTakers := s.wokenTakers + {w}))
    || (exists w :: w in s.putters &&
                    s' == s.(putters := s.putters - {w}, wokenPutters := s.wokenPutters[w := s.putters[w]]))
  }

  ghost predicate Next<T(!new)>(s: State<T>, s': State<T>) {
    Arrive(s, s') || Resume(s, s') || Spurious(s, s')
  }

  function Started<T>(capacity: nat): State<T> {
    State(capacity, [], {}, {}, map[], map[], [], [])
  }

  // ----- what every step keeps -----

  /** No thread waits twice. */
  ghost predicate Once<T>(s: State<T>) {
    && s.takers !! s.wokenTakers && s.takers !! s.putters.Keys && s.takers !! s.wokenPutters.Keys
    && s.wokenTakers !! s.putters.Keys && s.wokenTakers !! s.wokenPutters.Keys
    && s.putters.Keys !! s.wokenPutters.Keys
  }

  ghost predicate Fifo<T>(s: State<T>) {
    s.put == s.taken + s.queue && |s.queue| <= s.capacity
  }

  /** A taker is left waiting only when the woken takers account for every item, and so with putters and free places. */
  ghost predicate NoneLost<T>(s: State<T>) {
    && (s.takers != {} ==> |s.queue| <= |s.wokenTakers|)
    && (s.putters != map[] ==> s.capacity - |s.queue| <= |s.wokenPutters|)
  }

  ghost predicate Inv<T>(s: State<T>) {
    Once(s) && Fifo(s) && NoneLost(s)
  }

  /** All there is when a thread has the lock: it is counted neither as waiting nor as woken. */
  ghost predicate Inside<T>(s: State<T>, t: Thread) {
    Once(s) && Fifo(s) && Absent(s, t)
  }

  lemma WakeTaker<T>(s: State<T>, s': State<T>)
    requires Once(s) && TakerSignalled(s, s')
    ensures Once(s') && s'.queue == s.queue && s'.put == s.put && s'.taken == s.taken && s'.capacity == s.capacity
    ensures s'.putters == s.putters && s'.wokenPutters == s.wokenPutters
    ensures s.takers != {} ==> |s'.wokenTakers| == |s.wokenTakers| + 1
    ensures s.takers == {} ==> s'.takers == {}
  {
    if s.takers != {} {
      var w :| w in s.takers && s' == s.(takers := s.takers - {w}, wokenTakers := s.wokenTakers + {w});
      assert w !in s.wokenTakers;
    }
  }

  lemma MovePutter<T>(s: State<T>, w: Thread)
    requires Once(s) && w in s.putters
    ensures var s' := s.(putters := s.putters - {w}, wokenPutters := s.wokenPutters[w := s.putters[w]]);
            Once(s') && |s'.wokenPutters| == |s.wokenPutters| + 1 && |s'.putters| == |s.putters| - 1
  {
    KeyIn(s.wokenPutters, w, s.putters[w]);
    KeyOut(s.putters, w);
  }

  lemma KeyIn<T>(m: map<Thread, T>, k: Thread, x: T)
    ensures m[k := x].Keys == m.Keys + {k}
    ensures k !in m ==> |m[k := x]| == |m| + 1
  {
    SizeOfKeys(m);
    SizeOfKeys(m[k := x]);
  }

  lemma KeyOut<T>(m: map<Thread, T>, k: Thread)
    requires k in m
    ensures (m - {k}).Keys == m.Keys - {k} && |m - {k}| == |m| - 1
  {
    SizeOfKeys(m);
    SizeOfKeys(m - {k});
  }

  lemma WakePutter<T>(s: State<T>, s': State<T>)
    requires Once(s) && PutterSignalled(s, s')
    ensures Once(s') && s'.queue == s.queue && s'.put == s.put && s'.taken == s.taken && s'.capacity == s.capacity
    ensures s'.takers == s.takers && s'.wokenTakers == s.wokenTakers
    ensures s.putters != map[] ==> |s'.wokenPutters| == |s.wokenPutters| + 1 && |s'.putters| == |s.putters| - 1
    ensures s.putters == map[] ==> s' == s
  {
    hide Once;
    if s.putters != map[] {
      var w :| w in s.putters
          && s' == s.(putters := s.putters - {w}, wokenPutters := s.wokenPutters[w := s.putters[w]]);
      MovePutter(s, w);
    }
  }

  lemma Joins<T>(s: State<T>, t: Thread, x: T)
    requires Once(s) && Absent(s, t)
    ensures Once(s.(putters := s.putters[t := x])) && Once(s.(takers := s.takers + {t}))
    ensures |s.putters[t := x]| == |s.putters| + 1 && |s.takers + {t}| == |s.takers| + 1
  {
    KeyIn(s.putters, t, x);
  }

  lemma SizeOfKeys<T>(m: map<Thread, T>)
    ensures |m| == |m.Keys|
  {
  }

  /** One woken putter fewer may leave the places short by one, which a step of it makes up for. */
  ghost predicate NoneLostBut<T>(s: State<T>, takers: nat, putters: nat) {
    && (s.takers != {} ==> |s.queue| <= |s.wokenTakers| + takers)
    && (s.putters != map[] ==> s.capacity - |s.queue| <= |s.wokenPutters| + putters)
  }

  lemma PutInv<T>(s: State<T>, s': State<T>, t: Thread, x: T)
    requires Inside(s, t) && NoneLostBut(s, 0, 1) && PutStep(s, s', t, x)
    ensures Inv(s') && s'.capacity == s.capacity
  {
    hide Once, Absent, TakerSignalled;
    if Full(s) {
      Joins(s, t, x);
    } else {
      var m := s.(queue := s.queue + [x], put := s.put + [x]);
      assert m.put == m.taken + m.queue;
      OnceQueue(s, m);
      WakeTaker(m, s');
    }
  }

  lemma TakeInv<T>(s: State<T>, s': State<T>, t: Thread)
    requires Inside(s, t) && NoneLostBut(s, 1, 0) && TakeStep(s, s', t)
    ensures Inv(s') && s'.capacity == s.capacity
  {
    hide Once, Absent, PutterSignalled;
    if s.queue == [] {
      JoinTakers(s, t);
    } else {
      var m := s.(queue := s.queue[1..], taken := s.taken + [s.queue[0]]);
      assert s.queue == [s.queue[0]] + s.queue[1..];
      assert m.put == m.taken + m.queue;
      OnceQueue(s, m);
      WakePutter(m, s');
    }
  }

  lemma JoinTakers<T>(s: State<T>, t: Thread)
    requires Once(s) && Absent(s, t)
    ensures Once(s.(takers := s.takers + {t})) && |s.takers + {t}| == |s.takers| + 1
  {
  }

  lemma OnceQueue<T>(s: State<T>, m: State<T>)
    requires Once(s) && m == s.(queue := m.queue, put := m.put, taken := m.taken)
    ensures Once(m)
  {
  }

  /** A woken thread has the lock again. */
  lemma PutterBack<T>(s: State<T>, t: Thread)
    requires Inv(s) && t in s.wokenPutters
    ensures var m := s.(wokenPutters := s.wokenPutters - {t});
            Inside(m, t) && NoneLostBut(m, 0, 1) && |m.wokenPutters| == |s.wokenPutters| - 1
  {
    KeyOut(s.wokenPutters, t);
  }

  lemma TakerBack<T>(s: State<T>, t: Thread)
    requires Inv(s) && t in s.wokenTakers
    ensures var m := s.(wokenTakers := s.wokenTakers - {t});
            Inside(m, t) && NoneLostBut(m, 1, 0) && |m.wokenTakers| == |s.wokenTakers| - 1
  {
  }

  lemma ArriveInv<T(!new)>(s: State<T>, s': State<T>)
    requires Inv(s) && Arrive(s, s')
    ensures Inv(s') && s'.capacity == s.capacity
  {
    hide PutStep, TakeStep, Absent, Once;
    if t: Thread, x :| Absent(s, t) && PutStep(s, s', t, x) {
      PutInv(s, s', t, x);
    } else {
      var t: Thread :| Absent(s, t) && TakeStep(s, s', t);
      TakeInv(s, s', t);
    }
  }

  lemma ResumeInv<T(!new)>(s: State<T>, s': State<T>)
    requires Inv(s) && Resume(s, s')
    ensures Inv(s') && s'.capacity == s.capacity
  {
    hide PutStep, TakeStep, Inv, Inside, NoneLostBut;
    if t :| t in s.wokenPutters && PutStep(s.(wokenPutters := s.wokenPutters - {t}), s', t, s.wokenPutters[t]) {
      PutterBack(s, t);
      PutInv(s.(wokenPutters := s.wokenPutters - {t}), s', t, s.wokenPutters[t]);
    } else {
      var t :| t in s.wokenTakers && TakeStep(s.(wokenTakers := s.wokenTakers - {t}), s', t);
      TakerBack(s, t);
      TakeInv(s.(wokenTakers := s.wokenTakers - {t}), s', t);
    }
  }

  lemma SpuriousInv<T>(s: State<T>, s': State<T>)
    requires Inv(s) && Spurious(s, s')
    ensures Inv(s') && s'.capacity == s.capacity
  {
    hide Inv;
    if w :| w in s.takers && s' == s.(takers := s.takers - {w}, wokenTakers := s.wokenTakers + {w}) {
      TakerWakes(s, w);
    } else {
      var w :| w in s.putters
          && s' == s.(putters := s.putters - {w}, wokenPutters := s.wokenPutters[w := s.putters[w]]);
      PutterWakes(s, w);
    }
  }

  lemma TakerWakes<T>(s: State<T>, w: Thread)
    requires Inv(s) && w in s.takers
    ensures Inv(s.(takers := s.takers - {w}, wokenTakers := s.wokenTakers + {w}))
  {
    hide Once;
    MoveTaker(s, w);
  }

  lemma PutterWakes<T>(s: State<T>, w: Thread)
    requires Inv(s) && w in s.putters
    ensures Inv(s.(putters := s.putters - {w}, wokenPutters := s.wokenPutters[w := s.putters[w]]))
  {
    hide Once;
    MovePutter(s, w);
  }

  lemma MoveTaker<T>(s: State<T>, w: Thread)
    requires Once(s) && w in s.takers
    ensures var s' := s.(takers := s.takers - {w}, wokenTakers := s.wokenTakers + {w});
            Once(s') && |s'.wokenTakers| == |s.wokenTakers| + 1
  {
  }

  // ----- every run -----

  ghost predicate Run<T(!new)>(run: seq<State<T>>, capacity: nat) {
    run != [] && run[0] == Started(capacity)
      && forall i, j :: 0 <= i && j == i + 1 && j < |run| ==> Next(run[i], run[j])
  }

  lemma NextKeeps<T(!new)>(s: State<T>, s': State<T>)
    requires Inv(s) && Next(s, s')
    ensures Inv(s') && s'.capacity == s.capacity
  {
    hide Arrive, Resume, Spurious, Inv;
    if Arrive(s, s') {
      ArriveInv(s, s');
    } else if Resume(s, s') {
      ResumeInv(s, s');
    } else {
      SpuriousInv(s, s');
    }
  }

  /**
   * In every run: the items put are those taken and then those queued, in order; the queue never exceeds its
   * capacity; and no wakeup is lost.
   */
  lemma {:induction false} RunSafe<T(!new)>(run: seq<State<T>>, capacity: nat, k: nat)
    requires Run(run, capacity) && k < |run|
    ensures run[k].put == run[k].taken + run[k].queue && |run[k].queue| <= capacity
    ensures NoneLost(run[k]) && Once(run[k]) && run[k].capacity == capacity
  {
    hide Next, Inv;
    RunInv(run, capacity, k);
    InvParts(run[k]);
  }

  lemma InvParts<T>(s: State<T>)
    requires Inv(s)
    ensures s.put == s.taken + s.queue && |s.queue| <= s.capacity && NoneLost(s) && Once(s)
  {
  }

  lemma {:induction false} RunInv<T(!new)>(run: seq<State<T>>, capacity: nat, k: nat)
    requires Run(run, capacity) && k < |run|
    ensures Inv(run[k]) && run[k].capacity == capacity
  {
    if k == 0 {
      assert Inv(Started<T>(capacity));
    } else {
      hide Next, Inv;
      RunInv(run, capacity, k - 1);
      NextKeeps(run[k - 1], run[k]);
    }
  }

  // ----- what is offered -----

  ghost function ItemOf<T>(offer: Option<T>): multiset<T> {
    match offer
    case Some(x) => multiset{x}
    case None => multiset{}
  }

  /** The items of all calls of `put` so far: at each step there was one, or there was none. */
  ghost function Offered<T>(offers: seq<Option<T>>): multiset<T> {
    if offers == [] then multiset{}
    else Offered(offers[..|offers| - 1]) + ItemOf(offers[|offers| - 1])
  }

  /** A run with the item offered at each step by a new call of `put`, if there was one. */
  ghost predicate Calls<T(!new)>(run: seq<State<T>>, offers: seq<Option<T>>, capacity: nat) {
    && |run| == |offers| + 1 && run[0] == Started(capacity)
    && forall i, j :: 0 <= i < |offers| && j == i + 1 ==> Called(run[i], run[j], offers[i])
  }

  ghost predicate Called<T(!new)>(s: State<T>, s': State<T>, offer: Option<T>) {
    match offer
    case Some(x) => exists t: Thread :: Absent(s, t) && PutStep(s, s', t, x)
    case None => (exists t: Thread :: Absent(s, t) && TakeStep(s, s', t)) || Resume(s, s') || Spurious(s, s')
  }

  /** The items of a group of waiting threads. */
  ghost function Bag<T>(m: map<Thread, T>): multiset<T>
    decreases |m.Keys|
  {
    if m == map[] then multiset{}
    else
      var t :| t in m;
      multiset{m[t]} + Bag(m - {t})
  }

  ghost function Held<T>(s: State<T>): multiset<T> {
    Bag(s.putters) + Bag(s.wokenPutters)
  }

  lemma BagSome<T>(m: map<Thread, T>) returns (t: Thread)
    requires m != map[]
    ensures t in m && Bag(m) == multiset{m[t]} + Bag(m - {t})
  {
    t :| t in m && Bag(m) == multiset{m[t]} + Bag(m - {t});
  }

  lemma TwoOut<T>(m: map<Thread, T>, mt: map<Thread, T>, mu: map<Thread, T>, t: Thread, u: Thread)
    requires t in m && u in m && t != u && mt == m - {t} && mu == m - {u}
    ensures t in mu && mu[t] == m[t] && u in mt && mt[u] == m[u] && mu - {t} == mt - {u}
    ensures |mt.Keys| < |m.Keys| && |mu.Keys| < |m.Keys|
  {
    assert mt.Keys == m.Keys - {t} && mu.Keys == m.Keys - {u};
  }

  lemma {:induction false} BagAt<T>(m: map<Thread, T>, t: Thread)
    requires t in m
    ensures Bag(m) == multiset{m[t]} + Bag(m - {t})
    decreases |m.Keys|
  {
    var u := BagSome(m);
    if u != t {
      hide Bag;
      var mt, mu := m - {t}, m - {u};
      TwoOut(m, mt, mu, t, u);
      BagAt(mu, t);
      BagAt(mt, u);
    }
  }

  lemma BagIn<T>(m: map<Thread, T>, t: Thread, x: T)
    requires t !in m
    ensures Bag(m[t := x]) == Bag(m) + multiset{x}
  {
    BagAt(m[t := x], t);
    assert m[t := x] - {t} == m;
  }

  /** A putter that wakes up still holds its item. */
  lemma MoveHeld<T>(s: State<T>, w: Thread)
    requires Once(s) && w in s.putters
    ensures Held(s.(putters := s.putters - {w}, wokenPutters := s.wokenPutters[w := s.putters[w]])) == Held(s)
  {
    hide Bag;
    BagAt(s.putters, w);
    BagIn(s.wokenPutters, w, s.putters[w]);
  }

  lemma PutHeld<T>(s: State<T>, s': State<T>, t: Thread, x: T)
    requires Once(s) && Absent(s, t) && PutStep(s, s', t, x)
    ensures multiset(s'.put) + Held(s') == multiset(s.put) + Held(s) + multiset{x}
  {
    hide Once, Bag;
    if Full(s) {
      BagIn(s.putters, t, x);
    } else {
      var m := s.(queue := s.queue + [x], put := s.put + [x]);
      OnceQueue(s, m);
      WakeTaker(m, s');
    }
  }

  lemma TakeHeld<T>(s: State<T>, s': State<T>, t: Thread)
    requires Once(s) && TakeStep(s, s', t)
    ensures s'.put == s.put && Held(s') == Held(s)
  {
    hide Once, Bag;
    if s.queue != [] {
      var m := s.(queue := s.queue[1..], taken := s.taken + [s.queue[0]]);
      OnceQueue(s, m);
      if m.putters != map[] {
        var w :| w in m.putters
            && s' == m.(putters := m.putters - {w}, wokenPutters := m.wokenPutters[w := m.putters[w]]);
        MoveHeld(m, w);
      }
    }
  }

  lemma ResumeHeld<T(!new)>(s: State<T>, s': State<T>)
    requires Inv(s) && Resume(s, s')
    ensures multiset(s'.put) + Held(s') == multiset(s.put) + Held(s)
  {
    hide PutStep, TakeStep, Inv, NoneLostBut, Once, Bag;
    if t :| t in s.wokenPutters && PutStep(s.(wokenPutters := s.wokenPutters - {t}), s', t, s.wokenPutters[t]) {
      PutterBack(s, t);
      PutHeld(s.(wokenPutters := s.wokenPutters - {t}), s', t, s.wokenPutters[t]);
      BagAt(s.wokenPutters, t);
    } else {
      var t :| t in s.wokenTakers && TakeStep(s.(wokenTakers := s.wokenTakers - {t}), s', t);
      TakerBack(s, t);
      TakeHeld(s.(wokenTakers := s.wokenTakers - {t}), s', t);
    }
  }

  lemma CalledHeld<T(!new)>(s: State<T>, s': State<T>, offer: Option<T>)
    requires Inv(s) && Called(s, s', offer)
    ensures multiset(s'.put) + Held(s') == multiset(s.put) + Held(s) + ItemOf(offer)
  {
    hide Resume, Spurious, PutStep, TakeStep, Absent, Once, Held, Fifo, NoneLost;
    match offer
    case Some(x) =>
      var t: Thread :| Absent(s, t) && PutStep(s, s', t, x);
      PutHeld(s, s', t, x);
    case None =>
      if t: Thread :| Absent(s, t) && TakeStep(s, s', t) {
        TakeHeld(s, s', t);
      } else if Resume(s, s') {
        ResumeHeld(s, s');
      } else {
        SpuriousHeld(s, s');
      }
  }

  lemma SpuriousHeld<T>(s: State<T>, s': State<T>)
    requires Once(s) && Spurious(s, s')
    ensures s'.put == s.put && Held(s') == Held(s)
  {
    hide Once, Bag;
    if s'.putters != s.putters {
      var w :| w in s.putters &&
               s' == s.(putters := s.putters - {w}, wokenPutters := s.wokenPutters[w := s.putters[w]]);
      MoveHeld(s, w);
    } else if w :| w in s.takers && s' == s.(takers := s.takers - {w}, wokenTakers := s.wokenTakers + {w}) {
      assert Held(s') == Held(s);
    }
  }

  lemma CallsRun<T(!new)>(run: seq<State<T>>, offers: seq<Option<T>>, capacity: nat)
    requires Calls(run, offers, capacity)
    ensures Run(run, capacity)
  {
    hide PutStep, TakeStep, Absent, Resume, Spurious;
    forall i, j | 0 <= i && j == i + 1 && j < |run|
      ensures Next(run[i], run[j])
    {
      assert Called(run[i], run[j], offers[i]);
    }
  }

  /** In every run no item is lost, doubled or exchanged: those offered are the ones taken, the ones queued, and the
      ones that waiting putters hold. */
  lemma {:induction false} OffersKept<T(!new)>(run: seq<State<T>>, offers: seq<Option<T>>, capacity: nat, k: nat)
    requires Calls(run, offers, capacity) && k <= |offers|
    ensures Offered(offers[..k]) == multiset(run[k].taken) + multiset(run[k].queue) + Held(run[k])
  {
    hide Called, Once, NoneLost;
    CallsRun(run, offers, capacity);
    RunInv(run, capacity, k);
    if k > 0 {
      OffersKept(run, offers, capacity, k - 1);
      assert offers[..k][..k - 1] == offers[..k - 1];
      RunInv(run, capacity, k - 1);
      CalledHeld(run[k - 1], run[k], offers[k - 1]);
    }
  }

  // ----- progress -----

  /** No woken thread is left to go on. */
  ghost predicate Resting<T>(s: State<T>) {
    s.wokenTakers == {} && s.wokenPutters == map[]
  }

  /** At rest takers wait only at an empty queue and putters only at a full one, so both only if the capacity is 0. */
  lemma AtRest<T>(s: State<T>)
    requires Inv(s) && Resting(s)
    ensures s.takers != {} ==> s.queue == []
    ensures s.putters != map[] ==> |s.queue| == s.capacity
    ensures s.capacity > 0 ==> s.takers == {} || s.putters == map[]
  {
  }

  /** Threads inside the two calls, and the woken ones once more. */
  ghost function Measure<T>(s: State<T>): nat {
    (|s.takers| + |s.wokenTakers| + |s.putters| + |s.wokenPutters|) + (|s.wokenTakers| + |s.wokenPutters|)
  }

  lemma PutMeasure<T>(s: State<T>, s': State<T>, t: Thread, x: T)
    requires Inside(s, t) && PutStep(s, s', t, x)
    ensures Measure(s') <= Measure(s) + 1
  {
    hide Once, Absent;
    if Full(s) {
      Joins(s, t, x);
    } else {
      var m := s.(queue := s.queue + [x], put := s.put + [x]);
      OnceQueue(s, m);
      if m.takers != {} {
        var w :| w in m.takers && s' == m.(takers := m.takers - {w}, wokenTakers := m.wokenTakers + {w});
        MoveTaker(m, w);
      }
    }
  }

  lemma TakeMeasure<T>(s: State<T>, s': State<T>, t: Thread)
    requires Inside(s, t) && TakeStep(s, s', t)
    ensures Measure(s') <= Measure(s) + 1
  {
    hide Once, Absent;
    if s.queue == [] {
      JoinTakers(s, t);
    } else {
      var m := s.(queue := s.queue[1..], taken := s.taken + [s.queue[0]]);
      OnceQueue(s, m);
      WakePutter(m, s');
    }
  }

  /** Every time a woken thread goes on there is less to do. */
  lemma ResumeLess<T(!new)>(s: State<T>, s': State<T>)
    requires Inv(s) && Resume(s, s')
    ensures Measure(s') < Measure(s)
  {
    hide PutStep, TakeStep, Inv, Inside, NoneLostBut;
    if t :| t in s.wokenPutters && PutStep(s.(wokenPutters := s.wokenPutters - {t}), s', t, s.wokenPutters[t]) {
      PutterBack(s, t);
      PutMeasure(s.(wokenPutters := s.wokenPutters - {t}), s', t, s.wokenPutters[t]);
    } else {
      var t :| t in s.wokenTakers && TakeStep(s.(wokenTakers := s.wokenTakers - {t}), s', t);
      TakerBack(s, t);
      TakeMeasure(s.(wokenTakers := s.wokenTakers - {t}), s', t);
    }
  }

  /** Left alone, the woken threads come to rest: they cannot wake each other for ever. */
  lemma {:induction false} ComesToRest<T(!new)>(run: seq<State<T>>)
    requires run != [] && Inv(run[0])
    requires forall i, j :: 0 <= i && j == i + 1 && j < |run| ==> Resume(run[i], run[j])
    ensures |run| - 1 <= Measure(run[0])
    decreases |run|
  {
    hide Inv, Resume, Measure;
    if |run| > 1 {
      assert Resume(run[0], run[1]);
      ResumeInv(run[0], run[1]);
      ResumeLess(run[0], run[1]);
      var tail := run[1..];
      assert forall i, j :: 0 <= i && j == i + 1 && j < |tail| ==> Resume(tail[i], tail[j]) by {
        forall i, j | 0 <= i && j == i + 1 && j < |tail|
          ensures Resume(tail[i], tail[j])
        {
          assert Resume(run[i + 1], run[j + 1]);
        }
      }
      ComesToRest(tail);
    }
  }

  ghost predicate Deadlocked<T>(s: State<T>) {
    Resting(s) && s.takers != {} && s.putters != map[]
  }

  /** A taker and a putter can wait for each other exactly when the queue was made with no room at all. */
  lemma DeadlockOnlyEmpty<T(!new)>(capacity: nat, x: T)
    ensures (exists run: seq<State<T>>, k: nat :: Run(run, capacity) && k < |run| && Deadlocked(run[k])) <==>
            capacity == 0
  {
    if run: seq<State<T>>, k: nat :| Run(run, capacity) && k < |run| && Deadlocked(run[k]) {
      RunInv(run, capacity, k);
      AtRest(run[k]);
    }
    if capacity == 0 {
      var s0: State<T> := Started(0);
      var s1 := s0.(takers := s0.takers + {1});
      var s2 := s1.(putters := s1.putters[2 := x]);
      assert TakeStep(s0, s1, 1) && Absent(s0, 1);
      assert PutStep(s1, s2, 2, x) && Absent(s1, 2);
      var run := [s0, s1, s2];
      assert 2 in s2.putters && 1 in s2.takers;
      assert Run(run, 0) && Deadlocked(run[2]);
    }
  }
}
