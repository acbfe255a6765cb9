/** Over any run of requests the two maps of the registry agree, and each server lives by its
    own lease whatever the other servers do. */
module RegistryRuns {
  import opened Ints
  import opened Options
  import opened RegistryKeys
  import opened Registry

  datatype Request = Register(name: string, a: Address, now: int) | Unregister(e: Entry)
                   | Heartbeat(e: Entry, now: int) | CleanUp(now: int)

  ghost predicate Registered(st: State, e: Entry) {
    Holds(ListOf(st, e.name), e.ip, e.port)
  }

  ghost predicate Once(list: seq<Address>) {
    forall i, j :: 0 <= i < j < |list| ==> !At(list[j], list[i].ip, list[i].port)
  }

  /** No list is empty or names a server twice, and the heartbeats are those of the servers listed. */
  ghost predicate Agree(st: State) {
    && (forall n :: n in st.services ==> st.services[n] != [] && Once(st.services[n]))
    && (forall e :: Registered(st, e) ==> Acceptable(e) && InInt(e.port) && Clean(e) && KeyOf(e) in st.beats)
    && (forall key :: key in st.beats ==> exists e :: Registered(st, e) && KeyOf(e) == key)
  }

  /** When a listed server was last heard of. */
  ghost function LastOf(st: State, e: Entry): Option<int> {
    if Registered(st, e) && KeyOf(e) in st.beats then Some(st.beats[KeyOf(e)]) else None
  }

  ghost predicate Step(st: State, r: Request, next: State) {
    match r
    case Register(name, a, now) => next == Registering(st, name, a, now).0
    case Unregister(e) => next == Unregistering(st, e).0
    case Heartbeat(e, now) => next == Beating(st, e, now).0
    case CleanUp(now) => exists order :: SilentOrder(st, now, order) && DroppingAll(st, order) == Some(next)
  }

  ghost predicate CleanRequest(r: Request) {
    match r
    case Register(name, a, _) => Clean(EntryOf(name, a)) && InInt(a.port)
    case Heartbeat(e, _) => Clean(e) && InInt(e.port)
    case _ => true
  }

  /** How a request moves the lease of one server. */
  ghost function NextLease(lease: Option<int>, e: Entry, r: Request): Option<int> {
    match r
    case Register(name, a, now) => if EntryOf(name, a) == e && Acceptable(e) && lease.None? then Some(now) else lease
    case Unregister(f) => if f == e then None else lease
    case Heartbeat(f, now) => if f == e && lease.Some? then Some(now) else lease
    case CleanUp(now) => if lease.Some? && now - lease.value > 30 then None else lease
  }

  ghost function Lease(e: Entry, rs: seq<Request>): Option<int> {
    if rs == [] then None else NextLease(Lease(e, rs[..|rs| - 1]), e, rs[|rs| - 1])
  }

  ghost predicate Run(states: seq<State>, rs: seq<Request>) {
    && |states| == |rs| + 1 && states[0] == State(map[], map[])
    && (forall i, j :: 0 <= i < |rs| && j == i + 1 ==> Step(states[i], rs[i], states[j]))
    && (forall i :: 0 <= i < |rs| ==> CleanRequest(rs[i]))
  }

  // ----- lists -----

  lemma HoldsFirst(list: seq<Address>, ip: string, port: int)
    requires list != []
    ensures Holds(list, ip, port) <==> At(list[0], ip, port) || Holds(list[1..], ip, port)
  {
    if Holds(list, ip, port) && !At(list[0], ip, port) {
      var i :| 0 <= i < |list| && At(list[i], ip, port);
      assert list[1..][i - 1] == list[i];
    }
    if Holds(list[1..], ip, port) {
      var i :| 0 <= i < |list[1..]| && At(list[1..][i], ip, port);
      assert list[i + 1] == list[1..][i];
    }
  }

  lemma HoldsPush(list: seq<Address>, a: Address, ip: string, port: int)
    ensures Holds(list + [a], ip, port) <==> Holds(list, ip, port) || At(a, ip, port)
  {
    if Holds(list, ip, port) {
      var i :| 0 <= i < |list| && At(list[i], ip, port);
      assert (list + [a])[i] == list[i];
    }
    assert (list + [a])[|list|] == a;
  }

  lemma OncePush(list: seq<Address>, a: Address)
    requires Once(list) && !Holds(list, a.ip, a.port)
    ensures Once(list + [a])
  {
    forall i | 0 <= i < |list|
      ensures !At(a, list[i].ip, list[i].port)
    {
      assert !At(list[i], a.ip, a.port);
    }
  }

  lemma {:induction false} ErasedHolds(list: seq<Address>, ip: string, port: int)
    requires Once(list)
    ensures Once(Erased(list, ip, port))
    ensures forall x, p :: Holds(Erased(list, ip, port), x, p) <==> Holds(list, x, p) && !(x == ip && p == port)
  {
    if list != [] {
      hide Erased;
      var rest := list[1..];
      ErasedHolds(rest, ip, port);
      OnceRest(list);
      ErasedStep(list, ip, port);
      forall x, p
        ensures Holds(Erased(list, ip, port), x, p) <==> Holds(list, x, p) && !(x == ip && p == port)
      {
        HoldsFirst(list, x, p);
        if !At(list[0], ip, port) {
          HoldsFirst([list[0]] + Erased(rest, ip, port), x, p);
          assert ([list[0]] + Erased(rest, ip, port))[1..] == Erased(rest, ip, port);
        }
      }
      if !At(list[0], ip, port) {
        OnceFront(list[0], Erased(rest, ip, port));
      }
    }
  }

  lemma ErasedStep(list: seq<Address>, ip: string, port: int)
    requires list != []
    ensures Erased(list, ip, port) ==
            if At(list[0], ip, port) then list[1..] else [list[0]] + Erased(list[1..], ip, port)
  {
  }

  lemma OnceRest(list: seq<Address>)
    requires Once(list) && list != []
    ensures Once(list[1..]) && !Holds(list[1..], list[0].ip, list[0].port)
  {
  }

  lemma OnceFront(a: Address, list: seq<Address>)
    requires Once(list) && !Holds(list, a.ip, a.port)
    ensures Once([a] + list)
  {
  }

  // ----- one request -----

  /** A new server, and no other, becomes listed and heard of. */
  lemma RegisterAgrees(st: State, name: string, a: Address, now: int)
    requires Agree(st) && Clean(EntryOf(name, a)) && InInt(a.port)
    ensures var next := Registering(st, name, a, now).0;
            Agree(next) && forall e :: LastOf(next, e) == NextLease(LastOf(st, e), e, Register(name, a, now))
  {
    hide KeyOf, Holds, Clean;
    var f := EntryOf(name, a);
    var next := Registering(st, name, a, now).0;
    if Acceptable(f) && !Registered(st, f) {
      OncePush(ListOf(st, name), a);
      forall e
        ensures Registered(next, e) <==> Registered(st, e) || e == f
        ensures Registered(st, e) ==> KeyOf(e) != KeyOf(f)
      {
        HoldsPush(ListOf(st, name), a, e.ip, e.port);
        if Registered(st, e) {
          KeysApart(e, f);
        }
      }
      forall key | key in next.beats
        ensures exists e :: Registered(next, e) && KeyOf(e) == key
      {
        if key == KeyOf(f) {
          assert Registered(next, f);
        } else {
          var e :| Registered(st, e) && KeyOf(e) == key;
          assert Registered(next, e);
        }
      }
    }
  }

  /** One server, and no other, is no longer listed. */
  lemma UnregisterAgrees(st: State, f: Entry)
    requires Agree(st)
    ensures var next := Unregistering(st, f).0;
            Agree(next) && forall e :: LastOf(next, e) == if e == f then None else LastOf(st, e)
  {
    hide KeyOf, Holds, Clean, Erased;
    var next := Unregistering(st, f).0;
    if Registered(st, f) {
      ErasedHolds(ListOf(st, f.name), f.ip, f.port);
      NoneHeld(f.ip, f.port);
      forall e
        ensures Registered(next, e) <==> Registered(st, e) && e != f
        ensures Registered(st, e) && e != f ==> KeyOf(e) != KeyOf(f)
      {
        NoneHeld(e.ip, e.port);
        if Registered(st, e) {
          KeysApart(e, f);
        }
      }
      forall key | key in next.beats
        ensures exists e :: Registered(next, e) && KeyOf(e) == key
      {
        var e :| Registered(st, e) && KeyOf(e) == key;
        assert Registered(next, e);
      }
    }
  }

  lemma NoneHeld(ip: string, port: int)
    ensures !Holds([], ip, port)
  {
  }

  lemma HeartbeatAgrees(st: State, f: Entry, now: int)
    requires Agree(st) && Clean(f) && InInt(f.port)
    ensures var next := Beating(st, f, now).0;
            Agree(next) && forall e :: LastOf(next, e) == NextLease(LastOf(st, e), e, Heartbeat(f, now))
  {
    hide KeyOf, Holds, Clean;
    var next := Beating(st, f, now).0;
    assert next.services == st.services;
    forall e
      ensures Registered(next, e) <==> Registered(st, e)
      ensures Registered(st, e) && KeyOf(e) == KeyOf(f) ==> e == f
    {
      if Registered(st, e) {
        KeysApart(e, f);
      }
    }
    if KeyOf(f) in st.beats {
      var e :| Registered(st, e) && KeyOf(e) == KeyOf(f);
    }
    forall key | key in next.beats
      ensures exists e :: Registered(next, e) && KeyOf(e) == key
    {
      var e :| Registered(st, e) && KeyOf(e) == key;
      assert Registered(next, e);
    }
  }

  /** Cleaning up the key of a listed server unregisters it. */
  lemma DropUnregisters(st: State, e: Entry)
    requires Agree(st) && Registered(st, e)
    ensures Dropping(st, KeyOf(e)) == Some(Unregistering(st, e).0)
  {
    hide KeyOf, Parse, Clean;
    ParseBack(e);
  }

  /** In whatever order the silent keys are cleaned up, none fails, and exactly their servers go. */
  lemma {:induction false} CleanUpAgrees(st: State, keys: seq<string>)
    requires Agree(st) && forall key :: key in keys ==> key in st.beats
    requires forall i, j :: 0 <= i < j < |keys| ==> keys[i] != keys[j]
    ensures DroppingAll(st, keys).Some?
    ensures var next := DroppingAll(st, keys).value;
            Agree(next) && forall e :: LastOf(next, e) == if KeyOf(e) in keys then None else LastOf(st, e)
    decreases |keys|
  {
    hide KeyOf, Agree, Dropping, LastOf;
    if keys != [] {
      assert keys[0] in keys;
      var f := Owner(st, keys[0]);
      DropUnregisters(st, f);
      UnregisterAgrees(st, f);
      var next := Unregistering(st, f).0;
      assert next.beats == st.beats - {keys[0]};
      CleanUpAgrees(next, keys[1..]);
      forall e
        ensures KeyOf(e) in keys <==> KeyOf(e) == keys[0] || KeyOf(e) in keys[1..]
        ensures KeyOf(e) == keys[0] ==> e == f || LastOf(st, e).None?
      {
        assert keys == [keys[0]] + keys[1..];
        OneOwner(st, e, f);
      }
    }
  }

  /** A heartbeat belongs to one listed server. */
  lemma Owner(st: State, key: string) returns (f: Entry)
    requires Agree(st) && key in st.beats
    ensures Registered(st, f) && KeyOf(f) == key
  {
    f :| Registered(st, f) && KeyOf(f) == key;
  }

  lemma OneOwner(st: State, e: Entry, f: Entry)
    requires Agree(st) && Registered(st, f)
    ensures KeyOf(e) == KeyOf(f) ==> e == f || LastOf(st, e).None?
  {
    hide KeyOf, Clean, Holds;
    if Registered(st, e) {
      KeysApart(e, f);
    }
  }

  lemma StepLease(st: State, r: Request, next: State)
    requires Agree(st) && CleanRequest(r) && Step(st, r, next)
    ensures Agree(next) && forall e :: LastOf(next, e) == NextLease(LastOf(st, e), e, r)
  {
    hide Agree, LastOf, Registering, Unregistering, Beating, Clean;
    match r
    case Register(name, a, now) => RegisterAgrees(st, name, a, now);
    case Unregister(e) => UnregisterAgrees(st, e);
    case Heartbeat(e, now) => HeartbeatAgrees(st, e, now);
    case CleanUp(now) =>
      var order :| SilentOrder(st, now, order) && DroppingAll(st, order) == Some(next);
      CleanUpAgrees(st, order);
      forall e
        ensures LastOf(next, e) == NextLease(LastOf(st, e), e, r)
      {
        SilentLease(st, now, order, e);
      }
  }

  lemma SilentLease(st: State, now: int, order: seq<string>, e: Entry)
    requires SilentOrder(st, now, order)
    ensures (if KeyOf(e) in order then None else LastOf(st, e)) == NextLease(LastOf(st, e), e, CleanUp(now))
  {
  }

  // ----- whole runs -----

  /** After any run of clean requests the maps agree, and each server is listed, with its last
      sign of life, exactly as its own lease says. */
  lemma {:induction false} RunLeases(states: seq<State>, rs: seq<Request>)
    requires Run(states, rs)
    ensures Agree(states[|rs|]) && forall e :: LastOf(states[|rs|], e) == Lease(e, rs)
    decreases |rs|
  {
    hide LastOf, Agree, NextLease, CleanRequest, Step;
    var n := |rs|;
    if n == 0 {
      EmptyAgrees();
    } else {
      RunLeases(states[..n], rs[..n - 1]);
      StepLease(states[n - 1], rs[n - 1], states[n]);
      assert states[..n][n - 1] == states[n - 1];
    }
  }

  lemma EmptyAgrees()
    ensures Agree(State(map[], map[])) && forall e :: LastOf(State(map[], map[]), e) == None
  {
  }

  /** Discovery lists exactly the servers of the service whose lease holds, each once. */
  lemma DiscoverLeases(states: seq<State>, rs: seq<Request>, name: string, ip: string, port: int)
    requires Run(states, rs)
    ensures var list := ListOf(states[|rs|], name);
            Once(list) && (Holds(list, ip, port) <==> Lease(Entry(name, ip, port), rs).Some?)
  {
    hide Lease, KeyOf, Clean, Holds;
    var st, e := states[|rs|], Entry(name, ip, port);
    hide Run;
    RunLeases(states, rs);
    assert LastOf(st, e) == Lease(e, rs);
    assert Registered(st, e) ==> KeyOf(e) in st.beats;
  }

  // ----- what the answers mean -----

  /** A registration succeeds exactly if the entry is acceptable and its server holds no lease. */
  lemma RegisterAnswer(states: seq<State>, rs: seq<Request>, name: string, a: Address, now: int)
    requires Run(states, rs)
    ensures Registering(states[|rs|], name, a, now).1 ==
            if name == "" || a.ip == "" || a.port <= 0 then InvalidParam
            else if Lease(EntryOf(name, a), rs).Some? then AlreadyExists else RegisterSuccess
  {
    hide Run, Lease, Holds, Agree;
    LeaseListed(states, rs, EntryOf(name, a));
  }

  lemma UnregisterAnswer(states: seq<State>, rs: seq<Request>, e: Entry)
    requires Run(states, rs)
    ensures Unregistering(states[|rs|], e).1 == if Lease(e, rs).Some? then UnregisterSuccess else NotFound
  {
    hide Run, Lease, Holds, Agree, Erased;
    LeaseListed(states, rs, e);
  }

  /** A heartbeat is answered by the lease under the same key, which for a clean entry is its own. */
  lemma HeartbeatAnswer(states: seq<State>, rs: seq<Request>, e: Entry, now: int)
    requires Run(states, rs)
    ensures Beating(states[|rs|], e, now).1 == HeartbeatSuccess <==>
              exists f :: Lease(f, rs).Some? && KeyOf(f) == KeyOf(e)
    ensures Clean(e) && InInt(e.port) ==>
              Beating(states[|rs|], e, now).1 == if Lease(e, rs).Some? then HeartbeatSuccess else NotRegistered
  {
    hide Lease, Holds, KeyOf, Clean;
    var st := states[|rs|];
    hide Run;
    RunLeases(states, rs);
    forall f
      ensures Lease(f, rs).Some? <==> Registered(st, f)
    {
      LeaseListed(states, rs, f);
    }
    if KeyOf(e) in st.beats {
      var f := Owner(st, KeyOf(e));
      assert Lease(f, rs).Some?;
      if Clean(e) && InInt(e.port) {
        KeysApart(e, f);
      }
    }
  }

  lemma LeaseListed(states: seq<State>, rs: seq<Request>, e: Entry)
    requires Run(states, rs)
    ensures Lease(e, rs).Some? <==> Registered(states[|rs|], e)
  {
    hide Lease, KeyOf, Clean, Holds;
    var st := states[|rs|];
    hide Run;
    RunLeases(states, rs);
    assert LastOf(st, e) == Lease(e, rs);
    assert Registered(st, e) ==> KeyOf(e) in st.beats;
  }

  // ----- the order of the lists -----

  /** The number of the request that began the lease a server holds. */
  ghost function Start(e: Entry, rs: seq<Request>): Option<nat> {
    if Lease(e, rs).None? then None
    else
      var n := |rs| - 1;
      if Lease(e, rs[..n]).None? then Some(n) else Start(e, rs[..n])
  }

  /** The servers are as they were registered, in the order in which their leases began. */
  ghost predicate InOrder(list: seq<Address>, name: string, rs: seq<Request>) {
    && (forall i :: 0 <= i < |list| ==> BegunBy(list[i], name, rs))
    && (forall i, j :: 0 <= i < j < |list| ==> Before(list[i], list[j], name, rs))
  }

  ghost predicate BegunBy(a: Address, name: string, rs: seq<Request>) {
    match Start(EntryOf(name, a), rs)
    case None => false
    case Some(k) => k < |rs| && rs[k].Register? && rs[k].name == name && rs[k].a == a
  }

  ghost predicate Before(a: Address, b: Address, name: string, rs: seq<Request>) {
    var k, l := Start(EntryOf(name, a), rs), Start(EntryOf(name, b), rs);
    k.Some? && l.Some? && k.value < l.value
  }

  lemma FirstAt(list: seq<Address>, ip: string, port: int) returns (i: nat)
    requires Holds(list, ip, port)
    ensures i < |list| && At(list[i], ip, port) && forall j :: 0 <= j < i ==> !At(list[j], ip, port)
  {
    i := 0;
    while !At(list[i], ip, port)
      invariant i < |list| && forall j :: 0 <= j < i ==> !At(list[j], ip, port)
      decreases |list| - i
    {
      i := i + 1;
    }
  }

  lemma ErasedOrder(list: seq<Address>, name: string, rs: seq<Request>, ip: string, port: int)
    requires InOrder(list, name, rs)
    ensures InOrder(Erased(list, ip, port), name, rs)
  {
    hide Start, Erased, Holds, At, BegunBy, Before;
    if Holds(list, ip, port) {
      var i := FirstAt(list, ip, port);
      ErasedFirst(list, ip, port, i);
      Shortened(list, i, name, rs);
    } else {
      ErasedNone(list, ip, port);
    }
  }

  lemma Shortened(list: seq<Address>, i: nat, name: string, rs: seq<Request>)
    requires InOrder(list, name, rs) && i < |list|
    ensures InOrder(list[..i] + list[i + 1..], name, rs)
  {
    hide BegunBy, Before;
  }

  lemma {:induction false} DroppedOrder(st: State, keys: seq<string>, name: string, rs: seq<Request>)
    requires InOrder(ListOf(st, name), name, rs) && DroppingAll(st, keys).Some?
    ensures InOrder(ListOf(DroppingAll(st, keys).value, name), name, rs)
    decreases |keys|
  {
    hide InOrder, Parse, Erased;
    if keys != [] {
      var key := keys[0];
      if Parse(key).Read? && Parse(key).entry.name == name {
        var e := Parse(key).entry;
        ErasedOrder(ListOf(st, name), name, rs, e.ip, e.port);
      }
      DroppedOrder(Dropping(st, key).value, keys[1..], name, rs);
    }
  }

  /** A step that registers no server leaves some of the servers of a list, in their order. */
  lemma StepOrder(st: State, r: Request, next: State, name: string, rs: seq<Request>)
    requires Step(st, r, next) && InOrder(ListOf(st, name), name, rs)
    ensures var list := ListOf(st, name);
            || InOrder(ListOf(next, name), name, rs)
            || (r.Register? && r.name == name && ListOf(next, name) == list + [r.a]
                && Acceptable(EntryOf(name, r.a)) && !Registered(st, EntryOf(name, r.a)))
  {
    hide InOrder, KeyOf, Erased, Holds, DroppingAll, SilentOrder;
    match r
    case Register(n, a, now) =>
    case Unregister(e) =>
      if e.name == name {
        ErasedOrder(ListOf(st, name), name, rs, e.ip, e.port);
      }
    case Heartbeat(e, now) =>
    case CleanUp(now) =>
      var order :| SilentOrder(st, now, order) && DroppingAll(st, order) == Some(next);
      DroppedOrder(st, order, name, rs);
  }

  /** Servers still listed began their leases where they did. */
  lemma OrderLater(list: seq<Address>, name: string, rs: seq<Request>)
    requires rs != [] && InOrder(list, name, rs[..|rs| - 1])
    requires forall i :: 0 <= i < |list| ==> Lease(EntryOf(name, list[i]), rs).Some?
    ensures InOrder(list, name, rs)
  {
    hide Lease;
    var n := |rs| - 1;
    forall i | 0 <= i < |list|
      ensures Start(EntryOf(name, list[i]), rs) == Start(EntryOf(name, list[i]), rs[..n])
      ensures BegunBy(list[i], name, rs)
    {
      assert BegunBy(list[i], name, rs[..n]);
      var k := Start(EntryOf(name, list[i]), rs[..n]).value;
      assert rs[..n][k] == rs[k];
    }
    hide BegunBy;
    forall i, j | 0 <= i < j < |list|
      ensures Before(list[i], list[j], name, rs)
    {
      assert Before(list[i], list[j], name, rs[..n]);
    }
  }

  lemma OrderPush(list: seq<Address>, name: string, rs: seq<Request>)
    requires rs != [] && rs[|rs| - 1].Register? && rs[|rs| - 1].name == name
    requires var e := EntryOf(name, rs[|rs| - 1].a); Lease(e, rs).Some? && Lease(e, rs[..|rs| - 1]).None?
    requires InOrder(list, name, rs)
    requires forall i :: 0 <= i < |list| ==> Lease(EntryOf(name, list[i]), rs[..|rs| - 1]).Some?
    ensures InOrder(list + [rs[|rs| - 1].a], name, rs)
  {
    hide Lease;
    var n := |rs| - 1;
    var a := rs[n].a;
    assert Start(EntryOf(name, a), rs) == Some(n) && BegunBy(a, name, rs);
    forall i | 0 <= i < |list|
      ensures Before(list[i], a, name, rs)
    {
      StartBelow(EntryOf(name, list[i]), rs[..n]);
      assert BegunBy(list[i], name, rs);
    }
    hide BegunBy, Before;
  }

  lemma {:induction false} StartBelow(e: Entry, rs: seq<Request>)
    requires Lease(e, rs).Some?
    ensures Start(e, rs).Some? && Start(e, rs).value < |rs|
    decreases |rs|
  {
    hide NextLease;
    assert rs != [];
    if Lease(e, rs[..|rs| - 1]).Some? {
      StartBelow(e, rs[..|rs| - 1]);
    }
  }

  /** After any run a service lists its servers as they were registered, in the order in which their leases began. */
  lemma {:induction false} DiscoverOrder(states: seq<State>, rs: seq<Request>, name: string)
    requires Run(states, rs)
    ensures InOrder(ListOf(states[|rs|], name), name, rs)
    decreases |rs|
  {
    hide Lease, InOrder, Step, CleanRequest, Registered;
    var n := |rs| - 1;
    if rs == [] {
      assert ListOf(states[0], name) == [];
      NoOrder(name);
    } else {
      var st, next := states[n], states[n + 1];
      var prev := rs[..n];
      PrefixRun(states, rs);
      DiscoverOrder(states[..n + 1], prev, name);
      assert states[..n + 1][n] == st;
      StepOrder(st, rs[n], next, name, prev);
      StillListed(states, rs, name);
      StillListed(states[..n + 1], prev, name);
      hide Run;
      var list := ListOf(next, name);
      if InOrder(list, name, prev) {
        OrderLater(list, name, rs);
      } else {
        var before := ListOf(st, name);
        assert forall i :: 0 <= i < |before| ==> list[i] == before[i];
        OrderLater(before, name, rs);
        LeaseListed(states[..n + 1], prev, EntryOf(name, rs[n].a));
        assert list[|before|] == rs[n].a;
        OrderPush(before, name, rs);
      }
    }
  }

  lemma NoOrder(name: string)
    ensures InOrder([], name, [])
  {
  }

  lemma PrefixRun(states: seq<State>, rs: seq<Request>)
    requires Run(states, rs) && rs != []
    ensures Run(states[..|rs|], rs[..|rs| - 1]) && Step(states[|rs| - 1], rs[|rs| - 1], states[|rs|])
  {
    hide Step, CleanRequest;
  }

  lemma StillListed(states: seq<State>, rs: seq<Request>, name: string)
    requires Run(states, rs)
    ensures var list := ListOf(states[|rs|], name);
            forall i :: 0 <= i < |list| ==> Lease(EntryOf(name, list[i]), rs).Some?
  {
    hide Lease;
    var list := ListOf(states[|rs|], name);
    hide Run;
    forall i | 0 <= i < |list|
      ensures Lease(EntryOf(name, list[i]), rs).Some?
    {
      assert At(list[i], list[i].ip, list[i].port);
      LeaseListed(states, rs, EntryOf(name, list[i]));
    }
  }

  /** A clean-up never breaks off, whatever its order. */
  lemma CleanUpSucceeds(states: seq<State>, rs: seq<Request>, now: int, order: seq<string>)
    requires Run(states, rs) && SilentOrder(states[|rs|], now, order)
    ensures DroppingAll(states[|rs|], order).Some?
  {
    hide Agree, DroppingAll;
    var st := states[|rs|];
    hide Run;
    RunLeases(states, rs);
    CleanUpAgrees(st, order);
  }

  /** A lone server that fell silent disappears from both maps exactly when its name holds no
      '|' and its address no ':'. Otherwise it stays listed for good, or the clean-up breaks off. */
  lemma SilentServerGoes(name: string, a: Address, now: int, later: int)
    requires Acceptable(EntryOf(name, a)) && InInt(a.port) && later - now > 30
    ensures var st, key := Registering(State(map[], map[]), name, a, now).0, KeyOf(EntryOf(name, a));
            && SilentOrder(st, later, [key])
            && (DroppingAll(st, [key]) == Some(State(map[], map[])) <==> Clean(EntryOf(name, a)))
  {
    hide KeyOf, Parse, Clean;
    var e := EntryOf(name, a);
    var st, key := Registering(State(map[], map[]), name, a, now).0, KeyOf(e);
    assert [] + [a] == [a];
    assert st == State(map[name := [a]], map[key := now]);
    assert st.beats - {key} == map[];
    ParseBack(e);
    assert [key][1..] == [];
    OneDropped(st, key);
    if Parse(key).Read? && Parse(key).entry.name == name {
      var f := Parse(key).entry;
      assert f == e || !At(a, f.ip, f.port);
      assert [a][1..] == [];
      ErasedStep([a], f.ip, f.port);
      assert [a] + Erased([], f.ip, f.port) == [a];
      assert st.services[name := [a]] == st.services && st.services - {name} == map[];
    }
    assert name in st.services;
  }

  /** With a ':' in the address, the clean-up breaks off if no number begins behind it, and otherwise forgets the
      heartbeat but keeps the server. */
  lemma ColonAddress(name: string, a: Address, now: int, k: nat)
    requires Acceptable(EntryOf(name, a)) && '|' !in name
    requires k < |a.ip| && a.ip[k] == ':' && ':' !in a.ip[..k]
    ensures var st, key := Registering(State(map[], map[]), name, a, now).0, KeyOf(EntryOf(name, a));
            DroppingAll(st, [key]) ==
            if Stoi(a.ip[k + 1..] + ":" + ToString(a.port)).None? then None else Some(State(map[name := [a]], map[]))
  {
    hide KeyOf, Parse, Stoi, ToString;
    var key := KeyOf(EntryOf(name, a));
    var st := Registering(State(map[], map[]), name, a, now).0;
    assert [] + [a] == [a];
    assert st == State(map[name := [a]], map[key := now]) && st.beats - {key} == map[];
    OneDropped(st, key);
    ColonParse(EntryOf(name, a), k);
    if Parse(key).Read? {
      var f := Parse(key).entry;
      assert |f.ip| < |a.ip|;
      ErasedStep([a], f.ip, f.port);
      assert [a][1..] == [] && [a] + Erased([], f.ip, f.port) == [a];
      assert st.services[name := [a]] == st.services;
    }
  }

  lemma OneDropped(st: State, key: string)
    ensures DroppingAll(st, [key]) == Dropping(st, key)
  {
    hide Dropping;
    assert [key][1..] == [];
    if Dropping(st, key).Some? {
      assert DroppingAll(Dropping(st, key).value, []) == Dropping(st, key);
    }
  }
}
