/** The service registry: lists of servers by service name beside a map of last heartbeats, and
    a clean-up that drops the servers that were silent for more than thirty seconds. */
module Registry {
  import opened Options
  import opened RegistryKeys

  datatype Address = Address(ip: string, port: int, weight: int)

  datatype State = State(services: map<string, seq<Address>>, beats: map<string, int>)

  datatype RegisterStatus = RegisterSuccess | InvalidParam | AlreadyExists

  datatype UnregisterStatus = UnregisterSuccess | NotFound

  datatype HeartbeatStatus = HeartbeatSuccess | NotRegistered

  const TIMEOUT := 30

  predicate At(a: Address, ip: string, port: int) {
    a.ip == ip && a.port == port
  }

  predicate Holds(list: seq<Address>, ip: string, port: int) {
    exists i :: 0 <= i < |list| && At(list[i], ip, port)
  }

  function ListOf(st: State, name: string): seq<Address> {
    if name in st.services then st.services[name] else []
  }

  /** The list without the first server at an address. */
  function Erased(list: seq<Address>, ip: string, port: int): seq<Address> {
    if list == [] then [] else if At(list[0], ip, port) then list[1..] else [list[0]] + Erased(list[1..], ip, port)
  }

  /** A service whose list became empty is forgotten. */
  function WithList(services: map<string, seq<Address>>, name: string, list: seq<Address>): map<string, seq<Address>> {
    if list == [] then services - {name} else services[name := list]
  }

  function EntryOf(name: string, a: Address): Entry {
    Entry(name, a.ip, a.port)
  }

  // ----- what one request does -----

  predicate Acceptable(e: Entry) {
    e.name != "" && e.ip != "" && e.port > 0
  }

  function Registering(st: State, name: string, a: Address, now: int): (State, RegisterStatus) {
    if !Acceptable(EntryOf(name, a)) then (st, InvalidParam)
    else if Holds(ListOf(st, name), a.ip, a.port) then (st, AlreadyExists)
    else (State(st.services[name := ListOf(st, name) + [a]], st.beats[KeyOf(EntryOf(name, a)) := now]), RegisterSuccess)
  }

  function Unregistering(st: State, e: Entry): (State, UnregisterStatus) {
    if !Holds(ListOf(st, e.name), e.ip, e.port) then (st, NotFound)
    else (State(WithList(st.services, e.name, Erased(ListOf(st, e.name), e.ip, e.port)), st.beats - {KeyOf(e)}),
          UnregisterSuccess)
  }

  function Beating(st: State, e: Entry, now: int): (State, HeartbeatStatus) {
    if KeyOf(e) in st.beats then (st.(beats := st.beats[KeyOf(e) := now]), HeartbeatSuccess) else (st, NotRegistered)
  }

  /** The clean-up of one silent key; none when the key cannot be read. */
  function Dropping(st: State, key: string): Option<State> {
    var beats := st.beats - {key};
    match Parse(key)
    case Malformed => Some(st.(beats := beats))
    case Crash => None
    case Read(e) =>
      if e.name !in st.services then Some(st.(beats := beats))
      else Some(State(WithList(st.services, e.name, Erased(ListOf(st, e.name), e.ip, e.port)), beats))
  }

  ghost function DroppingAll(st: State, keys: seq<string>): Option<State>
    decreases |keys|
  {
    if keys == [] then Some(st)
    else match Dropping(st, keys[0])
      case None => None
      case Some(next) => DroppingAll(next, keys[1..])
  }

  predicate Silent(st: State, key: string, now: int) {
    key in st.beats && now - st.beats[key] > TIMEOUT
  }

  /** `order` lists the silent keys, each once. */
  ghost predicate SilentOrder(st: State, now: int, order: seq<string>) {
    (forall key :: key in order <==> Silent(st, key, now))
      && (forall i, j :: 0 <= i < j < |order| ==> order[i] != order[j])
  }

  // ----- the server -----

  class RegistryService {
    var serviceMap: map<string, seq<Address>>
    var heartbeatMap: map<string, int>

    ghost function Current(): State
      reads this
    {
      State(serviceMap, heartbeatMap)
    }

    constructor ()
      ensures Current() == State(map[], map[])
    {
      serviceMap := map[];
      heartbeatMap := map[];
    }

    method Register(name: string, a: Address, now: int) returns (status: RegisterStatus)
      modifies this
      ensures (Current(), status) == Registering(old(Current()), name, a, now)
    {
      if name == "" || a.ip == "" || a.port <= 0 {
        return InvalidParam;
      }
      var servers := if name in serviceMap then serviceMap[name] else [];
      serviceMap := serviceMap[name := servers];
      for i := 0 to |servers|
        invariant forall j :: 0 <= j < i ==> !At(servers[j], a.ip, a.port)
        invariant serviceMap == old(serviceMap)[name := servers] && heartbeatMap == old(heartbeatMap)
      {
        if servers[i].ip == a.ip && servers[i].port == a.port {
          assert At(servers[i], a.ip, a.port);
          assert serviceMap == old(serviceMap);
          return AlreadyExists;
        }
      }
      PutTwice(old(serviceMap), name, servers, servers + [a]);
      serviceMap := serviceMap[name := servers + [a]];
      heartbeatMap := heartbeatMap[KeyOf(EntryOf(name, a)) := now];
      return RegisterSuccess;
    }

    /** Erases the first server of a service at an address. */
    method EraseServer(name: string, ip: string, port: int) returns (removed: bool)
      requires name in serviceMap
      modifies `serviceMap
      ensures removed <==> Holds(old(serviceMap)[name], ip, port)
      ensures serviceMap == old(serviceMap)[name := Erased(old(serviceMap)[name], ip, port)]
    {
      var servers := serviceMap[name];
      removed := false;
      for i := 0 to |servers|
        invariant forall j :: 0 <= j < i ==> !At(servers[j], ip, port)
        invariant serviceMap == old(serviceMap)
      {
        if servers[i].ip == ip && servers[i].port == port {
          assert At(servers[i], ip, port);
          ErasedFirst(servers, ip, port, i);
          serviceMap := serviceMap[name := servers[..i] + servers[i + 1..]];
          removed := true;
          return;
        }
      }
      ErasedNone(servers, ip, port);
    }

    method Unregister(e: Entry) returns (status: UnregisterStatus)
      modifies this
      ensures (Current(), status) == Unregistering(old(Current()), e)
    {
      if e.name !in serviceMap {
        return NotFound;
      }
      var removed := EraseServer(e.name, e.ip, e.port);
      PutTwice(old(serviceMap), e.name, serviceMap[e.name], []);
      if removed {
        heartbeatMap := heartbeatMap - {KeyOf(e)};
        if serviceMap[e.name] == [] {
          serviceMap := serviceMap - {e.name};
        }
        status := UnregisterSuccess;
      } else {
        ErasedNone(old(serviceMap)[e.name], e.ip, e.port);
        status := NotFound;
      }
    }

    method Discover(name: string) returns (list: seq<Address>)
      ensures list == ListOf(Current(), name)
    {
      list := [];
      if name in serviceMap {
        var servers := serviceMap[name];
        for i := 0 to |servers|
          invariant list == servers[..i]
        {
          list := list + [servers[i]];
        }
      }
    }

    method Heartbeat(e: Entry, now: int) returns (status: HeartbeatStatus)
      modifies this
      ensures (Current(), status) == Beating(old(Current()), e, now)
    {
      if KeyOf(e) in heartbeatMap {
        heartbeatMap := heartbeatMap[KeyOf(e) := now];
        status := HeartbeatSuccess;
      } else {
        status := NotRegistered;
      }
    }

    /** One round of the clean-up; the map is gone through in an order of its own. The round
        breaks off when a key cannot be read. */
    method HealthCheck(now: int) returns (ok: bool, ghost order: seq<string>)
      modifies this
      ensures SilentOrder(old(Current()), now, order)
      ensures ok <==> DroppingAll(old(Current()), order).Some?
      ensures ok ==> Current() == DroppingAll(old(Current()), order).value
    {
      var expired: seq<string> := [];
      var rest := heartbeatMap.Keys;
      while rest != {}
        invariant rest <= heartbeatMap.Keys
        invariant forall key :: key in expired <==> key !in rest && Silent(Current(), key, now)
        invariant forall i, j :: 0 <= i < j < |expired| ==> expired[i] != expired[j]
        decreases |rest|
      {
        var key :| key in rest;
        if now - heartbeatMap[key] > TIMEOUT {
          expired := expired + [key];
        }
        rest := rest - {key};
      }
      order := expired;
      ghost var was := Current();
      for i := 0 to |expired|
        invariant DroppingAll(was, order) == DroppingAll(Current(), order[i..])
      {
        ghost var before := Current();
        assert order[i..][0] == expired[i] && order[i..][1..] == order[i + 1..];
        ok := DropKey(expired[i]);
        if !ok {
          return;
        }
      }
      ok := true;
    }

    method DropKey(key: string) returns (ok: bool)
      modifies this
      ensures ok <==> Dropping(old(Current()), key).Some?
      ensures ok ==> Current() == Dropping(old(Current()), key).value
    {
      heartbeatMap := heartbeatMap - {key};
      var parsed := Parse(key);
      match parsed
      case Malformed => ok := true;
      case Crash => ok := false;
      case Read(e) =>
        ok := true;
        if e.name in serviceMap {
          var removed := EraseServer(e.name, e.ip, e.port);
          PutTwice(old(serviceMap), e.name, serviceMap[e.name], []);
          if serviceMap[e.name] == [] {
            serviceMap := serviceMap - {e.name};
          }
        }
    }
  }

  lemma PutTwice<V>(m: map<string, V>, key: string, v: V, w: V)
    ensures m[key := v][key := w] == m[key := w] && m[key := v] - {key} == m - {key}
    ensures key in m ==> m[key := m[key]] == m
  {
  }

  lemma {:induction false} ErasedFirst(list: seq<Address>, ip: string, port: int, i: nat)
    requires i < |list| && At(list[i], ip, port) && forall j :: 0 <= j < i ==> !At(list[j], ip, port)
    ensures Erased(list, ip, port) == list[..i] + list[i + 1..]
  {
    if i > 0 {
      ErasedFirst(list[1..], ip, port, i - 1);
      assert list[..i] == [list[0]] + list[1..][..i - 1] && list[i + 1..] == list[1..][i..];
    }
  }

  lemma {:induction false} ErasedNone(list: seq<Address>, ip: string, port: int)
    requires !Holds(list, ip, port)
    ensures Erased(list, ip, port) == list
  {
    if list != [] {
      assert !At(list[0], ip, port);
      forall i | 0 <= i < |list[1..]|
        ensures !At(list[1..][i], ip, port)
      {
        assert !At(list[i + 1], ip, port);
      }
      ErasedNone(list[1..], ip, port);
      assert list == [list[0]] + list[1..];
    }
  }
}
