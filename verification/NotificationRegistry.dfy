/** Who is registered for which notification: a port's list of its registrations, and the dispatcher per
    (port, address) with the callbacks. Routes persist here, so each address has a fixed connection. */
module NotificationRegistry {
  import opened AdsConstants
  import opened Bytes
  import AdsRequests

  const DEFAULT_TIMEOUT: uint32 := 5000
  const GLOBALERR_MISSING_ROUTE := 0x7
  const ADSERR_CLIENT_PORTNOTOPEN := 0x748
  const ADSERR_CLIENT_REMOVEHASH := 0x752

  type AmsAddr = AdsRequests.AmsAddr
  type NetId = AdsRequests.NetId

  datatype Notification = Notification(port: uint16, addr: AmsAddr, hUser: uint32)
  datatype NotifyUUID = NotifyUUID(addr: AmsAddr, handle: uint32)
  datatype VirtualConnection = VirtualConnection(port: uint16, addr: AmsAddr)
  /** A deletion request to the server and the timeout it was given. */
  datatype Deletion = Deletion(handle: uint32, tmms: uint32)

  /** std::map::emplace: a key that is there keeps its value. */
  function WithKey<K(==), V>(m: map<K, V>, key: K, value: V): map<K, V> {
    if key in m then m else m[key := value]
  }

  class NotificationDispatcher {
    const connection: VirtualConnection
    var notifications: map<uint32, Notification>
    /** The deletion requests sent so far. */
    var deletions: multiset<Deletion>

    ghost function Contents(): Registrations
      reads this
    {
      Registrations(notifications, deletions)
    }

    constructor (connection: VirtualConnection)
      ensures this.connection == connection && notifications == map[] && deletions == multiset{}
    {
      this.connection, notifications, deletions := connection, map[], multiset{};
    }

    method Emplace(handle: uint32, notification: Notification)
      modifies this`notifications
      ensures notifications == WithKey(old(notifications), handle, notification)
    {
      if handle !in notifications {
        notifications := notifications[handle := notification];
      }
    }

    /** reply is how the deletion request ends; the registration goes in any case. */
    method Erase(handle: uint32, tmms: uint32, reply: int) returns (status: int)
      modifies this
      ensures status == reply
      ensures notifications == old(notifications) - {handle}
      ensures deletions == old(deletions) + multiset{Deletion(handle, tmms)}
    {
      deletions := deletions + multiset{Deletion(handle, tmms)};
      status := reply;
      notifications := notifications - {handle};
    }
  }

  class AmsConnection {
    var dispatcherList: map<VirtualConnection, NotificationDispatcher>

    constructor ()
      ensures dispatcherList == map[]
    {
      dispatcherList := map[];
    }

    ghost predicate Valid()
      reads this
    {
      forall vc <- dispatcherList :: dispatcherList[vc].connection == vc
    }

    method DispatcherListAdd(vc: VirtualConnection) returns (d: NotificationDispatcher)
      requires Valid()
      modifies this
      ensures Valid() && d.connection == vc
      ensures dispatcherList == old(dispatcherList)[vc := d]
      ensures if vc in old(dispatcherList) then d == old(dispatcherList)[vc]
              else fresh(d) && d.notifications == map[] && d.deletions == multiset{}
    {
      if vc in dispatcherList {
        assert dispatcherList == dispatcherList[vc := dispatcherList[vc]];
        return dispatcherList[vc];
      }
      d := new NotificationDispatcher(vc);
      dispatcherList := dispatcherList[vc := d];
    }
  }

  /** The handles that a port's list holds for one address. */
  function Handles(keys: set<NotifyUUID>, addr: AmsAddr): set<uint32> {
    set k | k in keys && k.addr == addr :: k.handle
  }

  function Deletions(handles: set<uint32>, tmms: uint32): set<Deletion> {
    set h | h in handles :: Deletion(h, tmms)
  }

  lemma OneMoreHandle(keys: set<NotifyUUID>, key: NotifyUUID, tmms: uint32)
    requires key !in keys
    ensures Handles(keys + {key}, key.addr) == Handles(keys, key.addr) + {key.handle}
    ensures multiset(Deletions(Handles(keys + {key}, key.addr), tmms))
            == multiset(Deletions(Handles(keys, key.addr), tmms)) + multiset{Deletion(key.handle, tmms)}
    ensures forall a: AmsAddr :: a != key.addr ==> Handles(keys + {key}, a) == Handles(keys, a)
  {
    var was := Handles(keys, key.addr);
    assert key.handle !in was;
    assert Handles(keys + {key}, key.addr) == was + {key.handle};
    assert Deletions(was + {key.handle}, tmms) == Deletions(was, tmms) + {Deletion(key.handle, tmms)};
  }

  datatype Registrations = Registrations(notifications: map<uint32, Notification>, deletions: multiset<Deletion>)

  /** What erasing these registrations from the dispatcher of addr makes of it. */
  function Erased(was: Registrations, addr: AmsAddr, keys: set<NotifyUUID>, tmms: uint32): Registrations {
    var gone := Handles(keys, addr);
    Registrations(was.notifications - gone, was.deletions + multiset(Deletions(gone, tmms)))
  }

  lemma NothingErased(was: Registrations, addr: AmsAddr, tmms: uint32)
    ensures Erased(was, addr, {}, tmms) == was
  {
    assert Handles({}, addr) == {} && Deletions({}, tmms) == {};
    assert was.notifications - {} == was.notifications;
  }

  lemma OneMoreErased(was: Registrations, addr: AmsAddr, keys: set<NotifyUUID>, key: NotifyUUID, tmms: uint32)
    requires key !in keys
    ensures var now := Erased(was, addr, keys, tmms);
            Erased(was, addr, keys + {key}, tmms)
            == if addr != key.addr then now
               else Registrations(now.notifications - {key.handle},
                                  now.deletions + multiset{Deletion(key.handle, tmms)})
  {
    hide Handles, Deletions;
    OneMoreHandle(keys, key, tmms);
    var gone := Handles(keys, addr);
    assert was.notifications - (gone + {key.handle}) == was.notifications - gone - {key.handle};
  }

  datatype PortState = PortState(list: map<NotifyUUID, NotificationDispatcher>, tmms: uint32, port: uint16)

  class AmsPort {
    var dispatcherList: map<NotifyUUID, NotificationDispatcher>
    var tmms: uint32
    var port: uint16

    ghost function Contents(): PortState
      reads this
    {
      PortState(dispatcherList, tmms, port)
    }

    constructor ()
      ensures dispatcherList == map[] && tmms == 5000 && port == 0
    {
      dispatcherList, tmms, port := map[], DEFAULT_TIMEOUT, 0;
    }

    /** A registration is kept with the dispatcher of its address. */
    ghost predicate Valid()
      reads this
    {
      && (forall k <- dispatcherList :: dispatcherList[k].connection.addr == k.addr)
      && (forall k <- dispatcherList, l <- dispatcherList ::
            k.addr == l.addr ==> dispatcherList[k] == dispatcherList[l])
    }

    predicate IsOpen()
      reads this
    {
      port != 0
    }

    method Open(port: uint16) returns (r: uint16)
      modifies this`port
      ensures this.port == port == r
    {
      this.port := port;
      r := port;
    }

    method AddNotification(addr: AmsAddr, handle: uint32, dispatcher: NotificationDispatcher)
      modifies this`dispatcherList
      ensures dispatcherList == WithKey(old(dispatcherList), NotifyUUID(addr, handle), dispatcher)
    {
      var k := NotifyUUID(addr, handle);
      if k !in dispatcherList {
        dispatcherList := dispatcherList[k := dispatcher];
      }
    }

    method DelNotification(addr: AmsAddr, handle: uint32, reply: int) returns (status: int)
      modifies this`dispatcherList, dispatcherList.Values
      ensures var k := NotifyUUID(addr, handle);
              && dispatcherList == old(dispatcherList) - {k}
              && status == (if k in old(dispatcherList) then reply else 0x752)
              && (forall d <- old(dispatcherList).Values ::
                    var hit := k in old(dispatcherList) && d == old(dispatcherList[k]);
                    && d.notifications == (if hit then old(d.notifications) - {handle} else old(d.notifications))
                    && d.deletions == if hit then old(d.deletions) + multiset{Deletion(handle, tmms)}
                                      else old(d.deletions))
    {
      var k := NotifyUUID(addr, handle);
      if k in dispatcherList {
        status := dispatcherList[k].Erase(handle, tmms, reply);
        dispatcherList := dispatcherList - {k};
        return;
      }
      status := ADSERR_CLIENT_REMOVEHASH;
    }

    /** Each registration is deleted once, with the port's own timeout; replies is how the requests end. */
    method Close(replies: map<NotifyUUID, int>)
      requires Valid()
      modifies this, dispatcherList.Values
      ensures dispatcherList == map[] && tmms == 5000 && port == 0
      ensures forall d <- old(dispatcherList.Values) ::
                d.Contents() == Erased(old(d.Contents()), d.connection.addr, old(dispatcherList).Keys, old(tmms))
    {
      hide Erased;
      ghost var was := map d | d in dispatcherList.Values :: d.Contents();
      forall d <- dispatcherList.Values
        ensures was[d] == Erased(was[d], d.connection.addr, {}, tmms)
      {
        NothingErased(was[d], d.connection.addr, tmms);
      }
      EraseAll(replies, was);
      dispatcherList, tmms, port := map[], DEFAULT_TIMEOUT, 0;
    }

    method EraseAll(replies: map<NotifyUUID, int>, ghost was: map<NotificationDispatcher, Registrations>)
      requires Valid() && AllErased(was, {})
      modifies dispatcherList.Values
      ensures AllErased(was, dispatcherList.Keys)
    {
      hide AmsPort.AllErased, AmsPort.Valid;
      var todo := dispatcherList.Keys;
      assert dispatcherList.Keys - todo == {};
      while todo != {}
        invariant todo <= dispatcherList.Keys && AllErased(was, dispatcherList.Keys - todo)
      {
        var k :| k in todo;
        ghost var done := dispatcherList.Keys - todo;
        EraseNext(k, if k in replies then replies[k] else 0, was, done);
        todo := todo - {k};
        assert dispatcherList.Keys - todo == done + {k};
      }
      assert dispatcherList.Keys - todo == dispatcherList.Keys;
    }

    /** The list's dispatchers have lost these registrations. */
    ghost predicate AllErased(was: map<NotificationDispatcher, Registrations>, keys: set<NotifyUUID>)
      reads this, dispatcherList.Values
    {
      && was.Keys == dispatcherList.Values
      && forall d <- dispatcherList.Values :: d.Contents() == Erased(was[d], d.connection.addr, keys, tmms)
    }

    method EraseNext(k: NotifyUUID, reply: int, ghost was: map<NotificationDispatcher, Registrations>,
                     ghost done: set<NotifyUUID>)
      requires Valid() && k in dispatcherList && k !in done && AllErased(was, done)
      modifies dispatcherList[k]
      ensures AllErased(was, done + {k})
    {
      hide Erased;
      forall d <- dispatcherList.Values
        ensures Erased(was[d], d.connection.addr, done + {k}, tmms) ==
                if d != dispatcherList[k] then d.Contents()
                else Registrations(d.notifications - {k.handle}, d.deletions + multiset{Deletion(k.handle, tmms)})
      {
        SameDispatcher(d, k);
        OneMoreErased(was[d], d.connection.addr, done, k, tmms);
      }
      var status := dispatcherList[k].Erase(k.handle, tmms, reply);
    }

    lemma SameDispatcher(d: NotificationDispatcher, k: NotifyUUID)
      requires Valid() && k in dispatcherList && d in dispatcherList.Values
      ensures d.connection.addr == k.addr <==> d == dispatcherList[k]
    {
      var l :| l in dispatcherList && dispatcherList[l] == d;
    }
  }

  // ---- Both registries together ----------------------------------------------------------------

  type Dispatchers = map<VirtualConnection, NotificationDispatcher>

  /** The ports by index, the dispatchers of the connection that each AmsNetId is routed to, and what every
      dispatcher holds. */
  datatype State = State(ports: map<nat, PortState>, connections: map<NetId, Dispatchers>,
                         held: map<NotificationDispatcher, Registrations>)

  ghost predicate WellFormed(s: State) {
    && (forall i: nat :: i in s.ports <==> i < NUM_PORTS_MAX)
    && (forall n <- s.connections, vc <- s.connections[n] ::
          s.connections[n][vc] in s.held && s.connections[n][vc].connection == vc)
  }

  /** The dispatcher for a port, given by its index, and an address. */
  function Find(s: State, i: nat, addr: AmsAddr): (d: Option<NotificationDispatcher>)
    requires i < NUM_PORTS_MAX
  {
    var vc := VirtualConnection(PORT_BASE + i, addr);
    if addr.netId in s.connections && vc in s.connections[addr.netId] then Some(s.connections[addr.netId][vc]) else None
  }

  /** The callback that samples for this handle reach. */
  function CallbackAt(s: State, i: nat, addr: AmsAddr, handle: uint32): Option<Notification>
    requires i < NUM_PORTS_MAX && WellFormed(s)
  {
    var d := Find(s, i, addr);
    if d.Some? && handle in s.held[d.value].notifications then Some(s.held[d.value].notifications[handle]) else None
  }

  /** Where the receiver thread of a connection looks a notification up: by the port and the address in its header. */
  lemma CallbackByPort(s: State, port: uint16, addr: AmsAddr, handle: uint32)
    requires 30000 <= port < 30128 && WellFormed(s)
    ensures var vc := VirtualConnection(port, addr);
            CallbackAt(s, port - 30000, addr, handle)
            == if addr.netId in s.connections && vc in s.connections[addr.netId]
                  && handle in s.held[s.connections[addr.netId][vc]].notifications
               then Some(s.held[s.connections[addr.netId][vc]].notifications[handle]) else None
  {
  }

  /** Port i is closed and has no registrations, or is open under its own number; each registration is listed with
      the dispatcher of its address. */
  predicate PortOk(s: State, i: nat)
    requires i < NUM_PORTS_MAX && WellFormed(s)
  {
    var p := s.ports[i];
    && (p.port == 0 || p.port == PORT_BASE + i)
    && (p.port == 0 ==> p.list == map[])
    && (forall k <- p.list :: Find(s, i, k.addr) == Some(p.list[k]))
  }

  /** The port's list and the dispatcher agree on this registration. */
  predicate Agree(s: State, i: nat, addr: AmsAddr, handle: uint32)
    requires i < NUM_PORTS_MAX && WellFormed(s)
  {
    NotifyUUID(addr, handle) in s.ports[i].list <==> CallbackAt(s, i, addr, handle).Some?
  }

  ghost predicate InStep(s: State) {
    && WellFormed(s)
    && (forall i: nat | i < NUM_PORTS_MAX :: PortOk(s, i))
    && (forall i: nat, addr: AmsAddr, handle: uint32 | i < NUM_PORTS_MAX :: Agree(s, i, addr, handle))
  }

  lemma ListedIff(s: State, i: nat, addr: AmsAddr, handle: uint32)
    requires InStep(s) && i < NUM_PORTS_MAX
    ensures NotifyUUID(addr, handle) in s.ports[i].list <==> CallbackAt(s, i, addr, handle).Some?
  {
    assert Agree(s, i, addr, handle);
  }

  lemma FoundDispatcher(s: State, i: nat, addr: AmsAddr)
    requires WellFormed(s) && i < NUM_PORTS_MAX && Find(s, i, addr).Some?
    ensures Find(s, i, addr).value in s.held
    ensures Find(s, i, addr).value.connection == VirtualConnection(PORT_BASE + i, addr)
  {
  }

  /** The part of the registries that is about port i and, unless every, about one address. */
  predicate Touched(i: nat, addr: AmsAddr, every: bool, j: nat, a: AmsAddr) {
    j == i && (a == addr || every)
  }

  /** What a call leaves alone that touches only port i, for one address or for every one. */
  ghost predicate OnlyTouches(s: State, t: State, i: nat, addr: AmsAddr, every: bool)
    requires WellFormed(s) && WellFormed(t) && i < NUM_PORTS_MAX
  {
    && (forall j: nat | j < NUM_PORTS_MAX && j != i :: t.ports[j] == s.ports[j])
    && (forall j: nat, a: AmsAddr | j < NUM_PORTS_MAX && !(j == i && a == addr) :: Find(t, j, a) == Find(s, j, a))
    && (forall d <- s.held ::
          !(d.connection.port == PORT_BASE + i && (d.connection.addr == addr || every)) ==>
            d in t.held && t.held[d].notifications == s.held[d].notifications)
    && (forall k: NotifyUUID :: k.addr != addr && !every ==> (k in t.ports[i].list <==> k in s.ports[i].list))
  }

  lemma StaysInStep(s: State, t: State, i: nat, addr: AmsAddr, every: bool)
    requires InStep(s) && WellFormed(t) && i < NUM_PORTS_MAX && OnlyTouches(s, t, i, addr, every)
    requires PortOk(t, i) && forall a: AmsAddr, h: uint32 :: every || a == addr ==> Agree(t, i, a, h)
    ensures InStep(t)
    ensures forall j: nat, a: AmsAddr, h: uint32 | j < NUM_PORTS_MAX && !Touched(i, addr, every, j, a) ::
              CallbackAt(t, j, a, h) == CallbackAt(s, j, a, h)
  {
    forall j: nat | j < NUM_PORTS_MAX
      ensures PortOk(t, j)
    {
      assert PortOk(s, j);
    }
    forall j: nat, a: AmsAddr, h: uint32 | j < NUM_PORTS_MAX && !Touched(i, addr, every, j, a)
      ensures CallbackAt(t, j, a, h) == CallbackAt(s, j, a, h) && Agree(t, j, a, h)
    {
      SameCallback(s, t, i, addr, every, j, a, h);
    }
  }

  lemma SameCallback(s: State, t: State, i: nat, addr: AmsAddr, every: bool, j: nat, a: AmsAddr, h: uint32)
    requires InStep(s) && WellFormed(t) && i < NUM_PORTS_MAX && OnlyTouches(s, t, i, addr, every)
    requires j < NUM_PORTS_MAX && !Touched(i, addr, every, j, a)
    ensures CallbackAt(t, j, a, h) == CallbackAt(s, j, a, h) && Agree(t, j, a, h)
  {
    assert Agree(s, j, a, h);
    if Find(s, j, a).Some? {
      FoundDispatcher(s, j, a);
    }
  }

  lemma AfterOpen(s: State, t: State, i: nat)
    requires InStep(s) && i < NUM_PORTS_MAX && t.connections == s.connections && t.held == s.held
    requires t.ports == s.ports[i := s.ports[i].(port := PORT_BASE + i)]
    ensures InStep(t)
    ensures forall j: nat, a: AmsAddr, h: uint32 | j < NUM_PORTS_MAX :: CallbackAt(t, j, a, h) == CallbackAt(s, j, a, h)
  {
    assert PortOk(s, i);
    forall a: AmsAddr, h: uint32
      ensures Agree(t, i, a, h)
    {
      assert Agree(s, i, a, h);
    }
    StaysInStep(s, t, i, AnyAddr(), true);
  }

  function AnyAddr(): AmsAddr {
    AdsRequests.AmsAddr([0, 0, 0, 0, 0, 0], 0)
  }

  /** A successful registration, in terms of the state. d is the dispatcher of its address. */
  ghost predicate Adds(s: State, t: State, i: nat, addr: AmsAddr, handle: uint32, notification: Notification,
                       d: NotificationDispatcher)
    requires WellFormed(s) && i < NUM_PORTS_MAX
  {
    && WellFormed(t)
    && Find(t, i, addr) == Some(d)
    && (Find(s, i, addr).Some? ==> Find(s, i, addr) == Some(d))
    && (Find(s, i, addr).None? ==> d !in s.held)
    && (forall j: nat, a: AmsAddr | j < NUM_PORTS_MAX && !(j == i && a == addr) :: Find(t, j, a) == Find(s, j, a))
    && var before := if Find(s, i, addr).Some? then s.held[d].notifications else map[];
    && t.held[d].notifications == WithKey(before, handle, notification)
    && (forall x <- s.held :: x != d ==> x in t.held && t.held[x] == s.held[x])
    && t.ports
       == s.ports[i := s.ports[i].(list := WithKey(s.ports[i].list, NotifyUUID(addr, handle), d))]
  }

  /** Looking a dispatcher up, or creating it. */
  ghost predicate Finds(s: State, t: State, i: nat, addr: AmsAddr, d: NotificationDispatcher)
    requires WellFormed(s) && i < NUM_PORTS_MAX
  {
    && WellFormed(t) && t.ports == s.ports
    && Find(t, i, addr) == Some(d)
    && (Find(s, i, addr).Some? ==> Find(s, i, addr) == Some(d))
    && (Find(s, i, addr).None? ==> d !in s.held)
    && (forall j: nat, a: AmsAddr | j < NUM_PORTS_MAX && !(j == i && a == addr) :: Find(t, j, a) == Find(s, j, a))
    && d in t.held && t.held[d].notifications == (if Find(s, i, addr).Some? then s.held[d].notifications else map[])
    && (forall x <- s.held :: x in t.held && t.held[x] == s.held[x])
  }

  /** The dispatcher appears under the connection of addr, and under its other AmsNetIds. */
  ghost predicate Extended(was: map<NetId, Dispatchers>, now: map<NetId, Dispatchers>, n: NetId, vc: VirtualConnection,
                           d: NotificationDispatcher)
    requires n in was
  {
    && d.connection == vc && (vc in was[n] ==> d == was[n][vc])
    && now.Keys == was.Keys && now[n] == was[n][vc := d]
    && (forall m <- was :: now[m] == was[m] || now[m] == was[m][vc := d])
  }

  ghost predicate Lists(s: State, t: State, i: nat, addr: AmsAddr, d: NotificationDispatcher)
    requires addr.netId in s.connections && i < NUM_PORTS_MAX
  {
    var vc := VirtualConnection(PORT_BASE + i, addr);
    && t.ports == s.ports && Extended(s.connections, t.connections, addr.netId, vc, d)
    && d in t.held && t.held == s.held[d := t.held[d]]
    && if vc in s.connections[addr.netId] then t.held == s.held
       else d !in s.held && t.held[d].notifications == map[]
  }

  lemma FoundInSteps(s: State, t: State, i: nat, addr: AmsAddr, d: NotificationDispatcher)
    requires WellFormed(s) && i < NUM_PORTS_MAX && addr.netId in s.connections && Lists(s, t, i, addr, d)
    ensures Finds(s, t, i, addr, d)
  {
  }

  function Emplaced(held: map<NotificationDispatcher, Registrations>, d: NotificationDispatcher, handle: uint32,
                    notification: Notification): map<NotificationDispatcher, Registrations>
    requires d in held
  {
    var was := held[d].notifications;
    held[d := held[d].(notifications := WithKey(was, handle, notification))]
  }

  function Listed(ports: map<nat, PortState>, i: nat, addr: AmsAddr, handle: uint32, d: NotificationDispatcher)
    : map<nat, PortState>
    requires i in ports
  {
    ports[i := ports[i].(list := WithKey(ports[i].list, NotifyUUID(addr, handle), d))]
  }

  lemma RegisteredInSteps(s: State, found: State, t: State, i: nat, addr: AmsAddr, handle: uint32,
                          notification: Notification, d: NotificationDispatcher)
    requires WellFormed(s) && i < NUM_PORTS_MAX && Finds(s, found, i, addr, d)
    requires t == State(Listed(found.ports, i, addr, handle, d), found.connections,
                        Emplaced(found.held, d, handle, notification))
    ensures Adds(s, t, i, addr, handle, notification, d)
  {
    assert forall j: nat, a: AmsAddr | j < NUM_PORTS_MAX :: Find(t, j, a) == Find(found, j, a);
  }

  lemma AfterAdd(s: State, t: State, i: nat, addr: AmsAddr, handle: uint32, notification: Notification,
                 d: NotificationDispatcher)
    requires InStep(s) && i < NUM_PORTS_MAX && s.ports[i].port != 0 && Adds(s, t, i, addr, handle, notification, d)
    ensures InStep(t)
    ensures forall j: nat, a: AmsAddr, h: uint32 | j < NUM_PORTS_MAX ::
              CallbackAt(t, j, a, h) ==
              if (j, a, h) == (i, addr, handle) && CallbackAt(s, j, a, h).None? then Some(notification)
              else CallbackAt(s, j, a, h)
  {
    assert PortOk(s, i);
    FoundDispatcher(t, i, addr);
    forall h: uint32
      ensures Agree(t, i, addr, h)
      ensures CallbackAt(t, i, addr, h) == if h == handle && CallbackAt(s, i, addr, h).None? then Some(notification)
                                           else CallbackAt(s, i, addr, h)
    {
      assert Agree(s, i, addr, h);
    }
    StaysInStep(s, t, i, addr, false);
  }

  /** Deleting a registration: from the port's list, and from the dispatcher that the list gives for it. */
  ghost predicate Deletes(s: State, t: State, i: nat, addr: AmsAddr, handle: uint32)
    requires WellFormed(s) && i < NUM_PORTS_MAX
  {
    var k := NotifyUUID(addr, handle);
    && t.connections == s.connections && t.held.Keys == s.held.Keys
    && t.ports == s.ports[i := s.ports[i].(list := s.ports[i].list - {k})]
    && (forall d <- s.held ::
          t.held[d] == if k in s.ports[i].list && d == s.ports[i].list[k]
                       then Registrations(s.held[d].notifications - {handle},
                                          s.held[d].deletions + multiset{Deletion(handle, s.ports[i].tmms)})
                       else s.held[d])
  }

  lemma AfterDel(s: State, t: State, i: nat, addr: AmsAddr, handle: uint32)
    requires InStep(s) && i < NUM_PORTS_MAX && Deletes(s, t, i, addr, handle)
    ensures InStep(t)
    ensures forall j: nat, a: AmsAddr, h: uint32 | j < NUM_PORTS_MAX ::
              CallbackAt(t, j, a, h) == if (j, a, h) == (i, addr, handle) then None else CallbackAt(s, j, a, h)
    ensures DeletesOnly(s, t, i, addr, handle)
  {
    DeletesOnlyThis(s, t, i, addr, handle);
    forall h: uint32
      ensures Agree(t, i, addr, h)
      ensures CallbackAt(t, i, addr, h) == if h == handle then None else CallbackAt(s, i, addr, h)
    {
      DeletedHere(s, t, i, addr, handle, h);
    }
    assert PortOk(s, i);
    hide CallbackAt;
    StaysInStep(s, t, i, addr, false);
  }

  /** One deletion request, with the port's timeout, for a callback that is there; no other request. */
  ghost predicate DeletesOnly(s: State, t: State, i: nat, addr: AmsAddr, handle: uint32)
    requires WellFormed(s) && i < NUM_PORTS_MAX
  {
    t.held.Keys == s.held.Keys
    && forall d <- s.held ::
         t.held[d].deletions
         == if Find(s, i, addr) == Some(d) && handle in s.held[d].notifications
            then s.held[d].deletions + multiset{Deletion(handle, s.ports[i].tmms)}
            else s.held[d].deletions
  }

  lemma DeletesOnlyThis(s: State, t: State, i: nat, addr: AmsAddr, handle: uint32)
    requires InStep(s) && i < NUM_PORTS_MAX && Deletes(s, t, i, addr, handle)
    ensures DeletesOnly(s, t, i, addr, handle)
  {
    assert PortOk(s, i) && Agree(s, i, addr, handle);
  }

  lemma DeletedHere(s: State, t: State, i: nat, addr: AmsAddr, handle: uint32, h: uint32)
    requires InStep(s) && i < NUM_PORTS_MAX && Deletes(s, t, i, addr, handle)
    ensures WellFormed(t) && Agree(t, i, addr, h)
    ensures CallbackAt(t, i, addr, h) == if h == handle then None else CallbackAt(s, i, addr, h)
  {
    assert PortOk(s, i) && Agree(s, i, addr, handle) && Agree(s, i, addr, h);
  }

  /** Every registration of port i is gone, and its deletion was requested once. */
  ghost predicate Closes(s: State, t: State, i: nat)
    requires WellFormed(s) && i < NUM_PORTS_MAX
  {
    && t.connections == s.connections && t.held.Keys == s.held.Keys
    && t.ports == s.ports[i := PortState(map[], DEFAULT_TIMEOUT, 0)]
    && (forall d <- s.held ::
          t.held[d] == if d in s.ports[i].list.Values
                       then Erased(s.held[d], d.connection.addr, s.ports[i].list.Keys, s.ports[i].tmms)
                       else s.held[d])
  }

  lemma AfterClose(s: State, t: State, i: nat)
    requires InStep(s) && i < NUM_PORTS_MAX && Closes(s, t, i)
    ensures InStep(t) && t.ports == s.ports[i := PortState(map[], DEFAULT_TIMEOUT, 0)]
    ensures forall j: nat, a: AmsAddr, h: uint32 | j < NUM_PORTS_MAX ::
              CallbackAt(t, j, a, h) == if j == i then None else CallbackAt(s, j, a, h)
    ensures forall a: AmsAddr :: DeletedOnce(s, t, i, a)
  {
    assert PortOk(s, i);
    forall a: AmsAddr
      ensures DeletedOnce(s, t, i, a)
    {
      ClosedFor(s, t, i, a);
    }
    forall a: AmsAddr, h: uint32
      ensures CallbackAt(t, i, a, h).None? && Agree(t, i, a, h)
    {
      ClosedFor(s, t, i, a);
    }
    StaysInStep(s, t, i, AnyAddr(), true);
  }

  /** Each handle that was registered for port i and this address got one deletion request, with the port's timeout. */
  ghost predicate DeletedOnce(s: State, t: State, i: nat, a: AmsAddr)
    requires WellFormed(s) && i < NUM_PORTS_MAX
  {
    Find(s, i, a).Some? ==>
      var d := Find(s, i, a).value;
      && d in t.held
      && t.held[d].deletions
         == s.held[d].deletions + multiset(Deletions(s.held[d].notifications.Keys, s.ports[i].tmms))
  }

  lemma ClosedFor(s: State, t: State, i: nat, a: AmsAddr)
    requires InStep(s) && i < NUM_PORTS_MAX && Closes(s, t, i)
    ensures WellFormed(t) && DeletedOnce(s, t, i, a)
    ensures forall h: uint32 :: CallbackAt(t, i, a, h).None? && Agree(t, i, a, h)
  {
    if Find(s, i, a).Some? {
      var d := Find(s, i, a).value;
      FoundDispatcher(s, i, a);
      assert PortOk(s, i);
      forall h: uint32
        ensures h in s.held[d].notifications <==> NotifyUUID(a, h) in s.ports[i].list
      {
        assert Agree(s, i, a, h);
      }
      assert s.held[d].notifications.Keys == Handles(s.ports[i].list.Keys, a);
    }
  }

  // ---- The router ------------------------------------------------------------------------------

  class AmsRouter {
    const ports: seq<AmsPort>
    const mapping: map<NetId, AmsConnection>
    /** The dispatchers of all connections. */
    ghost var dispatchers: set<NotificationDispatcher>

    ghost function PortStates(): map<nat, PortState>
      requires |ports| == NUM_PORTS_MAX
      reads ports
    {
      map i: nat | i < NUM_PORTS_MAX :: ports[i].Contents()
    }

    ghost function Connections(): map<NetId, Dispatchers>
      reads mapping.Values
    {
      map n | n in mapping :: mapping[n].dispatcherList
    }

    ghost function Held(): map<NotificationDispatcher, Registrations>
      reads this, dispatchers
    {
      map d | d in dispatchers :: d.Contents()
    }

    ghost function Contents(): State
      requires |ports| == NUM_PORTS_MAX
      reads this, ports, mapping.Values, dispatchers
    {
      State(PortStates(), Connections(), Held())
    }

    ghost predicate DistinctPorts() {
      |ports| == NUM_PORTS_MAX && forall i, j :: 0 <= i < j < |ports| ==> ports[i] != ports[j]
    }

    ghost predicate Valid()
      reads this, ports, mapping.Values, dispatchers
    {
      DistinctPorts() && InStep(Contents())
    }

    static method NewPorts() returns (all: seq<AmsPort>)
      ensures |all| == NUM_PORTS_MAX && fresh(all)
      ensures forall i, j :: 0 <= i < j < |all| ==> all[i] != all[j]
      ensures forall p <- all :: p.port == 0 && p.dispatcherList == map[]
    {
      all := [];
      for k := 0 to NUM_PORTS_MAX
        invariant |all| == k && fresh(all)
        invariant forall i, j :: 0 <= i < j < |all| ==> all[i] != all[j]
        invariant forall p <- all :: p.port == 0 && p.dispatcherList == map[]
      {
        var p := new AmsPort();
        all := all + [p];
      }
    }

    /** All ports closed, no dispatchers, and a fixed connection for every AmsNetId that has a route. */
    constructor (routes: map<NetId, AmsConnection>)
      requires forall n <- routes :: routes[n].dispatcherList == map[]
      ensures Valid() && mapping == routes
      ensures forall i: nat, a: AmsAddr, h: uint32 | i < NUM_PORTS_MAX :: CallbackAt(Contents(), i, a, h) == None
    {
      var all := NewPorts();
      ports, mapping, dispatchers := all, routes, {};
    }

    lemma ValidAt(i: nat)
      requires Valid() && i < NUM_PORTS_MAX
      ensures i < |ports| && WellFormed(Contents()) && PortOk(Contents(), i) && ports[i].Valid()
      ensures Contents().ports[i] == ports[i].Contents()
      ensures ports[i].dispatcherList.Values <= dispatchers
    {
      var s := Contents();
      assert PortOk(s, i);
      forall d <- ports[i].dispatcherList.Values
        ensures d in dispatchers
      {
        var k :| k in ports[i].dispatcherList && ports[i].dispatcherList[k] == d;
        FoundDispatcher(s, i, k.addr);
      }
      forall k <- ports[i].dispatcherList
        ensures ports[i].dispatcherList[k].connection.addr == k.addr
      {
        FoundDispatcher(s, i, k.addr);
      }
    }

    /** The lowest closed port opens, if there is one. */
    method OpenPort() returns (port: uint16)
      requires Valid()
      modifies ports
      ensures Valid()
      ensures port == 0 ==> Contents() == old(Contents()) && forall p <- ports :: p.IsOpen()
      ensures port != 0 ==>
                var i := port - 30000;
                && 0 <= i < 128
                && (forall j :: 0 <= j < i ==> old(ports[j].IsOpen()))
                && !old(ports[i].IsOpen()) && ports[i].port == port
                && (forall j: nat | j < NUM_PORTS_MAX && j != i :: ports[j].Contents() == old(ports[j].Contents()))
      ensures forall j: nat, a: AmsAddr, h: uint32 | j < NUM_PORTS_MAX ::
                CallbackAt(Contents(), j, a, h) == CallbackAt(old(Contents()), j, a, h)
    {
      hide InStep, CallbackAt;
      ghost var s := Contents();
      for i := 0 to NUM_PORTS_MAX
        invariant forall j :: 0 <= j < i ==> ports[j].IsOpen()
        invariant forall p <- ports :: unchanged(p)
      {
        if !ports[i].IsOpen() {
          port := ports[i].Open(PORT_BASE + i);
          assert PortStates() == s.ports[i := s.ports[i].(port := PORT_BASE + i)];
          AfterOpen(s, Contents(), i);
          return;
        }
      }
      port := 0;
    }

    predicate InRange(port: uint16) {
      PORT_BASE <= port < PORT_BASE + NUM_PORTS_MAX
    }

    /** status is how the request to the server ends when the port is open, handle what the server answers then. For a
        port number out of range the code first takes a timeout from behind its array of ports, and then refuses. */
    method AddNotification(port: uint16, notification: Notification, status: int, handle: uint32) returns (r: int)
      requires Valid() && notification.port == port
      modifies this, ports, mapping.Values, dispatchers
      ensures Valid() && fresh(dispatchers - old(dispatchers))
      ensures var i, addr := port - 30000, notification.addr;
              && r == (if addr.netId !in mapping then 7
                       else if !(30000 <= port < 30128) || !old(ports[i].IsOpen()) then 0x748
                       else status)
              && forall j: nat, a: AmsAddr, h: uint32 | j < NUM_PORTS_MAX ::
                   CallbackAt(Contents(), j, a, h) ==
                   if r == 0 && (j, a, h) == (i, addr, handle) && CallbackAt(old(Contents()), j, a, h).None?
                   then Some(notification)
                   else CallbackAt(old(Contents()), j, a, h)
    {
      hide InStep, CallbackAt;
      ghost var s := Contents();
      var i, addr := port - PORT_BASE, notification.addr;
      if addr.netId !in mapping {
        return GLOBALERR_MISSING_ROUTE;
      }
      if !InRange(port) || !ports[i].IsOpen() {
        return ADSERR_CLIENT_PORTNOTOPEN;
      }
      if status != 0 {
        return status;
      }
      ValidAt(i);
      var dispatcher := Register(i, addr, handle, notification);
      AfterAdd(s, Contents(), i, addr, handle, notification, dispatcher);
      r := 0;
    }

    /** The three steps of a registration: the dispatcher, its callback, and the port's list. */
    method Register(i: nat, addr: AmsAddr, handle: uint32, notification: Notification)
      returns (d: NotificationDispatcher)
      requires i < NUM_PORTS_MAX && DistinctPorts() && addr.netId in mapping && WellFormed(Contents())
      modifies this, ports, mapping.Values, dispatchers
      ensures fresh(dispatchers - old(dispatchers))
      ensures Adds(old(Contents()), Contents(), i, addr, handle, notification, d)
    {
      hide AmsRouter.PortStates, AmsRouter.Connections, AmsRouter.Held, Find, WellFormed, Extended, Adds;
      ghost var s := Contents();
      KnownDispatchers(addr);
      d := DispatcherFor(i, addr);
      ghost var found := Contents();
      FoundInSteps(s, found, i, addr, d);
      EmplaceIn(d, handle, notification);
      AddToList(i, addr, handle, d);
      RegisteredInSteps(s, found, Contents(), i, addr, handle, notification, d);
    }

    method DispatcherFor(i: nat, addr: AmsAddr) returns (d: NotificationDispatcher)
      requires i < NUM_PORTS_MAX == |ports| && addr.netId in mapping
      requires mapping[addr.netId].Valid() && mapping[addr.netId].dispatcherList.Values <= dispatchers
      modifies this`dispatchers, mapping[addr.netId]
      ensures fresh(dispatchers - old(dispatchers)) && d in Held() && d in dispatchers
      ensures var vc, n, was := VirtualConnection(PORT_BASE + i, addr), addr.netId, old(Connections());
              && n in was && Extended(was, Connections(), n, vc, d)
              && if vc in was[n] then Held() == old(Held())
                 else d !in old(Held()) && Held() == old(Held())[d := Registrations(map[], multiset{})]
    {
      assert Held().Keys == dispatchers;
      hide AmsRouter.PortStates, AmsRouter.Held, AmsRouter.Connections, Extended, AmsConnection.Valid;
      d := AddDispatcher(i, addr);
      assert Held() == old(Held());
      Include(d);
    }

    lemma KnownDispatchers(addr: AmsAddr)
      requires |ports| == NUM_PORTS_MAX && addr.netId in mapping && WellFormed(Contents())
      ensures addr.netId in Connections() && mapping[addr.netId].Valid()
      ensures Connections()[addr.netId] == mapping[addr.netId].dispatcherList
      ensures mapping[addr.netId].dispatcherList.Values <= dispatchers
    {
      assert Connections()[addr.netId] == mapping[addr.netId].dispatcherList;
    }

    method AddDispatcher(i: nat, addr: AmsAddr) returns (d: NotificationDispatcher)
      requires i < NUM_PORTS_MAX && addr.netId in mapping && mapping[addr.netId].Valid()
      modifies mapping[addr.netId]
      ensures var vc, n, was := VirtualConnection(PORT_BASE + i, addr), addr.netId, old(Connections());
              && n in was && Extended(was, Connections(), n, vc, d)
              && (vc !in was[n] ==> fresh(d) && d.Contents() == Registrations(map[], multiset{}))
              && (vc in was[n] ==> d in old(mapping[n].dispatcherList.Values))
    {
      d := mapping[addr.netId].DispatcherListAdd(VirtualConnection(PORT_BASE + i, addr));
    }

    ghost method Include(d: NotificationDispatcher)
      modifies this`dispatchers
      ensures dispatchers == old(dispatchers) + {d}
      ensures Held() == old(Held())[d := d.Contents()]
      ensures d in old(dispatchers) ==> Held() == old(Held())
    {
      dispatchers := dispatchers + {d};
      assert Held() == old(Held())[d := d.Contents()];
    }

    method EmplaceIn(d: NotificationDispatcher, handle: uint32, notification: Notification)
      requires d in Held()
      modifies d
      ensures Held() == Emplaced(old(Held()), d, handle, notification)
    {
      d.Emplace(handle, notification);
      assert Held() == Emplaced(old(Held()), d, handle, notification);
    }

    method AddToList(i: nat, addr: AmsAddr, handle: uint32, d: NotificationDispatcher)
      requires i < NUM_PORTS_MAX && DistinctPorts()
      modifies ports[i]
      ensures i in old(PortStates()) && PortStates() == Listed(old(PortStates()), i, addr, handle, d)
    {
      ports[i].AddNotification(addr, handle, d);
      assert PortStates() == Listed(old(PortStates()), i, addr, handle, d);
    }

    /** None for a port number out of range: the code would take what lies behind its array for a port. */
    method DelNotification(port: uint16, addr: AmsAddr, handle: uint32, reply: int) returns (status: Option<int>)
      requires Valid()
      modifies ports, dispatchers
      ensures Valid()
      ensures var i := port - 30000;
              && status == (if !(30000 <= port < 30128) then None
                            else if CallbackAt(old(Contents()), i, addr, handle).Some? then Some(reply)
                            else Some(0x752))
              && (30000 <= port < 30128 ==> DeletesOnly(old(Contents()), Contents(), i, addr, handle))
              && forall j: nat, a: AmsAddr, h: uint32 | j < NUM_PORTS_MAX ::
                   CallbackAt(Contents(), j, a, h)
                   == if (j, a, h) == (i, addr, handle) then None else CallbackAt(old(Contents()), j, a, h)
    {
      hide InStep, CallbackAt, DeletesOnly;
      ghost var s := Contents();
      if !InRange(port) {
        return None;
      }
      var i := port - PORT_BASE;
      ValidAt(i);
      ListedIff(s, i, addr, handle);
      var code := Drop(i, addr, handle, reply);
      status := Some(code);
      AfterDel(s, Contents(), i, addr, handle);
    }

    method Drop(i: nat, addr: AmsAddr, handle: uint32, reply: int) returns (status: int)
      requires i < NUM_PORTS_MAX && DistinctPorts() && WellFormed(Contents())
      requires ports[i].dispatcherList.Values <= dispatchers
      modifies ports, dispatchers
      ensures Deletes(old(Contents()), Contents(), i, addr, handle)
      ensures status == if NotifyUUID(addr, handle) in old(ports[i].dispatcherList) then reply
                        else ADSERR_CLIENT_REMOVEHASH
    {
      ghost var s := Contents();
      status := ports[i].DelNotification(addr, handle, reply);
      assert PortStates() == s.ports[i := ports[i].Contents()];
    }

    method ClosePort(port: uint16, replies: map<NotifyUUID, int>) returns (r: int)
      requires Valid()
      modifies ports, dispatchers
      ensures Valid()
      ensures var i := port - 30000;
              var open := 0 <= i < 128 && old(ports[i].IsOpen());
              && r == (if open then 0 else 0x748)
              && (!open ==> Contents() == old(Contents()))
              && (open ==>
                    && Contents().ports == old(Contents()).ports[i := PortState(map[], 5000, 0)]
                    && (forall j: nat, a: AmsAddr, h: uint32 | j < NUM_PORTS_MAX ::
                          CallbackAt(Contents(), j, a, h)
                          == if j == i then None else CallbackAt(old(Contents()), j, a, h))
                    && (forall a: AmsAddr :: DeletedOnce(old(Contents()), Contents(), i, a)))
    {
      hide InStep, CallbackAt, DeletedOnce, Closes;
      if port < PORT_BASE || port >= PORT_BASE + NUM_PORTS_MAX || !ports[port - PORT_BASE].IsOpen() {
        return ADSERR_CLIENT_PORTNOTOPEN;
      }
      ghost var s := Contents();
      ValidAt(port - PORT_BASE);
      CloseIn(port - PORT_BASE, replies);
      AfterClose(s, Contents(), port - PORT_BASE);
      r := 0;
    }

    method CloseIn(i: nat, replies: map<NotifyUUID, int>)
      requires i < NUM_PORTS_MAX && DistinctPorts() && WellFormed(Contents())
      requires ports[i].Valid() && ports[i].dispatcherList.Values <= dispatchers
      modifies ports[i], dispatchers
      ensures Closes(old(Contents()), Contents(), i)
    {
      hide Erased;
      ghost var s := Contents();
      ports[i].Close(replies);
      assert PortStates() == s.ports[i := PortState(map[], DEFAULT_TIMEOUT, 0)];
      assert Connections() == s.connections;
      hide AmsRouter.PortStates, AmsRouter.Connections;
    }
  }
}
