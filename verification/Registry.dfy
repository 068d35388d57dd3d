/** The manager's registry of servers: server objects and their expiry events that point at each
    other, the table, the tree below /servers and the timer queue. */
module Registries {
  import opened Leases
  import opened Wrappers

  const PROTOCOL_VERSION := 2

  /** A server entry. Its description and its time to live never change. */
  class KsmServer {
    const desc: ServerDesc
    const timeToLive: nat
    var port: nat
    var expiresAt: int
    var living: bool
    var pevent: ExpireServerEvent?

    constructor (desc: ServerDesc, port: nat, timeToLive: nat, expiresAt: int)
      ensures this.desc == desc && this.port == port && this.timeToLive == timeToLive
      ensures this.expiresAt == expiresAt && living && pevent == null
    {
      this.desc, this.port, this.timeToLive, this.expiresAt := desc, port, timeToLive, expiresAt;
      living, pevent := true, null;
    }
  }

  /** A timer event for the expiry of a server; without one it is inactive. */
  class ExpireServerEvent {
    var triggerAt: int
    var pserver: KsmServer?

    constructor (triggerAt: int)
      ensures this.triggerAt == triggerAt && pserver == null
    {
      this.triggerAt, pserver := triggerAt, null;
    }
  }

  /** The versions listed in a tree of domains. */
  predicate Lists(domain: map<string, set<nat>>, name: string, version: nat) {
    name in domain && version in domain[name]
  }

  /** The tree has a node for each registered server and for the manager itself, and no others. */
  ghost predicate Mirrors(domain: map<string, set<nat>>, known: set<ServerDesc>) {
    && (forall name :: name in domain ==> domain[name] != {})
    && (forall name, version :: Lists(domain, name, version) <==>
          ServerDesc(name, version) in known || (name == MANAGER && version == PROTOCOL_VERSION))
  }

  function WithNode(domain: map<string, set<nat>>, name: string, version: nat): (domain': map<string, set<nat>>) {
    domain[name := if name in domain then domain[name] + {version} else {version}]
  }

  lemma NodeAdded(domain: map<string, set<nat>>, known: set<ServerDesc>, d: ServerDesc)
    requires Mirrors(domain, known)
    ensures Mirrors(WithNode(domain, d.name, d.protocolVersion), known + {d})
  {
    var domain' := WithNode(domain, d.name, d.protocolVersion);
    assert forall n, v :: Lists(domain', n, v) <==> Lists(domain, n, v) || (n == d.name && v == d.protocolVersion);
  }

  /** A server's last version takes the server's own domain with it. */
  function WithoutNode(domain: map<string, set<nat>>, name: string, version: nat): (domain': map<string, set<nat>>)
    requires name in domain
  {
    if |domain[name]| == 1 then domain - {name} else domain[name := domain[name] - {version}]
  }

  lemma NodeRemoved(domain: map<string, set<nat>>, known: set<ServerDesc>, d: ServerDesc)
    requires Mirrors(domain, known) && d in known && d.name != MANAGER
    ensures d.name in domain && Mirrors(WithoutNode(domain, d.name, d.protocolVersion), known - {d})
  {
    assert Lists(domain, d.name, d.protocolVersion);
    var domain' := WithoutNode(domain, d.name, d.protocolVersion);
    OnlyElement(domain[d.name], d.protocolVersion);
    assert forall n, v :: Lists(domain', n, v) <==> Lists(domain, n, v) && !(n == d.name && v == d.protocolVersion);
  }

  lemma OnlyElement(s: set<nat>, x: nat)
    requires x in s
    ensures |s| == 1 <==> s == {x}
  {
    assert |s| == |s - {x}| + 1;
  }

  lemma PresentAdded(known: set<ServerDesc>, d: ServerDesc)
    requires d in known
    ensures known + {d} == known
  {
  }

  class KsManager {
    var serverTable: map<ServerDesc, KsmServer>
    var serversDomain: map<string, set<nat>>
    var timerQueue: set<ExpireServerEvent>
    ghost var servers: set<KsmServer>

    /** Table and events agree: each entry has exactly one active event among `events`. */
    ghost predicate Linked(events: set<ExpireServerEvent>)
      reads this`serverTable, this`servers, servers`port, servers`expiresAt, servers`living, servers`pevent
      reads events`triggerAt, events`pserver
    {
      && (forall d :: d in serverTable ==> serverTable[d] in servers && serverTable[d].desc == d && Registrable(d))
      && (forall s :: s in servers ==>
            && s.desc in serverTable && serverTable[s.desc] == s
            && s.pevent != null && s.pevent in events && s.pevent.pserver == s)
      && (forall e :: e in events && e.pserver != null ==> e.pserver in servers && e.pserver.pevent == e)
    }

    ghost predicate Valid()
      reads this, servers, timerQueue
    {
      Linked(timerQueue) && Mirrors(serversDomain, serverTable.Keys)
    }

    /** The registrations. */
    ghost function View(events: set<ExpireServerEvent>): (r: Registry)
      requires Linked(events)
      reads this`serverTable, this`servers, servers`port, servers`expiresAt, servers`living, servers`pevent
      reads events`triggerAt, events`pserver
    {
      map d | d in serverTable :: Entry(serverTable[d], events)
    }

    static ghost function Entry(s: KsmServer, events: set<ExpireServerEvent>): (l: Lease)
      requires s.pevent != null && s.pevent in events
      reads s`port, s`expiresAt, s`living, s`pevent, events`triggerAt
    {
      Lease(s.port, s.expiresAt, s.timeToLive, s.living, s.pevent.triggerAt)
    }

    ghost function Registrations(): (r: Registry)
      requires Valid()
      reads this, servers, timerQueue
    {
      View(timerQueue)
    }

    constructor ()
      ensures Valid() && View(timerQueue) == map[]
    {
      serverTable, timerQueue, servers := map[], {}, {};
      serversDomain := map[MANAGER := {PROTOCOL_VERSION}];
    }

    lemma Views(events: set<ExpireServerEvent>, r: Registry)
      requires Linked(events) && serverTable.Keys == r.Keys
      requires forall d :: d in serverTable ==> Entry(serverTable[d], events) == r[d]
      ensures View(events) == r
    {
    }

    lemma Viewed(events: set<ExpireServerEvent>)
      requires Linked(events)
      ensures View(events).Keys == serverTable.Keys
      ensures forall d :: d in serverTable ==>
        && d == serverTable[d].desc && serverTable[d] in servers && serverTable[d].pevent != null
        && serverTable[d].pevent in events && Entry(serverTable[d], events) == View(events)[d]
    {
    }

    /** Queues a new event, which is inactive. */
    method Schedule(at: int) returns (e: ExpireServerEvent)
      requires Linked(timerQueue)
      modifies this`timerQueue
      ensures Linked(timerQueue) && View(timerQueue) == old(View(timerQueue))
      ensures fresh(e) && timerQueue == old(timerQueue) + {e} && e.pserver == null && e.triggerAt == at
    {
      hide View;
      Viewed(timerQueue);
      ghost var r := View(timerQueue);
      e := new ExpireServerEvent(at);
      timerQueue := timerQueue + {e};
      Views(timerQueue, r);
    }

    /** Renews the registration of a known server; its old event becomes inactive. */
    method Renew(d: ServerDesc, port: nat, pevent: ExpireServerEvent)
      requires Linked(timerQueue) && d in serverTable && pevent in timerQueue && pevent.pserver == null
      modifies serverTable[d], serverTable[d].pevent, pevent
      ensures Linked(timerQueue)
      ensures Entry(serverTable[d], timerQueue) ==
        Lease(port, old(pevent.triggerAt), serverTable[d].timeToLive, true, old(pevent.triggerAt))
      ensures forall x :: x in serverTable && x != d ==>
        Entry(serverTable[x], timerQueue) == old(Entry(serverTable[x], timerQueue))
    {
      Unused(pevent, timerQueue);
      hide Registrable;
      var pserver := serverTable[d];
      pserver.port := port;
      pserver.expiresAt := pevent.triggerAt;
      pserver.living := true;
      pserver.pevent.pserver := null;
      pserver.pevent := pevent;
      pevent.pserver := pserver;
    }

    lemma Unused(e: ExpireServerEvent, events: set<ExpireServerEvent>)
      requires Linked(events) && e.pserver == null
      ensures forall s :: s in servers ==> s.pevent != e && s.desc in serverTable && serverTable[s.desc] == s
      ensures forall d :: d in serverTable ==> serverTable[d] in servers && serverTable[d].pevent != null && serverTable[d].pevent != e
    {
    }

    /** Adds an unknown server to the table. */
    method Enter(d: ServerDesc, port: nat, ttl: nat, pevent: ExpireServerEvent)
      requires Linked(timerQueue) && d !in serverTable && Registrable(d)
      requires pevent in timerQueue && pevent.pserver == null
      modifies this`serverTable, this`servers, pevent
      ensures Linked(timerQueue)
      ensures serverTable.Keys == old(serverTable.Keys) + {d}
      ensures Entry(serverTable[d], timerQueue) == Lease(port, old(pevent.triggerAt), ttl, true, old(pevent.triggerAt))
      ensures forall x :: x in old(serverTable) ==>
        serverTable[x] == old(serverTable[x]) && Entry(serverTable[x], timerQueue) == old(Entry(serverTable[x], timerQueue))
      ensures fresh(servers - old(servers))
    {
      hide Registrable;
      Unused(pevent, timerQueue);
      var pserver := new KsmServer(d, port, ttl, pevent.triggerAt);
      serverTable := serverTable[d := pserver];
      servers := servers + {pserver};
      pserver.pevent := pevent;
      pevent.pserver := pserver;
    }

    /** Connects an entry for `d`, old or new, with the event that is queued for it. */
    method Connect(d: ServerDesc, port: nat, ttl: nat, now: int, pevent: ExpireServerEvent)
      requires Linked(timerQueue) && Registrable(d) && pevent in timerQueue && pevent.pserver == null
      requires pevent.triggerAt == now + ttl
      modifies this`serverTable, this`servers, servers, timerQueue
      ensures Linked(timerQueue)
      ensures View(timerQueue) == Registered(old(View(timerQueue)), d, port, ttl, now)
      ensures fresh(servers - old(servers)) && timerQueue == old(timerQueue)
    {
      hide Linked, View;
      Viewed(timerQueue);
      ghost var r, at := View(timerQueue), pevent.triggerAt;
      if d in serverTable {
        Renew(d, port, pevent);
        Views(timerQueue, r[d := Lease(port, at, r[d].timeToLive, true, at)]);
      } else {
        Enter(d, port, ttl, pevent);
        Views(timerQueue, r[d := Lease(port, at, ttl, true, at)]);
      }
    }

    /** Queues an event for `d`, and connects an entry for it, old or new. */
    method Enlist(d: ServerDesc, port: nat, ttl: nat, now: int)
      requires Linked(timerQueue) && Registrable(d)
      modifies this`serverTable, this`servers, this`timerQueue, servers, timerQueue
      ensures Linked(timerQueue) && View(timerQueue) == Registered(old(View(timerQueue)), d, port, ttl, now)
      ensures fresh(servers - old(servers)) && fresh(timerQueue - old(timerQueue))
    {
      hide Linked, View, Registered, Registrable;
      var pevent := Schedule(now + ttl);
      Connect(d, port, ttl, now, pevent);
    }

    /** Registers or renews a server whose description has been checked. */
    method Admit(d: ServerDesc, port: nat, ttl: nat, now: int)
      requires Valid() && Registrable(d)
      modifies this, servers, timerQueue
      ensures Valid() && View(timerQueue) == Registered(old(View(timerQueue)), d, port, ttl, now)
      ensures fresh(servers - old(servers)) && fresh(timerQueue - old(timerQueue))
    {
      hide Linked, View, Mirrors, WithNode, Registered, Registrable;
      Viewed(timerQueue);
      var known := d in serverTable;
      ghost var keys := serverTable.Keys;
      NodeAdded(serversDomain, keys, d);
      Enlist(d, port, ttl, now);
      Viewed(timerQueue);
      RegisteredKeys(old(View(timerQueue)), d, port, ttl, now);
      if known {
        PresentAdded(keys, d);
      } else {
        serversDomain := WithNode(serversDomain, d.name, d.protocolVersion);
      }
    }

    /** Registers a server, or renews its registration. */
    method RegisterServer(d: ServerDesc, port: nat, ttl: nat, now: int) returns (result: Result)
      requires Valid()
      modifies this, servers, timerQueue
      ensures Valid()
      ensures result == if Registrable(d) then Ok else BadParam
      ensures View(timerQueue) == Registered(old(View(timerQueue)), d, port, ttl, now)
      ensures fresh(servers - old(servers)) && fresh(timerQueue - old(timerQueue))
    {
      hide Linked, View, Mirrors;
      if !ValidName(d.name) || d.protocolVersion < 1 {
        return BadParam;
      }
      if d.name == MANAGER {
        return BadParam;
      }
      Admit(d, port, ttl, now);
      result := Ok;
    }

    /** Takes a server out of the table, and inactivates its event. */
    method Drop(s: KsmServer, ghost events: set<ExpireServerEvent>)
      requires Linked(events) && s in servers
      modifies this`serverTable, this`servers, s.pevent`pserver
      ensures Linked(events) && serverTable == old(serverTable) - {s.desc}
      ensures old(s.pevent).pserver == null && servers <= old(servers)
      ensures forall x :: x in serverTable ==> Entry(serverTable[x], events) == old(Entry(serverTable[x], events))
    {
      serverTable := serverTable - {s.desc};
      servers := servers - {s};
      s.pevent.pserver := null;
    }

    /** Removes a server from the table and from the tree. `events` are the queued events, and
        the one that is being triggered. */
    method RemoveServer(s: KsmServer, ghost events: set<ExpireServerEvent>)
      requires Linked(events) && Mirrors(serversDomain, serverTable.Keys) && s in servers
      modifies this`serverTable, this`servers, this`serversDomain, s.pevent`pserver
      ensures Linked(events) && Mirrors(serversDomain, serverTable.Keys)
      ensures View(events) == old(View(events)) - {s.desc} && old(s.pevent).pserver == null && servers <= old(servers)
    {
      hide Linked, View, Mirrors, WithoutNode, Registrable;
      Viewed(events);
      Listed(s, events);
      ghost var r, keys := View(events), serverTable.Keys;
      NodeRemoved(serversDomain, keys, s.desc);
      Drop(s, events);
      Views(events, r - {s.desc});
      serversDomain := WithoutNode(serversDomain, s.desc.name, s.desc.protocolVersion);
    }

    lemma Listed(s: KsmServer, events: set<ExpireServerEvent>)
      requires Linked(events) && s in servers
      ensures s.desc in serverTable && serverTable[s.desc] == s && s.desc.name != MANAGER
      ensures s.pevent != null && s.pevent in events && s.pevent.pserver == s
    {
    }

    /** Removes a server's entry on request. */
    method UnregisterServer(d: ServerDesc) returns (result: Result)
      requires Valid()
      modifies this`serverTable, this`servers, this`serversDomain, timerQueue`pserver
      ensures Valid() && View(timerQueue) == Unregistered(old(View(timerQueue)), d)
      ensures result == if d.name == MANAGER then BadParam else if d in old(serverTable) then Ok else ServerUnknown
      ensures servers <= old(servers)
    {
      hide Linked, View, Mirrors;
      Viewed(timerQueue);
      if d.name == MANAGER {
        return BadParam;
      }
      if d in serverTable {
        Listed(serverTable[d], timerQueue);
        RemoveServer(serverTable[d], timerQueue);
        result := Ok;
      } else {
        assert View(timerQueue) - {d} == View(timerQueue);
        result := ServerUnknown;
      }
    }

    /** An event's time has come; it has been taken out of the queue. A living server is marked
        dead, and the event is queued again; a dead one is removed. */
    method Trigger(e: ExpireServerEvent, now: int)
      requires Linked(timerQueue + {e}) && Mirrors(serversDomain, serverTable.Keys) && e !in timerQueue
      modifies this, servers`living, timerQueue`pserver, e
      ensures Valid()
      ensures if old(e.pserver) == null then
          timerQueue == old(timerQueue) && View(timerQueue) == old(View(timerQueue + {e}))
        else var d := old(e.pserver).desc;
          d in old(serverTable) && View(timerQueue) == Expired(old(View(timerQueue + {e})), d, now)
      ensures servers <= old(servers) && timerQueue <= old(timerQueue) + {e}
    {
      hide Linked, View, Mirrors;
      ghost var events := timerQueue + {e};
      Viewed(events);
      Active(e, events);
      if e.pserver != null {
        var pserver := e.pserver;
        if pserver.living {
          Mark(pserver, e, now);
        } else {
          RemoveServer(pserver, events);
          Inactive(e);
        }
      } else {
        Inactive(e);
      }
    }

    lemma Active(e: ExpireServerEvent, events: set<ExpireServerEvent>)
      requires Linked(events) && e in events
      ensures e.pserver != null ==> e.pserver in servers && e.pserver.pevent == e
      ensures e.pserver != null ==> e.pserver.desc in serverTable && serverTable[e.pserver.desc] == e.pserver
    {
    }

    lemma Inactive(e: ExpireServerEvent)
      requires Linked(timerQueue + {e}) && e.pserver == null
      ensures Linked(timerQueue) && View(timerQueue) == View(timerQueue + {e})
    {
    }

    /** Marks a living server dead, and queues its event for another time to live. */
    method Mark(s: KsmServer, e: ExpireServerEvent, now: int)
      requires Linked(timerQueue + {e}) && s in servers && s.pevent == e && s.living
      modifies this`timerQueue, s`living, e`triggerAt
      ensures Linked(timerQueue) && s.desc in serverTable
      ensures View(timerQueue) == Expired(old(View(timerQueue + {e})), s.desc, now)
      ensures timerQueue == old(timerQueue) + {e}
    {
      hide View, Linked;
      ghost var events := timerQueue + {e};
      Viewed(events);
      Listed(s, events);
      ghost var r := View(events);
      Postpone(s, e, now);
      Views(timerQueue, r[s.desc := r[s.desc].(living := false, triggerAt := now + s.timeToLive)]);
    }

    method Postpone(s: KsmServer, e: ExpireServerEvent, now: int)
      requires Linked(timerQueue + {e}) && s in servers && s.pevent == e
      modifies this`timerQueue, s`living, e`triggerAt
      ensures timerQueue == old(timerQueue) + {e} && Linked(timerQueue)
      ensures Entry(s, timerQueue) == old(Entry(s, timerQueue + {e})).(living := false, triggerAt := now + s.timeToLive)
      ensures forall x :: x in serverTable && x != s.desc ==>
        Entry(serverTable[x], timerQueue) == old(Entry(serverTable[x], timerQueue + {e}))
    {
      s.living := false;
      e.triggerAt := now + s.timeToLive;
      timerQueue := timerQueue + {e};
    }

    /** Serves the event that is due first, exactly if it is due by now: an active one is an expiry
        that is possible, an inactive one only leaves the queue. */
    method ServePendingEvents(now: int) returns (served: bool, ghost first: ExpireServerEvent?)
      requires Valid()
      modifies this, servers`living, timerQueue
      ensures Valid() && (served <==> first != null)
      ensures served <==> exists e :: e in old(timerQueue) && old(e.triggerAt) <= now
      ensures !served ==> unchanged(this) && unchanged(timerQueue) && unchanged(servers)
      ensures served ==> first in old(timerQueue) && forall e :: e in old(timerQueue) ==> old(first.triggerAt) <= old(e.triggerAt)
      ensures served && old(first.pserver) == null ==>
        timerQueue == old(timerQueue) - {first} && View(timerQueue) == old(View(timerQueue))
      ensures served && old(first.pserver) != null ==> var d := old(first.pserver).desc;
        Possible(old(View(timerQueue)), Expire(d, now)) && View(timerQueue) == Step(old(View(timerQueue)), Expire(d, now))
      ensures servers <= old(servers) && timerQueue <= old(timerQueue)
    {
      hide Linked, View, Mirrors;
      served, first := false, null;
      if timerQueue != {} {
        var e := First();
        if e.triggerAt <= now {
          Viewed(timerQueue);
          Active(e, timerQueue);
          timerQueue := timerQueue - {e};
          assert timerQueue + {e} == old(timerQueue);
          first := e;
          Trigger(e, now);
          served := true;
        }
      }
    }

    /** The event that is due first. */
    method First() returns (e: ExpireServerEvent)
      requires timerQueue != {}
      ensures e in timerQueue && forall f :: f in timerQueue ==> e.triggerAt <= f.triggerAt
    {
      e :| e in timerQueue;
      var rest := timerQueue - {e};
      while rest != {}
        invariant rest <= timerQueue && e in timerQueue
        invariant forall f :: f in timerQueue - rest ==> e.triggerAt <= f.triggerAt
        decreases rest
      {
        var f :| f in rest;
        if f.triggerAt < e.triggerAt {
          e := f;
        }
        rest := rest - {f};
      }
    }

    /** The registered server of the name wanted with the highest version that is at least the
        one wanted. */
    method GetServer(wanted: ServerDesc) 
      returns (result: Result, found: ServerDesc, port: nat, expiresAt: int, living: bool)
      requires Valid()
      ensures wanted.protocolVersion < 1 ==> result == BadParam
      ensures wanted.protocolVersion >= 1 && wanted.name == MANAGER ==>
        result == Ok && found == ServerDesc(MANAGER, PROTOCOL_VERSION) && living
      ensures wanted.protocolVersion >= 1 && wanted.name != MANAGER && result == Ok ==>
        && found in View(timerQueue) && Matches(found, wanted)
        && (var l := View(timerQueue)[found]; l.port == port && l.expiresAt == expiresAt && l.living == living)
        && forall d :: d in View(timerQueue) && Matches(d, wanted) ==> d.protocolVersion <= found.protocolVersion
      ensures wanted.protocolVersion >= 1 && wanted.name != MANAGER && result != Ok ==>
        result == ServerUnknown && forall d :: d in View(timerQueue) ==> !Matches(d, wanted)
    {
      found, port, expiresAt, living := wanted, 0, 0, true;
      if wanted.protocolVersion < 1 {
        result := BadParam;
        return;
      }
      if wanted.name == MANAGER {
        result, found := Ok, ServerDesc(MANAGER, PROTOCOL_VERSION);
        return;
      }
      hide Mirrors, View, Linked;
      Viewed(timerQueue);
      var best: KsmServer?, bestVersion: nat := null, 0;
      var rest := serverTable.Keys;
      while rest != {}
        invariant rest <= serverTable.Keys
        invariant best == null ==> bestVersion == 0 && forall d :: d in serverTable.Keys - rest ==> !Matches(d, wanted)
        invariant best != null ==> best.desc in serverTable && serverTable[best.desc] == best && Matches(best.desc, wanted)
        invariant best != null ==> bestVersion == best.desc.protocolVersion
        invariant forall d :: d in serverTable.Keys - rest && Matches(d, wanted) ==> d.protocolVersion <= bestVersion
        decreases rest
      {
        var d :| d in rest;
        var desc := serverTable[d].desc;
        if desc.protocolVersion >= wanted.protocolVersion && desc.name == wanted.name {
          if bestVersion < desc.protocolVersion {
            bestVersion := desc.protocolVersion;
            best := serverTable[d];
          }
        }
        rest := rest - {d};
      }
      if best != null {
        found := best.desc;
        port, expiresAt, living := best.port, best.expiresAt, best.living;
        result := Ok;
      } else {
        result := ServerUnknown;
      }
    }
  }

  /** What reaches the manager: requests, and its turns to serve one timer event. */
  datatype Request =
    | Registration(desc: ServerDesc, port: nat, ttl: nat, at: int)
    | Withdrawal(desc: ServerDesc, at: int)
    | Tick(at: int)

  predicate Timely(qs: seq<Request>, now: int) {
    && (forall i :: 0 <= i < |qs| ==> now <= qs[i].at)
    && (forall i, j :: 0 <= i < j < |qs| ==> qs[i].at <= qs[j].at)
  }

  function Asked(qs: seq<Request>): (es: seq<Event>) {
    if qs == [] then []
    else Asked(qs[..|qs| - 1]) + Meant(qs[|qs| - 1])
  }

  function Meant(q: Request): (es: seq<Event>) {
    match q
    case Registration(d, port, ttl, at) => [Register(d, port, ttl, at)]
    case Withdrawal(d, at) => [Unregister(d, at)]
    case Tick(_) => []
  }

  lemma AskedMore(qs: seq<Request>, q: Request)
    ensures Asked(qs + [q]) == Asked(qs) + Meant(q)
  {
    assert (qs + [q])[..|qs|] == qs;
  }

  /** `e` is what the request means for the registrations, if anything. */
  predicate Means(q: Request, e: Option<Event>, r: Registry, r': Registry) {
    && (match q
        case Registration(d, port, ttl, at) => e == Some(Register(d, port, ttl, at))
        case Withdrawal(d, at) => e == Some(Unregister(d, at))
        case Tick(at) => e.Some? ==> e.value.Expire? && e.value.at == at)
    && match e
       case Some(e) => Possible(r, e) && r' == Step(r, e)
       case None => r' == r
  }

  /** One request, or one timer event. */
  method Undergo(m: KsManager, q: Request) returns (ghost e: Option<Event>)
    requires m.Valid()
    modifies m, m.servers, m.timerQueue
    ensures m.Valid() && fresh(m.servers - old(m.servers)) && fresh(m.timerQueue - old(m.timerQueue))
    ensures Means(q, e, old(m.Registrations()), m.Registrations())
  {
    hide KsManager.Linked, KsManager.View, Mirrors, Registered, Unregistered, Expired;
    match q
    case Registration(d, port, ttl, at) =>
      var _ := m.RegisterServer(d, port, ttl, at);
      e := Some(Register(d, port, ttl, at));
    case Withdrawal(d, at) =>
      var _ := m.UnregisterServer(d);
      e := Some(Unregister(d, at));
    case Tick(at) =>
      var served;
      ghost var first;
      served, first := m.ServePendingEvents(at);
      e := if served && old(first.pserver) != null then Some(Expire(old(first.pserver).desc, at)) else None;
  }

  /** The requests `qs` amount to the run `es`, which makes `r'` of `r`. */
  ghost predicate Plays(qs: seq<Request>, es: seq<Event>, now: int, r: Registry, r': Registry) {
    && Lawful(r, es, now) && r' == Execute(r, es, now) && Requests(es) == Asked(qs)
    && (es != [] ==> qs != [] && es[|es| - 1].at <= qs[|qs| - 1].at)
    && (qs != [] ==> now <= qs[|qs| - 1].at)
  }

  lemma PlaysMore(qs: seq<Request>, es: seq<Event>, now: int, r: Registry, t: Registry, q: Request, e: Option<Event>, u: Registry)
      returns (es': seq<Event>)
    requires Plays(qs, es, now, r, t) && Means(q, e, t, u) && q.at >= if qs == [] then now else qs[|qs| - 1].at
    ensures Plays(qs + [q], es', now, r, u)
  {
    hide Lawful, Execute, Possible, Step, Asked, Requests;
    AskedMore(qs, q);
    es' := es;
    if e.Some? {
      LawfulMore(r, es, now, e.value);
      RequestsMore(es, e.value);
      es' := es + [e.value];
    }
  }

  lemma InTime(qs: seq<Request>, now: int, i: nat)
    requires Timely(qs, now) && i < |qs|
    ensures qs[i].at >= if qs[..i] == [] then now else qs[..i][|qs[..i]| - 1].at
  {
    if i == 0 {
      assert qs[..i] == [] && qs[0].at >= now;
    } else {
      assert |qs[..i]| == i && qs[..i][i - 1] == qs[i - 1] && qs[i].at >= qs[i - 1].at;
    }
  }

  /** Every run of the manager is one of the registry: its requests, with expiries between them. */
  method Play(m: KsManager, qs: seq<Request>, now: int) returns (ghost es: seq<Event>)
    requires m.Valid() && Timely(qs, now)
    modifies m, m.servers, m.timerQueue
    ensures m.Valid() && fresh(m.servers - old(m.servers)) && fresh(m.timerQueue - old(m.timerQueue))
    ensures Plays(qs, es, now, old(m.Registrations()), m.Registrations())
  {
    hide KsManager.Valid, KsManager.Registrations, Plays, Means;
    es := [];
    ghost var r := m.Registrations();
    PlaysNothing(r, now);
    var i := 0;
    while i < |qs|
      invariant 0 <= i <= |qs| && m.Valid()
      invariant fresh(m.servers - old(m.servers)) && fresh(m.timerQueue - old(m.timerQueue))
      invariant Plays(qs[..i], es, now, r, m.Registrations())
    {
      ghost var t := m.Registrations();
      InTime(qs, now, i);
      ghost var e := Undergo(m, qs[i]);
      es := PlaysMore(qs[..i], es, now, r, t, qs[i], e, m.Registrations());
      assert qs[..i + 1] == qs[..i] + [qs[i]];
      i := i + 1;
    }
    assert qs[..i] == qs;
  }

  lemma PlaysNothing(r: Registry, now: int)
    ensures Plays([], [], now, r, r)
  {
    assert Execute(r, [], now) == r;
  }

  predicate NoneAbout(qs: seq<Request>, d: ServerDesc) {
    forall i :: 0 <= i < |qs| ==> qs[i].Tick? || qs[i].desc != d
  }

  lemma {:induction false} NoneAsked(qs: seq<Request>, d: ServerDesc)
    requires NoneAbout(qs, d)
    ensures forall e :: e in Asked(qs) ==> e.desc != d
  {
    if qs != [] {
      NoneAsked(qs[..|qs| - 1], d);
    }
  }

  /** What the manager answers about a server that was registered at some time, whatever happened
      before, and whatever happened since to other servers: if it answers with that server, then
      with the port and the lease last asked for. */
  method Consult(m: KsManager, d: ServerDesc, port: nat, ttl: nat, at: int, qs: seq<Request>, wanted: ServerDesc)
    returns (result: Result, found: ServerDesc, port': nat, expiresAt: int, living: bool)
    requires m.Valid() && Registrable(d) && Timely(qs, at) && NoneAbout(qs, d)
    modifies m, m.servers, m.timerQueue
    ensures result == Ok && found == d ==> port' == port && expiresAt == at + ttl
  {
    hide KsManager.Linked, KsManager.View, Mirrors, Plays, Registered;
    var _ := m.RegisterServer(d, port, ttl, at);
    ghost var r := m.Registrations();
    RegisteredNow(old(m.Registrations()), d, port, ttl, at);
    ghost var es := Play(m, qs, at);
    SinceThen(qs, es, at, r, m.Registrations(), d, port, at + ttl);
    result, found, port', expiresAt, living := m.GetServer(wanted);
  }

  lemma SinceThen(qs: seq<Request>, es: seq<Event>, now: int, r: Registry, r': Registry, d: ServerDesc, port: nat, expiresAt: int)
    requires Plays(qs, es, now, r, r') && NoneAbout(qs, d) && d in r && r[d].port == port && r[d].expiresAt == expiresAt
    ensures d in r' ==> r'[d].port == port && r'[d].expiresAt == expiresAt
  {
    hide Lawful, Execute, Asked, Requests;
    NoneAsked(qs, d);
    forall k | 0 <= k < |es| && es[k].desc == d ensures es[k].Expire? {
      if !es[k].Expire? {
        InRequests(es, k);
      }
    }
    ParticularsStay(r, es, now, d, port, expiresAt);
  }

  lemma RegisteredNow(r: Registry, d: ServerDesc, port: nat, ttl: nat, at: int)
    requires Registrable(d)
    ensures var r' := Registered(r, d, port, ttl, at); d in r' && r'[d].port == port && r'[d].expiresAt == at + ttl
  {
  }

  predicate Matches(d: ServerDesc, wanted: ServerDesc) {
    d.name == wanted.name && d.protocolVersion >= wanted.protocolVersion
  }

  /** The server's own timer event, which renews its registration with the manager. */
  class ReregisterServerEvent {
    var triggerAt: int

    constructor (now: int)
      ensures triggerAt == now
    {
      triggerAt := now;
    }

    /** Tries to register unless the server is going down; `accepted` is the manager's answer.
        The event is queued again for the next renewal, or deleted. */
    method Trigger(goingDown: bool, accepted: bool, ttl: nat, now: int) returns (queued: bool)
      modifies this
      ensures queued <==> !goingDown
      ensures triggerAt == if queued then now + RenewalDelay(ttl, accepted) else old(triggerAt)
      ensures queued && accepted && ttl > MIN_TTL ==> triggerAt < now + ttl
    {
      if !goingDown {
        if accepted {
          var secs := ttl / 4;
          secs := secs * 3;
          if secs < MIN_TTL {
            secs := MIN_TTL;
          }
          triggerAt := now + secs;
        } else {
          triggerAt := now + MIN_TTL;
        }
        queued := true;
      } else {
        queued := false;
      }
    }
  }
}
