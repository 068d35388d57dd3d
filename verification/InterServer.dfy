/** A connection from one server to another: the automaton that goes from the portmapper to the
    manager and on to the server, and tells its user what has become of it. */
module InterServer {
  import opened Wrappers

  const KS_PROTOCOL_VERSION := 2
  const KS_MINPROTOCOL_VERSION := 1

  datatype MacroState = StateClosed | StateOpen | StateBusy
  datatype SubState = NoStage | Portmapper | Manager | Server
  datatype MicroState =
    | Connecting | Connected | ConnFailed
    | Sending | Waiting | Receiving | Passive
    | Ready | ReadyFailed
    | Dead
  datatype Operation = OpOpen | OpCall
  datatype KsResult = Ok | Generic | HostUnknown | NoManager | NetworkError | ServerUnknown

  /** What the user is told: which operation has ended, and its result. */
  datatype Notice = Nothing | Notice(op: Operation, result: KsResult)

  /** What there is to connect with: no socket, one whose connection is dead, or a working one,
      which the connection manager may or may not take under its control. */
  datatype Socket = NoSocket | DeadSocket | Working(managed: bool)

  /** What the user may do when told; the arguments say what then works. */
  datatype Request =
    | UserOpen(known: bool, socket: Socket)
    | UserClose
    | UserBeginSend(begun: bool)
    | UserEndSend
    | UserEndReceive

  /** An RPC reply: whether the call was accepted, whether the answer could be decoded, the port
      in it, and whether the manager found the server. */
  datatype Reply = Reply(accepted: bool, decoded: bool, port: nat, found: bool)

  /** What becomes of a connection that has reported: it is watched further, or gone for the
      next one, or the automaton is stuck. */
  datatype Advance = Watch | Gone | Stuck

  /** What a report calls for while a connection is being established. */
  datatype Move = Asking | Onward(stage: SubState, version: nat) | Over(result: KsResult)

  /** The portmapper names the manager, the manager the server; if it does not know the server,
      it is asked for an older version, by way of the portmapper unless its port is known. */
  function Next(stage: SubState, connected: bool, works: bool, reply: Reply, socket: Socket, version: nat, hostPort: nat): (m: Move)
    requires version >= KS_MINPROTOCOL_VERSION
  {
    var go := if socket.Working? then
        if stage == Portmapper then Onward(Manager, version)
        else if reply.found then Onward(Server, version)
        else Onward(if hostPort != 0 then Manager else Portmapper, version - 1)
      else Over(Generic);
    if connected then if works then Asking else Over(Generic)
    else if !reply.accepted || !reply.decoded then Over(NetworkError)
    else if stage == Portmapper then if reply.port == 0 then Over(ServerUnknown) else go
    else if !reply.found && version == KS_MINPROTOCOL_VERSION then Over(ServerUnknown)
    else go
  }

  function Rank(stage: SubState): (n: nat) {
    match stage case Portmapper => 0 case Manager => 1 case _ => 2
  }

  /** Establishment gets older versions or later stages only, never a version too old, and comes
      to the server only when the manager has found it. */
  lemma NextDescends(stage: SubState, connected: bool, works: bool, reply: Reply, socket: Socket, version: nat, hostPort: nat)
    requires version >= KS_MINPROTOCOL_VERSION && (stage == Portmapper || stage == Manager)
    ensures var m := Next(stage, connected, works, reply, socket, version, hostPort);
      m.Onward? ==>
        && KS_MINPROTOCOL_VERSION <= m.version <= version
        && (m.version == version ==> Rank(m.stage) > Rank(stage))
        && (m.stage == Server ==> stage == Manager && reply.found && m.version == version)
  {
  }

  predicate Failed(s: MicroState) {
    s == ConnFailed || s == ReadyFailed || s == Dead
  }

  /** What the connection manager tells a connection: it can send, which fails, or sends all or
      only a part; it can receive, which fails, or completes a reply, valid or not; its time is
      up, with UDP perhaps only that for one attempt. */
  datatype NetEvent =
    | Writeable(fails: bool, done: bool)
    | Readable(fails: bool, complete: bool, valid: bool)
    | Expired(total: bool)

  /** The client side of `send`, `receive` and `timedOut`. */
  function After(udp: bool, s: MicroState, e: NetEvent): (t: MicroState) {
    if s == Dead then Dead
    else if udp then
      match e
      case Writeable(fails, done) =>
        if s != Sending || fails then Passive else if done then Waiting else Sending
      case Readable(_, complete, valid) =>
        if s != Waiting then Passive else if complete && valid then Ready else s
      case Expired(total) => if total then ReadyFailed else Sending
    else
      match e
      case Writeable(fails, done) =>
        if s == Connecting then if fails then ConnFailed else Connected
        else if s == Connected || s == ConnFailed then s
        else if fails then ReadyFailed else if done then Waiting else s
      case Readable(fails, complete, valid) =>
        if s == Connecting then if fails then ConnFailed else Connected
        else if s == Connected || s == ConnFailed then s
        else if fails then ReadyFailed
        else if complete then if valid then Ready else ReadyFailed
        else Receiving
      case Expired(_) => if s == Connecting then ConnFailed else ReadyFailed
  }

  /** The events that the io mode of a client connection asks for; a connection that has just
      been established may be told once more in the same round. */
  predicate Watches(udp: bool, s: MicroState, e: NetEvent) {
    match e
    case Writeable(_, _) => s == Sending || (!udp && s == Connecting)
    case Readable(_, _, _) => s == Waiting || (!udp && s in {Receiving, Connecting, Connected, ConnFailed})
    case Expired(_) => s == Waiting || (!udp && s in {Receiving, Connecting, Sending})
  }

  /** Whether the connection calls for attention. */
  predicate Calls(s: MicroState) {
    s in {Connected, ConnFailed, Ready, ReadyFailed}
  }

  /** The client side of `reset`. */
  function AfterReset(udp: bool, s: MicroState): (t: MicroState) {
    if s == Dead then Dead
    else if udp then Passive
    else if s in {Sending, Waiting, Receiving} then ReadyFailed
    else Connected
  }

  /** How a watched connection comes to be established, to have sent its request, and to have an
      answer; and when it has failed. */
  lemma AfterExactly(udp: bool, s: MicroState, e: NetEvent)
    requires Watches(udp, s, e) && s != Dead && !Calls(s)
    ensures var t := After(udp, s, e);
      && (t == Connected <==> s == Connecting && !e.Expired? && !e.fails)
      && (t == Waiting && s != Waiting <==> s == Sending && e.Writeable? && !e.fails && e.done)
      && (t == Ready <==> e.Readable? && e.complete && e.valid && (s == Waiting || (s == Receiving && !udp)) && (e.fails ==> udp))
      && (t == ConnFailed <==> s == Connecting && (e.Expired? || e.fails))
      && (!udp ==> (t == ReadyFailed <==> s != Connecting && (e.Expired? || e.fails || (e.Readable? && e.complete && !e.valid))))
      && (udp ==> (t == ReadyFailed <==> e.Expired? && e.total) && (t == Passive <==> e.Writeable? && e.fails))
  {
  }

  /** A client connection does not die of anything that happens to it. */
  lemma NeverDies(udp: bool, s: MicroState, e: NetEvent)
    requires s != Dead
    ensures After(udp, s, e) != Dead && AfterReset(udp, s) != Dead
  {
  }

  function Play(udp: bool, s: MicroState, es: seq<NetEvent>): (t: MicroState)
    decreases |es|
  {
    if es == [] then s else Play(udp, After(udp, s, es[0]), es[1..])
  }

  predicate Watched(udp: bool, s: MicroState, es: seq<NetEvent>)
    decreases |es|
  {
    es == [] || (Watches(udp, s, es[0]) && Watched(udp, After(udp, s, es[0]), es[1..]))
  }

  /** The events can happen, and then the connection calls for attention. */
  predicate Rouse(udp: bool, s: MicroState, es: seq<NetEvent>) {
    Watched(udp, s, es) && Calls(Play(udp, s, es))
  }

  /** A connection that has not died can still call for attention exactly if it is not passive:
      then nothing is watched any more. */
  lemma CallsExactly(udp: bool, s: MicroState)
    requires s != Dead && (udp ==> s !in {Connecting, Receiving})
    ensures s != Passive <==> exists es :: Rouse(udp, s, es)
  {
    if s == Passive {
      forall es ensures !Rouse(udp, s, es) {
        if es == [] {
          assert Play(udp, s, es) == s;
        } else {
          assert !Watches(udp, s, es[0]);
        }
      }
    } else {
      var es := Way(udp, s);
      assert Rouse(udp, s, es);
    }
  }

  /** Some events that make a connection call for attention: its time runs out. */
  lemma Way(udp: bool, s: MicroState) returns (es: seq<NetEvent>)
    requires s != Dead && s != Passive && (udp ==> s !in {Connecting, Receiving})
    ensures Rouse(udp, s, es)
    decreases if Calls(s) then 0 else if udp && s == Sending then 2 else 1
  {
    if Calls(s) {
      return [];
    }
    var e := if udp && s == Sending then Writeable(false, true) else Expired(true);
    var rest := Way(udp, After(udp, s, e));
    es := [e] + rest;
    assert es[1..] == rest;
  }

  /** A datagram that cannot be sent makes its connection passive. */
  lemma LostDatagram(done: bool)
    ensures Watches(true, Sending, Writeable(true, done)) && After(true, Sending, Writeable(true, done)) == Passive
  {
  }

  /** The connection underneath as the automaton sees it. */
  datatype Link = Link(udp: bool, managed: bool, state: MicroState)

  /** What there is of the automaton at a time; stage and version belong to a connection. */
  datatype Snap = Snap(link: Option<Link>, onceClosed: bool, state: MacroState, subState: SubState,
    result: KsResult, version: nat, pending: bool, accepted: nat, told: nat, withdrawn: nat)

  /** The ports that are known from the start, or zero. */
  datatype Ports = Ports(host: nat, server: nat)

  function Turned(s: Snap, state: MicroState): (t: Snap) {
    match s.link case None => s case Some(link) => s.(link := Some(link.(state := state)))
  }

  function Shut(s: Snap): (t: Snap) {
    s.(link := None, onceClosed := true, state := StateClosed, subState := NoStage, version := 0)
  }

  function Started(s: Snap, stage: SubState, version: nat, udp: bool, socket: Socket): (t: Snap) {
    if socket.Working? then
      s.(link := Some(Link(udp, socket.managed, if udp then Connected else Connecting)),
        state := StateBusy, subState := stage, result := Ok, version := version)
    else s.(result := Generic)
  }

  /** Where an open() starts. */
  function First(ports: Ports): (stage: SubState) {
    if ports.server != 0 then Server else if ports.host != 0 then Manager else Portmapper
  }

  function Requested(s: Snap, ports: Ports, request: Request): (t: Snap) {
    match request
    case UserOpen(known, socket) =>
      if s.state != StateClosed then s.(result := Ok)
      else if !known then s.(result := HostUnknown)
      else
        var t := Started(s, First(ports), KS_PROTOCOL_VERSION, First(ports) == Portmapper, socket);
        if socket.Working? then t.(pending := true, accepted := s.accepted + 1) else t
    case UserClose =>
      Shut(s).(pending := false, withdrawn := s.withdrawn + if s.pending then 1 else 0)
    case UserBeginSend(begun) =>
      s.(result := if s.state == StateOpen && !begun then Generic else Ok)
    case UserEndSend =>
      if s.state != StateOpen then s.(result := Ok)
      else if s.link.Some? && s.link.value.managed then Turned(s, Sending).(state := StateBusy, result := Ok)
      else Turned(s, Sending).(result := Generic)
    case UserEndReceive =>
      if s.state == StateOpen && s.link.Some? then
        Turned(s, AfterReset(s.link.value.udp, s.link.value.state)).(result := Ok)
      else s.(result := Ok)
  }

  function AllRequested(s: Snap, ports: Ports, requests: seq<Request>): (t: Snap) {
    if requests == [] then s
    else Requested(AllRequested(s, ports, requests[..|requests| - 1]), ports, requests[|requests| - 1])
  }

  /** The user has been told, and has asked for something. */
  function Notified(s: Snap, ports: Ports, op: Operation, requests: seq<Request>): (t: Snap) {
    AllRequested(if op == OpOpen then s.(told := s.told + 1, pending := false) else s, ports, requests)
  }

  /** What a report calls for. */
  function Called(s: Snap, works: bool, reply: Reply, socket: Socket, host: nat): (m: Move) {
    if s.version < KS_MINPROTOCOL_VERSION || s.link.None? then Over(Generic)
    else Next(s.subState, s.link.value.state == Connected, works, reply, socket, s.version, host)
  }

  /** What the user is told when the connection underneath reports. */
  function Told(s: Snap, works: bool, reply: Reply, socket: Socket, host: nat): (n: Notice)
    requires s.link.Some?
  {
    if s.subState == Server then
      match s.link.value.state
      case Connected => Notice(OpOpen, Ok)
      case ReadyFailed => Notice(OpCall, NetworkError)
      case Ready => Notice(OpCall, Ok)
      case _ => Notice(OpOpen, NetworkError)
    else if Failed(s.link.value.state) then Notice(OpOpen, NoManager)
    else
      match Called(s, works, reply, socket, host)
      case Over(result) => Notice(OpOpen, result)
      case _ => Nothing
  }

  /** When which end of an open() is told: that it has worked, only of an established connection to
      the server itself; that there is no manager, if portmapper or manager cannot be reached; that
      the server is unknown, if the portmapper knows no manager, or the manager not the server in
      the oldest version; a network error, if a reply is refused or cannot be decoded; and a
      general error if no request can be built or no connection be had. */
  lemma ToldExactly(s: Snap, works: bool, reply: Reply, socket: Socket, host: nat)
    requires s.link.Some? && s.version >= KS_MINPROTOCOL_VERSION && s.subState != NoStage
    requires s.subState == Server ==> s.link.value.state in {Connected, ConnFailed, Ready, ReadyFailed}
    ensures var n := Told(s, works, reply, socket, host);
      var state, first := s.link.value.state, s.subState == Portmapper;
      var early := s.subState != Server && !Failed(state);
      var answered := early && state != Connected && reply.accepted && reply.decoded;
      var unknown := if first then reply.port == 0 else !reply.found && s.version == KS_MINPROTOCOL_VERSION;
      && (n == Notice(OpOpen, Ok) <==> s.subState == Server && state == Connected)
      && (n == Notice(OpOpen, NoManager) <==> s.subState != Server && Failed(state))
      && (n == Notice(OpOpen, ServerUnknown) <==> answered && unknown)
      && (n == Notice(OpOpen, NetworkError) <==>
            (s.subState == Server && state == ConnFailed) || (early && state != Connected && !answered))
      && (n == Notice(OpOpen, Generic) <==>
            (early && state == Connected && !works) || (answered && !unknown && !socket.Working?))
      && (n == Notice(OpCall, Ok) <==> s.subState == Server && state == Ready)
      && (n == Notice(OpCall, NetworkError) <==> s.subState == Server && state == ReadyFailed)
      && (n == Nothing <==> (early && state == Connected && works) || (answered && !unknown && socket.Working?))
  {
  }

  /** A report takes the automaton one step further, or to its end. */
  function Reported(s: Snap, ports: Ports, works: bool, reply: Reply, socket: Socket, requests: seq<Request>): (t: Snap)
    requires s.link.Some?
  {
    match Told(s, works, reply, socket, ports.host)
    case Nothing =>
      var m := Called(s, works, reply, socket, ports.host);
      if m.Onward? then
        Started(Shut(s), m.stage, m.version, m.stage == Portmapper || s.subState == Portmapper, socket)
      else Turned(s, Sending)
    case Notice(op, result) =>
      var serving := s.subState == Server && !Failed(s.link.value.state);
      var t := if serving then s.(state := StateOpen, onceClosed := false) else Shut(s);
      Notified(t.(result := result), ports, op, requests)
  }

  /** Something happens to the connection underneath, if it is watched. */
  function Happened(s: Snap, e: NetEvent): (t: Snap) {
    match s.link
    case None => s
    case Some(link) =>
      if link.managed && Watches(link.udp, link.state, e) then Turned(s, After(link.udp, link.state, e)) else s
  }

  /** The connection manager reports: that a connection has been established, it does once. */
  predicate Attends(s: Snap) {
    s.link.Some? && s.link.value.managed && Calls(s.link.value.state) && !(s.link.value.state == Connected && s.state == StateOpen)
  }

  /** What a happening makes of the automaton, and what it then tells: something or nothing if
      the connection manager reports. */
  function Undergone(s: Snap, ports: Ports, h: Happening): (r: (Snap, seq<Notice>)) {
    match h
    case Served(e) => (Happened(s, e), [])
    case Attended(works, reply, socket, requests) =>
      if Attends(s) then
        (Reported(s, ports, works, reply, socket, requests), [Told(s, works, reply, socket, ports.host)])
      else (s, [])
  }

  /** A whole course of life, and all that is told. */
  function Lived(s: Snap, ports: Ports, course: seq<Act>): (r: (Snap, seq<Notice>)) {
    if course == [] then (s, [])
    else
      var (t, notices) := Lived(s, ports, course[..|course| - 1]);
      match course[|course| - 1]
      case Net(h) => var (u, told) := Undergone(t, ports, h); (u, notices + told)
      case User(request) => (Requested(t, ports, request), notices)
  }

  /** The user has been told how an open() ended. */
  predicate Done(notices: seq<Notice>) {
    notices != [] && notices[|notices| - 1] != Nothing
  }

  /** One notice at most, the last, and this tells how an open() ended. */
  predicate Single(notices: seq<Notice>) {
    && (forall k :: 0 <= k < |notices| - 1 ==> notices[k] == Nothing)
    && Opens(notices) == (if Done(notices) then 1 else 0)
    && (Done(notices) ==> notices[|notices| - 1].op == OpOpen)
  }

  lemma SingleMore(notices: seq<Notice>, heard: seq<Notice>)
    requires Single(notices) && !Done(notices) && |heard| <= 1
    requires Done(heard) ==> heard[0].op == OpOpen
    ensures Single(notices + heard) && (Done(notices + heard) <==> Done(heard))
  {
    OpensMore(notices, heard);
    if heard == [] {
      assert notices + heard == notices;
    } else {
      assert (notices + heard)[|notices|] == heard[0];
    }
  }

  /** The course of establishment: nothing more of interest happens when it is done. */
  function Established(s: Snap, ports: Ports, course: seq<Happening>): (r: (Snap, seq<Notice>)) {
    if course == [] then (s, [])
    else
      var (t, notices) := Established(s, ports, course[..|course| - 1]);
      if Done(notices) then (t, notices)
      else var (u, told) := Undergone(t, ports, course[|course| - 1]); (u, notices + told)
  }

  /** The connection underneath. `managed` says that the connection manager has it under its
      control, `greeted` that its establishment has been reported, `deleted` that it has been
      shut down. */
  class ClientConnection {
    const udp: bool
    const managed: bool
    var state: MicroState
    ghost var greeted: bool
    ghost var deleted: bool

    /** A connectionless transport is connected at once. */
    constructor (udp: bool, socket: Socket)
      ensures state == if !socket.Working? then Dead else if udp then Connected else Connecting
      ensures this.udp == udp && (socket.Working? ==> managed == socket.managed)
      ensures !greeted && !deleted
    {
      this.udp := udp;
      managed := socket.Working? && socket.managed;
      state := if !socket.Working? then Dead else if udp then Connected else Connecting;
      greeted, deleted := false, false;
    }

    method SendRequest()
      modifies this`state
      ensures state == Sending
    {
      state := Sending;
    }

    method Reset()
      modifies this`state
      ensures state == AfterReset(udp, old(state))
    {
      if state != Dead {
        if udp {
          state := Passive;
        } else {
          state := if state == Sending || state == Waiting || state == Receiving then ReadyFailed else Connected;
        }
      }
    }

    /** The connection manager serves the connection. */
    method Happen(e: NetEvent)
      modifies this`state
      ensures state == After(udp, old(state), e)
    {
      state := After(udp, state, e);
    }
  }

  class KssInterKsServerConnection {
    var clnCon: ClientConnection?
    var clnConOnceClosed: bool
    var state: MacroState
    var subState: SubState
    var result: KsResult
    const hostPort: nat
    const serverPort: nat
    var protocolVersion: nat
    /** An open() has been accepted, and the user neither told nor has closed the connection. */
    ghost var pending: bool
    ghost var accepted: nat
    ghost var told: nat
    ghost var withdrawn: nat

    /** The automaton's state, when an accepted open() is pending or not. */
    ghost predicate Consistent(pending: bool)
      reads this, clnCon
    {
      && (state == StateClosed <==> clnCon == null)
      && (state == StateOpen ==> subState == Server && !pending)
      && (pending ==> state == StateBusy)
      && (clnCon != null ==> KS_MINPROTOCOL_VERSION <= protocolVersion <= KS_PROTOCOL_VERSION)
      && (clnCon != null ==> !clnCon.deleted && subState != NoStage && (subState != Server ==> pending))
      && (clnCon != null ==> clnCon.state != Dead && (clnCon.udp ==> subState != Server) && (!clnCon.udp ==> clnCon.state != Passive))
      && (clnCon != null && clnCon.udp ==> clnCon.state !in {Connecting, Receiving})
      && (clnCon != null && pending && subState == Server ==> clnCon.state in {Connecting, Connected, ConnFailed})
      && (clnCon != null && pending ==> !clnCon.greeted)
      && (clnCon != null && !pending ==> clnCon.greeted && clnCon.state !in {Connecting, ConnFailed})
      && (clnCon != null && !pending && clnCon.state == Connected ==> state == StateOpen)
    }

    /** Every accepted open() is pending, has been told of exactly once, or was closed by the user. */
    ghost predicate Accounted()
      reads this`pending, this`accepted, this`told, this`withdrawn
    {
      accepted == told + withdrawn + if pending then 1 else 0
    }

    ghost predicate Valid()
      reads this, clnCon
    {
      Consistent(pending) && Accounted()
    }

    ghost function View(): (s: Snap)
      reads this, clnCon
    {
      if clnCon == null then
        Snap(None, clnConOnceClosed, state, NoStage, result, 0, pending, accepted, told, withdrawn)
      else
        Snap(Some(Link(clnCon.udp, clnCon.managed, clnCon.state)), clnConOnceClosed, state, subState,
          result, protocolVersion, pending, accepted, told, withdrawn)
    }

    ghost function Known(): (p: Ports) {
      Ports(hostPort, serverPort)
    }

    /** How many reports can still come before the user is told. */
    ghost function Remaining(): (n: nat)
      reads this, clnCon
    {
      if !pending || clnCon == null || protocolVersion < KS_MINPROTOCOL_VERSION then 0
      else
        var unsent := if clnCon.state in {Connecting, Connected, ConnFailed} then 1 else 0;
        4 * (protocolVersion - KS_MINPROTOCOL_VERSION) +
        match subState
        case Portmapper => 4 + unsent
        case Manager => 2 + unsent
        case _ => 1
    }

    ghost function Underneath(): (s: set<ClientConnection>)
      reads this`clnCon
    {
      if clnCon == null then {} else {clnCon}
    }

    constructor (hostPort: nat, serverPort: nat)
      ensures Valid() && View() == Snap(None, false, StateClosed, NoStage, Ok, 0, false, 0, 0, 0)
      ensures Known() == Ports(hostPort, serverPort)
    {
      clnCon, clnConOnceClosed := null, false;
      state, subState, result := StateClosed, NoStage, Ok;
      this.hostPort, this.serverPort, protocolVersion := hostPort, serverPort, 0;
      pending, accepted, told, withdrawn := false, 0, 0, 0;
    }

    /** Shuts the connection underneath down and deletes it. */
    method CloseConnection()
      modifies this`clnCon, this`clnConOnceClosed, this`state, clnCon
      ensures clnCon == null && clnConOnceClosed && state == StateClosed
      ensures old(clnCon) != null ==> old(clnCon).deleted && old(clnCon).state == Dead
      ensures View() == Shut(old(View()))
    {
      if clnCon != null {
        clnCon.state := Dead;
        clnCon.deleted := true;
        clnCon := null;
      }
      clnConOnceClosed := true;
      state := StateClosed;
    }

    /** Starts connecting to the portmapper, the manager or the server. */
    method OpenConnection(stage: SubState, udp: bool, socket: Socket) returns (ok: bool)
      requires clnCon == null && state == StateClosed && stage != NoStage && (stage == Server ==> !udp)
      modifies this`clnCon, this`state, this`subState, this`result
      ensures ok <==> socket.Working?
      ensures subState == if socket == NoSocket then old(subState) else stage
      ensures ok ==> state == StateBusy && result == Ok && fresh(clnCon) && clnCon.udp == udp
      ensures ok ==> !clnCon.deleted && !clnCon.greeted && clnCon.state == if udp then Connected else Connecting
      ensures !ok ==> state == StateClosed && clnCon == null && result == Generic
      ensures View() == Started(old(View()), stage, protocolVersion, udp, socket)
    {
      if socket == NoSocket {
        result := Generic;
        return false;
      }
      subState := stage;
      clnCon := new ClientConnection(udp, socket);
      if clnCon.state == Dead {
        clnCon := null;
        result := Generic;
        return false;
      }
      result := Ok;
      state := StateBusy;
      ok := true;
    }

    /** Opens the connection, if it is closed and the host is known. */
    method Open(known: bool, socket: Socket) returns (ok: bool)
      requires Valid()
      modifies this
      ensures ok <==> old(state) == StateClosed && known && socket.Working?
      ensures ok ==> protocolVersion == KS_PROTOCOL_VERSION && state == StateBusy
      ensures ok ==> subState == if serverPort != 0 then Server else if hostPort != 0 then Manager else Portmapper
      ensures result == if ok || old(state) != StateClosed then Ok else if !known then HostUnknown else Generic
      ensures old(state) != StateClosed ==> state == old(state)
      ensures Valid() && clnConOnceClosed == old(clnConOnceClosed)
      ensures ok ==> old(clnCon) == null && fresh(clnCon) && pending && accepted == old(accepted) + 1
      ensures ok ==> Remaining() <= 9
      ensures !ok ==> clnCon == old(clnCon) && pending == old(pending) && accepted == old(accepted)
      ensures told == old(told) && withdrawn == old(withdrawn)
      ensures View() == Requested(old(View()), Known(), UserOpen(known, socket))
    {
      if state != StateClosed {
        result := Ok;
        return false;
      }
      if !known {
        result := HostUnknown;
        return false;
      }
      protocolVersion := KS_PROTOCOL_VERSION;
      if serverPort != 0 {
        ok := OpenConnection(Server, false, socket);
      } else if hostPort != 0 {
        ok := OpenConnection(Manager, false, socket);
      } else {
        ok := OpenConnection(Portmapper, true, socket);
      }
      if ok {
        pending := true;
        accepted := accepted + 1;
      }
    }

    /** The user closes the connection. */
    method Close()
      requires Valid()
      modifies this, clnCon
      ensures Valid() && state == StateClosed && clnCon == null && clnConOnceClosed && !pending
      ensures withdrawn == old(withdrawn) + (if old(pending) then 1 else 0)
      ensures accepted == old(accepted) && told == old(told)
      ensures old(clnCon) != null ==> old(clnCon).deleted
      ensures View() == Requested(old(View()), Known(), UserClose)
    {
      CloseConnection();
      if pending {
        pending := false;
        withdrawn := withdrawn + 1;
      }
    }

    /** The version spoken, or none. */
    method GetProtocolVersion() returns (version: nat)
      requires Valid()
      ensures version != 0 <==> state == StateOpen
      ensures version != 0 ==> KS_MINPROTOCOL_VERSION <= version <= KS_PROTOCOL_VERSION
    {
      version := if state != StateOpen then 0 else protocolVersion;
    }

    /** Starts a request; the connection must be open. */
    method BeginSend(begun: bool) returns (ok: bool)
      requires Valid()
      modifies this`result
      ensures Valid() && (ok <==> state == StateOpen && begun)
      ensures result == if state == StateOpen && !begun then Generic else Ok
      ensures View() == Requested(old(View()), Known(), UserBeginSend(begun))
    {
      if state != StateOpen {
        result := Ok;
        return false;
      }
      result := if begun then Ok else Generic;
      ok := begun;
    }

    /** Sends the request; the connection is then busy until the reply. */
    method EndSend() returns (ok: bool)
      requires Valid()
      modifies this`result, this`state, Underneath()`state
      ensures Valid() && (ok <==> old(state) == StateOpen && clnCon.managed)
      ensures state == if ok then StateBusy else old(state)
      ensures old(state) == StateOpen ==> clnCon != null && clnCon.state == Sending
      ensures result == if old(state) == StateOpen && !clnCon.managed then Generic else Ok
      ensures View() == Requested(old(View()), Known(), UserEndSend)
    {
      if state != StateOpen {
        result := Ok;
        return false;
      }
      clnCon.SendRequest();
      if !clnCon.managed {
        result := Generic;
        return false;
      }
      state := StateBusy;
      result := Ok;
      ok := true;
    }

    /** Drops what has been received. */
    method EndReceive() returns (ok: bool)
      requires Valid()
      modifies this`result, Underneath()`state
      ensures Valid() && result == Ok && (ok <==> state == StateOpen)
      ensures ok ==> clnCon.state == if old(clnCon.state) in {Sending, Waiting, Receiving} then ReadyFailed else Connected
      ensures View() == Requested(old(View()), Known(), UserEndReceive)
    {
      result := Ok;
      if state != StateOpen {
        return false;
      }
      clnCon.Reset();
      ok := true;
    }

    method Serve(request: Request)
      requires Valid()
      modifies this, clnCon
      ensures Valid() && told == old(told)
      ensures clnCon == old(clnCon) || clnCon == null || fresh(clnCon)
      ensures old(clnConOnceClosed) ==> clnConOnceClosed
      ensures !clnConOnceClosed && old(clnCon) != null ==> clnCon == old(clnCon) && pending == old(pending)
      ensures View() == Requested(old(View()), Known(), request)
    {
      hide Valid, Consistent, Accounted, Requested, View;
      match request
      case UserOpen(known, socket) =>
        var _ := Open(known, socket);
      case UserClose => Close();
      case UserBeginSend(begun) => var _ := BeginSend(begun);
      case UserEndSend => var _ := EndSend();
      case UserEndReceive => var _ := EndReceive();
    }

    /** Tells the user, who may then ask for anything, also to close and to open again. */
    method AsyncAttention(op: Operation, requests: seq<Request>)
      requires Consistent(false) && Accounted() && (op == OpOpen <==> pending)
      modifies this, clnCon
      ensures Valid()
      ensures told == old(told) + (if op == OpOpen then 1 else 0)
      ensures old(clnConOnceClosed) ==> clnConOnceClosed
      ensures !clnConOnceClosed && old(clnCon) != null ==> clnCon == old(clnCon) && !pending
      ensures clnCon == old(clnCon) || clnCon == null || fresh(clnCon)
      ensures View() == Notified(old(View()), Known(), op, requests)
    {
      if op == OpOpen {
        told := told + 1;
        pending := false;
      }
      ghost var start := View();
      assert Valid() && Notified(old(View()), Known(), op, requests) == AllRequested(start, Known(), requests);
      hide Valid, Consistent, Accounted, View, Requested, Notified;
      var i := 0;
      while i < |requests|
        invariant Valid() && 0 <= i <= |requests|
        invariant told == old(told) + (if op == OpOpen then 1 else 0)
        invariant clnCon == old(clnCon) || clnCon == null || fresh(clnCon)
        invariant old(clnConOnceClosed) ==> clnConOnceClosed
        invariant !clnConOnceClosed && old(clnCon) != null ==> clnCon == old(clnCon) && !pending
        invariant View() == AllRequested(start, Known(), requests[..i])
      {
        Serve(requests[i]);
        assert requests[..i + 1][..i] == requests[..i];
        i := i + 1;
      }
      assert requests[..|requests|] == requests;
    }

    /** The connection underneath has something to report: it is established, which is reported
        once, or it has an answer, or it has failed. */
    ghost predicate Reports(con: ClientConnection)
      reads this`clnCon, con
    {
      && con == clnCon && con.managed && Calls(con.state)
      && (con.state == Connected ==> !con.greeted)
    }

    /** Asks the portmapper, or goes on to the manager it has named. */
    method AtPortmapper(con: ClientConnection, works: bool, reply: Reply, socket: Socket, ghost m: Move) returns (r: Advance)
      requires Valid() && Reports(con) && !Failed(con.state) && subState == Portmapper
      requires m == Next(subState, con.state == Connected, works, reply, socket, protocolVersion, hostPort)
      modifies this`clnCon, this`clnConOnceClosed, this`state, this`subState, this`result, con
      ensures r == match m case Asking => Watch case Onward(_, _) => Gone case Over(_) => Stuck
      ensures r != Stuck ==> Valid() && Remaining() < old(Remaining())
      ensures r == Watch ==> clnCon == con && !con.deleted && con.state == Sending && subState == old(subState)
      ensures r == Gone ==> fresh(clnCon) && con.deleted && subState == m.stage && protocolVersion == m.version
      ensures r == Stuck ==> result == m.result && (clnCon == con || clnCon == null)
      ensures r == Watch ==> View() == Turned(old(View()), Sending)
      ensures r == Gone ==> View() == Started(Shut(old(View())), m.stage, m.version, true, socket)
      ensures r == Stuck ==> Shut(View()) == Shut(old(View())).(result := m.result)
      ensures r == Watch <==> old(con.state) == Connected && works
      ensures r == Gone <==>
        old(con.state) != Connected && reply.accepted && reply.decoded && reply.port != 0 && socket.Working?
      ensures r == Gone ==> subState == Manager && protocolVersion == old(protocolVersion)
      ensures r == Stuck && old(con.state) == Connected ==> result == Generic
      ensures r == Stuck && old(con.state) != Connected && !(reply.accepted && reply.decoded) ==> result == NetworkError
      ensures r == Stuck && old(con.state) != Connected && reply.accepted && reply.decoded ==>
        result == if reply.port == 0 then ServerUnknown else Generic
    {
      if con.state == Connected {
        if works {
          con.SendRequest();
          return Watch;
        }
        result := Generic;
      } else if reply.accepted && reply.decoded {
        if reply.port != 0 {
          CloseConnection();
          var begun := OpenConnection(Manager, true, socket);
          if begun {
            return Gone;
          }
        } else {
          result := ServerUnknown;
        }
      } else {
        result := NetworkError;
      }
      r := Stuck;
    }

    /** Asks the manager for an older protocol version. */
    method AskAgain(socket: Socket) returns (begun: bool)
      requires clnCon == null && state == StateClosed && protocolVersion >= KS_MINPROTOCOL_VERSION
      modifies this`clnCon, this`state, this`subState, this`result, this`protocolVersion
      ensures protocolVersion == old(protocolVersion) - 1
      ensures begun ==> protocolVersion >= KS_MINPROTOCOL_VERSION && state == StateBusy && fresh(clnCon)
      ensures begun <==> protocolVersion >= KS_MINPROTOCOL_VERSION && socket.Working?
      ensures begun ==> subState == (if hostPort != 0 then Manager else Portmapper) && !clnCon.deleted && !clnCon.greeted
      ensures begun ==> clnCon.state == if clnCon.udp then Connected else Connecting
      ensures !begun ==> clnCon == null
      ensures !begun ==> result == if protocolVersion < KS_MINPROTOCOL_VERSION then ServerUnknown else Generic
      ensures begun ==> View() == Started(old(View()), subState, protocolVersion, subState == Portmapper, socket)
      ensures !begun ==> View() == old(View()).(result := result)
    {
      protocolVersion := protocolVersion - 1;
      if protocolVersion >= KS_MINPROTOCOL_VERSION {
        if hostPort != 0 {
          begun := OpenConnection(Manager, false, socket);
        } else {
          begun := OpenConnection(Portmapper, true, socket);
        }
      } else {
        result := ServerUnknown;
        begun := false;
      }
    }

    /** Asks the manager, or goes on to the server it has named, or tries an older version. */
    method AtManager(con: ClientConnection, works: bool, reply: Reply, socket: Socket, ghost m: Move) returns (r: Advance)
      requires Valid() && Reports(con) && !Failed(con.state) && subState == Manager
      requires m == Next(subState, con.state == Connected, works, reply, socket, protocolVersion, hostPort)
      modifies this`clnCon, this`clnConOnceClosed, this`state, this`subState, this`result, this`protocolVersion, con
      ensures r == match m case Asking => Watch case Onward(_, _) => Gone case Over(_) => Stuck
      ensures r != Stuck ==> Valid() && Remaining() < old(Remaining())
      ensures r == Watch ==> clnCon == con && !con.deleted && con.state == Sending && subState == old(subState)
      ensures r == Gone ==> fresh(clnCon) && con.deleted && subState == m.stage && protocolVersion == m.version
      ensures r == Stuck ==> result == m.result && (clnCon == con || clnCon == null)
      ensures r == Watch ==> View() == Turned(old(View()), Sending)
      ensures r == Gone ==> View() == Started(Shut(old(View())), m.stage, m.version, m.stage == Portmapper, socket)
      ensures r == Stuck ==> Shut(View()) == Shut(old(View())).(result := m.result)
      ensures r == Watch <==> old(con.state) == Connected && works
      ensures r == Gone <==>
        && old(con.state) != Connected && reply.accepted && reply.decoded && socket.Working?
        && (reply.found || old(protocolVersion) > KS_MINPROTOCOL_VERSION)
      ensures r == Gone && reply.found ==> subState == Server && protocolVersion == old(protocolVersion)
      ensures r == Gone && !reply.found ==>
        subState == (if hostPort != 0 then Manager else Portmapper) && protocolVersion == old(protocolVersion) - 1
      ensures r == Stuck && old(con.state) == Connected ==> result == Generic
      ensures r == Stuck && old(con.state) != Connected && !(reply.accepted && reply.decoded) ==> result == NetworkError
      ensures r == Stuck && old(con.state) != Connected && reply.accepted && reply.decoded ==>
        result == if !reply.found && old(protocolVersion) == KS_MINPROTOCOL_VERSION then ServerUnknown else Generic
    {
      if con.state == Connected {
        if works {
          con.SendRequest();
          return Watch;
        }
        result := Generic;
      } else if reply.accepted {
        CloseConnection();
        if reply.decoded && reply.found {
          var begun := OpenConnection(Server, false, socket);
          if begun {
            return Gone;
          }
        } else if reply.decoded {
          var begun := AskAgain(socket);
          if begun {
            return Gone;
          }
        } else {
          result := NetworkError;
        }
      } else {
        result := NetworkError;
      }
      r := Stuck;
    }

    /** Closes the connection, and tells the user. */
    method GiveUp(op: Operation, requests: seq<Request>)
      requires Accounted() && (op == OpOpen <==> pending)
      modifies this, clnCon
      ensures Valid() && (clnCon == null || fresh(clnCon))
      ensures View() == Notified(Shut(old(View())), Known(), op, requests)
      ensures told == old(told) + (if op == OpOpen then 1 else 0)
    {
      CloseConnection();
      AsyncAttention(op, requests);
    }

    /** The connection underneath has failed. */
    method Fail(con: ClientConnection, requests: seq<Request>) returns (notice: Notice)
      requires Valid() && Reports(con) && Failed(con.state)
      modifies this, con
      ensures Valid() && (clnCon == null || fresh(clnCon)) && notice.Notice?
      ensures notice.op == if old(subState) == Server && old(con.state) == ReadyFailed then OpCall else OpOpen
      ensures notice.result == if old(subState) == Server then NetworkError else NoManager
      ensures View() == Notified(Shut(old(View())).(result := notice.result), Known(), notice.op, requests)
      ensures notice.op == OpOpen <==> old(pending)
      ensures told == old(told) + (if notice.op == OpOpen then 1 else 0)
    {
      var micro := con.state;
      state := StateClosed;
      if subState == Portmapper || subState == Manager {
        result := NoManager;
        micro := ConnFailed;
      } else {
        result := NetworkError;
      }
      var op := if micro == ReadyFailed then OpCall else OpOpen;
      notice := Notice(op, result);
      assert Shut(View()) == Shut(old(View())).(result := result);
      GiveUp(op, requests);
    }

    /** The server can be called, or has answered. */
    method Succeed(con: ClientConnection, requests: seq<Request>) returns (keep: bool, notice: Notice)
      requires Valid() && Reports(con) && !Failed(con.state) && subState == Server
      modifies this, con
      ensures Valid() && (clnCon == con || clnCon == null || fresh(clnCon))
      ensures notice == Notice(if old(con.state) == Connected then OpOpen else OpCall, Ok)
      ensures View() == Notified(old(View()).(state := StateOpen, onceClosed := false, result := Ok), Known(), notice.op, requests)
      ensures (keep <==> !clnConOnceClosed) && (keep ==> clnCon == con)
      ensures notice.op == OpOpen <==> old(pending)
      ensures told == old(told) + (if notice.op == OpOpen then 1 else 0)
    {
      state := StateOpen;
      result := Ok;
      clnConOnceClosed := false;
      var op := if con.state == Connected then OpOpen else OpCall;
      notice := Notice(op, result);
      con.greeted := true;
      AsyncAttention(op, requests);
      keep := !clnConOnceClosed;
    }

    /** Portmapper or manager can be asked, or have answered. */
    method Proceed(con: ClientConnection, works: bool, reply: Reply, socket: Socket, requests: seq<Request>)
      returns (keep: bool, notice: Notice)
      requires Valid() && Reports(con) && !Failed(con.state) && subState != Server
      modifies this, con
      ensures Valid() && (clnCon == con || clnCon == null || fresh(clnCon))
      ensures var m := Called(old(View()), works, reply, socket, hostPort);
        && notice == (if m.Over? then Notice(OpOpen, m.result) else Nothing)
        && (keep <==> m.Asking?)
        && View() == match m {
          case Asking => Turned(old(View()), Sending)
          case Onward(stage, version) =>
            Started(Shut(old(View())), stage, version, stage == Portmapper || old(subState) == Portmapper, socket)
          case Over(result) => Notified(Shut(old(View())).(result := result), Known(), OpOpen, requests)
        }
      ensures old(pending) && (keep ==> clnCon == con && !con.deleted)
      ensures notice == Nothing && !keep ==> con.deleted
      ensures notice == Nothing ==> pending && accepted == old(accepted) && told == old(told) && Remaining() < old(Remaining())
      ensures notice != Nothing ==> told == old(told) + 1
    {
      var r;
      ghost var m := Called(View(), works, reply, socket, hostPort);
      if subState == Portmapper {
        r := AtPortmapper(con, works, reply, socket, m);
      } else {
        r := AtManager(con, works, reply, socket, m);
      }
      if r != Stuck {
        return r == Watch, Nothing;
      }
      notice := Notice(OpOpen, result);
      GiveUp(OpOpen, requests);
      keep := false;
    }

    /** Takes the automaton one step further. `works` says whether a request can be built, `reply`
        is the answer to one, and `requests` is what the user asks for if told. The result says
        whether the manager shall go on watching the connection passed in. */
    method Attention(con: ClientConnection, works: bool, reply: Reply, socket: Socket, requests: seq<Request>)
      returns (keep: bool, notice: Notice)
      requires Valid() && Reports(con)
      modifies this, con
      ensures Valid() && (clnCon == con || clnCon == null || fresh(clnCon))
      ensures notice == Told(old(View()), works, reply, socket, hostPort)
      ensures View() == Reported(old(View()), Known(), works, reply, socket, requests)
      ensures keep <==> if notice == Nothing then !Called(old(View()), works, reply, socket, hostPort).Onward?
        else old(subState == Server && !Failed(con.state)) && !clnConOnceClosed
      ensures keep ==> clnCon == con && !con.deleted
      ensures notice == Nothing && !keep ==> con.deleted
      ensures notice == Nothing ==> old(pending) && pending && accepted == old(accepted) && Remaining() < old(Remaining())
      ensures notice != Nothing ==> (notice.op == OpOpen <==> old(pending))
      ensures told == old(told) + (if notice.Notice? && notice.op == OpOpen then 1 else 0)
    {
      if Failed(con.state) {
        notice := Fail(con, requests);
        return false, notice;
      }
      if subState == Server {
        keep, notice := Succeed(con, requests);
        return keep, notice;
      }
      keep, notice := Proceed(con, works, reply, socket, requests);
    }

    /** The connection manager serves the connection underneath. */
    method Happen(e: NetEvent)
      requires Valid() && clnCon != null && clnCon.managed && Watches(clnCon.udp, clnCon.state, e)
      modifies clnCon`state
      ensures Valid() && clnCon.state == After(clnCon.udp, old(clnCon.state), e) && Remaining() <= old(Remaining())
      ensures View() == Happened(old(View()), e)
    {
      NeverDies(clnCon.udp, clnCon.state, e);
      clnCon.Happen(e);
    }

    /** The connection manager may come to report something of the connection underneath. */
    ghost predicate MayReport()
      reads this, clnCon
    {
      clnCon != null && clnCon.managed && exists es :: Rouse(clnCon.udp, clnCon.state, es)
    }

    /** A pending open() can still end in a notice exactly if the connection manager has accepted
        the connection and no datagram was lost. */
    lemma MayReportExactly()
      requires Valid() && pending
      ensures clnCon != null && (MayReport() <==> clnCon.managed && clnCon.state != Passive)
    {
      CallsExactly(clnCon.udp, clnCon.state);
    }

    /** Something happens to the connection underneath, if there is one, or the connection manager
        reports, if there is anything to report. */
    method Undergo(h: Happening) returns (notices: seq<Notice>)
      requires Valid()
      modifies this, clnCon
      ensures Valid() && (clnCon == old(clnCon) || clnCon == null || fresh(clnCon))
      ensures (View(), notices) == Undergone(old(View()), Known(), h) && |notices| <= 1
      ensures told == old(told) + Opens(notices)
      ensures old(pending) && !Done(notices) ==> pending && |notices| + Remaining() <= old(Remaining())
      ensures old(pending) && Done(notices) ==> notices[0].op == OpOpen && old(Remaining()) >= 1
    {
      notices := [];
      match h {
        case Served(e) =>
          if clnCon != null && clnCon.managed && Watches(clnCon.udp, clnCon.state, e) {
            Happen(e);
          }
        case Attended(works, reply, socket, requests) =>
          if clnCon != null && clnCon.managed && Calls(clnCon.state) && !(clnCon.state == Connected && state == StateOpen) {
            var keep, notice := Attention(clnCon, works, reply, socket, requests);
            notices := [notice];
          }
      }
    }

    /** What happens to the automaton while an open() is pending, in any order: whenever it is
        told anything it makes progress, after as many reports as remain at most the user is
        told, and this exactly once. */
    method Establish(course: seq<Happening>) returns (notices: seq<Notice>)
      requires Valid() && pending
      modifies this, clnCon
      ensures (View(), notices) == Established(old(View()), Known(), course)
      ensures Valid() && |notices| <= old(Remaining()) && told == old(told) + Opens(notices)
      ensures Single(notices)
      ensures !Done(notices) ==> pending && |notices| + Remaining() <= old(Remaining())
    {
      notices := [];
      ghost var start := View();
      assert Single(notices) && !Done(notices) && Opens(notices) == 0 && Established(start, Known(), course[..0]) == (start, []);
      hide Valid, Consistent, Accounted, Remaining, View, Undergone, Single, Done, Opens, Established;
      var i := 0;
      while i < |course| && !Done(notices)
        invariant Valid() && 0 <= i <= |course|
        invariant (View(), notices) == Established(start, Known(), course[..i])
        invariant clnCon == old(clnCon) || clnCon == null || fresh(clnCon)
        invariant |notices| <= old(Remaining()) && told == old(told) + Opens(notices)
        invariant Single(notices)
        invariant !Done(notices) ==> pending && |notices| + Remaining() <= old(Remaining())
      {
        var heard := Undergo(course[i]);
        OpensMore(notices, heard);
        SingleMore(notices, heard);
        EstablishedMore(start, Known(), course, i);
        notices := notices + heard;
        i := i + 1;
      }
      StaysEstablished(start, Known(), course, i);
    }

    /** Any course of the automaton's life: what the network does, the reports, and what the user
        asks for. Of the calls of open() that were accepted, all but the last have ended in one
        notice or were withdrawn by closing. */
    method Live(course: seq<Act>) returns (notices: seq<Notice>)
      requires Valid() && accepted == told == withdrawn == 0
      modifies this, clnCon
      ensures (View(), notices) == Lived(old(View()), Known(), course)
      ensures Valid() && accepted == Opens(notices) + withdrawn + if pending then 1 else 0
    {
      notices := [];
      var i := 0;
      while i < |course|
        invariant Valid() && told == Opens(notices) && 0 <= i <= |course|
        invariant (View(), notices) == Lived(old(View()), Known(), course[..i])
        invariant clnCon == old(clnCon) || clnCon == null || fresh(clnCon)
      {
        match course[i] {
          case Net(h) =>
            var heard := Undergo(h);
            OpensMore(notices, heard);
            notices := notices + heard;
          case User(request) => Serve(request);
        }
        assert course[..i + 1][..i] == course[..i];
        i := i + 1;
      }
      assert course[..|course|] == course;
    }
  }

  lemma EstablishedMore(s: Snap, ports: Ports, course: seq<Happening>, i: nat)
    requires i < |course| && !Done(Established(s, ports, course[..i]).1)
    ensures var (t, notices) := Established(s, ports, course[..i]);
      var (u, told) := Undergone(t, ports, course[i]);
      Established(s, ports, course[..i + 1]) == (u, notices + told)
  {
    assert course[..i + 1][..i] == course[..i];
  }

  /** Nothing is reported after the first notice. */
  lemma {:induction false} StaysEstablished(s: Snap, ports: Ports, course: seq<Happening>, i: nat)
    requires i <= |course| && (i < |course| ==> Done(Established(s, ports, course[..i]).1))
    ensures Established(s, ports, course) == Established(s, ports, course[..i])
    decreases |course|
  {
    var n := |course| - 1;
    if i == |course| {
      assert course[..i] == course;
    } else {
      assert course[..n][..i] == course[..i];
      StaysEstablished(s, ports, course[..n], i);
    }
  }

  /** How many of the notices report the end of an open(). */
  function Opens(notices: seq<Notice>): (n: nat) {
    if notices == [] then 0
    else
      var last := notices[|notices| - 1];
      Opens(notices[..|notices| - 1]) + if last.Notice? && last.op == OpOpen then 1 else 0
  }

  lemma OpensMore(notices: seq<Notice>, heard: seq<Notice>)
    requires |heard| <= 1
    ensures Opens(notices + heard) == Opens(notices) + Opens(heard)
  {
    if heard == [] {
      assert notices + heard == notices;
    } else {
      assert (notices + heard)[..|notices|] == notices;
    }
  }

  datatype Happening =
    | Served(e: NetEvent)
    | Attended(works: bool, reply: Reply, socket: Socket, requests: seq<Request>)
  datatype Act = Net(h: Happening) | User(request: Request)
}
