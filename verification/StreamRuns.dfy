/** Whole runs over memory streams that share one pool of fragments. */
module StreamRuns {
  import opened Sequences
  import opened Fragments
  import opened MemStream
  import opened NetworkOrder

  // ---------- one request ----------

  datatype Step =
    | PutBytes(bytes: seq<byte>)
    | PutLong(value: Long)
    | ReadFromFd(max: nat)
    | GetBytes(len: nat)
    | GetLong
    | WriteToFd(max: nat)
    | Rewind(op: XdrOp)

  /** What a request returns: whether it worked, the bytes or the integer read, and the error of a
      transfer. */
  datatype Answer = Answer(ok: bool, bytes: seq<byte>, value: Long, errno: Errno)

  /** The bytes that a request puts into the stream or takes out of it, and the system calls made
      for that. */
  datatype Traffic = Traffic(bytes: seq<byte>, calls: seq<Call>)

  const QUIET := Traffic([], [])

  /** What a stream is, seen as a flat sequence of bytes; `ended` says that a failed attempt to
      read has left it without a current fragment, and `spare` is what can still be put
      into the current fragment, or got from it. */
  datatype Flow = Flow(op: XdrOp, contents: seq<byte>, unread: seq<byte>, ended: bool, spare: nat)

  ghost function Look(s: XdrStream, size: nat): (f: Flow)
    requires s.Own(size)
    reads s, Members(s.chain)
  {
    Flow(s.op, s.Contents(size), s.Unread(size), s.current == null, s.handy)
  }

  /** The requests that a stream can take: nothing is read after a failed attempt to read, and no
      integer reaches beyond its fragment. */
  predicate Enabled(s: XdrStream, step: Step)
    reads s, s.current, if s.current == null then null else s.current.next
  {
    match step
    case PutBytes(_) => s.op == Encode
    case PutLong(_) => s.op == Encode && s.PutsWhole()
    case ReadFromFd(_) => true
    case GetBytes(len) => s.op != Encode && s.current != null
    case GetLong => s.op != Encode && s.GetsWhole()
    case WriteToFd(max) => s.current != null
    case Rewind(_) => true
  }

  /** What that means for the flat view. */
  predicate Allowed(f: Flow, step: Step, size: nat)
    requires size > 0
  {
    match step
    case PutBytes(_) => f.op == Encode
    case PutLong(_) => f.op == Encode && Within(|f.contents|, size)
    case ReadFromFd(_) => true
    case GetBytes(_) => f.op != Encode && !f.ended
    case GetLong =>
      && f.op != Encode && !f.ended
      && (f.unread == [] || (|f.unread| >= 4 && |f.unread| <= |f.contents| && Within(|f.contents| - |f.unread|, size)))
    case WriteToFd(_) => !f.ended
    case Rewind(_) => true
  }

  lemma AllowedExactly(s: XdrStream, step: Step, size: nat)
    requires s.Own(size) && size >= 4
    ensures Enabled(s, step) <==> Allowed(Look(s, size), step, size)
  {
    hide XdrStream.Own, XdrStream.Contents, XdrStream.Unread, XdrStream.GetsWhole, XdrStream.PutsWhole, Within;
    if step.PutLong? && s.op == Encode {
      s.PutsWholeExactly(size);
    }
    if step.GetLong? && s.op != Encode {
      GetLongExactly(s, size);
    }
  }

  lemma GetLongExactly(s: XdrStream, size: nat)
    requires s.Own(size) && size >= 4 && s.op != Encode
    ensures s.GetsWhole() <==>
      && s.current != null
      && (s.Unread(size) == [] || (|s.Unread(size)| >= 4 && |s.Unread(size)| <= |s.Contents(size)|
                                   && Within(|s.Contents(size)| - |s.Unread(size)|, size)))
  {
    hide XdrStream.Own, XdrStream.Contents, XdrStream.Unread, XdrStream.GetsWhole, Within;
    if s.current == null {
      NoneWhole(s);
    } else if s.Unread(size) == [] {
      s.GetsAtEnd(size);
    } else {
      s.GetsWholeExactly(size);
    }
  }

  lemma NoneWhole(s: XdrStream)
    ensures s.current == null ==> !s.GetsWhole()
  {
  }

  /** What a request does; `room` and `room'` are the space there was and is. */
  predicate Effect(step: Step, f: Flow, room: nat, f': Flow, room': nat, a: Answer, moved: Traffic) {
    var bytes := moved.bytes;
    match step
    case PutBytes(all) =>
      && (a.ok <==> |all| <= room) && moved == Traffic(if a.ok then all else all[..room], [])
      && f'.op == Encode && f'.contents == f.contents + bytes && room' == room - |bytes| && !f'.ended
    case PutLong(value) =>
      && (a.ok <==> 4 <= room) && moved == Traffic(if a.ok then Network(value) else [], [])
      && f'.op == Encode && f'.contents == f.contents + bytes && !f'.ended && room' == if a.ok then room - 4 else 0
    case ReadFromFd(max) =>
      if f.op != Encode then !a.ok && a.errno == Invalid && moved == QUIET && f' == f
      else
        && Transferred(max, |bytes|, a.ok, a.errno, IoError, room' == 0, moved.calls)
        && f'.op == Encode && f'.contents == f.contents + bytes && |bytes| <= room && room' == room - |bytes| && !f'.ended
    case GetBytes(len) =>
      && (a.ok <==> len <= |f.unread|) && moved == Traffic(a.bytes, []) && |bytes| == (if a.ok then len else |f.unread|)
      && f'.op == f.op && f'.contents == f.contents && f.unread == bytes + f'.unread && (a.ok ==> !f'.ended)
    case GetLong =>
      && (a.ok <==> f.unread != []) && moved == Traffic(if a.ok then Network(a.value) else [], [])
      && f'.op == f.op && f'.contents == f.contents && f.unread == bytes + f'.unread && (a.ok ==> !f'.ended)
    case WriteToFd(max) =>
      if f.op != Decode then !a.ok && a.errno == Invalid && moved == QUIET && f' == f
      else
        && Transferred(max, |bytes|, a.ok, a.errno, BrokenPipe, f'.unread == [], moved.calls)
        && f'.op == f.op && f'.contents == f.contents && f.unread == bytes + f'.unread && (a.ok ==> !f'.ended)
    case Rewind(op) =>
      && a.ok && moved == QUIET && f'.op == op && !f'.ended
      && if op == Encode then f'.contents == [] else f'.contents == f.contents && f'.unread == f.contents
  }

  /** What a request does to the stream and to the file descriptor. */
  method Perform(s: XdrStream, step: Step, fd: Channel) returns (a: Answer, ghost moved: Traffic)
    requires s.Valid() && Enabled(s, step)
    modifies s, s.pool`freeList, s.pool`fragmentCount, s.pool`freeFragmentCount, s.pool`free, s.pool`live
    modifies Members(s.chain), Members(s.pool.free), fd
    ensures s.Valid() && s.pool.live == old(s.pool.live)[s := |s.chain|]
    ensures forall f :: f in s.chain ==> f in old(s.chain) || f in old(s.pool.free) || fresh(f)
    ensures forall f :: f in s.pool.free ==> f in old(s.pool.free) || f in old(s.chain)
    ensures Effect(step, old(Look(s, s.pool.bufferSize)), old(s.Room()), Look(s, s.pool.bufferSize), s.Room(), a, moved)
    ensures fd.received == old(fd.received) + if step.ReadFromFd? then moved.bytes else []
    ensures fd.sent == old(fd.sent) + if step.WriteToFd? then moved.bytes else []
    ensures fd.calls == old(fd.calls) + moved.calls
  {
    hide XdrStream.Own, XdrStream.Contents, XdrStream.Unread, XdrStream.Room, FragmentPool.Valid, Look;
    a, moved := Answer(true, [], 0, NoError), QUIET;
    match step
    case PutBytes(_) => hide Effect; a, moved := Put(s, step);
    case PutLong(_) => hide Effect; a, moved := Put(s, step);
    case ReadFromFd(max) => hide Effect; a, moved := Fetch(s, max, fd);
    case GetBytes(_) => hide Effect; a, moved := Get(s, step);
    case GetLong => hide Effect; a, moved := Get(s, step);
    case WriteToFd(max) => hide Effect; a, moved := Send(s, max, fd);
    case Rewind(op) => a := Turn(s, op);
  }

  method Turn(s: XdrStream, op: XdrOp) returns (a: Answer)
    requires s.Valid()
    modifies s, s.pool`freeList, s.pool`freeFragmentCount, s.pool`free, s.pool`live
    modifies Members(s.chain)
    ensures s.Valid() && s.pool.live == old(s.pool.live)[s := |s.chain|]
    ensures forall f :: f in s.chain ==> f in old(s.chain)
    ensures forall f :: f in s.pool.free ==> f in old(s.pool.free) || f in old(s.chain)
    ensures Effect(Rewind(op), old(Look(s, s.pool.bufferSize)), old(s.Room()), Look(s, s.pool.bufferSize), s.Room(), a, QUIET)
  {
    hide XdrStream.Own, XdrStream.Contents, XdrStream.Unread, XdrStream.Room, FragmentPool.Valid;
    s.Rewind(op);
    HasCurrent(s, s.pool.bufferSize);
    a := Answer(true, [], 0, NoError);
  }

  method Put(s: XdrStream, step: Step) returns (a: Answer, ghost moved: Traffic)
    requires s.Valid() && Enabled(s, step) && (step.PutBytes? || step.PutLong?)
    modifies s, s.pool`freeList, s.pool`fragmentCount, s.pool`freeFragmentCount, s.pool`free, s.pool`live
    modifies Members(s.chain), Members(s.pool.free)
    ensures s.Valid() && s.pool.live == old(s.pool.live)[s := |s.chain|]
    ensures forall f :: f in s.chain ==> f in old(s.chain) || f in old(s.pool.free) || fresh(f)
    ensures forall f :: f in s.pool.free ==> f in old(s.pool.free)
    ensures Effect(step, old(Look(s, s.pool.bufferSize)), old(s.Room()), Look(s, s.pool.bufferSize), s.Room(), a, moved)
  {
    hide XdrStream.Own, XdrStream.Contents, XdrStream.Unread, XdrStream.Room, FragmentPool.Valid, Network;
    var ok;
    match step {
      case PutBytes(bytes) =>
        ghost var room := s.Room();
        ok := s.PutBytes(bytes);
        moved := Traffic(if ok then bytes else bytes[..room], []);
      case PutLong(value) =>
        ok := s.PutLong(value);
        moved := Traffic(if ok then Network(value) else [], []);
    }
    HasCurrent(s, s.pool.bufferSize);
    a := Answer(ok, [], 0, NoError);
  }

  lemma HasCurrent(s: XdrStream, size: nat)
    requires s.Own(size)
    ensures s.op == Encode ==> s.current != null
  {
  }

  method Get(s: XdrStream, step: Step) returns (a: Answer, ghost moved: Traffic)
    requires s.Valid() && Enabled(s, step) && (step.GetBytes? || step.GetLong?)
    modifies s`current, s`pos, s`handy, s`at
    ensures s.Valid()
    ensures Effect(step, old(Look(s, s.pool.bufferSize)), old(s.Room()), Look(s, s.pool.bufferSize), s.Room(), a, moved)
    ensures a.ok ==> s.current != null
  {
    hide XdrStream.Own, XdrStream.Contents, XdrStream.Unread, FragmentPool.Valid, Network;
    match step {
      case GetBytes(len) =>
        var ok, bytes := s.GetBytes(len);
        a, moved := Answer(ok, bytes, 0, NoError), Traffic(bytes, []);
      case GetLong =>
        var ok, value := s.GetLong();
        a, moved := Answer(ok, [], value, NoError), Traffic(if ok then Network(value) else [], []);
    }
  }

  method Fetch(s: XdrStream, max: nat, fd: Channel) returns (a: Answer, ghost moved: Traffic)
    requires s.Valid()
    modifies s, s.pool`freeList, s.pool`fragmentCount, s.pool`freeFragmentCount, s.pool`free, s.pool`live
    modifies Members(s.chain), Members(s.pool.free), fd
    ensures s.Valid() && s.pool.live == old(s.pool.live)[s := |s.chain|]
    ensures forall f :: f in s.chain ==> f in old(s.chain) || f in old(s.pool.free) || fresh(f)
    ensures forall f :: f in s.pool.free ==> f in old(s.pool.free)
    ensures Effect(ReadFromFd(max), old(Look(s, s.pool.bufferSize)), old(s.Room()), Look(s, s.pool.bufferSize), s.Room(), a, moved)
    ensures fd.received == old(fd.received) + moved.bytes && fd.sent == old(fd.sent) && fd.calls == old(fd.calls) + moved.calls
  {
    hide XdrStream.Own, XdrStream.Contents, XdrStream.Unread, XdrStream.Room, FragmentPool.Valid;
    var ok, left, errno, got, calls := s.ReadFromFd(fd, max);
    HasCurrent(s, s.pool.bufferSize);
    a, moved := Answer(ok, [], 0, errno), Traffic(got, calls);
  }

  method Send(s: XdrStream, max: nat, fd: Channel) returns (a: Answer, ghost moved: Traffic)
    requires s.Valid() && s.current != null
    modifies s`current, s`pos, s`handy, s`at, fd
    ensures s.Valid()
    ensures Effect(WriteToFd(max), old(Look(s, s.pool.bufferSize)), old(s.Room()), Look(s, s.pool.bufferSize), s.Room(), a, moved)
    ensures fd.sent == old(fd.sent) + moved.bytes && fd.received == old(fd.received) && fd.calls == old(fd.calls) + moved.calls
    ensures a.ok ==> s.current != null
  {
    hide XdrStream.Own, XdrStream.Contents, XdrStream.Unread, FragmentPool.Valid;
    var ok, left, errno, put, calls := s.WriteToFd(fd, max);
    a, moved := Answer(ok, [], 0, errno), Traffic(put, calls);
  }

  // ---------- scripts ----------

  /** A request, what it returned, and what it moved. */
  datatype Event = Event(step: Step, answer: Answer, moved: Traffic)

  predicate Puts(step: Step) {
    step.PutBytes? || step.PutLong? || step.ReadFromFd?
  }

  predicate Gets(step: Step) {
    step.GetBytes? || step.GetLong? || step.WriteToFd?
  }

  /** A request has done what it should when `gone` bytes of `limit` had been moved before: it has
      moved what it was asked to, or failed exactly for lack of space or bytes, or because an
      integer would have reached beyond its fragment, or by its system calls. */
  predicate Did(e: Event, gone: nat, limit: nat, size: nat)
    requires size > 0
  {
    var a, bytes := e.answer, e.moved.bytes;
    && gone + |bytes| <= limit
    && match e.step
       case PutBytes(all) =>
         (a.ok <==> gone + |all| <= limit) && e.moved == Traffic(if a.ok then all else all[..limit - gone], [])
       case PutLong(value) =>
         (a.ok <==> gone + 4 <= limit && Within(gone, size)) && e.moved == Traffic(if a.ok then Network(value) else [], [])
       case ReadFromFd(max) =>
         Transferred(max, |bytes|, a.ok, a.errno, IoError, gone + |bytes| == limit, e.moved.calls)
       case GetBytes(len) =>
         && (a.ok <==> gone + len <= limit) && e.moved == Traffic(a.bytes, [])
         && |bytes| == if a.ok then len else limit - gone
       case GetLong =>
         (a.ok <==> gone + 4 <= limit && Within(gone, size)) && e.moved == Traffic(if a.ok then Network(a.value) else [], [])
       case WriteToFd(max) =>
         Transferred(max, |bytes|, a.ok, a.errno, BrokenPipe, gone + |bytes| == limit, e.moved.calls)
       case Rewind(_) => true
  }

  /** All bytes moved, those received from the file descriptor, those sent to it, and the system
      calls made. */
  ghost function Moved(log: seq<Event>): (s: seq<byte>) {
    if log == [] then [] else Moved(log[..|log| - 1]) + log[|log| - 1].moved.bytes
  }

  ghost function Received(log: seq<Event>): (s: seq<byte>) {
    if log == [] then []
    else Received(log[..|log| - 1]) + if log[|log| - 1].step.ReadFromFd? then log[|log| - 1].moved.bytes else []
  }

  ghost function Sent(log: seq<Event>): (s: seq<byte>) {
    if log == [] then []
    else Sent(log[..|log| - 1]) + if log[|log| - 1].step.WriteToFd? then log[|log| - 1].moved.bytes else []
  }

  ghost function Called(log: seq<Event>): (calls: seq<Call>) {
    if log == [] then [] else Called(log[..|log| - 1]) + log[|log| - 1].moved.calls
  }

  lemma LogMore(log: seq<Event>, e: Event)
    ensures Moved(log + [e]) == Moved(log) + e.moved.bytes
    ensures Received(log + [e]) == Received(log) + if e.step.ReadFromFd? then e.moved.bytes else []
    ensures Sent(log + [e]) == Sent(log) + if e.step.WriteToFd? then e.moved.bytes else []
    ensures Called(log + [e]) == Called(log) + e.moved.calls
  {
    assert (log + [e])[..|log|] == log;
  }

  lemma LogNone()
    ensures Moved([]) == Received([]) == Sent([]) == [] && Called([]) == []
  {
  }

  /** `log` records the first requests of a script, each of which did what it should with `limit`
      bytes in all and fragments of `size` bytes; all but the last have worked. */
  ghost predicate Records(log: seq<Event>, script: seq<Step>, limit: nat, size: nat)
    requires size > 0
  {
    && |log| <= |script|
    && (forall i :: 0 <= i < |log| ==> log[i].step == script[i] && Did(log[i], |Moved(log[..i])|, limit, size))
    && (forall i :: 0 <= i < |log| - 1 ==> log[i].answer.ok)
  }

  predicate AllWorked(log: seq<Event>) {
    forall i :: 0 <= i < |log| ==> log[i].answer.ok
  }

  /** The script has been done, or it was given up at a request that failed. */
  predicate Over(ok: bool, log: seq<Event>, script: seq<Step>) {
    if ok then |log| == |script| && AllWorked(log) else log != [] && !log[|log| - 1].answer.ok
  }

  /** Without file descriptors. */
  predicate InMemory(script: seq<Step>) {
    forall i :: 0 <= i < |script| ==> !script[i].ReadFromFd? && !script[i].WriteToFd?
  }

  /** How many bytes the first `n` requests of a script ask for. */
  function Asked(script: seq<Step>, n: nat): (length: nat)
    requires n <= |script|
  {
    if n == 0 then 0
    else
      Asked(script, n - 1) + match script[n - 1]
        case PutBytes(bytes) => |bytes|
        case GetBytes(len) => len
        case ReadFromFd(max) => max
        case WriteToFd(max) => max
        case Rewind(_) => 0
        case _ => 4
  }

  /** Request `i` of a script finds the space or the bytes it asks for, `limit` in all, and an
      integer lies within a fragment of `size` bytes. */
  predicate Served(script: seq<Step>, i: nat, limit: nat, size: nat)
    requires i < |script| && size > 0
  {
    Asked(script, i + 1) <= limit && (script[i].PutLong? || script[i].GetLong? ==> Within(Asked(script, i), size))
  }

  predicate AllServed(script: seq<Step>, n: nat, limit: nat, size: nat)
    requires n <= |script| && size > 0
  {
    forall i :: 0 <= i < n ==> Served(script, i, limit, size)
  }

  /** The requests `ws` find space for what they put, and `rs` find what they get. */
  predicate Feasible(ws: seq<Step>, rs: seq<Step>, room: nat, size: nat)
    requires size > 0
  {
    AllServed(ws, |ws|, room, size) && AllServed(rs, |rs|, Asked(ws, |ws|), size)
  }

  /** The same for a new stream, when `reserve` fragments are to be had. */
  predicate FeasibleIn(ws: seq<Step>, rs: seq<Step>, size: nat, reserve: nat)
    requires size > 0
  {
    reserve > 0 && Feasible(ws, rs, size * reserve, size)
  }

  lemma {:induction false} MovedAsked(log: seq<Event>, script: seq<Step>, limit: nat, size: nat, n: nat)
    requires size > 0 && Records(log, script, limit, size) && InMemory(script) && forall w :: w in script ==> Puts(w) || Gets(w)
    requires n <= |log| && forall i :: 0 <= i < n ==> log[i].answer.ok
    ensures |Moved(log[..n])| == Asked(script, n)
  {
    if n > 0 {
      MovedAsked(log, script, limit, size, n - 1);
      MovedNext(log, n - 1);
      RecordsAt(log, script, limit, size, n - 1);
      hide Did, Asked, Moved, Records, Within;
      DidServed(log[n - 1], script, n - 1, limit, size);
    }
  }

  lemma RecordsAt(log: seq<Event>, script: seq<Step>, limit: nat, size: nat, i: nat)
    requires size > 0 && Records(log, script, limit, size) && i < |log|
    ensures log[i].step == script[i] && script[i] in script && Did(log[i], |Moved(log[..i])|, limit, size)
  {
  }

  lemma MovedNext(log: seq<Event>, i: nat)
    requires i < |log|
    ensures Moved(log[..i + 1]) == Moved(log[..i]) + log[i].moved.bytes
  {
    assert log[..i + 1][..i] == log[..i];
  }

  /** Without file descriptors a script is done exactly if each request finds what it asks for. */
  lemma ServedExactly(ok: bool, log: seq<Event>, script: seq<Step>, limit: nat, size: nat)
    requires size > 0 && Records(log, script, limit, size) && Over(ok, log, script)
    requires InMemory(script) && forall w :: w in script ==> Puts(w) || Gets(w)
    ensures ok <==> AllServed(script, |script|, limit, size)
  {
    var n := if ok then |log| else |log| - 1;
    forall i | 0 <= i < |log| ensures log[i].answer.ok <==> Served(script, i, limit, size) {
      MovedAsked(log, script, limit, size, i);
      DidServed(log[i], script, i, limit, size);
    }
  }

  lemma DidServed(e: Event, script: seq<Step>, i: nat, limit: nat, size: nat)
    requires size > 0 && i < |script| && script[i] == e.step && InMemory(script) && (Puts(e.step) || Gets(e.step))
    requires Did(e, Asked(script, i), limit, size)
    ensures e.answer.ok <==> Served(script, i, limit, size)
    ensures e.answer.ok ==> Asked(script, i + 1) == Asked(script, i) + |e.moved.bytes|
  {
    hide Within, Network;
  }

  lemma PutEffect(step: Step, f: Flow, room: nat, f': Flow, room': nat, a: Answer, moved: Traffic, gone: nat, limit: nat, size: nat)
    requires Puts(step) && f.op == Encode && Effect(step, f, room, f', room', a, moved)
    requires size > 0 && gone + room == limit && (step.PutLong? ==> Within(gone, size))
    ensures Did(Event(step, a, moved), gone, limit, size) && f'.op == Encode && f'.contents == f.contents + moved.bytes
    ensures a.ok ==> room' == room - |moved.bytes|
    ensures !step.ReadFromFd? ==> moved.calls == []
  {
    hide Within, Transferred;
  }

  lemma Looks(s: XdrStream, size: nat)
    requires s.Own(size)
    ensures Look(s, size) == Flow(s.op, s.Contents(size), s.Unread(size), s.current == null, s.handy)
  {
  }

  lemma GetEffect(step: Step, f: Flow, room: nat, f': Flow, room': nat, a: Answer, moved: Traffic, gone: nat, limit: nat, size: nat)
    requires Gets(step) && f.op == Decode && Effect(step, f, room, f', room', a, moved)
    requires size > 0 && gone + |f.unread| == limit
    requires step.GetLong? ==> f.unread == [] || (|f.unread| >= 4 && Within(gone, size))
    ensures Did(Event(step, a, moved), gone, limit, size)
    ensures f'.op == Decode && f'.contents == f.contents && f.unread == moved.bytes + f'.unread
    ensures !step.WriteToFd? ==> moved.calls == []
  {
    hide Within, Transferred;
  }

  /** One request of a script that puts; an integer that would reach beyond its fragment is
      refused. `gone` is what has been put before. */
  method WriteOne(s: XdrStream, fd: Channel, w: Step, ghost gone: nat, ghost limit: nat) returns (ok: bool, ghost e: Event)
    requires s.Valid() && s.op == Encode && Puts(w) && gone == |s.Contents(s.pool.bufferSize)| && gone + s.Room() == limit
    modifies s, s.pool`freeList, s.pool`fragmentCount, s.pool`freeFragmentCount, s.pool`free, s.pool`live
    modifies Members(s.chain), Members(s.pool.free), fd
    ensures s.Valid() && s.op == Encode && s.pool.live == old(s.pool.live)[s := |s.chain|]
    ensures forall f :: f in s.chain ==> f in old(s.chain) || f in old(s.pool.free) || fresh(f)
    ensures forall f :: f in s.pool.free ==> f in old(s.pool.free)
    ensures e.step == w && e.answer.ok == ok && s.pool.bufferSize > 0 && Did(e, gone, limit, s.pool.bufferSize)
    ensures s.Contents(s.pool.bufferSize) == old(s.Contents(s.pool.bufferSize)) + e.moved.bytes
    ensures ok ==> s.Room() == old(s.Room()) - |e.moved.bytes|
    ensures fd.received == old(fd.received) + (if w.ReadFromFd? then e.moved.bytes else []) && fd.sent == old(fd.sent)
    ensures fd.calls == old(fd.calls) + e.moved.calls
  {
    s.PoolSize();
    if w.PutLong? {
      s.PutsWholeExactly(s.pool.bufferSize);
    }
    hide XdrStream.Own, XdrStream.Contents, XdrStream.Unread, XdrStream.Room, FragmentPool.Valid, Network, Within, Effect, Did;
    if w.PutLong? && !s.PutsWhole() {
      Refused(w, gone, limit, s.pool.bufferSize);
      return false, Event(w, Answer(false, [], 0, NoError), QUIET);
    }
    ghost var moved;
    var a;
    ghost var f, room := Look(s, s.pool.bufferSize), s.Room();
    if w.ReadFromFd? {
      a, moved := Fetch(s, w.max, fd);
    } else {
      a, moved := Put(s, w);
    }
    PutEffect(w, f, room, Look(s, s.pool.bufferSize), s.Room(), a, moved, gone, limit, s.pool.bufferSize);
    ok, e := a.ok, Event(w, a, moved);
  }

  lemma Refused(step: Step, gone: nat, limit: nat, size: nat)
    requires (step.PutLong? || step.GetLong?) && size > 0 && gone <= limit && !(gone + 4 <= limit && Within(gone, size))
    ensures Did(Event(step, Answer(false, [], 0, NoError), QUIET), gone, limit, size)
  {
  }

  /** `log` records the first `n` requests of a script, all of which have worked. */
  ghost predicate InStep(script: seq<Step>, n: nat, log: seq<Event>, limit: nat, size: nat)
    requires n <= |script| && size > 0
  {
    |log| == n && Records(log, script, limit, size) && AllWorked(log)
  }

  /** The next request works, or it is the last. */
  lemma InStepNext(script: seq<Step>, n: nat, log: seq<Event>, limit: nat, size: nat, e: Event)
    requires n < |script| && size > 0 && InStep(script, n, log, limit, size)
    requires e.step == script[n] && Did(e, |Moved(log)|, limit, size)
    ensures Records(log + [e], script, limit, size)
    ensures if e.answer.ok then InStep(script, n + 1, log + [e], limit, size) else Over(false, log + [e], script)
  {
    hide Did, Within, Moved;
    var more := log + [e];
    assert more[n] == e && more[..n] == log;
    forall i | 0 <= i < n ensures more[i] == log[i] && more[..i] == log[..i] { }
  }

  lemma InStepEnd(script: seq<Step>, log: seq<Event>, limit: nat, size: nat)
    requires size > 0 && InStep(script, |script|, log, limit, size)
    ensures Records(log, script, limit, size) && Over(true, log, script)
  {
  }

  lemma InStepStart(script: seq<Step>, limit: nat, size: nat)
    requires size > 0
    ensures InStep(script, 0, [], limit, size)
  {
  }

  /** Runs a script that puts, up to the first request that fails. */
  method WriteAll(s: XdrStream, fd: Channel, ws: seq<Step>) returns (ok: bool, ghost log: seq<Event>)
    requires s.Valid() && s.op == Encode && s.Contents(s.pool.bufferSize) == [] && forall w :: w in ws ==> Puts(w)
    modifies s, s.pool`freeList, s.pool`fragmentCount, s.pool`freeFragmentCount, s.pool`free, s.pool`live
    modifies Members(s.chain), Members(s.pool.free), fd
    ensures s.Valid() && s.op == Encode && s.pool.live == old(s.pool.live)[s := |s.chain|]
    ensures forall f :: f in s.chain ==> f in old(s.chain) || f in old(s.pool.free) || fresh(f)
    ensures forall f :: f in s.pool.free ==> f in old(s.pool.free)
    ensures s.pool.bufferSize > 0 && Records(log, ws, old(s.Room()), s.pool.bufferSize) && Over(ok, log, ws)
    ensures s.Contents(s.pool.bufferSize) == Moved(log)
    ensures fd.received == old(fd.received) + Received(log) && fd.sent == old(fd.sent) && fd.calls == old(fd.calls) + Called(log)
  {
    hide XdrStream.Own, XdrStream.Contents, XdrStream.Room, FragmentPool.Valid, Moved, Received, Called, Did, Within;
    hide InStep, Records, Over;
    ok, log := true, [];
    LogNone();
    s.PoolSize();
    ghost var room, size := s.Room(), s.pool.bufferSize;
    InStepStart(ws, room, size);
    var i := 0;
    while i < |ws|
      invariant 0 <= i <= |ws| && ok && InStep(ws, i, log, room, size)
      invariant s.Valid() && s.op == Encode && s.pool.live == old(s.pool.live)[s := |s.chain|]
      invariant forall f :: f in s.chain ==> f in old(s.chain) || f in old(s.pool.free) || fresh(f)
      invariant forall f :: f in s.pool.free ==> f in old(s.pool.free)
      invariant s.Contents(size) == Moved(log) && |Moved(log)| + s.Room() == room
      invariant fd.received == old(fd.received) + Received(log) && fd.sent == old(fd.sent) && fd.calls == old(fd.calls) + Called(log)
    {
      ghost var e;
      ok, e := WriteOne(s, fd, ws[i], |Moved(log)|, room);
      LogMore(log, e);
      InStepNext(ws, i, log, room, size, e);
      log := log + [e];
      if !ok {
        return;
      }
      i := i + 1;
    }
    InStepEnd(ws, log, room, size);
  }

  /** Whether an integer can be read where `gone` bytes have been. */
  lemma GetsHere(s: XdrStream, size: nat, gone: nat)
    requires s.Own(size) && size >= 4 && s.op == Decode && s.current != null
    requires gone + |s.Unread(size)| == |s.Contents(size)|
    ensures s.Unread(size) != [] ==> (s.GetsWhole() <==> |s.Unread(size)| >= 4 && Within(gone, size))
  {
    hide XdrStream.Own, XdrStream.Contents, XdrStream.Unread, Within, XdrStream.GetsWhole;
    if s.Unread(size) != [] {
      s.GetsWholeExactly(size);
    }
  }

  lemma PoolSizeOf(s: XdrStream)
    requires s.Valid()
    ensures s.pool.bufferSize >= 4
  {
    s.PoolSize();
  }

  method ReadLong(s: XdrStream, fd: Channel, r: Step, ghost whole: seq<byte>, ghost size: nat, ghost gone: nat) returns (a: Answer, ghost e: Event)
    requires s.Valid() && s.op == Decode && s.current != null && r.GetLong?
    requires size == s.pool.bufferSize && whole == s.Contents(size) && gone + |s.Unread(size)| == |whole|
    modifies s`current, s`pos, s`handy, s`at
    ensures s.Valid() && s.op == Decode && (a.ok ==> s.current != null) && e == Event(r, a, e.moved)
    ensures size > 0 && Did(e, gone, |whole|, size) && e.moved.calls == []
    ensures s.Contents(size) == whole && old(s.Unread(size)) == e.moved.bytes + s.Unread(size)
  {
    PoolSizeOf(s);
    GetsHere(s, size, gone);
    hide XdrStream.Own, XdrStream.Contents, XdrStream.Unread, FragmentPool.Valid, Network, Within, XdrStream.GetsWhole, XdrStream.Room, Effect, Did;
    if !s.GetsWhole() {
      GetsEnd(s, size);
      Refused(r, gone, |whole|, size);
      a := Answer(false, [], 0, NoError);
      return a, Event(r, a, QUIET);
    }
    ghost var moved;
    ghost var f, room := Look(s, size), s.Room();
    a, moved := Get(s, r);
    GetEffect(r, f, room, Look(s, size), s.Room(), a, moved, gone, |whole|, size);
    e := Event(r, a, moved);
  }

  lemma GetsEnd(s: XdrStream, size: nat)
    requires s.Own(size) && size >= 4 && s.op == Decode && s.current != null
    ensures s.Unread(size) == [] ==> s.GetsWhole()
  {
    hide XdrStream.Own, XdrStream.Contents, XdrStream.Unread, XdrStream.GetsWhole;
    if s.Unread(size) == [] {
      s.GetsAtEnd(size);
    }
  }

  /** One request of a script that gets. `gone` is what has been got before. */
  method ReadOne(s: XdrStream, fd: Channel, r: Step, ghost whole: seq<byte>, ghost size: nat, ghost gone: nat) returns (a: Answer, ghost e: Event)
    requires s.Valid() && s.op == Decode && s.current != null && Gets(r)
    requires size == s.pool.bufferSize && whole == s.Contents(size) && gone + |s.Unread(size)| == |whole|
    modifies s`current, s`pos, s`handy, s`at, fd
    ensures s.Valid() && s.op == Decode && (a.ok ==> s.current != null) && e == Event(r, a, e.moved)
    ensures size > 0 && Did(e, gone, |whole|, size)
    ensures s.Contents(size) == whole && old(s.Unread(size)) == e.moved.bytes + s.Unread(size)
    ensures fd.sent == old(fd.sent) + (if r.WriteToFd? then e.moved.bytes else []) && fd.received == old(fd.received)
    ensures fd.calls == old(fd.calls) + e.moved.calls
  {
    PoolSizeOf(s);
    hide XdrStream.Own, XdrStream.Contents, XdrStream.Unread, FragmentPool.Valid, Network, Within, XdrStream.Room, XdrStream.GetsWhole, Effect, Did;
    if r.GetLong? {
      a, e := ReadLong(s, fd, r, whole, size, gone);
      return;
    }
    ghost var moved;
    ghost var f, room := Look(s, size), s.Room();
    if r.WriteToFd? {
      a, moved := Send(s, r.max, fd);
    } else {
      a, moved := Get(s, r);
    }
    GetEffect(r, f, room, Look(s, size), s.Room(), a, moved, gone, |whole|, size);
    e := Event(r, a, moved);
  }

  /** Runs a script that gets, up to the first request that fails. */
  method ReadAll(s: XdrStream, fd: Channel, rs: seq<Step>, ghost whole: seq<byte>, ghost size: nat)
      returns (ok: bool, answers: seq<Answer>, ghost log: seq<Event>)
    requires s.Valid() && s.op == Decode && s.current != null && forall r :: r in rs ==> Gets(r)
    requires size == s.pool.bufferSize && whole == s.Contents(size) == s.Unread(size)
    modifies s`current, s`pos, s`handy, s`at, fd
    ensures s.Valid() && s.Contents(size) == whole == Moved(log) + s.Unread(size)
    ensures size > 0 && Records(log, rs, |whole|, size) && Over(ok, log, rs)
    ensures |answers| == |log| && forall i :: 0 <= i < |log| ==> answers[i] == log[i].answer
    ensures fd.sent == old(fd.sent) + Sent(log) && fd.received == old(fd.received) && fd.calls == old(fd.calls) + Called(log)
  {
    hide XdrStream.Own, XdrStream.Contents, XdrStream.Unread, FragmentPool.Valid, Moved, Sent, Called, Did, Within;
    hide InStep, Records, Over;
    ok, answers, log := true, [], [];
    LogNone();
    s.PoolSize();
    InStepStart(rs, |whole|, size);
    var i := 0;
    while i < |rs|
      invariant 0 <= i <= |rs| && ok && |log| == |answers| == i && InStep(rs, i, log, |whole|, size)
      invariant forall j :: 0 <= j < i ==> answers[j] == log[j].answer
      invariant s.Valid() && s.op == Decode && s.current != null
      invariant s.Contents(size) == whole == Moved(log) + s.Unread(size)
      invariant fd.sent == old(fd.sent) + Sent(log) && fd.received == old(fd.received) && fd.calls == old(fd.calls) + Called(log)
    {
      ghost var e;
      var a;
      a, e := ReadOne(s, fd, rs[i], whole, size, |Moved(log)|);
      LogMore(log, e);
      InStepNext(rs, i, log, |whole|, size, e);
      log, answers := log + [e], answers + [a];
      if !a.ok {
        return false, answers, log;
      }
      i := i + 1;
    }
    InStepEnd(rs, log, |whole|, size);
  }

  /** Whatever pieces are put, and whatever other pieces are then got, the bytes returned or sent
      to the file descriptor are those put or received from it, in order, up to the first request
      that fails, and for the reasons it can fail for. */
  method Echo(s: XdrStream, fd: Channel, ws: seq<Step>, rs: seq<Step>)
    returns (ok: bool, answers: seq<Answer>, ghost written: seq<Event>, ghost read: seq<Event>)
    requires s.Valid() && s.op == Encode && s.Contents(s.pool.bufferSize) == []
    requires (forall w :: w in ws ==> Puts(w)) && (forall r :: r in rs ==> Gets(r))
    modifies s, s.pool`freeList, s.pool`fragmentCount, s.pool`freeFragmentCount, s.pool`free, s.pool`live
    modifies Members(s.chain), Members(s.pool.free), fd
    ensures s.Valid() && s.pool.live == old(s.pool.live)[s := |s.chain|] && s.pool.bufferSize > 0
    ensures forall f :: f in s.chain ==> f in old(s.chain) || f in old(s.pool.free) || fresh(f)
    ensures forall f :: f in s.pool.free ==> f in old(s.pool.free)
    ensures Returned(written, ws, read, rs, answers, ok, old(s.Room()), s.pool.bufferSize)
    ensures fd.received == old(fd.received) + Received(written) && fd.sent == old(fd.sent) + Sent(read)
    ensures fd.calls == old(fd.calls) + Called(written) + Called(read)
    ensures |written| == |ws| && AllWorked(written) ==> s.length == |Moved(written)| % UNSIGNED
  {
    hide XdrStream.Own, XdrStream.Contents, XdrStream.Unread, FragmentPool.Valid, Moved, Received, Sent, Called, Did, Records;
    LogNone();
    answers, read := [], [];
    ok, written := WriteAll(s, fd, ws);
    if ok {
      s.Rewind(Decode);
      ok, answers, read := ReadAll(s, fd, rs, Moved(written), s.pool.bufferSize);
    } else {
      RecordsNothing(rs, |Moved(written)|, s.pool.bufferSize);
    }
  }

  lemma RecordsNothing(script: seq<Step>, limit: nat, size: nat)
    requires size > 0
    ensures Records([], script, limit, size)
  {
  }

  /** The requests `written` put as many of the pieces `ws` as there was room for, and the answers
      are those of the requests `read`, which got the pieces `rs` from the beginning of what was
      put. Both have stopped at the first request that failed, and the second are made only if
      none of the first did; `ok` says that none failed. */
  ghost predicate Returned(written: seq<Event>, ws: seq<Step>, read: seq<Event>, rs: seq<Step>, answers: seq<Answer>, ok: bool,
      room: nat, size: nat)
    requires size > 0
  {
    && Records(written, ws, room, size) && Records(read, rs, |Moved(written)|, size)
    && |answers| == |read| && (forall i :: 0 <= i < |read| ==> answers[i] == read[i].answer)
    && Moved(read) <= Moved(written)
    && if Over(true, written, ws) then Over(ok, read, rs) else Over(false, written, ws) && read == [] && !ok
  }

  /** The same for a new stream, when `reserve` fragments are to be had. */
  ghost predicate ReturnedIn(written: seq<Event>, ws: seq<Step>, read: seq<Event>, rs: seq<Step>, answers: seq<Answer>, ok: bool,
      size: nat, reserve: nat)
    requires size > 0
  {
    if reserve == 0 then !ok && answers == [] && written == read == []
    else Returned(written, ws, read, rs, answers, ok, size * reserve, size)
  }

  /** Without file descriptors all succeeds exactly if the pieces fit. */
  lemma ReturnedExactly(written: seq<Event>, ws: seq<Step>, read: seq<Event>, rs: seq<Step>, answers: seq<Answer>, ok: bool,
      room: nat, size: nat)
    requires size > 0 && Returned(written, ws, read, rs, answers, ok, room, size) && InMemory(ws) && InMemory(rs)
    requires (forall w :: w in ws ==> Puts(w)) && (forall r :: r in rs ==> Gets(r))
    ensures ok <==> Feasible(ws, rs, room, size)
  {
    hide Records, AllServed, Moved, Over;
    if Over(true, written, ws) {
      ServedExactly(true, written, ws, room, size);
      AllMoved(written, ws, room, size);
      ServedExactly(ok, read, rs, |Moved(written)|, size);
    } else {
      ServedExactly(false, written, ws, room, size);
    }
  }

  lemma AllMoved(log: seq<Event>, script: seq<Step>, limit: nat, size: nat)
    requires size > 0 && Records(log, script, limit, size) && InMemory(script) && forall w :: w in script ==> Puts(w) || Gets(w)
    requires Over(true, log, script)
    ensures |Moved(log)| == Asked(script, |script|)
  {
    MovedAsked(log, script, limit, size, |log|);
    assert log[..|log|] == log;
  }

  /** A stream used once: in the end every fragment is back in the pool. */
  method RoundTrip(pool: FragmentPool, fd: Channel, ws: seq<Step>, rs: seq<Step>)
    returns (ok: bool, answers: seq<Answer>, ghost written: seq<Event>, ghost read: seq<Event>)
    requires pool.Valid() && (forall w :: w in ws ==> Puts(w)) && (forall r :: r in rs ==> Gets(r))
    modifies pool`freeList, pool`fragmentCount, pool`freeFragmentCount, pool`free, pool`live
    modifies Members(pool.free), fd
    ensures pool.Valid() && pool.live == old(pool.live) && pool.bufferSize > 0
    ensures ReturnedIn(written, ws, read, rs, answers, ok, pool.bufferSize, old(pool.Reserve()))
    ensures fd.received == old(fd.received) + Received(written) && fd.sent == old(fd.sent) + Sent(read)
    ensures fd.calls == old(fd.calls) + Called(written) + Called(read)
    ensures InMemory(ws) && InMemory(rs) ==> (ok <==> FeasibleIn(ws, rs, pool.bufferSize, old(pool.Reserve())))
  {
    hide XdrStream.Own, XdrStream.Contents, XdrStream.Unread, FragmentPool.Valid, Moved, Received, Sent, Called, Returned, Feasible;
    LogNone();
    ghost var live := pool.live;
    pool.SizeKnown();
    var s := XdrStream.Create(pool);
    if s == null {
      return false, [], [], [];
    }
    ok, answers, written, read := Echo(s, fd, ws, rs);
    if InMemory(ws) && InMemory(rs) {
      ReturnedExactly(written, ws, read, rs, answers, ok, pool.bufferSize * old(pool.Reserve()), pool.bufferSize);
    }
    s.Destroy();
    assert live[s as object := |s.chain|] - {s as object} == live;
  }

  // ---------- many streams ----------

  /** Streams own their fragments: no two share one, and none is on the free list. */
  lemma ChainsApart(s: XdrStream, t: XdrStream)
    requires s.Valid() && t.Valid() && s != t
    ensures Members(s.chain) !! Members(t.chain) && Members(s.chain) !! Members(s.pool.free)
    ensures s.pool == t.pool ==> Members(t.chain) !! Members(s.pool.free)
  {
  }

  ghost function Objects(streams: set<XdrStream>): (s: set<object>) {
    set t | t in streams :: t as object
  }

  /** Every stream of the pool is in order, and the pool knows no others. */
  ghost predicate World(pool: FragmentPool, streams: set<XdrStream>)
    reads pool, Members(pool.free), streams, set s, f | s in streams && f in s.chain :: f
  {
    && pool.Valid()
    && (forall s :: s in streams ==> s.pool == pool && s.Valid())
    && pool.live.Keys == Objects(streams)
  }

  ghost function Chains(streams: set<XdrStream>): (n: nat)
    reads streams
  {
    if streams == {} then 0 else
      var s :| s in streams;
      |s.chain| + Chains(streams - {s})
  }

  lemma {:induction false} TotalChains(live: map<object, nat>, streams: set<XdrStream>)
    requires live.Keys == Objects(streams)
    requires forall s: XdrStream :: s in streams ==> live[s] == |s.chain|
    ensures Total(live) == Chains(streams)
    decreases streams
  {
    if streams != {} {
      var s :| s in streams && Chains(streams) == |s.chain| + Chains(streams - {s});
      assert s as object in live;
      TotalWithout(live, s);
      var live', streams' := live - {s as object}, streams - {s};
      forall o: object ensures o in live' <==> o in Objects(streams') {
        if o in live' {
          var t: XdrStream :| t in streams && o == t;
          assert t in streams';
        }
      }
      TotalChains(live', streams');
    } else {
      assert live == map[];
    }
  }

  /** Fragments are conserved: each one is on the free list or in the chain of one stream, and
      there are never more than the quota, or what there was when it was set. */
  lemma Conservation(pool: FragmentPool, streams: set<XdrStream>)
    requires World(pool, streams)
    ensures pool.fragmentCount == pool.freeFragmentCount + Chains(streams)
    ensures pool.freeFragmentCount == |pool.free| && pool.fragmentCount <= pool.ceiling && pool.quota <= pool.ceiling
  {
    TotalChains(pool.live, streams);
  }

  /** The fragments of a world. */
  ghost function All(pool: FragmentPool, streams: set<XdrStream>): (fs: set<Fragment>)
    reads pool, streams
  {
    Members(pool.free) + set s, f | s in streams && f in s.chain :: f
  }

  /** A new pool, before any stream. */
  lemma FirstWorld(pool: FragmentPool)
    requires pool.Valid() && pool.live == map[]
    ensures World(pool, {})
  {
    var none: set<XdrStream> := {};
    assert Objects(none) == {};
  }

  lemma ObjectsMore(streams: set<XdrStream>, s: XdrStream)
    ensures Objects(streams + {s}) == Objects(streams) + {s as object}
    ensures s as object in Objects(streams) <==> s in streams
  {
    forall o: object ensures o in Objects(streams + {s}) <==> o in Objects(streams) + {s as object} {
      if o in Objects(streams + {s}) {
        var t: XdrStream :| t in streams + {s} && o == t;
      }
    }
  }

  lemma ObjectsLess(streams: set<XdrStream>, s: XdrStream)
    requires s in streams
    ensures Objects(streams - {s}) == Objects(streams) - {s as object}
  {
    ObjectsMore(streams - {s}, s);
    assert streams - {s} + {s} == streams;
  }

  lemma FreeApart(s: XdrStream)
    requires s.Valid()
    ensures Members(s.chain) !! Members(s.pool.free)
  {
  }

  /** Another stream is made exactly if there is a fragment for it; the others stay as they are. */
  method CreateAmong(pool: FragmentPool, ghost streams: set<XdrStream>) returns (s: XdrStream?)
    requires World(pool, streams)
    modifies pool`freeList, pool`fragmentCount, pool`freeFragmentCount, pool`free, pool`live, Members(pool.free)
    ensures s == null <==> old(pool.Reserve()) == 0
    ensures if s == null then pool.free == old(pool.free) && pool.fragmentCount == old(pool.fragmentCount)
      else pool.Reserve() == old(pool.Reserve()) - 1
    ensures if s == null then World(pool, streams) else fresh(s) && World(pool, streams + {s})
    ensures s != null ==> Look(s, pool.bufferSize) == Flow(Encode, [], [], false, pool.bufferSize)
    ensures forall t :: t in streams ==> Look(t, pool.bufferSize) == old(Look(t, pool.bufferSize))
    ensures forall f :: f in All(pool, if s == null then streams else streams + {s}) ==> f in old(All(pool, streams)) || fresh(f)
  {
    hide XdrStream.Own, XdrStream.Contents, XdrStream.Unread, XdrStream.Room, FragmentPool.Valid, FragmentPool.Reserve;
    forall t | t in streams ensures Members(t.chain) !! Members(pool.free) {
      FreeApart(t);
    }
    s := XdrStream.Create(pool);
    forall t | t in streams ensures t.Valid() && Look(t, pool.bufferSize) == old(Look(t, pool.bufferSize)) {
      assert unchanged(t) && unchanged(Members(t.chain));
    }
    if s != null {
      ObjectsMore(streams, s);
      NothingUnread(s, pool.bufferSize);
      HasCurrent(s, pool.bufferSize);
    }
  }

  lemma NothingUnread(s: XdrStream, size: nat)
    requires s.Own(size) && s.op == Encode
    ensures s.Unread(size) == []
  {
  }

  /** A stream is given up; the others stay as they are. */
  method DestroyAmong(pool: FragmentPool, ghost streams: set<XdrStream>, s: XdrStream)
    requires World(pool, streams) && s in streams
    modifies pool`freeList, pool`freeFragmentCount, pool`free, pool`live, Members(s.chain)
    ensures World(pool, streams - {s})
    ensures forall t :: t in streams && t != s ==> Look(t, pool.bufferSize) == old(Look(t, pool.bufferSize))
    ensures forall f :: f in All(pool, streams - {s}) ==> f in old(All(pool, streams))
  {
    hide XdrStream.Own, XdrStream.Contents, XdrStream.Unread, FragmentPool.Valid;
    forall t | t in streams && t != s ensures Members(s.chain) !! Members(t.chain) {
      ChainsApart(s, t);
    }
    s.Destroy();
    ObjectsLess(streams, s);
    forall t | t in streams - {s} ensures t.Valid() && Look(t, pool.bufferSize) == old(Look(t, pool.bufferSize)) {
      assert unchanged(t) && unchanged(Members(t.chain));
    }
  }

  /** Free fragments are given back; the streams stay as they are. */
  method CollectAmong(pool: FragmentPool, ghost streams: set<XdrStream>) returns (sound: bool)
    requires World(pool, streams)
    modifies pool`freeList, pool`fragmentCount, pool`freeFragmentCount, pool`free
    ensures World(pool, streams)
    ensures var n := if sound then GarbageCount(|old(pool.free)|, pool.watermark, pool.freePercentage) else |old(pool.free)|;
      n <= |old(pool.free)| && |pool.free| == |old(pool.free)| - n && pool.fragmentCount == old(pool.fragmentCount) - n
    ensures sound <==> GarbageCount(|old(pool.free)|, pool.watermark, pool.freePercentage) <= |old(pool.free)|
    ensures forall t :: t in streams ==> Look(t, pool.bufferSize) == old(Look(t, pool.bufferSize))
    ensures forall f :: f in All(pool, streams) ==> f in old(All(pool, streams))
  {
    hide XdrStream.Own, XdrStream.Contents, XdrStream.Unread, FragmentPool.Valid;
    sound := pool.FreeGarbage();
    forall t | t in streams ensures t.Valid() && Look(t, pool.bufferSize) == old(Look(t, pool.bufferSize)) {
      assert unchanged(t) && unchanged(Members(t.chain));
    }
  }

  lemma ChainsNone(streams: set<XdrStream>)
    requires forall s :: s in streams ==> s.chain != []
    ensures Chains(streams) == 0 <==> streams == {}
  {
  }

  /** Without fragments there are no streams. */
  lemma NoStreams(pool: FragmentPool, streams: set<XdrStream>)
    requires World(pool, streams) && pool.fragmentCount == 0
    ensures streams == {}
  {
    Conservation(pool, streams);
    ChainsNone(streams);
  }

  /** The limits change, and the fragment size only when there are no streams. */
  method ControlAmong(pool: FragmentPool, ghost streams: set<XdrStream>, size: nat, quota: nat, watermark: nat, percentage: nat)
      returns (ok: bool)
    requires World(pool, streams) && quota < UNSIGNED
    modifies pool`bufferSize, pool`quota, pool`watermark, pool`freePercentage, pool`ceiling
    ensures World(pool, streams) && (ok <==> size == old(pool.bufferSize) || pool.fragmentCount == 0)
    ensures if ok then pool.bufferSize == (if size < MIN_FRAGMENT_SIZE then MIN_FRAGMENT_SIZE else size) else pool.bufferSize == old(pool.bufferSize)
    ensures if ok then pool.watermark == watermark && pool.freePercentage == percentage else unchanged(pool)
    ensures if ok then pool.quota == quota && pool.ceiling == (if pool.fragmentCount <= quota then quota else pool.fragmentCount)
      else unchanged(pool)
    ensures streams != {} ==> pool.bufferSize == old(pool.bufferSize)
    ensures forall t :: t in streams ==> Look(t, pool.bufferSize) == old(Look(t, pool.bufferSize))
    ensures forall f :: f in All(pool, streams) ==> f in old(All(pool, streams))
  {
    if pool.fragmentCount == 0 {
      NoStreams(pool, streams);
    }
    hide XdrStream.Own, XdrStream.Contents, XdrStream.Unread, FragmentPool.Valid;
    ghost var was := pool.bufferSize;
    ok := pool.ControlUsage(size, quota, watermark, percentage);
    forall t | t in streams ensures t.Valid() && Look(t, pool.bufferSize) == old(Look(t, pool.bufferSize)) {
      assert unchanged(t) && unchanged(Members(t.chain));
      pool.SizeKnown();
    }
  }

  /** A request to one stream keeps all streams in order and what every other one holds. */
  method PerformAmong(pool: FragmentPool, ghost streams: set<XdrStream>, s: XdrStream, step: Step, fd: Channel)
      returns (answer: Answer, ghost moved: Traffic)
    requires World(pool, streams) && s in streams && Enabled(s, step)
    modifies s, pool`freeList, pool`fragmentCount, pool`freeFragmentCount, pool`free, pool`live
    modifies Members(s.chain), Members(pool.free), fd
    ensures World(pool, streams)
    ensures Effect(step, old(Look(s, pool.bufferSize)), old(s.Room()), Look(s, pool.bufferSize), s.Room(), answer, moved)
    ensures fd.received == old(fd.received) + if step.ReadFromFd? then moved.bytes else []
    ensures fd.sent == old(fd.sent) + if step.WriteToFd? then moved.bytes else []
    ensures fd.calls == old(fd.calls) + moved.calls
    ensures forall t :: t in streams && t != s ==> Look(t, pool.bufferSize) == old(Look(t, pool.bufferSize))
    ensures forall f :: f in All(pool, streams) ==> f in old(All(pool, streams)) || fresh(f)
  {
    hide XdrStream.Own, XdrStream.Contents, XdrStream.Unread, XdrStream.Room, FragmentPool.Valid, Effect;
    forall t | t in streams && t != s
      ensures Members(s.chain) !! Members(t.chain) && Members(t.chain) !! Members(pool.free)
    {
      ChainsApart(s, t);
    }
    ghost var size := pool.bufferSize;
    answer, moved := Perform(s, step, fd);
    forall t | t in streams && t != s ensures t.Valid() && Look(t, size) == old(Look(t, size)) {
      assert unchanged(t) && unchanged(Members(t.chain));
    }
  }

  // ---------- runs ----------

  /** What may happen: a stream is made, a stream is given up, a stream is asked for something,
      free fragments are collected, or the limits are set. The streams there are are numbered in
      the order they were made. */
  datatype Move =
    | Create
    | Destroy(k: nat)
    | Ask(k: nat, step: Step)
    | Collect
    | Control(size: nat, quota: nat, watermark: nat, percentage: nat)

  predicate WellTyped(moves: seq<Move>) {
    forall i :: 0 <= i < |moves| && moves[i].Control? ==> moves[i].quota < UNSIGNED
  }

  /** The largest quota set first or in one of the first `n` moves. */
  function LargestQuota(quota: nat, moves: seq<Move>, n: nat): (q: nat)
    requires n <= |moves|
  {
    if n == 0 then quota
    else
      var before := LargestQuota(quota, moves, n - 1);
      if moves[n - 1].Control? && moves[n - 1].quota > before then moves[n - 1].quota else before
  }

  lemma QuotaStep(quota: nat, moves: seq<Move>, i: nat)
    requires i < |moves|
    ensures LargestQuota(quota, moves, i + 1) >= LargestQuota(quota, moves, i)
    ensures moves[i].Control? ==> LargestQuota(quota, moves, i + 1) >= moves[i].quota
  {
  }

  lemma NeverSetAgain(quota: nat, moves: seq<Move>, n: nat)
    requires n <= |moves| && forall i :: 0 <= i < n ==> !moves[i].Control?
    ensures LargestQuota(quota, moves, n) == quota
  {
  }

  function Set(streams: seq<XdrStream>): (s: set<XdrStream>) {
    set t | t in streams
  }

  /** A world, seen from outside: the streams in the order they were made, the limits, how many
      fragments there are, and how many of them are free and in chains. */
  datatype Glance = Glance(flows: seq<Flow>, size: nat, quota: nat, watermark: nat, percentage: nat,
                           fragments: nat, free: nat, chains: nat)

  /** How many fragments can still be handed out. */
  function Left(g: Glance): (n: nat) {
    g.free + if g.fragments < g.quota then g.quota - g.fragments else 0
  }

  /** How many bytes can still be put into stream `k`. */
  function Space(g: Glance, k: nat): (n: nat)
    requires k < |g.flows|
  {
    g.flows[k].spare + g.size * Left(g)
  }

  predicate SameLimits(g: Glance, g': Glance) {
    g'.size == g.size && g'.quota == g.quota && g'.watermark == g.watermark && g'.percentage == g.percentage
  }

  /** What a move does, and what it returns. */
  predicate Happens(move: Move, g: Glance, g': Glance, a: Answer, moved: Traffic) {
    match move
    case Create =>
      if Left(g) == 0 then !a.ok && g' == g
      else
        && a.ok && SameLimits(g, g') && Left(g') == Left(g) - 1
        && g'.flows == g.flows + [Flow(Encode, [], [], false, g.size)]
    case Destroy(k) =>
      if k >= |g.flows| then !a.ok && g' == g
      else a.ok && SameLimits(g, g') && g'.fragments == g.fragments && g'.flows == Removed(g.flows, k)
    case Ask(k, step) =>
      if k < |g.flows| && g.size > 0 && Allowed(g.flows[k], step, g.size) then
        && SameLimits(g, g') && |g'.flows| == |g.flows| && g'.flows == g.flows[k := g'.flows[k]]
        && Effect(step, g.flows[k], Space(g, k), g'.flows[k], Space(g', k), a, moved)
      else !a.ok && g' == g && moved == QUIET
    case Collect =>
      var n := GarbageCount(g.free, g.watermark, g.percentage);
      if n <= g.free then a.ok && g' == g.(fragments := g'.fragments, free := g.free - n) && g'.fragments + n == g.fragments
      else !a.ok && g' == g.(fragments := g'.fragments, free := 0) && g'.fragments + g.free == g.fragments
    case Control(size, quota, watermark, percentage) =>
      if size == g.size || g.fragments == 0 then
        a.ok && g' == g.(size := if size < MIN_FRAGMENT_SIZE then MIN_FRAGMENT_SIZE else size,
                         quota := quota, watermark := watermark, percentage := percentage)
      else !a.ok && g' == g
  }

  /** `g` is how the world of `streams` looks, and `largest` bounds the ceiling of its pool. */
  ghost predicate Shows(g: Glance, pool: FragmentPool, streams: seq<XdrStream>, largest: nat)
    reads pool, Members(pool.free), Set(streams), set s, f | s in Set(streams) && f in s.chain :: f
  {
    && World(pool, Set(streams)) && Distinct(streams) && pool.ceiling <= largest
    && FlowsShow(g.flows, streams, pool.bufferSize)
    && Counts(g, pool) && g.chains == Chains(Set(streams))
  }

  ghost predicate FlowsShow(flows: seq<Flow>, streams: seq<XdrStream>, size: nat)
    reads Set(streams), set s, f | s in Set(streams) && f in s.chain :: f
  {
    && |flows| == |streams|
    && forall i :: 0 <= i < |streams| ==> streams[i].Own(size) && flows[i] == Look(streams[i], size)
  }

  ghost predicate Counts(g: Glance, pool: FragmentPool)
    reads pool
  {
    && g.size == pool.bufferSize && g.quota == pool.quota && g.watermark == pool.watermark && g.percentage == pool.freePercentage
    && g.fragments == pool.fragmentCount && g.free == |pool.free|
  }

  /** How a pool and streams look, if `flows` are what the streams hold. */
  ghost function Seen(flows: seq<Flow>, pool: FragmentPool, streams: seq<XdrStream>): (g: Glance)
    reads pool, Set(streams)
  {
    Glance(flows, pool.bufferSize, pool.quota, pool.watermark, pool.freePercentage, pool.fragmentCount, |pool.free|, Chains(Set(streams)))
  }

  /** One move. `moved` are the bytes it moves, `g'` is how the world looks then. */
  method Act(pool: FragmentPool, streams: seq<XdrStream>, move: Move, fd: Channel, ghost g: Glance, ghost largest: nat, ghost largest': nat)
      returns (streams': seq<XdrStream>, a: Answer, ghost moved: Traffic, ghost g': Glance)
    requires Shows(g, pool, streams, largest) && largest' >= largest
    requires move.Control? ==> move.quota < UNSIGNED && move.quota <= largest'
    modifies pool, All(pool, Set(streams)), Set(streams), fd
    ensures Shows(g', pool, streams', largest') && Happens(move, g, g', a, moved)
    ensures fd.received == old(fd.received) + if move.Ask? && move.step.ReadFromFd? then moved.bytes else []
    ensures fd.sent == old(fd.sent) + if move.Ask? && move.step.WriteToFd? then moved.bytes else []
    ensures fd.calls == old(fd.calls) + moved.calls
    ensures forall f :: f in All(pool, Set(streams')) ==> f in old(All(pool, Set(streams))) || fresh(f)
    ensures forall s :: s in Set(streams') ==> s in Set(streams) || fresh(s)
  {
    hide World, FragmentPool.Valid, Distinct, Look, Effect, XdrStream.Valid, FlowsShow, Allowed, Space;
    streams', a, moved := streams, Answer(true, [], 0, NoError), QUIET;
    match move
    case Create => streams', a, g' := ActCreate(pool, streams, g, largest);
    case Destroy(k) => streams', a, g' := ActDestroy(pool, streams, k, g, largest);
    case Ask(k, step) => a, moved, g' := ActAsk(pool, streams, k, step, fd, g, largest);
    case Collect => a, g' := ActCollect(pool, streams, g, largest);
    case Control(_, _, _, _) => a, g' := ActControl(pool, streams, move, g, largest, largest');
  }

  lemma WorldOwns(pool: FragmentPool, streams: set<XdrStream>)
    requires World(pool, streams)
    ensures forall s :: s in streams ==> s.Own(pool.bufferSize) && s.pool == pool
    ensures pool.fragmentCount <= pool.ceiling && pool.bufferSize >= 4
  {
  }

  lemma ShowsSeen(flows: seq<Flow>, pool: FragmentPool, streams: seq<XdrStream>, largest: nat)
    requires World(pool, Set(streams)) && Distinct(streams) && pool.ceiling <= largest && |flows| == |streams|
    requires forall i :: 0 <= i < |streams| ==> streams[i].Own(pool.bufferSize) && flows[i] == Look(streams[i], pool.bufferSize)
    ensures Shows(Seen(flows, pool, streams), pool, streams, largest)
  {
  }

  lemma FlowAt(g: Glance, pool: FragmentPool, streams: seq<XdrStream>, largest: nat)
    requires Shows(g, pool, streams, largest)
    ensures World(pool, Set(streams)) && Distinct(streams) && |g.flows| == |streams| && Counts(g, pool)
    ensures pool.ceiling <= largest && Left(g) == pool.Reserve() && g == Seen(g.flows, pool, streams)
    ensures forall i :: 0 <= i < |streams| ==>
      streams[i] in Set(streams) && streams[i].Own(pool.bufferSize) && g.flows[i] == Look(streams[i], pool.bufferSize)
  {
  }

  lemma LeftSeen(flows: seq<Flow>, pool: FragmentPool, streams: seq<XdrStream>)
    ensures Left(Seen(flows, pool, streams)) == pool.Reserve()
  {
  }

  lemma ChainsSeen(flows: seq<Flow>, pool: FragmentPool, streams: seq<XdrStream>)
    requires World(pool, Set(streams))
    ensures var g := Seen(flows, pool, streams); g.chains == g.fragments - g.free
  {
    Conservation(pool, Set(streams));
  }

  lemma SpaceSeen(flows: seq<Flow>, pool: FragmentPool, streams: seq<XdrStream>, k: nat)
    requires k < |streams| == |flows| && streams[k].pool == pool && streams[k].Own(pool.bufferSize)
    requires flows[k] == Look(streams[k], pool.bufferSize)
    ensures Space(Seen(flows, pool, streams), k) == streams[k].Room()
  {
    LeftSeen(flows, pool, streams);
    Looks(streams[k], pool.bufferSize);
  }

  method ActCreate(pool: FragmentPool, streams: seq<XdrStream>, ghost g: Glance, ghost largest: nat)
      returns (streams': seq<XdrStream>, a: Answer, ghost g': Glance)
    requires Shows(g, pool, streams, largest)
    modifies pool`freeList, pool`fragmentCount, pool`freeFragmentCount, pool`free, pool`live, Members(pool.free)
    ensures Shows(g', pool, streams', largest) && Happens(Create, g, g', a, QUIET)
    ensures forall f :: f in All(pool, Set(streams')) ==> f in old(All(pool, Set(streams))) || fresh(f)
    ensures forall s :: s in Set(streams') ==> s in Set(streams) || fresh(s)
  {
    hide World, Shows, FlowsShow, FragmentPool.Valid, FragmentPool.Reserve, Distinct, Look, XdrStream.Valid, XdrStream.Own, All, Set, Chains;
    FlowAt(g, pool, streams, largest);
    ChainsSeen(g.flows, pool, streams);
    var s := CreateAmong(pool, Set(streams));
    if s == null {
      WorldOwns(pool, Set(streams));
      ShowsSeen(g.flows, pool, streams, largest);
      ChainsSeen(g.flows, pool, streams);
      streams', a, g' := streams, Answer(false, [], 0, NoError), Seen(g.flows, pool, streams);
    } else {
      SetMore(streams, s);
      streams', a := streams + [s], Answer(true, [], 0, NoError);
      ghost var flows := g.flows + [Flow(Encode, [], [], false, pool.bufferSize)];
      WorldOwns(pool, Set(streams'));
      forall i | 0 <= i < |streams'|
        ensures streams'[i].Own(pool.bufferSize) && flows[i] == Look(streams'[i], pool.bufferSize)
      {
        SetMember(streams', i);
      }
      ShowsSeen(flows, pool, streams', largest);
      LeftSeen(flows, pool, streams');
      g' := Seen(flows, pool, streams');
    }
  }

  method ActDestroy(pool: FragmentPool, streams: seq<XdrStream>, k: nat, ghost g: Glance, ghost largest: nat)
      returns (streams': seq<XdrStream>, a: Answer, ghost g': Glance)
    requires Shows(g, pool, streams, largest)
    modifies pool`freeList, pool`freeFragmentCount, pool`free, pool`live, All(pool, Set(streams))
    ensures Shows(g', pool, streams', largest) && Happens(Destroy(k), g, g', a, QUIET)
    ensures forall f :: f in All(pool, Set(streams')) ==> f in old(All(pool, Set(streams)))
    ensures forall s :: s in Set(streams') ==> s in Set(streams)
  {
    hide World, Shows, FlowsShow, FragmentPool.Valid, FragmentPool.Reserve, Distinct, Look, XdrStream.Valid, XdrStream.Own, All, Set, Chains;
    FlowAt(g, pool, streams, largest);
    if k >= |streams| {
      return streams, Answer(false, [], 0, NoError), g;
    }
    SetMember(streams, k);
    SetLess(streams, k);
    InAll(pool, streams, k);
    DestroyAmong(pool, Set(streams), streams[k]);
    streams', a := Removed(streams, k), Answer(true, [], 0, NoError);
    ghost var flows := Removed(g.flows, k);
    WorldOwns(pool, Set(streams'));
    forall i | 0 <= i < |streams'|
      ensures streams'[i].Own(pool.bufferSize) && flows[i] == Look(streams'[i], pool.bufferSize)
    {
      ghost var j := if i < k then i else i + 1;
      assert streams'[i] == streams[j] && flows[i] == g.flows[j];
      SetMember(streams', i);
      Apart(streams, j, k);
    }
    ShowsSeen(flows, pool, streams', largest);
    g' := Seen(flows, pool, streams');
  }

  method ActAsk(pool: FragmentPool, streams: seq<XdrStream>, k: nat, step: Step, fd: Channel, ghost g: Glance, ghost largest: nat)
      returns (a: Answer, ghost moved: Traffic, ghost g': Glance)
    requires Shows(g, pool, streams, largest)
    modifies pool`freeList, pool`fragmentCount, pool`freeFragmentCount, pool`free, pool`live
    modifies All(pool, Set(streams)), Set(streams), fd
    ensures Shows(g', pool, streams, largest) && Happens(Ask(k, step), g, g', a, moved)
    ensures fd.received == old(fd.received) + if step.ReadFromFd? then moved.bytes else []
    ensures fd.sent == old(fd.sent) + if step.WriteToFd? then moved.bytes else []
    ensures fd.calls == old(fd.calls) + moved.calls
    ensures forall f :: f in All(pool, Set(streams)) ==> f in old(All(pool, Set(streams))) || fresh(f)
  {
    hide World, Shows, FlowsShow, FragmentPool.Valid, FragmentPool.Reserve, Distinct, Look, XdrStream.Valid, XdrStream.Own, All, Set, Chains, Effect, Allowed, Space, XdrStream.Room;
    FlowAt(g, pool, streams, largest);
    WorldOwns(pool, Set(streams));
    if k < |streams| {
      SetMember(streams, k);
      AllowedExactly(streams[k], step, pool.bufferSize);
    }
    if k >= |streams| || !Enabled(streams[k], step) {
      return Answer(false, [], 0, NoError), QUIET, g;
    }
    InAll(pool, streams, k);
    SpaceSeen(g.flows, pool, streams, k);
    a, moved := PerformAmong(pool, Set(streams), streams[k], step, fd);
    WorldOwns(pool, Set(streams));
    ghost var flows := g.flows[k := Look(streams[k], pool.bufferSize)];
    forall i | 0 <= i < |streams| ensures streams[i].Own(pool.bufferSize) && flows[i] == Look(streams[i], pool.bufferSize) {
      SetMember(streams, i);
      if i != k { Apart(streams, i, k); }
    }
    ShowsSeen(flows, pool, streams, largest);
    SpaceSeen(flows, pool, streams, k);
    g' := Seen(flows, pool, streams);
  }

  method ActCollect(pool: FragmentPool, streams: seq<XdrStream>, ghost g: Glance, ghost largest: nat)
      returns (a: Answer, ghost g': Glance)
    requires Shows(g, pool, streams, largest)
    modifies pool`freeList, pool`fragmentCount, pool`freeFragmentCount, pool`free
    ensures Shows(g', pool, streams, largest) && Happens(Collect, g, g', a, QUIET)
    ensures forall f :: f in All(pool, Set(streams)) ==> f in old(All(pool, Set(streams)))
  {
    hide World, Shows, FlowsShow, FragmentPool.Valid, FragmentPool.Reserve, Distinct, Look, XdrStream.Valid, XdrStream.Own, All, Set, Chains, GarbageCount;
    FlowAt(g, pool, streams, largest);
    ChainsSeen(g.flows, pool, streams);
    var sound := CollectAmong(pool, Set(streams));
    WorldOwns(pool, Set(streams));
    ShowsSeen(g.flows, pool, streams, largest);
    ChainsSeen(g.flows, pool, streams);
    a, g' := Answer(sound, [], 0, NoError), Seen(g.flows, pool, streams);
  }

  method ActControl(pool: FragmentPool, streams: seq<XdrStream>, move: Move, ghost g: Glance, ghost largest: nat, ghost largest': nat)
      returns (a: Answer, ghost g': Glance)
    requires Shows(g, pool, streams, largest) && largest' >= largest
    requires move.Control? && move.quota < UNSIGNED && move.quota <= largest'
    modifies pool`bufferSize, pool`quota, pool`watermark, pool`freePercentage, pool`ceiling
    ensures Shows(g', pool, streams, largest') && Happens(move, g, g', a, QUIET)
    ensures forall f :: f in All(pool, Set(streams)) ==> f in old(All(pool, Set(streams)))
  {
    hide World, Shows, FlowsShow, FragmentPool.Valid, FragmentPool.Reserve, Distinct, Look, XdrStream.Valid, XdrStream.Own, All, Set, Chains;
    FlowAt(g, pool, streams, largest);
    WorldOwns(pool, Set(streams));
    ChainsSeen(g.flows, pool, streams);
    var ok := ControlAmong(pool, Set(streams), move.size, move.quota, move.watermark, move.percentage);
    WorldOwns(pool, Set(streams));
    ShowsSeen(g.flows, pool, streams, largest');
    ChainsSeen(g.flows, pool, streams);
    a, g' := Answer(ok, [], 0, NoError), Seen(g.flows, pool, streams);
  }

  lemma InAll(pool: FragmentPool, streams: seq<XdrStream>, k: nat)
    requires k < |streams|
    ensures Members(streams[k].chain) <= All(pool, Set(streams)) && Members(pool.free) <= All(pool, Set(streams))
  {
  }

  lemma Apart(streams: seq<XdrStream>, i: nat, k: nat)
    requires Distinct(streams) && i < |streams| && k < |streams| && i != k
    ensures streams[i] != streams[k]
  {
  }

  lemma SetMember(streams: seq<XdrStream>, k: nat)
    requires k < |streams|
    ensures streams[k] in Set(streams)
  {
  }

  lemma SetMore(streams: seq<XdrStream>, s: XdrStream)
    requires Distinct(streams)
    ensures Set(streams + [s]) == Set(streams) + {s} && (s !in Set(streams) ==> Distinct(streams + [s]))
  {
  }

  lemma SetLess(streams: seq<XdrStream>, k: nat)
    requires Distinct(streams) && k < |streams|
    ensures Set(Removed(streams, k)) == Set(streams) - {streams[k]} && Distinct(Removed(streams, k))
  {
    RemovedAt(streams, k);
  }

  /** How it looks before the first move. */
  function Before(quota: nat): (g: Glance) {
    Glance([], DEFAULT_FRAGMENT_SIZE, quota, 0, 50, 0, 0, 0)
  }

  /** `trace` is how the world looked before and after each of the moves made; in every state
      fragments are conserved, and there are never more than the largest quota so far. */
  ghost predicate Traces(trace: seq<Glance>, quota: nat, moves: seq<Move>, answers: seq<Answer>, traffic: seq<Traffic>) {
    && |trace| == |answers| + 1 == |traffic| + 1 <= |moves| + 1
    && trace[0] == Before(quota)
    && (forall i :: 0 <= i < |answers| ==> Happens(moves[i], trace[i], trace[i + 1], answers[i], traffic[i]))
    && (forall i :: 0 <= i < |trace| ==> Conserves(trace[i], LargestQuota(quota, moves, i)))
  }

  predicate Conserves(g: Glance, largest: nat) {
    g.fragments == g.free + g.chains && g.fragments <= largest
  }

  lemma ShowsConserves(g: Glance, pool: FragmentPool, streams: seq<XdrStream>, largest: nat)
    requires Shows(g, pool, streams, largest)
    ensures Conserves(g, largest)
  {
    Conservation(pool, Set(streams));
  }

  lemma TracesMore(trace: seq<Glance>, quota: nat, moves: seq<Move>, answers: seq<Answer>, traffic: seq<Traffic>,
                   g: Glance, a: Answer, moved: Traffic)
    requires Traces(trace, quota, moves, answers, traffic) && |answers| < |moves|
    requires Happens(moves[|answers|], trace[|answers|], g, a, moved)
    requires Conserves(g, LargestQuota(quota, moves, |answers| + 1))
    ensures Traces(trace + [g], quota, moves, answers + [a], traffic + [moved])
  {
    hide Happens, Conserves;
    var t, i := trace + [g], |answers|;
    assert t[i] == trace[i] && t[i + 1] == g && (answers + [a])[i] == a && (traffic + [moved])[i] == moved;
    forall j | 0 <= j < i ensures Happens(moves[j], t[j], t[j + 1], (answers + [a])[j], (traffic + [moved])[j]) {
      assert t[j] == trace[j] && t[j + 1] == trace[j + 1];
    }
  }

  /** What the first `n` moves received from the file descriptor, and what they sent to it. */
  ghost function Incoming(moves: seq<Move>, traffic: seq<Traffic>, n: nat): (s: seq<byte>)
    requires n <= |moves| && n <= |traffic|
  {
    if n == 0 then []
    else Incoming(moves, traffic, n - 1) + if moves[n - 1].Ask? && moves[n - 1].step.ReadFromFd? then traffic[n - 1].bytes else []
  }

  ghost function Outgoing(moves: seq<Move>, traffic: seq<Traffic>, n: nat): (s: seq<byte>)
    requires n <= |moves| && n <= |traffic|
  {
    if n == 0 then []
    else Outgoing(moves, traffic, n - 1) + if moves[n - 1].Ask? && moves[n - 1].step.WriteToFd? then traffic[n - 1].bytes else []
  }

  /** The system calls of the first `n` moves. */
  ghost function Made(traffic: seq<Traffic>, n: nat): (calls: seq<Call>)
    requires n <= |traffic|
  {
    if n == 0 then [] else Made(traffic, n - 1) + traffic[n - 1].calls
  }

  lemma {:induction false} ThroughSame(moves: seq<Move>, traffic: seq<Traffic>, more: Traffic, n: nat)
    requires n <= |moves| && n <= |traffic|
    ensures Incoming(moves, traffic + [more], n) == Incoming(moves, traffic, n)
    ensures Outgoing(moves, traffic + [more], n) == Outgoing(moves, traffic, n)
    ensures Made(traffic + [more], n) == Made(traffic, n)
  {
    if n > 0 {
      ThroughSame(moves, traffic, more, n - 1);
    }
  }

  /** All that has passed through a file descriptor. */
  datatype Tape = Tape(received: seq<byte>, sent: seq<byte>, calls: seq<Call>)

  ghost function Record(fd: Channel): (t: Tape)
    reads fd
  {
    Tape(fd.received, fd.sent, fd.calls)
  }

  /** What the file descriptor has delivered and taken since is what the moves received and sent,
      and no other calls were made. */
  ghost predicate Through(moves: seq<Move>, traffic: seq<Traffic>, was: Tape, now: Tape) {
    var n := |traffic|;
    && n <= |moves|
    && now.received == was.received + Incoming(moves, traffic, n)
    && now.sent == was.sent + Outgoing(moves, traffic, n)
    && now.calls == was.calls + Made(traffic, n)
  }

  lemma ThroughNone(moves: seq<Move>, tape: Tape)
    ensures Through(moves, [], tape, tape)
  {
  }

  lemma ThroughMore(moves: seq<Move>, traffic: seq<Traffic>, more: Traffic, was: Tape, now: Tape, next: Tape)
    requires Through(moves, traffic, was, now) && |traffic| < |moves|
    requires var move := moves[|traffic|];
      next == Tape(now.received + (if move.Ask? && move.step.ReadFromFd? then more.bytes else []),
                   now.sent + (if move.Ask? && move.step.WriteToFd? then more.bytes else []), now.calls + more.calls)
    ensures Through(moves, traffic + [more], was, next)
  {
    ThroughSame(moves, traffic, more, |traffic|);
  }

  /** Every run from a new pool whose quota is set first. It stops only where garbage collection
      runs off the free list. */
  method Run(quota: nat, moves: seq<Move>, fd: Channel)
      returns (pool: FragmentPool, streams: seq<XdrStream>, answers: seq<Answer>, ghost trace: seq<Glance>, ghost traffic: seq<Traffic>)
    requires quota < UNSIGNED && WellTyped(moves)
    modifies fd
    ensures Traces(trace, quota, moves, answers, traffic)
    ensures Shows(trace[|answers|], pool, streams, LargestQuota(quota, moves, |answers|))
    ensures Through(moves, traffic, old(Record(fd)), Record(fd))
    ensures |answers| < |moves| ==> |answers| > 0 && moves[|answers| - 1].Collect? && !answers[|answers| - 1].ok
  {
    hide Shows, World, All, Set, LargestQuota, Happens, Traces, Conserves, Through;
    ghost var g;
    pool, streams, g := Begin(quota);
    answers, trace, traffic := [], [g], [];
    TraceStarts(quota, moves);
    ghost var was := Record(fd);
    ThroughNone(moves, was);
    var i, running := 0, true;
    while i < |moves| && running
      invariant 0 <= i <= |moves| && |answers| == |traffic| == i && |trace| == i + 1 && trace[i] == g
      invariant Shows(g, pool, streams, LargestQuota(quota, moves, i)) && Traces(trace, quota, moves, answers, traffic)
      invariant fresh(pool) && fresh(All(pool, Set(streams))) && fresh(Set(streams))
      invariant Through(moves, traffic, was, Record(fd))
      invariant !running ==> i > 0 && moves[i - 1].Collect? && !answers[i - 1].ok
    {
      QuotaStep(quota, moves, i);
      ghost var moved, now := QUIET, Record(fd);
      var a;
      streams, a, moved, g := Act(pool, streams, moves[i], fd, g, LargestQuota(quota, moves, i), LargestQuota(quota, moves, i + 1));
      ThroughMore(moves, traffic, moved, was, now, Record(fd));
      ShowsConserves(g, pool, streams, LargestQuota(quota, moves, i + 1));
      TracesMore(trace, quota, moves, answers, traffic, g, a, moved);
      answers, trace, traffic := answers + [a], trace + [g], traffic + [moved];
      running := a.ok || !moves[i].Collect?;
      i := i + 1;
    }
  }

  lemma TraceStarts(quota: nat, moves: seq<Move>)
    ensures LargestQuota(quota, moves, 0) == quota && Traces([Before(quota)], quota, moves, [], [])
  {
  }

  /** If the quota is never set again, there are never more fragments. */
  lemma WithinQuota(trace: seq<Glance>, quota: nat, moves: seq<Move>, answers: seq<Answer>, traffic: seq<Traffic>, i: nat)
    requires Traces(trace, quota, moves, answers, traffic) && i < |trace|
    requires forall j :: 0 <= j < i ==> !moves[j].Control?
    ensures trace[i].fragments <= quota
  {
    NeverSetAgain(quota, moves, i);
  }

  /** A new pool with its quota. */
  method Begin(quota: nat) returns (pool: FragmentPool, streams: seq<XdrStream>, ghost g: Glance)
    requires quota < UNSIGNED
    ensures fresh(pool) && Set(streams) == {} && All(pool, Set(streams)) == {}
    ensures Shows(g, pool, streams, quota) && g == Before(quota)
  {
    pool := new FragmentPool();
    streams := [];
    FirstWorld(pool);
    var _ := ControlAmong(pool, {}, pool.bufferSize, quota, 0, 50);
    assert Set(streams) == {};
    g := Seen([], pool, streams);
  }
}
