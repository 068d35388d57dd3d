/** What the connection manager keeps track of, as a value: its three lists, the item of
    each slot, the fd index, the fd sets and the counters. `Track` is the bookkeeping done
    for one io mode reported by a connection; the properties below hold in every state
    that `TrackAll`, `Add`, `Remove` and `Serve` can reach. */
module ConnectionState {
  import opened Sequences
  import opened Wrappers

  /** The io mode bits a connection reports to the manager. */
  datatype IoMode = IoMode(
    readable: bool,
    writeable: bool,
    attention: bool,
    dead: bool,
    needTimeout: bool,
    noFastWrite: bool,
    hadError: bool,
    hadTxError: bool,
    hadRxError: bool)

  const DORMANT := IoMode(false, false, false, false, false, false, false, false, false)

  /** One slot of the connection table. */
  datatype Item<C> = Item(con: Option<C>, fd: int, mode: IoMode, best: int)

  datatype State<!T, C> = State(
    active: seq<T>,
    serviceable: seq<T>,
    free: seq<T>,
    item: map<T, Item<C>>,
    index: map<int, T>,
    readable: set<int>,
    writeable: set<int>,
    serviceableCount: int,
    connectionCount: int,
    ioErrors: nat,
    rxErrors: nat,
    txErrors: nat)

  // ---------- the sorted timeout list ----------

  ghost predicate Sorted<T, C>(active: seq<T>, item: map<T, Item<C>>)
    requires forall x :: x in active ==> x in item
  {
    forall i, j :: 0 <= i < j < |active| ==> item[active[i]].best <= item[active[j]].best
  }

  /** Where the scan from the end of the list puts an entry due at `t`: behind the last
      entry that is not due later. */
  function Place<T, C>(active: seq<T>, item: map<T, Item<C>>, t: int): (k: nat)
    requires forall x :: x in active ==> x in item
    ensures k <= |active|
    ensures k > 0 ==> item[active[k - 1]].best <= t
    ensures forall i :: k <= i < |active| ==> item[active[i]].best > t
  {
    if active == [] || item[active[|active| - 1]].best <= t then |active|
    else Place(active[..|active| - 1], item, t)
  }

  lemma PlaceUnique<T, C>(active: seq<T>, item: map<T, Item<C>>, t: int, k: nat)
    requires forall x :: x in active ==> x in item
    requires k <= |active| && (k > 0 ==> item[active[k - 1]].best <= t)
    requires forall i :: k <= i < |active| ==> item[active[i]].best > t
    ensures k == Place(active, item, t)
  {
  }

  // ---------- tracking one io mode ----------

  /** Takes `x` off whatever list it is on. */
  function Unlink<T(==), C>(s: State<T, C>, x: T): (s': State<T, C>) {
    s.(active := Without(s.active, x), serviceable := Without(s.serviceable, x), free := Without(s.free, x))
  }

  function WithBit(bits: set<int>, fd: int, on: bool): (r: set<int>) {
    if on then bits + {fd} else bits - {fd}
  }

  /** A connection that wants attention goes to the front of the serviceable list. */
  function Attend<T(==), C>(s: State<T, C>, x: T, m: IoMode): (s': State<T, C>) {
    if m.attention then
      var u := Unlink(s, x);
      u.(serviceable := [x] + u.serviceable, serviceableCount := s.serviceableCount + 1)
    else s
  }

  /** A connection whose need for a timeout changes joins or leaves the timeout list. */
  function Supervise<T(==), C>(s: State<T, C>, x: T, last: IoMode, m: IoMode, due: int): (s': State<T, C>)
    requires ActiveKnown(s) && x in s.item
  {
    if m.needTimeout == last.needTimeout then s
    else if m.needTimeout then
      var u := Unlink(s, x).(item := s.item[x := s.item[x].(best := due)]);
      WithoutSubset(s.active, x);
      u.(active := Inserted(u.active, Place(u.active, u.item, due), x))
    else if m.attention then s
    else Unlink(s, x)
  }

  function CountErrors<T, C>(s: State<T, C>, m: IoMode): (s': State<T, C>) {
    s.(ioErrors := s.ioErrors + (if m.hadError then 1 else 0),
       rxErrors := s.rxErrors + (if m.hadRxError then 1 else 0),
       txErrors := s.txErrors + (if m.hadTxError then 1 else 0))
  }

  /** The bookkeeping for the io mode `m` reported by the connection in slot `x`; `due` is
      when it would time out. */
  function Track<T(==), C>(s: State<T, C>, x: T, m: IoMode, due: int): (s': State<T, C>)
    requires ActiveKnown(s) && x in s.item
  {
    var last, fd := s.item[x].mode, s.item[x].fd;
    WithoutSubset(s.active, x);
    var t := Supervise(Attend(s, x, m), x, last, m, due);
    CountErrors(
      t.(readable := if m.readable == last.readable then s.readable else WithBit(s.readable, fd, m.readable),
         writeable := if m.writeable == last.writeable then s.writeable else WithBit(s.writeable, fd, m.writeable),
         item := t.item[x := t.item[x].(mode := m)]), m)
  }

  /** Sending is tried at once when a connection becomes writeable, unless it objects. */
  predicate FastWrite(last: IoMode, m: IoMode) {
    m.writeable && !last.writeable && !m.noFastWrite
  }

  // ---------- invariants ----------

  ghost predicate ActiveKnown<T, C>(s: State<T, C>) {
    forall x :: x in s.active ==> x in s.item
  }

  /** The three lists hold known slots, each at most once, and no slot is on two of them. */
  ghost predicate ListsApart<T, C>(s: State<T, C>) {
    && Distinct(s.active) && Distinct(s.serviceable) && Distinct(s.free)
    && (forall x :: x in s.active ==> x in s.item && x !in s.serviceable && x !in s.free)
    && (forall x :: x in s.serviceable ==> x in s.item && x !in s.free)
    && (forall x :: x in s.free ==> x in s.item)
  }

  /** Every slot on the timeout list holds a connection whose last io mode asks for a timeout,
      and the list is sorted by due time. */
  ghost predicate TimeoutsSorted<T, C>(s: State<T, C>) {
    && (forall x :: x in s.active ==> x in s.item && s.item[x].con.Some? && s.item[x].mode.needTimeout)
    && Sorted(s.active, s.item)
  }

  /** The free list is exactly the empty slots; the fd index is exactly the others. */
  ghost predicate IndexExact<T, C>(s: State<T, C>) {
    && (forall x :: x in s.item ==> (s.item[x].con.None? <==> x in s.free))
    && (forall x :: x in s.item && s.item[x].con.Some? ==>
          s.item[x].fd in s.index && s.index[s.item[x].fd] == x)
    && (forall fd :: fd in s.index ==>
          s.index[fd] in s.item && s.item[s.index[fd]].con.Some? && s.item[s.index[fd]].fd == fd)
  }

  /** The fd sets mirror the last io modes of the registered connections. */
  ghost predicate SetsMirror<T, C>(s: State<T, C>) {
    && (forall fd :: fd in s.index ==> s.index[fd] in s.item)
    && (forall fd :: fd in s.readable <==> fd in s.index && s.item[s.index[fd]].mode.readable)
    && (forall fd :: fd in s.writeable <==> fd in s.index && s.item[s.index[fd]].mode.writeable)
  }

  ghost predicate Inv<T, C>(s: State<T, C>) {
    && ListsApart(s)
    && TimeoutsSorted(s)
    && IndexExact(s)
    && SetsMirror(s)
    && s.serviceableCount >= |s.serviceable|
  }

  lemma InvParts<T, C>(s: State<T, C>)
    requires Inv(s)
    ensures ListsApart(s) && ActiveKnown(s)
    ensures forall x :: x in s.active ==> s.item[x].con.Some? && s.item[x].mode.needTimeout
  {
  }

  lemma InvSorted<T, C>(s: State<T, C>)
    requires Inv(s)
    ensures ActiveKnown(s) && Sorted(s.active, s.item)
  {
  }

  lemma AttendActive<T, C>(s: State<T, C>, x: T, m: IoMode)
    ensures forall y :: y in Attend(s, x, m).active ==> y in s.active
    ensures Attend(s, x, m).item == s.item
  {
  }

  lemma WithoutSubset<T>(s: seq<T>, x: T)
    ensures forall y :: y in Without(s, x) ==> y in s
  {
  }

  lemma UnlinkKeepsApart<T, C>(s: State<T, C>, x: T)
    requires ListsApart(s)
    ensures ListsApart(Unlink(s, x))
    ensures var u := Unlink(s, x); x !in u.active && x !in u.serviceable && x !in u.free
  {
    WithoutMembers(s.active, x);
    WithoutMembers(s.serviceable, x);
    WithoutMembers(s.free, x);
  }

  lemma UnlinkMembers<T, C>(s: State<T, C>, x: T, y: T)
    requires ListsApart(s)
    ensures y in Unlink(s, x).active <==> y in s.active && y != x
    ensures y in Unlink(s, x).serviceable <==> y in s.serviceable && y != x
    ensures y in Unlink(s, x).free <==> y in s.free && y != x
  {
    WithoutMembers(s.active, x);
    WithoutMembers(s.serviceable, x);
    WithoutMembers(s.free, x);
  }

  lemma AttendKeepsApart<T, C>(s: State<T, C>, x: T, m: IoMode)
    requires ListsApart(s) && x in s.item
    ensures ListsApart(Attend(s, x, m))
  {
    UnlinkKeepsApart(s, x);
    var u := Unlink(s, x);
    assert m.attention ==> Attend(s, x, m).serviceable == Inserted(u.serviceable, 0, x);
    InsertedMembers(u.serviceable, 0, x);
  }

  lemma SuperviseKeepsApart<T, C>(s: State<T, C>, x: T, last: IoMode, m: IoMode, due: int)
    requires ListsApart(s) && x in s.item
    ensures ListsApart(Supervise(s, x, last, m, due))
  {
    UnlinkKeepsApart(s, x);
    if m.needTimeout && !last.needTimeout {
      var u := Unlink(s, x).(item := s.item[x := s.item[x].(best := due)]);
      InsertedMembers(u.active, Place(u.active, u.item, due), x);
    }
  }

  lemma TrackKeepsApart<T, C>(s: State<T, C>, x: T, m: IoMode, due: int)
    requires ListsApart(s) && x in s.item
    ensures ListsApart(Track(s, x, m, due))
  {
    AttendKeepsApart(s, x, m);
    var last := s.item[x].mode;
    var s1 := Attend(s, x, m);
    SuperviseKeepsApart(s1, x, last, m, due);
  }

  lemma WithoutSorted<T, C>(active: seq<T>, item: map<T, Item<C>>, x: T)
    requires forall y :: y in active ==> y in item
    requires Sorted(active, item)
    ensures forall y :: y in Without(active, x) ==> y in item
    ensures Sorted(Without(active, x), item)
  {
  }

  lemma InsertedSorted<T, C>(active: seq<T>, item: map<T, Item<C>>, x: T)
    requires forall y :: y in active ==> y in item
    requires Sorted(active, item) && x in item
    ensures var q := Inserted(active, Place(active, item, item[x].best), x);
      (forall y :: y in q ==> y in item) && Sorted(q, item)
  {
    var k := Place(active, item, item[x].best);
    var q := Inserted(active, k, x);
    forall y | y in q ensures y in item { }
    forall i, j | 0 <= i < j < |q| ensures item[q[i]].best <= item[q[j]].best {
      if i == k {
        assert item[active[j - 1]].best > item[x].best;
      } else if j == k {
        assert i < k - 1 ==> item[active[i]].best <= item[active[k - 1]].best;
      }
    }
  }

  lemma SuperviseKeepsSorted<T, C>(s: State<T, C>, x: T, last: IoMode, m: IoMode, due: int)
    requires ListsApart(s) && x in s.item && Sorted(s.active, s.item)
    ensures ActiveKnown(Supervise(s, x, last, m, due))
    ensures Sorted(Supervise(s, x, last, m, due).active, Supervise(s, x, last, m, due).item)
  {
    hide Inserted, Place;
    WithoutSorted(s.active, s.item, x);
    WithoutMembers(s.active, x);
    if m.needTimeout && !last.needTimeout {
      hide Without;
      InsertedSorted(Without(s.active, x), s.item[x := s.item[x].(best := due)], x);
    }
  }

  /** Which slots are under timeout supervision after a step: the slot itself if its mode asks
      for a timeout and either it did not before, or it was and is not called to attention now;
      all other slots as before. */
  lemma TrackActive<T, C>(s: State<T, C>, x: T, m: IoMode, due: int)
    requires ListsApart(s) && x in s.item
    ensures forall y :: y in Track(s, x, m, due).active <==>
      if y == x then
        || (m.needTimeout && !s.item[x].mode.needTimeout)
        || (x in s.active && m.needTimeout == s.item[x].mode.needTimeout && !m.attention)
      else y in s.active
  {
    UnlinkKeepsApart(s, x);
    AttendKeepsApart(s, x, m);
    var a := Attend(s, x, m);
    UnlinkKeepsApart(a, x);
    WithoutMembers(s.active, x);
    WithoutMembers(a.active, x);
    var u := Unlink(a, x).(item := a.item[x := a.item[x].(best := due)]);
    InsertedMembers(u.active, Place(u.active, u.item, due), x);
  }

  /** Which slots wait to be served after a step: attention puts the slot on the list, but a
      newly needed timeout takes it away again, as does a timeout no longer needed. */
  lemma TrackServiceable<T, C>(s: State<T, C>, x: T, m: IoMode, due: int)
    requires ListsApart(s) && x in s.item
    ensures forall y :: y in Track(s, x, m, due).serviceable <==>
      if y == x then
        || (m.attention && !(m.needTimeout && !s.item[x].mode.needTimeout))
        || (x in s.serviceable && m.needTimeout == s.item[x].mode.needTimeout)
      else y in s.serviceable
  {
    UnlinkKeepsApart(s, x);
    AttendKeepsApart(s, x, m);
    var a := Attend(s, x, m);
    WithoutMembers(s.serviceable, x);
    WithoutMembers(a.serviceable, x);
    assert m.attention ==> a.serviceable == Inserted(Without(s.serviceable, x), 0, x);
    InsertedMembers(Without(s.serviceable, x), 0, x);
  }

  /** What a step leaves of slot contents, fd index and fd sets. */
  ghost predicate Moded<T, C>(s: State<T, C>, x: T, m: IoMode, t: State<T, C>)
    requires x in s.item
  {
    && t.item.Keys == s.item.Keys
    && t.index == s.index
    && (forall y :: y in s.item ==> t.item[y].con == s.item[y].con && t.item[y].fd == s.item[y].fd)
    && (forall y :: y in s.item && y != x ==> t.item[y].mode == s.item[y].mode && t.item[y].best == s.item[y].best)
    && t.item[x].mode == m
    && (forall fd :: fd in t.readable <==> if fd == s.item[x].fd && m.readable != s.item[x].mode.readable then m.readable else fd in s.readable)
    && (forall fd :: fd in t.writeable <==> if fd == s.item[x].fd && m.writeable != s.item[x].mode.writeable then m.writeable else fd in s.writeable)
  }

  lemma TrackModed<T, C>(s: State<T, C>, x: T, m: IoMode, due: int)
    requires ActiveKnown(s) && x in s.item
    ensures Moded(s, x, m, Track(s, x, m, due))
  {
    hide Track, Supervise, Attend;
    TrackSlots(s, x, m, due);
    SlotsModed(s, x, m, Track(s, x, m, due));
  }

  lemma SlotsModed<T, C>(s: State<T, C>, x: T, m: IoMode, t: State<T, C>)
    requires x in s.item && x in t.item && t.index == s.index
    requires t.item == s.item[x := s.item[x].(mode := m, best := t.item[x].best)]
    requires t.readable == if m.readable == s.item[x].mode.readable then s.readable else WithBit(s.readable, s.item[x].fd, m.readable)
    requires t.writeable == if m.writeable == s.item[x].mode.writeable then s.writeable else WithBit(s.writeable, s.item[x].fd, m.writeable)
    ensures Moded(s, x, m, t)
  {
  }

  lemma AttendRest<T, C>(s: State<T, C>, x: T, m: IoMode)
    ensures var t := Attend(s, x, m);
      t == s.(active := t.active, serviceable := t.serviceable, free := t.free,
              serviceableCount := s.serviceableCount + if m.attention then 1 else 0)
  {
    hide Without;
  }

  lemma SuperviseRest<T, C>(s: State<T, C>, x: T, last: IoMode, m: IoMode, due: int)
    requires ActiveKnown(s) && x in s.item
    ensures var t := Supervise(s, x, last, m, due);
      t == s.(active := t.active, serviceable := t.serviceable, free := t.free,
              item := s.item[x := s.item[x].(best := if m.needTimeout && !last.needTimeout then due else s.item[x].best)])
  {
    hide Without, Inserted, Place;
    WithoutSubset(s.active, x);
  }

  /** What a step writes into the slots, the fd sets and the counters. */
  lemma TrackSlots<T, C>(s: State<T, C>, x: T, m: IoMode, due: int)
    requires ActiveKnown(s) && x in s.item
    ensures var t := Track(s, x, m, due); var last := s.item[x].mode;
      && t.item == s.item[x := s.item[x].(mode := m, best := if m.needTimeout && !last.needTimeout then due else s.item[x].best)]
      && t.readable == (if m.readable == last.readable then s.readable else WithBit(s.readable, s.item[x].fd, m.readable))
      && t.writeable == (if m.writeable == last.writeable then s.writeable else WithBit(s.writeable, s.item[x].fd, m.writeable))
      && t.serviceableCount == s.serviceableCount + (if m.attention then 1 else 0)
      && t.connectionCount == s.connectionCount && t.index == s.index
      && t.ioErrors == s.ioErrors + (if m.hadError then 1 else 0)
      && t.rxErrors == s.rxErrors + (if m.hadRxError then 1 else 0)
      && t.txErrors == s.txErrors + (if m.hadTxError then 1 else 0)
  {
    hide Attend, Supervise;
    AttendRest(s, x, m);
    AttendActive(s, x, m);
    SuperviseRest(Attend(s, x, m), x, s.item[x].mode, m, due);
  }

  lemma ModedMirrors<T, C>(s: State<T, C>, x: T, m: IoMode, t: State<T, C>)
    requires x in s.item && s.item[x].con.Some? && IndexExact(s) && SetsMirror(s)
    requires Moded(s, x, m, t)
    ensures SetsMirror(t)
  {
  }

  lemma ModedIndexed<T, C>(s: State<T, C>, x: T, m: IoMode, t: State<T, C>)
    requires x in s.item && s.item[x].con.Some? && IndexExact(s)
    requires Moded(s, x, m, t) && forall y :: y in t.free <==> y in s.free
    ensures IndexExact(t)
  {
  }

  lemma TrackKeepsFree<T, C>(s: State<T, C>, x: T, m: IoMode, due: int)
    requires ActiveKnown(s) && x in s.item && x !in s.free
    ensures Track(s, x, m, due).free == s.free
  {
  }

  lemma TrackKeepsSorted<T, C>(s: State<T, C>, x: T, m: IoMode, due: int)
    requires ListsApart(s) && x in s.item && Sorted(s.active, s.item)
    ensures ListsApart(Track(s, x, m, due)) && Sorted(Track(s, x, m, due).active, Track(s, x, m, due).item)
  {
    TrackKeepsApart(s, x, m, due);
    AttendKeepsApart(s, x, m);
    WithoutSorted(s.active, s.item, x);
    SuperviseKeepsSorted(Attend(s, x, m), x, s.item[x].mode, m, due);
  }

  lemma TrackKeepsTimeouts<T, C>(s: State<T, C>, x: T, m: IoMode, due: int)
    requires ListsApart(s) && TimeoutsSorted(s) && x in s.item && s.item[x].con.Some?
    ensures TimeoutsSorted(Track(s, x, m, due))
  {
    TrackKeepsSorted(s, x, m, due);
    TrackActive(s, x, m, due);
    TrackModed(s, x, m, due);
  }

  lemma TrackKeepsCount<T, C>(s: State<T, C>, x: T, m: IoMode, due: int)
    requires ListsApart(s) && x in s.item && s.serviceableCount >= |s.serviceable|
    ensures Track(s, x, m, due).serviceableCount >= |Track(s, x, m, due).serviceable|
  {
    WithoutMembers(s.serviceable, x);
    AttendKeepsApart(s, x, m);
    WithoutMembers(Attend(s, x, m).serviceable, x);
  }

  /** One round of tracking keeps every invariant. */
  lemma TrackKeepsInv<T, C>(s: State<T, C>, x: T, m: IoMode, due: int)
    requires Inv(s) && x in s.item && s.item[x].con.Some?
    ensures Inv(Track(s, x, m, due))
    ensures Track(s, x, m, due).connectionCount == s.connectionCount
  {
    var t := Track(s, x, m, due);
    TrackKeepsApart(s, x, m, due);
    TrackKeepsTimeouts(s, x, m, due);
    TrackKeepsFree(s, x, m, due);
    TrackModed(s, x, m, due);
    ModedMirrors(s, x, m, t);
    ModedIndexed(s, x, m, t);
    TrackKeepsCount(s, x, m, due);
  }

  // ---------- the manager's operations ----------

  /** What a connection answers when it is tracked: its io mode, timeout and due time, and the same
      for the sending that a fast write tries at once. */
  datatype Report = Report(mode: IoMode, span: int, due: int, sent: IoMode, sentSpan: int, sentDue: int)

  const NO_REPORT := Report(DORMANT, 0, 0, DORMANT, 0, 0)

  /** The due times lie a timeout after some time from `early` to `late`. */
  predicate Dated(r: Report, early: int, late: int) {
    && early + r.span <= r.due <= late + r.span
    && early + r.sentSpan <= r.sentDue <= late + r.sentSpan
  }

  /** No report, at a time. */
  function Unasked(now: int): (r: Report)
    ensures Dated(r, now, now) && r.due > now && r.sentDue > now
  {
    Report(DORMANT, 1, now + 1, DORMANT, 1, now + 1)
  }

  lemma DatedWithin(r: Report, early: int, late: int, earlier: int, later: int)
    requires Dated(r, early, late) && earlier <= early && late <= later
    ensures Dated(r, earlier, later)
  {
  }

  /** Tracking with the fast write: sending reports a second io mode, tracked in turn. */
  function TrackAll<T(==), C>(s: State<T, C>, x: T, r: Report): (s': State<T, C>)
    requires ListsApart(s) && x in s.item
  {
    var t := Track(s, x, r.mode, r.due);
    TrackKeepsApart(s, x, r.mode, r.due);
    if FastWrite(s.item[x].mode, r.mode) then Track(t, x, r.sent, r.sentDue) else t
  }

  lemma TrackAllKeepsApart<T, C>(s: State<T, C>, x: T, r: Report)
    requires ListsApart(s) && x in s.item
    ensures var t := TrackAll(s, x, r);
      ListsApart(t) && t.item.Keys == s.item.Keys && t.index == s.index && t.connectionCount == s.connectionCount
  {
    hide Track;
    TrackKeepsApart(s, x, r.mode, r.due);
    TrackSlots(s, x, r.mode, r.due);
    var t := Track(s, x, r.mode, r.due);
    TrackKeepsApart(t, x, r.sent, r.sentDue);
    TrackSlots(t, x, r.sent, r.sentDue);
  }

  /** Fills the empty slot `x` with a connection. */
  function Occupy<T(==), C>(s: State<T, C>, x: T, fd: int, con: C): (s': State<T, C>)
    requires x in s.item
  {
    s.(free := Without(s.free, x),
       item := s.item[x := Item(Some(con), fd, DORMANT, s.item[x].best)],
       index := s.index[fd := x])
  }

  function Add<T(==), C>(s: State<T, C>, fd: int, con: C, r: Report): (s': State<T, C>)
    requires ListsApart(s) && s.free != []
  {
    var x := s.free[0];
    var o := Occupy(s, x, fd, con);
    WithoutMembers(s.free, x);
    var t := TrackAll(o, x, r);
    t.(connectionCount := t.connectionCount + 1)
  }

  function Remove<T(==), C>(s: State<T, C>, fd: int): (s': State<T, C>)
    requires fd in s.index && s.index[fd] in s.item
  {
    var x := s.index[fd];
    var u := Unlink(s, x);
    u.(free := [x] + u.free,
       item := s.item[x := s.item[x].(con := None)],
       index := s.index - {fd},
       readable := s.readable - {fd},
       writeable := s.writeable - {fd},
       connectionCount := s.connectionCount - 1)
  }

  function Serve<T(==), C>(s: State<T, C>): (s': State<T, C>)
    requires s.serviceable != []
  {
    s.(serviceable := s.serviceable[1..], serviceableCount := s.serviceableCount - 1)
  }

  /** Following an io mode to its end: a dead connection is removed if that is allowed, and
      tracked again after being reset if not. */
  function Handled<T(==), C>(s: State<T, C>, x: T, fd: int, r: Report, destroy: bool, again: Report): (s': State<T, C>)
    requires ListsApart(s) && x in s.item && fd in s.index && s.index[fd] == x
  {
    TrackAllKeepsApart(s, x, r);
    var t := TrackAll(s, x, r);
    if !r.mode.dead then t
    else if destroy then Remove(t, fd)
    else TrackAll(t, x, again)
  }

  /** The manager as its constructor leaves it: `slots` are all empty. */
  function Empty<T(==), C>(slots: seq<T>): (s: State<T, C>) {
    State([], [], slots, map x | x in slots :: Item(None, -1, DORMANT, 0), map[], {}, {}, 0, 0, 0, 0, 0)
  }

  /** What holds between any two operations. */
  ghost predicate Coherent<T, C>(s: State<T, C>) {
    Inv(s) && s.connectionCount == |s.index|
  }

  lemma EmptyCoherent<T, C>(slots: seq<T>)
    requires Distinct(slots)
    ensures Coherent(Empty<T, C>(slots))
  {
  }

  lemma TrackAllKeepsInv<T, C>(s: State<T, C>, x: T, r: Report)
    requires Inv(s) && x in s.item && s.item[x].con.Some?
    ensures Inv(TrackAll(s, x, r))
    ensures TrackAll(s, x, r).index == s.index && TrackAll(s, x, r).connectionCount == s.connectionCount
    ensures TrackAll(s, x, r).item.Keys == s.item.Keys
  {
    hide Track;
    TrackKeepsInv(s, x, r.mode, r.due);
    TrackModed(s, x, r.mode, r.due);
    if FastWrite(s.item[x].mode, r.mode) {
      var t := Track(s, x, r.mode, r.due);
      TrackKeepsInv(t, x, r.sent, r.sentDue);
      TrackModed(t, x, r.sent, r.sentDue);
    }
  }

  /** The mode left behind by a fast write can not ask for another one: whatever sending
      reports, tracking it ends there. */
  lemma FastWriteOnce<T, C>(s: State<T, C>, x: T, r: Report)
    requires ListsApart(s) && x in s.item && FastWrite(s.item[x].mode, r.mode)
    ensures !FastWrite(Track(s, x, r.mode, r.due).item[x].mode, r.sent)
  {
    TrackModed(s, x, r.mode, r.due);
  }

  lemma OccupyKeepsLists<T, C>(s: State<T, C>, x: T, fd: int, con: C)
    requires Inv(s) && x in s.free
    ensures ListsApart(Occupy(s, x, fd, con)) && TimeoutsSorted(Occupy(s, x, fd, con))
  {
    WithoutMembers(s.free, x);
    var o := Occupy(s, x, fd, con);
    forall y | y in s.active ensures o.item[y] == s.item[y] { }
  }

  lemma OccupyKeepsIndex<T, C>(s: State<T, C>, x: T, fd: int, con: C)
    requires Inv(s) && x in s.free && fd !in s.index
    ensures IndexExact(Occupy(s, x, fd, con)) && SetsMirror(Occupy(s, x, fd, con))
  {
    WithoutMembers(s.free, x);
  }

  lemma OccupyKeepsInv<T, C>(s: State<T, C>, x: T, fd: int, con: C)
    requires Inv(s) && x in s.free && fd !in s.index
    ensures Inv(Occupy(s, x, fd, con))
  {
    OccupyKeepsLists(s, x, fd, con);
    OccupyKeepsIndex(s, x, fd, con);
  }

  lemma AddKeepsCoherent<T, C>(s: State<T, C>, fd: int, con: C, r: Report)
    requires Coherent(s) && s.free != [] && fd !in s.index
    ensures Coherent(Add(s, fd, con, r))
    ensures Add(s, fd, con, r).index == s.index[fd := s.free[0]]
    ensures Add(s, fd, con, r).item.Keys == s.item.Keys
  {
    hide TrackAll, Inv;
    InvParts(s);
    var x := s.free[0];
    assert x in s.free;
    var o := Occupy(s, x, fd, con);
    OccupyKeepsInv(s, x, fd, con);
    InvParts(o);
    hide ListsApart;
    TrackAllKeepsInv(o, x, r);
    CountKeepsInv(TrackAll(o, x, r), s.connectionCount + 1);
  }

  lemma CountKeepsInv<T, C>(s: State<T, C>, n: int)
    ensures Inv(s) ==> Inv(s.(connectionCount := n))
  {
  }

  lemma AddCounts<T, C>(s: State<T, C>, fd: int, con: C, r: Report, t: State<T, C>)
    requires Coherent(s) && s.free != [] && fd !in s.index
    requires ListsApart(Occupy(s, s.free[0], fd, con)) && t == TrackAll(Occupy(s, s.free[0], fd, con), s.free[0], r)
    ensures Add(s, fd, con, r) == t.(connectionCount := t.connectionCount + 1)
    ensures Coherent(Add(s, fd, con, r)) && t.connectionCount + 1 == |t.index| && t.index == s.index[fd := s.free[0]]
  {
    hide TrackAll, Inv;
    AddKeepsCoherent(s, fd, con, r);
  }

  lemma IndexedSlot<T, C>(s: State<T, C>, fd: int)
    requires Inv(s) && fd in s.index
    ensures var x := s.index[fd]; x in s.item && s.item[x].con.Some? && s.item[x].fd == fd
  {
  }

  /** What removing the connection at `fd` writes into the slots, the index, the sets and counters. */
  lemma RemoveRest<T, C>(s: State<T, C>, fd: int)
    requires fd in s.index && s.index[fd] in s.item
    ensures var x := s.index[fd]; var t := Remove(s, fd);
      t == s.(active := t.active, serviceable := t.serviceable, free := t.free,
              item := s.item[x := s.item[x].(con := None)], index := s.index - {fd},
              readable := s.readable - {fd}, writeable := s.writeable - {fd}, connectionCount := s.connectionCount - 1)
  {
  }

  lemma RemoveKeepsApart<T, C>(s: State<T, C>, fd: int)
    requires Inv(s) && fd in s.index
    ensures ListsApart(Remove(s, fd))
    ensures forall y :: y in Remove(s, fd).free <==> y in s.free || y == s.index[fd]
  {
    var x := s.index[fd];
    UnlinkKeepsApart(s, x);
    var u := Unlink(s, x);
    WithoutMembers(s.free, x);
    assert [x] + u.free == Inserted(u.free, 0, x);
    InsertedMembers(u.free, 0, x);
  }

  lemma RemoveKeepsCoherent<T, C>(s: State<T, C>, fd: int)
    requires Coherent(s) && fd in s.index
    ensures Coherent(Remove(s, fd))
    ensures Remove(s, fd).item.Keys == s.item.Keys
  {
    RemoveKeepsApart(s, fd);
    RemoveRest(s, fd);
    RemoveKeepsLists(s, fd);
    RemoveKeepsIndex(s, fd);
    RemoveKeepsSets(s, fd);
    hide Remove, ListsApart, TimeoutsSorted, IndexExact, SetsMirror;
    assert s.index.Keys == Remove(s, fd).index.Keys + {fd};
  }

  lemma RemoveKeepsIndex<T, C>(s: State<T, C>, fd: int)
    requires Inv(s) && fd in s.index
    ensures IndexExact(Remove(s, fd))
  {
    RemoveKeepsApart(s, fd);
    RemoveRest(s, fd);
    hide Remove, ListsApart, TimeoutsSorted, SetsMirror;
  }

  lemma RemoveKeepsSets<T, C>(s: State<T, C>, fd: int)
    requires Inv(s) && fd in s.index
    ensures SetsMirror(Remove(s, fd))
  {
    RemoveRest(s, fd);
    hide Remove, ListsApart, TimeoutsSorted;
  }

  lemma RemoveKeepsLists<T, C>(s: State<T, C>, fd: int)
    requires Inv(s) && fd in s.index
    ensures TimeoutsSorted(Remove(s, fd)) && |Remove(s, fd).serviceable| <= |s.serviceable|
  {
    var x := s.index[fd];
    WithoutMembers(s.active, x);
    WithoutMembers(s.serviceable, x);
    WithoutSorted(s.active, s.item, x);
    hide Without;
  }

  lemma ServeKeepsCoherent<T, C>(s: State<T, C>)
    requires Coherent(s) && s.serviceable != []
    ensures Coherent(Serve(s))
  {
    var t := Serve(s);
    assert forall y :: y in t.serviceable ==> y in s.serviceable;
  }

  lemma TrackAllKeepsCoherent<T, C>(s: State<T, C>, x: T, r: Report)
    requires Coherent(s) && x in s.item && s.item[x].con.Some?
    ensures Coherent(TrackAll(s, x, r))
    ensures TrackAll(s, x, r).item.Keys == s.item.Keys && TrackAll(s, x, r).index == s.index
    ensures TrackAll(s, x, r).item[x].con == s.item[x].con && TrackAll(s, x, r).item[x].fd == s.item[x].fd
  {
    hide Track;
    TrackAllKeepsInv(s, x, r);
    TrackSlots(s, x, r.mode, r.due);
    var t := Track(s, x, r.mode, r.due);
    TrackKeepsApart(s, x, r.mode, r.due);
    TrackSlots(t, x, r.sent, r.sentDue);
  }

  lemma HandledKeepsCoherent<T, C>(s: State<T, C>, fd: int, r: Report, destroy: bool, again: Report)
    requires Coherent(s) && fd in s.index
    ensures s.index[fd] in s.item && Coherent(Handled(s, s.index[fd], fd, r, destroy, again))
  {
    hide TrackAll, Remove, Inv;
    IndexedSlot(s, fd);
    InvParts(s);
    var x := s.index[fd];
    TrackAllKeepsCoherent(s, x, r);
    var t := TrackAll(s, x, r);
    if r.mode.dead {
      if destroy { RemoveKeepsCoherent(t, fd); } else { TrackAllKeepsCoherent(t, x, again); }
    }
  }

  /** Tracking an io mode concerns one slot, where the mode is remembered, or that which sending
      at once has reported. */
  lemma TrackAllSlots<T, C>(s: State<T, C>, x: T, r: Report)
    requires ListsApart(s) && x in s.item
    ensures var t := TrackAll(s, x, r);
      && t.item.Keys == s.item.Keys && (forall y :: y in s.item && y != x ==> t.item[y] == s.item[y])
      && t.item[x].con == s.item[x].con && t.item[x].fd == s.item[x].fd
      && t.item[x].mode == if FastWrite(s.item[x].mode, r.mode) then r.sent else r.mode
  {
    hide Track;
    TrackKeepsApart(s, x, r.mode, r.due);
    TrackSlots(s, x, r.mode, r.due);
    TrackSlots(Track(s, x, r.mode, r.due), x, r.sent, r.sentDue);
  }

  /** So does handling an answer to its end. */
  lemma HandledSlots<T, C>(s: State<T, C>, x: T, fd: int, r: Report, destroy: bool, again: Report)
    requires ListsApart(s) && x in s.item && fd in s.index && s.index[fd] == x
    ensures var t := Handled(s, x, fd, r, destroy, again);
      t.item.Keys == s.item.Keys && forall y :: y in s.item && y != x ==> t.item[y] == s.item[y]
  {
    hide TrackAll;
    TrackAllKeepsApart(s, x, r);
    TrackAllSlots(s, x, r);
    TrackAllSlots(TrackAll(s, x, r), x, again);
  }

  /** A connection just called to attention is served next, before those that have waited longer,
      which keep their order. */
  lemma LastCalledFirst<T, C>(s: State<T, C>, x: T, m: IoMode, due: int)
    requires ListsApart(s) && x in s.item && m.attention && (m.needTimeout ==> s.item[x].mode.needTimeout)
    ensures Track(s, x, m, due).serviceable == [x] + Without(s.serviceable, x)
    ensures Serve(Track(s, x, m, due)).serviceable == Without(s.serviceable, x)
  {
    WithoutMembers(s.serviceable, x);
  }

  /** Sending is tried at once exactly when the fd enters the set of those to be written to, and the
      connection does not object. */
  lemma FastWriteExactly<T, C>(s: State<T, C>, x: T, m: IoMode, due: int)
    requires Inv(s) && x in s.item && s.item[x].con.Some?
    ensures var fd := s.item[x].fd;
      FastWrite(s.item[x].mode, m) <==> fd !in s.writeable && fd in Track(s, x, m, due).writeable && !m.noFastWrite
  {
    InvParts(s);
    TrackSlots(s, x, m, due);
    hide Track;
  }

  /** After an answer has been handled, the slot remembers the last io mode that was reported: that
      of the reset if the connection was dead and could not be destroyed; and what was destroyed
      leaves an empty slot, which is used next. */
  lemma HandledMode<T, C>(s: State<T, C>, x: T, fd: int, r: Report, destroy: bool, again: Report)
    requires ListsApart(s) && x in s.item && fd in s.index && s.index[fd] == x
    ensures var t := Handled(s, x, fd, r, destroy, again);
      var first := if FastWrite(s.item[x].mode, r.mode) then r.sent else r.mode;
      && x in t.item
      && (!r.mode.dead ==> t.item[x].mode == first && t.item[x].con == s.item[x].con)
      && (r.mode.dead && !destroy ==>
            t.item[x].mode == (if FastWrite(first, again.mode) then again.sent else again.mode) && t.item[x].con == s.item[x].con)
      && (r.mode.dead && destroy ==>
            && t.item[x].con == None && t.free != [] && t.free[0] == x && x !in t.active && x !in t.serviceable
            && fd !in t.readable && fd !in t.writeable)
  {
    hide Track;
    TrackAllKeepsApart(s, x, r);
    TrackAllSlots(s, x, r);
    var t := TrackAll(s, x, r);
    TrackAllSlots(t, x, again);
    hide TrackAll;
    WithoutMembers(t.active, x);
    WithoutMembers(t.serviceable, x);
  }

  /** A connection added takes the first free slot, and no other slot changes. */
  lemma AddedSlot<T, C>(s: State<T, C>, fd: int, con: C, r: Report)
    requires Inv(s) && s.free != []
    ensures var x, t := s.free[0], Add(s, fd, con, r);
      && x in s.item && x in t.item && t.item[x].con == Some(con) && t.item[x].fd == fd
      && t.item[x].mode == (if FastWrite(DORMANT, r.mode) then r.sent else r.mode)
      && forall y :: y in s.item && y != x ==> y in t.item && t.item[y] == s.item[y]
  {
    InvParts(s);
    var x := s.free[0];
    assert x in s.free;
    OccupyKeepsLists(s, x, fd, con);
    TrackAllSlots(Occupy(s, x, fd, con), x, r);
    hide TrackAll;
  }

  lemma HandledIndex<T, C>(s: State<T, C>, x: T, fd: int, r: Report, destroy: bool, again: Report)
    requires ListsApart(s) && x in s.item && fd in s.index && s.index[fd] == x
    ensures Handled(s, x, fd, r, destroy, again).index == if r.mode.dead && destroy then s.index - {fd} else s.index
  {
    hide TrackAll;
    TrackAllKeepsApart(s, x, r);
    TrackAllKeepsApart(TrackAll(s, x, r), x, again);
  }

  // ---------- all runs ----------

  datatype Op<T, C> =
    | Tracked(x: T, report: Report)
    | Added(fd: int, con: C, report: Report)
    | RemovedFd(fd: int)
    | Served

  ghost predicate Enabled<T, C>(s: State<T, C>, op: Op<T, C>) {
    match op
    case Tracked(x, _) => x in s.item && s.item[x].con.Some?
    case Added(fd, _, _) => fd !in s.index && s.free != []
    case RemovedFd(fd) => fd in s.index
    case Served => s.serviceable != []
  }

  ghost function Apply<T, C>(s: State<T, C>, op: Op<T, C>): (s': State<T, C>)
    requires Coherent(s) && Enabled(s, op)
  {
    match op
    case Tracked(x, r) => TrackAll(s, x, r)
    case Added(fd, con, r) => Add(s, fd, con, r)
    case RemovedFd(fd) => Remove(s, fd)
    case Served => Serve(s)
  }

  lemma ApplyKeepsCoherent<T, C>(s: State<T, C>, op: Op<T, C>)
    requires Coherent(s) && Enabled(s, op)
    ensures Coherent(Apply(s, op))
    ensures Apply(s, op).item.Keys == s.item.Keys
  {
    hide TrackAll, Add, Remove, Inv;
    match op
    case Tracked(x, r) => TrackAllKeepsInv(s, x, r);
    case Added(fd, con, r) => AddKeepsCoherent(s, fd, con, r);
    case RemovedFd(fd) => RemoveKeepsCoherent(s, fd);
    case Served => ServeKeepsCoherent(s);
  }

  /** Each operation is enabled in the state the ones before it lead to. */
  ghost predicate Legal<T, C>(s: State<T, C>, ops: seq<Op<T, C>>)
    requires Coherent(s)
    decreases |ops|
  {
    ops == [] || (Enabled(s, ops[0]) && (ApplyKeepsCoherent(s, ops[0]); Legal(Apply(s, ops[0]), ops[1..])))
  }

  /** The state a run of the manager reaches: every one is coherent. */
  ghost function Execute<T, C>(s: State<T, C>, ops: seq<Op<T, C>>): (t: State<T, C>)
    requires Coherent(s) && Legal(s, ops)
    ensures Coherent(t)
    ensures t.item.Keys == s.item.Keys
    decreases |ops|
  {
    if ops == [] then s
    else
      ApplyKeepsCoherent(s, ops[0]);
      Execute(Apply(s, ops[0]), ops[1..])
  }

  // ---------- the serviceable count ----------

  /** By how much the count exceeds the list. */
  function Excess<T, C>(s: State<T, C>): (d: int) {
    s.serviceableCount - |s.serviceable|
  }

  /** What one step of tracking adds to the excess: a slot called to attention that is taken off
      the list again for a newly needed timeout, and a slot taken off the list to be put on it
      again, or not. */
  function TrackLeak<T(==), C>(s: State<T, C>, x: T, m: IoMode): (d: nat)
    requires x in s.item
  {
    var last := s.item[x].mode;
    (if m.attention && m.needTimeout && !last.needTimeout then 1 else 0) +
    (if x in s.serviceable && (m.attention || m.needTimeout != last.needTimeout) then 1 else 0)
  }

  lemma TrackExcess<T, C>(s: State<T, C>, x: T, m: IoMode, due: int)
    requires ListsApart(s) && x in s.item
    ensures Excess(Track(s, x, m, due)) == Excess(s) + TrackLeak(s, x, m)
  {
    WithoutMembers(s.serviceable, x);
    var a := Attend(s, x, m);
    AttendKeepsApart(s, x, m);
    WithoutMembers(a.serviceable, x);
  }

  function TrackAllLeak<T(==), C>(s: State<T, C>, x: T, r: Report): (d: nat)
    requires ListsApart(s) && x in s.item
  {
    TrackKeepsApart(s, x, r.mode, r.due);
    TrackLeak(s, x, r.mode) +
    if FastWrite(s.item[x].mode, r.mode) then TrackLeak(Track(s, x, r.mode, r.due), x, r.sent) else 0
  }

  lemma TrackAllExcess<T, C>(s: State<T, C>, x: T, r: Report)
    requires ListsApart(s) && x in s.item
    ensures Excess(TrackAll(s, x, r)) == Excess(s) + TrackAllLeak(s, x, r)
  {
    hide Track, TrackLeak, Excess;
    TrackKeepsApart(s, x, r.mode, r.due);
    TrackSlots(s, x, r.mode, r.due);
    TrackExcess(s, x, r.mode, r.due);
    TrackExcess(Track(s, x, r.mode, r.due), x, r.sent, r.sentDue);
  }

  /** What an operation adds to the excess. */
  ghost function Leak<T, C>(s: State<T, C>, op: Op<T, C>): (d: nat)
    requires Coherent(s) && Enabled(s, op)
  {
    match op
    case Tracked(x, r) => TrackAllLeak(s, x, r)
    case Added(fd, con, r) =>
      OccupyKeepsInv(s, s.free[0], fd, con);
      TrackAllLeak(Occupy(s, s.free[0], fd, con), s.free[0], r)
    case RemovedFd(fd) => if s.index[fd] in s.serviceable then 1 else 0
    case Served => 0
  }

  lemma ApplyExcess<T, C>(s: State<T, C>, op: Op<T, C>)
    requires Coherent(s) && Enabled(s, op)
    ensures Excess(Apply(s, op)) == Excess(s) + Leak(s, op)
  {
    hide TrackAll, TrackAllLeak, Inv;
    match op
    case Tracked(x, r) =>
      InvParts(s);
      TrackAllExcess(s, x, r);
    case Added(fd, con, r) =>
      InvParts(s);
      assert s.free[0] in s.free;
      var o := Occupy(s, s.free[0], fd, con);
      OccupyKeepsInv(s, s.free[0], fd, con);
      InvParts(o);
      TrackAllExcess(o, s.free[0], r);
    case RemovedFd(fd) =>
      InvParts(s);
      WithoutMembers(s.serviceable, s.index[fd]);
    case Served =>
  }

  /** The operations of a run together. */
  ghost function Leaks<T, C>(s: State<T, C>, ops: seq<Op<T, C>>): (d: nat)
    requires Coherent(s) && Legal(s, ops)
    decreases |ops|
  {
    if ops == [] then 0
    else
      ApplyKeepsCoherent(s, ops[0]);
      Leak(s, ops[0]) + Leaks(Apply(s, ops[0]), ops[1..])
  }

  /** In every run the count exceeds the list by what has leaked, so that it is the length of
      the list exactly if nothing has. */
  lemma {:induction false} CountExactly<T, C>(s: State<T, C>, ops: seq<Op<T, C>>)
    requires Coherent(s) && Legal(s, ops)
    ensures Excess(Execute(s, ops)) == Excess(s) + Leaks(s, ops)
    decreases |ops|
  {
    if ops != [] {
      hide Apply, Leak, Coherent, Enabled;
      ApplyKeepsCoherent(s, ops[0]);
      ApplyExcess(s, ops[0]);
      CountExactly(Apply(s, ops[0]), ops[1..]);
    }
  }

  /** A connection that is added while it wants attention waits to be served; taking it out of
      the manager again leaks. */
  lemma WaitingLeaks<T, C>(s: State<T, C>, fd: int, con: C, r: Report)
    requires Coherent(s) && s.free != [] && fd !in s.index
    requires r.mode.attention && !r.mode.needTimeout && !FastWrite(DORMANT, r.mode)
    ensures Coherent(Add(s, fd, con, r)) && fd in Add(s, fd, con, r).index
    ensures Leak(Add(s, fd, con, r), RemovedFd(fd)) == 1
  {
    AddKeepsCoherent(s, fd, con, r);
    var x := s.free[0];
    OccupyKeepsInv(s, x, fd, con);
    var o := Occupy(s, x, fd, con);
    InvParts(o);
    TrackServiceable(o, x, r.mode, r.due);
    hide Track, Inv;
  }

  /** So from every state with a free slot, that of a new manager among them, the count can come
      to exceed the list by more. */
  lemma CountTooHigh<T, C>(s: State<T, C>, fd: int, con: C, r: Report)
    requires Coherent(s) && s.free != [] && fd !in s.index
    requires r.mode.attention && !r.mode.needTimeout && !FastWrite(DORMANT, r.mode)
    ensures var ops := [Added(fd, con, r), RemovedFd(fd)];
      Legal(s, ops) && Excess(Execute(s, ops)) > Excess(s)
  {
    var add: Op<T, C>, remove: Op<T, C> := Added(fd, con, r), RemovedFd(fd);
    var ops := [add, remove];
    WaitingLeaks(s, fd, con, r);
    hide Coherent, Inv, Add, Remove, Leak, Excess, Execute;
    ApplyKeepsCoherent(s, add);
    ApplyKeepsCoherent(Apply(s, add), remove);
    assert ops[1..] == [remove];
    RunOfOne(Apply(s, add), remove);
    CountExactly(s, ops);
  }

  lemma RunOfOne<T, C>(s: State<T, C>, op: Op<T, C>)
    requires Coherent(s) && Enabled(s, op)
    ensures Legal(s, [op]) && Leaks(s, [op]) == Leak(s, op)
  {
    hide Coherent, Leak;
    ApplyKeepsCoherent(s, op);
    assert [op][1..] == [];
  }
}
