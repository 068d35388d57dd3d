/** The connection manager over the heap: list nodes that point at each other, fd sets and
    counters, kept in step with the value of module ConnectionState. */
module ConnectionManager {
  import opened Sequences
  import opened Wrappers
  import opened ConnectionState
  import opened Connections
  import opened LinkedList
  import opened HashIndex
  import opened TimeoutWalk
  import opened ReadyFds

  type View = State<Node, Connection>

  ghost predicate Blank(x: Node)
    reads x`connection, x`fd, x`lastIoMode, x`bestBefore
  {
    x.connection == null && x.fd == -1 && x.lastIoMode == DORMANT && x.bestBefore == 0
  }

  /** A list head with `n` fresh slots linked behind it, the latest first. */
  method FreeSlots(n: nat) returns (head: Node, slots: seq<Node>, ghost order: seq<Node>)
    ensures |slots| == |order| == n && head !in slots && fresh({head} + set x | x in slots)
    ensures forall x :: x in order <==> x in slots
    ensures forall x :: x in slots ==> Blank(x)
    ensures Distinct(order) && Ring([head] + order)
  {
    hide Ring, Links, Nexts, Prevs;
    head := new Node();
    slots := [];
    ghost var ring: seq<Node> := [head];
    for i := 0 to n
      invariant |slots| == i && |ring| == i + 1 && head !in slots && fresh({head} + set x | x in slots)
      invariant Ring(ring) && |ring| > 0 && ring[0] == head && fresh(Members(ring))
      invariant forall x :: x in ring <==> x == head || x in slots
      invariant forall x :: x in slots ==> Blank(x)
    {
      var x := new Node();
      RingDistinct(ring);
      x.AddAfter(head, ring, 0);
      InsertedMembers(ring, 1, x);
      ring := Inserted(ring, 1, x);
      slots := slots + [x];
    }
    order := ring[1..];
    assert [head] + order == ring;
    RingTail(head, order);
    RingDistinct(ring);
    forall x | x in order ensures x in slots {
      var i :| 0 <= i < |order| && order[i] == x;
      assert ring[i + 1] == x;
    }
    forall x | x in slots ensures x in order { }
  }

  /** Three list heads, the last of them with `n` fresh slots. */
  method FreshNodes(n: nat) returns (active: Node, serviceable: Node, free: Node, slots: seq<Node>, ghost order: seq<Node>, ghost all: set<Node>)
    ensures |slots| == |order| == n && all == {active, serviceable, free} + set x | x in slots
    ensures active != serviceable && active != free && serviceable != free
    ensures active !in slots && serviceable !in slots && free !in slots
    ensures forall x :: x in order <==> x in slots
    ensures forall x :: x in slots ==> Blank(x)
    ensures Distinct(order) && Ring([free] + order) && Ring([active]) && Ring([serviceable])
  {
    hide Ring, Distinct;
    free, slots, order := FreeSlots(n);
    active := new Node();
    serviceable := new Node();
    all := {active, serviceable, free} + set x | x in slots;
  }

  /** How a call for `con` from outside ends: without effect if it is not registered; with its new
      io mode tracked; or, if it is dead, with its removal when that is allowed. */
  ghost predicate BroughtBack(v: View, w: View, con: Connection, wasDead: bool, dead: bool, ok: bool, r: Report) {
    if con.fd !in v.index then !ok && w == v
    else
      && ListsApart(v) && v.index[con.fd] in v.item
      && var tracked := if wasDead then v else TrackAll(v, v.index[con.fd], r);
         if ok && !dead then !wasDead && w == tracked
         else if con.autoDestroyable then
           ok && con.fd in tracked.index && tracked.index[con.fd] in tracked.item && w == Remove(tracked, con.fd)
         else !ok && w == tracked
  }

  /** What a connection is told and asked before its io mode is tracked, and at once after that if
      it is the one registered. */
  function Early(last: IoMode, first: Call, own: bool, r: Report): (calls: seq<Call>) {
    [first] + if own then FastSend(last, r) else []
  }

  /** What `con` is told and asked thereby: `first`, whose answer is tracked, unless it is dead
      already, and in the end it is shut down, or reset in vain. */
  ghost predicate Heard(v: View, con: Connection, wasDead: bool, dead: bool, ok: bool, first: Call, r: Report, resets: bool, calls: seq<Call>) {
    if con.fd !in v.index then calls == []
    else
      && v.index[con.fd] in v.item
      && var slot := v.item[v.index[con.fd]];
         var early := if wasDead then [] else Early(slot.mode, first, slot.con == Some(con), r);
         if ok && !dead then calls == early
         else if con.autoDestroyable then calls == early + [ShutDown]
         else if resets then early < calls && |calls| == |early| + 1 && calls[|early|].Restored?
         else calls == early
  }

  lemma HeardNothing(v: View, con: Connection, wasDead: bool, dead: bool, ok: bool, first: Call, r: Report, resets: bool, calls: seq<Call>)
    requires con.fd !in v.index && calls == []
    ensures Heard(v, con, wasDead, dead, ok, first, r, resets, calls)
  {
  }

  lemma HeardSo(v: View, con: Connection, wasDead: bool, dead: bool, ok: bool, first: Call, r: Report, resets: bool,
      early: seq<Call>, late: seq<Call>)
    requires con.fd in v.index && v.index[con.fd] in v.item
    requires var slot := v.item[v.index[con.fd]];
      early == if wasDead then [] else Early(slot.mode, first, slot.con == Some(con), r)
    requires if ok && !dead then late == []
      else if con.autoDestroyable then late == [ShutDown]
      else if resets then |late| == 1 && late[0].Restored?
      else late == []
    ensures Heard(v, con, wasDead, dead, ok, first, r, resets, early + late)
  {
  }

  class KssConnectionManager {
    const items: seq<Node>
    const activeConnections: Node
    const serviceableConnections: Node
    const freeEntries: Node
    ghost const nodes: set<Node>
    var readableFdset: set<int>
    var writeableFdset: set<int>
    var connectionCount: int
    var serviceableCount: int
    var ioErrors: nat
    var ioRxErrors: nat
    var ioTxErrors: nat
    var clock: int
    const index: FdIndex
    ghost var view: View

    /** `fdsetSize` slots, all of them free. */
    constructor (fdsetSize: nat)
      ensures Valid()
      ensures view == Empty(view.free) && |view.free| == |items| == fdsetSize
    {
      hide Ring, Links, FdIndex.Valid, Empty, Inv;
      var active, serviceable, free, slots, order, all := FreshNodes(fdsetSize);
      items := slots;
      activeConnections := active;
      serviceableConnections := serviceable;
      freeEntries := free;
      nodes := all;
      index := new FdIndex(fdsetSize, all);
      readableFdset, writeableFdset := {}, {};
      connectionCount, serviceableCount := 0, 0;
      ioErrors, ioRxErrors, ioTxErrors := 0, 0, 0;
      clock := 0;
      view := Empty(order);
      new;
      EmptyFields(order);
      EmptyCoherent<Node, Connection>(order);
      Starts(order);
    }

    lemma Starts(order: seq<Node>)
      requires view == Empty(order) && Coherent(view) && Counted(view)
      requires activeConnections != serviceableConnections && activeConnections != freeEntries
      requires serviceableConnections != freeEntries
      requires activeConnections !in items && serviceableConnections !in items && freeEntries !in items
      requires nodes == {activeConnections, serviceableConnections, freeEntries} + (set x | x in items)
      requires forall x :: x in order <==> x in items
      requires forall x :: x in items ==> Blank(x)
      requires Ring([activeConnections]) && Ring([serviceableConnections]) && Ring([freeEntries] + order)
      ensures InStep()
    {
      hide Ring, Empty, Inv, ListsApart;
      EmptyFields(order);
      InvParts(view);
      assert (set x | x in order) == (set x | x in items);
      assert [activeConnections] + view.active == [activeConnections];
      assert [serviceableConnections] + view.serviceable == [serviceableConnections];
      assert Linked(view);
    }

    lemma EmptyFields(order: seq<Node>)
      ensures var v := Empty<Node, Connection>(order);
        && v.active == [] && v.serviceable == [] && v.free == order && v.index == map[]
        && v.item.Keys == (set x | x in order)
        && (forall x :: x in order ==> v.item[x] == Item(None, -1, DORMANT, 0))
        && v.readable == v.writeable == {} && v.serviceableCount == v.connectionCount == 0
        && v.ioErrors == v.rxErrors == v.txErrors == 0
    {
    }

    /** The heads and the slots are different nodes, and `v` lists slots only. */
    ghost predicate Shaped(v: View) {
      && activeConnections != serviceableConnections
      && activeConnections != freeEntries
      && serviceableConnections != freeEntries
      && activeConnections !in items && serviceableConnections !in items && freeEntries !in items
      && nodes == {activeConnections, serviceableConnections, freeEntries} + (set x | x in items)
      && v.item.Keys == (set x | x in items)
      && ListsApart(v)
    }

    ghost predicate Listed(v: View, x: Node) {
      x in v.active || x in v.serviceable || x in v.free
    }

    /** The three rings hold exactly the lists of `v`; every other slot is linked to itself. */
    ghost predicate Linked(v: View)
      reads nodes`next, nodes`prev
    {
      && Shaped(v)
      && (forall r :: r in Rings(v) ==> Ring(r))
      && (forall x :: x in items && !Listed(v, x) ==> x.next == x && x.prev == x)
    }

    /** The list the slot `x` is in, headed by its head node. */
    ghost function ListOf(v: View, x: Node): (r: seq<Node>)
      ensures x in r
    {
      if x in v.active then [activeConnections] + v.active
      else if x in v.serviceable then [serviceableConnections] + v.serviceable
      else if x in v.free then [freeEntries] + v.free
      else [x]
    }

    /** The three lists with their heads. */
    ghost function Rings(v: View): (rs: set<seq<Node>>) {
      {[activeConnections] + v.active, [serviceableConnections] + v.serviceable, [freeEntries] + v.free}
    }

    /** A list shares no node with the others, nor with a slot in no list. */
    lemma RingsDisjoint(v: View, r: seq<Node>)
      requires Shaped(v) && r in Rings(v)
      ensures forall q :: q in Rings(v) ==> q == r || forall o :: o in r ==> o !in q
      ensures forall o :: o in r ==> o in nodes
      ensures forall x :: x in items && !Listed(v, x) ==> x !in r
    {
    }

    lemma ListOfDisjoint(v: View, x: Node)
      requires Shaped(v) && x in items
      ensures forall q :: q in Rings(v) ==> q == ListOf(v, x) || forall o :: o in ListOf(v, x) ==> o !in q
      ensures forall o :: o in ListOf(v, x) ==> o in nodes
      ensures forall y :: y in items && !Listed(v, y) && y != x ==> y !in ListOf(v, x)
    {
    }

    lemma UnlinkedRings(v: View, x: Node)
      requires Shaped(v) && x in items
      ensures Shaped(ConnectionState.Unlink(v, x))
      ensures Rings(ConnectionState.Unlink(v, x)) <= Rings(v) - {ListOf(v, x)} + if Listed(v, x) then {Without(ListOf(v, x), x)} else {}
    {
      UnlinkKeepsApart(v, x);
      if x in v.active { HeadedWithout(activeConnections, v.active, x); }
      if x in v.serviceable { HeadedWithout(serviceableConnections, v.serviceable, x); }
      if x in v.free { HeadedWithout(freeEntries, v.free, x); }
      assert [activeConnections] + v.active == ListOf(v, x) ==> x in v.active;
      assert [serviceableConnections] + v.serviceable == ListOf(v, x) ==> x in v.serviceable;
      assert [freeEntries] + v.free == ListOf(v, x) ==> x in v.free;
    }

    lemma ListOfRing(v: View, x: Node)
      requires Linked(v) && x in items
      ensures Ring(ListOf(v, x))
      ensures |ListOf(v, x)| > 1 <==> Listed(v, x)
    {
      hide Ring;
      AloneRing(x);
    }

    /** Takes `x` out of the list it is in, if any. */
    method Unlink(x: Node, ghost v: View)
      requires Linked(v) && x in items
      modifies nodes`next, nodes`prev
      ensures Linked(ConnectionState.Unlink(v, x))
    {
      hide Ring, Rings, ListOf, Shaped, Without;
      ListOfDisjoint(v, x);
      UnlinkedRings(v, x);
      ListOfRing(v, x);
      Detach(x, ListOf(v, x), Rings(v));
      ghost var w := ConnectionState.Unlink(v, x);
      forall y | y in items && !Listed(w, y) ensures y.next == y && y.prev == y {
        if y != x { UnlinkListed(v, x, y); }
      }
    }

    lemma UnlinkListed(v: View, x: Node, y: Node)
      requires Shaped(v)
      ensures Listed(ConnectionState.Unlink(v, x), y) <==> Listed(v, y) && y != x
    {
      UnlinkMembers(v, x, y);
    }

    /** The list headed by `h`, and `v` with `x` put at position `k` of that list. */
    ghost function Under(v: View, h: Node): (s: seq<Node>) {
      if h == activeConnections then v.active else if h == serviceableConnections then v.serviceable else v.free
    }

    ghost function Put(v: View, h: Node, k: nat, x: Node): (w: View)
      requires k <= |Under(v, h)|
    {
      if h == activeConnections then v.(active := Inserted(v.active, k, x))
      else if h == serviceableConnections then v.(serviceable := Inserted(v.serviceable, k, x))
      else v.(free := Inserted(v.free, k, x))
    }

    lemma PutRings(v: View, h: Node, k: nat, x: Node)
      requires h in {activeConnections, serviceableConnections, freeEntries}
      requires Shaped(v) && x in items && !Listed(v, x) && k <= |Under(v, h)|
      ensures var r := [h] + Under(v, h);
        r in Rings(v) && Rings(Put(v, h, k, x)) <= Rings(v) - {r} + {Inserted(r, k + 1, x)}
      ensures Shaped(Put(v, h, k, x))
      ensures forall y :: Listed(v, y) || y == x ==> Listed(Put(v, h, k, x), y)
    {
      var s := Under(v, h);
      HeadedInserted(h, s, k, x);
      InsertedMembers(s, k, x);
      forall g, q | g in {activeConnections, serviceableConnections, freeEntries} && [g] + q == [h] + s ensures g == h {
        assert ([g] + q)[0] == g;
      }
    }

    /** Puts `x`, which is in no list, behind `n`, at position `k` of the list headed by `h`. */
    method Link(x: Node, n: Node, ghost h: Node, ghost k: nat, ghost v: View)
      requires Linked(v) && x in items && !Listed(v, x)
      requires h in {activeConnections, serviceableConnections, freeEntries}
      requires k <= |Under(v, h)| && n == ([h] + Under(v, h))[k]
      modifies nodes`next, nodes`prev
      ensures Linked(Put(v, h, k, x))
    {
      hide Ring, Rings, Shaped, Listed, Put, Under;
      ghost var r := [h] + Under(v, h);
      PutRings(v, h, k, x);
      RingsDisjoint(v, r);
      forall q | q in Rings(v) ensures x !in q { RingsDisjoint(v, q); }
      Attach(x, n, r, k, Rings(v));
    }

    /** What is linked depends on the lists only. */
    lemma LinkedSame(v: View, w: View)
      requires Linked(v)
      requires v.active == w.active && v.serviceable == w.serviceable && v.free == w.free && v.item.Keys == w.item.Keys
      ensures Linked(w)
    {
      hide Ring;
    }

    // ---------- tracking io modes ----------

    /** The time now; it never runs backwards. */
    method Now() returns (t: int)
      modifies this`clock
      ensures t == clock >= old(clock)
    {
      var passed :| passed >= 0;
      clock := clock + passed;
      t := clock;
    }

    method UpdateFdSets(fd: int, last: IoMode, ioMode: IoMode) returns (fastwrite: bool)
      modifies this`readableFdset, this`writeableFdset
      ensures readableFdset == if ioMode.readable == last.readable then old(readableFdset)
                               else WithBit(old(readableFdset), fd, ioMode.readable)
      ensures writeableFdset == if ioMode.writeable == last.writeable then old(writeableFdset)
                                else WithBit(old(writeableFdset), fd, ioMode.writeable)
      ensures fastwrite == FastWrite(last, ioMode)
    {
      fastwrite := false;
      if ioMode.readable != last.readable {
        readableFdset := if ioMode.readable then readableFdset + {fd} else readableFdset - {fd};
      }
      if ioMode.writeable != last.writeable {
        if ioMode.writeable {
          writeableFdset := writeableFdset + {fd};
          if !ioMode.noFastWrite {
            fastwrite := true;
          }
        } else {
          writeableFdset := writeableFdset - {fd};
        }
      }
    }

    method CountErrors(ioMode: IoMode)
      modifies this`ioErrors, this`ioRxErrors, this`ioTxErrors
      ensures ioErrors == old(ioErrors) + if ioMode.hadError then 1 else 0
      ensures ioRxErrors == old(ioRxErrors) + if ioMode.hadRxError then 1 else 0
      ensures ioTxErrors == old(ioTxErrors) + if ioMode.hadTxError then 1 else 0
    {
      if ioMode.hadError { ioErrors := ioErrors + 1; }
      if ioMode.hadRxError { ioRxErrors := ioRxErrors + 1; }
      if ioMode.hadTxError { ioTxErrors := ioTxErrors + 1; }
    }

    /** Moves `item` to the front of the serviceable list. */
    method Attention(item: Node, ghost v: View, ioMode: IoMode)
      requires Linked(v) && item in items && ioMode.attention
      modifies this`serviceableCount, nodes`next, nodes`prev
      ensures Linked(Attend(v, item, ioMode))
      ensures serviceableCount == old(serviceableCount) + 1
    {
      hide Linked, Rings;
      ghost var u := ConnectionState.Unlink(v, item);
      LinkedShaped(v);
      UnlinkKeepsApart(v, item);
      Unlink(item, v);
      Link(item, serviceableConnections, serviceableConnections, 0, u);
      LinkedSame(Put(u, serviceableConnections, 0, item), Attend(v, item, ioMode));
      serviceableCount := serviceableCount + 1;
    }

    lemma LinkedShaped(v: View)
      requires Linked(v)
      ensures Shaped(v)
    {
    }

    /** Where the scan from the end of the timeout list `a` stops for an item due at `due`. */
    method FindPlace(last: Node, due: int, ghost a: seq<Node>) returns (it: Node, ghost k: nat)
      requires Ring([activeConnections] + a) && activeConnections !in a && last == ([activeConnections] + a)[|a|]
      ensures k <= |a| && it == ([activeConnections] + a)[k]
      ensures k > 0 ==> a[k - 1].bestBefore <= due
      ensures forall i :: k <= i < |a| ==> a[i].bestBefore > due
    {
      ghost var r := [activeConnections] + a;
      it := last;
      k := |a|;
      while it != activeConnections && it.bestBefore > due
        invariant 0 <= k <= |a| && it == r[k]
        invariant forall i :: k <= i < |a| ==> a[i].bestBefore > due
        decreases k
      {
        RingLinks(r, k);
        it := it.prev;
        k := k - 1;
      }
      assert k > 0 ==> r[k] == a[k - 1] && a[k - 1] in a;
    }

    /** Puts `item` under timeout supervision, at its place by due time. */
    method StartTimeout(item: Node, span: int, ghost v: View, ghost last: IoMode, ghost ioMode: IoMode)
      requires Linked(v) && item in items && item !in v.active && ioMode.needTimeout && !last.needTimeout
      requires forall x :: x in v.active ==> x.bestBefore == v.item[x].best
      modifies this`clock, item`bestBefore, nodes`next, nodes`prev
      ensures clock >= old(clock) && item.bestBefore == clock + span
      ensures Linked(Supervise(v, item, last, ioMode, item.bestBefore))
    {
      hide Rings, Linked, Ring;
      ActiveLast(v);
      LinkedShaped(v);
      var it := activeConnections.prev;
      UnlinkKeepsApart(v, item);
      UnlinkListed(v, item, item);
      var now := Now();
      item.bestBefore := now + span;
      ghost var u := ConnectionState.Unlink(v, item).(item := v.item[item := v.item[item].(best := item.bestBefore)]);
      Unlink(item, v);
      LinkedSame(ConnectionState.Unlink(v, item), u);
      ghost var k;
      ActiveRing(u);
      it, k := FindPlace(it, item.bestBefore, u.active);
      LinkedShaped(u);
      PlaceUnique(u.active, u.item, item.bestBefore, k);
      Link(item, it, activeConnections, k, u);
    }

    lemma ActiveRing(v: View)
      requires Linked(v)
      ensures Ring([activeConnections] + v.active) && activeConnections !in v.active
    {
      assert [activeConnections] + v.active in Rings(v);
    }

    lemma ActiveLast(v: View)
      requires Linked(v)
      ensures activeConnections.prev == ([activeConnections] + v.active)[|v.active|]
    {
      var r := [activeConnections] + v.active;
      assert r in Rings(v);
      RingLinks(r, 0);
    }

    // ---------- the manager and its view ----------

    ghost predicate SlotIs(x: Node, i: Item<Connection>)
      reads x`connection, x`fd, x`lastIoMode, x`bestBefore
    {
      && (if x.connection == null then i.con.None? else i.con == Some(x.connection) && x.connection.fd == x.fd)
      && i.fd == x.fd && i.mode == x.lastIoMode && i.best == x.bestBefore
    }

    /** The fields of the slots are those of the view. */
    ghost predicate Filled(v: View)
      reads nodes`connection, nodes`fd, nodes`lastIoMode, nodes`bestBefore
    {
      && v.item.Keys == (set x | x in items) && v.item.Keys <= nodes
      && forall x :: x in v.item ==> SlotIs(x, v.item[x])
    }

    /** The fd sets and counters are those of the view. */
    ghost predicate Counted(v: View)
      reads this`readableFdset, this`writeableFdset, this`serviceableCount, this`connectionCount
      reads this`ioErrors, this`ioRxErrors, this`ioTxErrors
    {
      && readableFdset == v.readable && writeableFdset == v.writeable
      && serviceableCount == v.serviceableCount && connectionCount == v.connectionCount
      && ioErrors == v.ioErrors && ioRxErrors == v.rxErrors && ioTxErrors == v.txErrors
    }

    ghost predicate InStep()
      reads this`view, this`readableFdset, this`writeableFdset, this`serviceableCount, this`connectionCount
      reads this`ioErrors, this`ioRxErrors, this`ioTxErrors, nodes
    {
      Linked(view) && Filled(view) && Counted(view) && Inv(view)
    }

    /** Moves `item` to the list its new io mode calls for. */
    method Relink(item: Node, last: IoMode, ioMode: IoMode, ghost v: View) returns (ghost due: int)
      requires Linked(v) && item in items && item.connection != null
      requires forall x :: x in v.active ==> x.bestBefore == v.item[x].best && v.item[x].mode.needTimeout
      requires v.item[item].mode == last
      modifies this`serviceableCount, this`clock, item`bestBefore, nodes`next, nodes`prev
      ensures ListsApart(v) && Linked(Track(v, item, ioMode, due))
      ensures serviceableCount == old(serviceableCount) + if ioMode.attention then 1 else 0
      ensures item.bestBefore == if ioMode.needTimeout && !last.needTimeout then due else old(item.bestBefore)
      ensures due == clock + item.connection.timeout && due > old(clock) && clock >= old(clock)
    {
      LinkedShaped(v);
      AttendKeepsApart(v, item, ioMode);
      due := clock + item.connection.timeout;
      ghost var v1 := Attend(v, item, ioMode);
      if ioMode.attention {
        Attention(item, v, ioMode);
      }
      AttendActive(v, item, ioMode);
      if ioMode.needTimeout != last.needTimeout {
        if ioMode.needTimeout {
          StartTimeout(item, item.connection.timeout, v1, last, ioMode);
          due := item.bestBefore;
        } else if !ioMode.attention {
          Unlink(item, v1);
        }
      }
      TrackLinked(v, item, ioMode, due);
    }

    lemma TrackLinked(v: View, item: Node, ioMode: IoMode, due: int)
      requires ListsApart(v) && item in v.item
      requires ListsApart(Attend(v, item, ioMode))
      requires Linked(Supervise(Attend(v, item, ioMode), item, v.item[item].mode, ioMode, due))
      ensures Linked(Track(v, item, ioMode, due))
    {
      LinkedSame(Supervise(Attend(v, item, ioMode), item, v.item[item].mode, ioMode, due), Track(v, item, ioMode, due));
    }

    /** Everything is as in `w`, but for the io mode of `item` and the errors it reports. */
    ghost predicate Pending(item: Node, ioMode: IoMode, w: View)
      reads this, nodes
    {
      && Linked(w) && Inv(w) && item in w.item && w.item[item].mode == ioMode
      && (forall x :: x in w.item && x != item ==> SlotIs(x, w.item[x]))
      && SlotIs(item, w.item[item].(mode := item.lastIoMode))
      && readableFdset == w.readable && writeableFdset == w.writeable
      && serviceableCount == w.serviceableCount && connectionCount == w.connectionCount
      && ioErrors + (if ioMode.hadError then 1 else 0) == w.ioErrors
      && ioRxErrors + (if ioMode.hadRxError then 1 else 0) == w.rxErrors
      && ioTxErrors + (if ioMode.hadTxError then 1 else 0) == w.txErrors
    }

    /** Counts the errors reported and remembers the io mode; the state is then `w`. */
    method Remember(item: Node, ioMode: IoMode, ghost w: View)
      requires Pending(item, ioMode, w)
      modifies this`view, this`ioErrors, this`ioRxErrors, this`ioTxErrors, item`lastIoMode
      ensures InStep() && view == w && item.lastIoMode == ioMode
    {
      hide Linked, Inv, Shaped;
      LinkedShaped(w);
      ShapedNodes(w);
      CountErrors(ioMode);
      item.lastIoMode := ioMode;
      view := w;
    }

    lemma ShapedNodes(w: View)
      requires Shaped(w)
      ensures w.item.Keys == (set x | x in items) && w.item.Keys <= nodes
    {
    }

    /** The list and fd set part of a round of tracking. */
    method Rewire(item: Node, ioMode: IoMode) returns (fastwrite: bool, ghost due: int)
      requires InStep() && item in items && item.connection != null
      modifies this`readableFdset, this`writeableFdset, this`serviceableCount, this`clock
      modifies item`bestBefore, nodes`next, nodes`prev
      ensures InStepParts(old(view), item) && Pending(item, ioMode, Track(old(view), item, ioMode, due))
      ensures fastwrite == FastWrite(old(item.lastIoMode), ioMode)
      ensures due == clock + item.connection.timeout && due > old(clock) && clock >= old(clock)
    {
      hide Linked, Inv, Track, SlotIs, WithBit, Attend, Supervise, ListsApart;
      ghost var v := view;
      var last := item.lastIoMode;
      InvParts(v);
      ItemSlot(item);
      ActiveDue();
      fastwrite := UpdateFdSets(item.connection.fd, last, ioMode);
      due := Relink(item, last, ioMode, v);
      TrackKeepsInv(v, item, ioMode, due);
      TrackSlots(v, item, ioMode, due);
      PendingSlot(item, v.item[item], Track(v, item, ioMode, due).item[item]);
    }

    lemma ActiveDue()
      requires InStep()
      ensures forall x :: x in view.active ==> x.bestBefore == view.item[x].best && view.item[x].mode.needTimeout
    {
      InvParts(view);
    }

    lemma ItemSlot(item: Node)
      requires Filled(view) && item in items
      ensures SlotIs(item, view.item[item]) && view.item[item].mode == item.lastIoMode
      ensures view.item[item].fd == item.fd && view.item[item].best == item.bestBefore
      ensures item.connection != null ==> view.item[item].con == Some(item.connection) && item.connection.fd == item.fd
    {
    }

    lemma PendingSlot(x: Node, i: Item<Connection>, j: Item<Connection>)
      requires j.con == i.con && j.fd == i.fd && j.best == x.bestBefore && i.mode == x.lastIoMode
      requires SlotIs(x, i.(best := x.bestBefore))
      ensures SlotIs(x, j.(mode := x.lastIoMode))
    {
    }

    ghost predicate InStepParts(v: View, item: Node) {
      ListsApart(v) && item in v.item
    }

    /** One round of tracking: fd sets, lists, counters and the remembered io mode. */
    method TrackOnce(item: Node, ioMode: IoMode) returns (fastwrite: bool, ghost due: int)
      requires InStep() && item in items && item.connection != null
      modifies this`view, this`readableFdset, this`writeableFdset, this`serviceableCount, this`clock
      modifies this`ioErrors, this`ioRxErrors, this`ioTxErrors
      modifies item`bestBefore, item`lastIoMode, nodes`next, nodes`prev
      ensures InStep()
      ensures view == Track(old(view), item, ioMode, due)
      ensures fastwrite == FastWrite(old(item.lastIoMode), ioMode) && item.lastIoMode == ioMode
      ensures due == clock + item.connection.timeout && due > old(clock) && clock >= old(clock)
    {
      hide Pending, InStep, Track;
      fastwrite, due := Rewire(item, ioMode);
      Remember(item, ioMode, Track(view, item, ioMode, due));
    }

    /** Follows an io mode just reported; a connection that becomes writeable is made to send
        at once, and the io mode that reports is followed too. */
    method TrackCnxIoMode(item: Node, ioMode: IoMode) returns (ghost r: Report)
      requires InStep() && item in items && item.connection != null
      modifies this`view, this`readableFdset, this`writeableFdset, this`serviceableCount, this`clock
      modifies this`ioErrors, this`ioRxErrors, this`ioTxErrors
      modifies item`bestBefore, item`lastIoMode, nodes`next, nodes`prev
      modifies item.connection`timeout, item.connection`dead, item.connection`calls
      ensures InStep()
      ensures ListsApart(old(view)) && item in old(view).item
      ensures view == TrackAll(old(view), item, r) && r.mode == ioMode
      ensures r.due > old(clock) && r.sentDue > old(clock) && clock >= old(clock)
      ensures Dated(r, old(clock), clock) && r.span == old(item.connection.timeout) && item.connection.timeout == r.sentSpan
      ensures item.connection == old(item.connection)
      ensures item.connection.calls == old(item.connection.calls) + FastSend(old(item.lastIoMode), r)
      ensures !FastWrite(old(item.lastIoMode), ioMode) ==> r.sentSpan == r.span
      decreases FastWrite(item.lastIoMode, ioMode)
    {
      hide Linked, Inv, Track, SlotIs, ListsApart;
      InvParts(view);
      ItemSlot(item);
      ghost var v := view;
      var fastwrite, due := TrackOnce(item, ioMode);
      ItemSlot(item);
      ghost var span := item.connection.timeout;
      r := Report(ioMode, span, due, DORMANT, span, due);
      if fastwrite {
        var sent := item.connection.Send();
        ghost var r2 := TrackCnxIoMode(item, sent);
        r := Report(ioMode, span, due, sent, r2.span, r2.due);
      }
    }

    // ---------- the operations ----------

    ghost predicate Indexed()
      reads this`view, index, index.repr, nodes`fd
    {
      index.nodes == nodes && index.Valid() && index.contents == view.index
    }

    /** What holds between any two calls. */
    ghost predicate Valid()
      reads this`view, this`readableFdset, this`writeableFdset, this`serviceableCount, this`connectionCount
      reads this`ioErrors, this`ioRxErrors, this`ioTxErrors, nodes, index, index.repr
    {
      InStep() && Coherent(view) && Indexed()
    }

    /** The connection registered for `fd`, or null. */
    method LookupConnection(fd: int) returns (con: Connection?)
      requires Valid()
      ensures con == if fd in view.index then view.index[fd].connection else null
    {
      var item := index.Lookup(fd);
      if item != null {
        return item.connection;
      }
      return null;
    }

    ghost predicate SlotsBut(item: Node)
      reads this`view, nodes`connection, nodes`fd, nodes`lastIoMode, nodes`bestBefore
    {
      && view.item.Keys == (set x | x in items) && view.item.Keys <= nodes && item in items
      && (forall x :: x in view.item && x != item ==> SlotIs(x, view.item[x]))
      && item.bestBefore == view.item[item].best
    }

    /** Registers the slot `item` under the fd of `con`. */
    method Register(item: Node, fd: int)
      requires Filled(view) && Indexed() && item in items
      requires fd !in view.index && forall d :: d in view.index ==> view.index[d] != item
      requires index.buckets[index.Hash(fd)].used < index.buckets[index.Hash(fd)].size
      modifies item`fd, index`contents, index.repr
      ensures SlotsBut(item) && item.fd == fd
      ensures index.Valid() && index.nodes == nodes && index.contents == view.index[fd := item]
    {
      hide FdIndex.Valid, SlotIs;
      index.ReprTypes();
      ItemSlot(item);
      index.Insert(item, fd);
    }

    /** Fills the slot `item` with `con`; the state is then `w`. */
    method Fill(item: Node, con: Connection, ghost w: View)
      requires SlotsBut(item) && item.fd == con.fd
      requires Linked(w) && Inv(w) && Counted(w)
      requires w.item == view.item[item := Item(Some(con), con.fd, DORMANT, view.item[item].best)]
      modifies this`view, item`connection, item`lastIoMode
      ensures InStep() && view == w && item.connection == con
    {
      hide Linked, Inv, SlotIs;
      item.connection := con;
      item.lastIoMode := DORMANT;
      view := w;
      FillsSlot(item, w.item[item], con);
    }

    /** Takes `item` off the free list and fills it with `con`. */
    method Occupy(item: Node, con: Connection)
      requires InStep() && Indexed() && item in view.free && con.fd !in view.index
      requires index.buckets[index.Hash(con.fd)].used < index.buckets[index.Hash(con.fd)].size
      modifies this`view, nodes`next, nodes`prev, item`connection, item`lastIoMode, item`fd
      modifies index`contents, index.repr
      ensures InStep() && Indexed() && item.connection == con
      ensures view == ConnectionState.Occupy(old(view), item, con.fd, con)
      ensures item in view.item && view.item[item].mode == DORMANT
    {
      hide Linked, Inv, FdIndex.Valid, Filled, SlotsBut, ListsApart, Shaped;
      ghost var v := view;
      InvParts(v);
      index.ReprTypes();
      FreeUnused(v, item);
      LinkedShaped(v);
      ShapedNodes(v);
      OccupyKeepsInv(v, item, con.fd, con);
      Unlink(item, v);
      OccupyLinked(v, item, con);
      Settle(item, con, ConnectionState.Occupy(v, item, con.fd, con));
    }

    /** Registers the slot `item` and fills it with `con`; the state is then `w`. */
    method Settle(item: Node, con: Connection, ghost w: View)
      requires Filled(view) && Indexed() && item in items
      requires con.fd !in view.index && forall d :: d in view.index ==> view.index[d] != item
      requires index.buckets[index.Hash(con.fd)].used < index.buckets[index.Hash(con.fd)].size
      requires Linked(w) && Inv(w) && Counted(w) && w.index == view.index[con.fd := item]
      requires w.item == view.item[item := Item(Some(con), con.fd, DORMANT, view.item[item].best)]
      modifies this`view, item`connection, item`lastIoMode, item`fd, index`contents, index.repr
      ensures InStep() && Indexed() && view == w && item.connection == con
    {
      hide Linked, Inv, FdIndex.Valid, Filled, SlotsBut;
      index.ReprTypes();
      Register(item, con.fd);
      Fill(item, con, w);
    }

    lemma FreeUnused(v: View, item: Node)
      requires Inv(v) && item in v.free
      ensures item in v.item && forall fd :: fd in v.index ==> v.index[fd] != item
    {
    }

    lemma OccupyLinked(v: View, item: Node, con: Connection)
      requires ListsApart(v) && item in v.free && Linked(ConnectionState.Unlink(v, item))
      ensures Linked(ConnectionState.Occupy(v, item, con.fd, con))
    {
      LinkedSame(ConnectionState.Unlink(v, item), ConnectionState.Occupy(v, item, con.fd, con));
    }

    lemma FillsSlot(x: Node, i: Item<Connection>, con: Connection)
      requires x.connection == con && i == Item(Some(con), con.fd, DORMANT, x.bestBefore)
      requires x.fd == con.fd && x.lastIoMode == DORMANT
      ensures SlotIs(x, i)
    {
    }

    lemma FreeFirst(v: View)
      requires Linked(v)
      ensures freeEntries.next == if v.free == [] then freeEntries else v.free[0]
      ensures v.free != [] ==> v.free[0] in items && v.free[0] != freeEntries
    {
      var r := [freeEntries] + v.free;
      assert r in Rings(v);
      RingLinks(r, 0);
      if v.free != [] { assert v.free[0] in v.free; }
    }

    method Recount(delta: int)
      requires InStep() && Indexed() && view.connectionCount + delta == |view.index|
      modifies this`connectionCount, this`view
      ensures Valid() && view == old(view).(connectionCount := old(view).connectionCount + delta)
    {
      hide Linked, Filled, FdIndex.Valid;
      index.ReprTypes();
      ghost var w := view.(connectionCount := view.connectionCount + delta);
      RecountSame(view, w);
      connectionCount := connectionCount + delta;
      view := w;
    }

    lemma RecountSame(v: View, w: View)
      requires Linked(v) && Filled(v) && Inv(v) && w == v.(connectionCount := w.connectionCount)
      ensures Linked(w) && Filled(w) && Inv(w)
    {
      LinkedSame(v, w);
    }

    /** `TrackCnxIoMode` for an item that is in the index, which stays as it is. */
    method TrackRegistered(item: Node, ioMode: IoMode) returns (ghost r: Report)
      requires InStep() && Indexed() && item in items && item.connection != null
      modifies this`view, this`readableFdset, this`writeableFdset, this`serviceableCount, this`clock
      modifies this`ioErrors, this`ioRxErrors, this`ioTxErrors
      modifies item`bestBefore, item`lastIoMode, nodes`next, nodes`prev
      modifies item.connection`timeout, item.connection`dead, item.connection`calls
      ensures InStep() && Indexed()
      ensures ListsApart(old(view)) && item in old(view).item
      ensures view == TrackAll(old(view), item, r) && r.mode == ioMode
      ensures r.due > old(clock) && r.sentDue > old(clock) && clock >= old(clock)
      ensures Dated(r, old(clock), clock) && r.span == old(item.connection.timeout) && item.connection.timeout == r.sentSpan
      ensures item.connection == old(item.connection)
      ensures item.connection.calls == old(item.connection.calls) + FastSend(old(view).item[item].mode, r)
    {
      hide InStep, Inv, FdIndex.Valid, TrackAll;
      InStepInv();
      SlotMode(item);
      index.ReprTypes();
      ghost var v := view;
      r := TrackCnxIoMode(item, ioMode);
      TrackAllKeepsInv(v, item, r);
    }

    lemma SlotMode(item: Node)
      requires InStep() && item in items
      ensures item in view.item && view.item[item].mode == item.lastIoMode
    {
      InStepInv();
      ItemSlot(item);
    }

    lemma InStepInv()
      requires InStep()
      ensures Inv(view) && ListsApart(view) && view.item.Keys == (set x | x in items) && view.item.Keys <= nodes
      ensures forall x :: x in items ==> (x.connection != null <==> view.item[x].con.Some?)
    {
      hide Ring, Rings;
    }

    /** Takes the first free slot for `con` and follows the io mode it starts with. */
    method Admit(item: Node, con: Connection) returns (ghost r: Report)
      requires Valid() && con.fd !in view.index && view.free != [] && item == view.free[0] && item in items
      requires index.buckets[index.Hash(con.fd)].used < index.buckets[index.Hash(con.fd)].size
      modifies this, nodes, index, index.repr, con
      ensures Valid() && con.managed
      ensures ListsApart(old(view)) && view == Add(old(view), con.fd, con, r)
      ensures con.calls == old(con.calls) + [Asked(r.mode, r.span)] + FastSend(DORMANT, r)
      ensures Dated(r, old(clock), clock) && r.span == old(con.timeout)
    {
      hide Valid, InStep, Inv, FdIndex.Valid, ListsApart, ConnectionState.Occupy, TrackAll, Add, FastSend, Dated;
      ghost var v := view;
      ValidRepr();
      ValidLists(item);
      Seat(item, con);
      var ioMode := con.GetIoMode();
      r := TrackRegistered(item, ioMode);
      AddCounts(v, con.fd, con, r, view);
      Recount(1);
    }

    lemma ValidLists(item: Node)
      requires Valid() && item in items
      ensures item in nodes && ListsApart(view)
    {
      InStepInv();
    }

    /** Puts `con` into the slot `item`. */
    method Seat(item: Node, con: Connection)
      requires Valid() && con.fd !in view.index && view.free != [] && item == view.free[0] && item in items
      requires index.buckets[index.Hash(con.fd)].used < index.buckets[index.Hash(con.fd)].size
      modifies this`view, nodes`next, nodes`prev, item`connection, item`lastIoMode, item`fd
      modifies index`contents, index.repr, con`managed
      ensures InStep() && Indexed() && item.connection == con && con.managed && item in nodes
      ensures forall o :: o in index.repr ==> o is Bucket || o is array<Node?>
      ensures Coherent(old(view)) && ListsApart(ConnectionState.Occupy(old(view), item, con.fd, con))
      ensures view == ConnectionState.Occupy(old(view), item, con.fd, con)
      ensures item in view.item && view.item[item].mode == DORMANT
    {
      hide InStep, Inv, FdIndex.Valid, ListsApart, ConnectionState.Occupy;
      InStepInv();
      ghost var v := view;
      index.ReprTypes();
      Occupy(item, con);
      InStepInv();
      index.ReprTypes();
      con.managed := true;
    }

    /** Makes room in the bucket of `fd`. */
    method MakeRoom(fd: int)
      requires Valid()
      modifies index`repr, index.repr
      ensures Valid() && fresh(index.repr - old(index.repr))
      ensures index.buckets[index.Hash(fd)].used < index.buckets[index.Hash(fd)].size
      ensures freeEntries.next == if view.free == [] then freeEntries else view.free[0]
      ensures view.free != [] ==> view.free[0] in items && view.free[0] != freeEntries
    {
      hide Linked, Inv, FdIndex.Valid, Filled, SlotIs;
      index.ReprTypes();
      index.Reserve(fd);
      index.ReprTypes();
      FreeFirst(view);
    }

    /** Puts `con` under control of the manager. This fails exactly if its fd is taken or no
        slot is free. */
    method AddConnection(con: Connection) returns (ok: bool, ghost r: Report)
      requires Valid()
      modifies this, nodes, index, index.repr, con
      ensures Valid()
      ensures ok <==> con.fd !in old(view.index) && old(view.free) != []
      ensures ok ==> ListsApart(old(view)) && view == Add(old(view), con.fd, con, r) && con.managed
      ensures !ok ==> view == old(view)
      ensures con.calls == old(con.calls) + if ok then [Asked(r.mode, r.span)] + FastSend(DORMANT, r) else []
      ensures ok ==> Dated(r, old(clock), clock) && r.span == old(con.timeout)
    {
      hide Valid, Inv, FdIndex.Valid, ListsApart, Add, FastSend;
      r := NO_REPORT;
      ValidRepr();
      var item := index.Lookup(con.fd);
      ok := item == null;
      if ok {
        MakeRoom(con.fd);
        ok := freeEntries.next != freeEntries;
      }
      if ok {
        r := Admit(freeEntries.next, con);
      }
    }

    /** Moves `item` to the front of the free list. */
    method Release(item: Node, ghost v: View, ghost fd: int)
      requires Linked(v) && item in items && fd in v.index && v.index[fd] == item
      modifies nodes`next, nodes`prev
      ensures item in v.item && Linked(ConnectionState.Remove(v, fd))
    {
      hide Linked, Rings;
      LinkedShaped(v);
      UnlinkKeepsApart(v, item);
      ghost var u := ConnectionState.Unlink(v, item);
      Unlink(item, v);
      Link(item, freeEntries, freeEntries, 0, u);
      PutFree(u, item);
      LinkedSame(Put(u, freeEntries, 0, item), ConnectionState.Remove(v, fd));
    }

    lemma PutFree(u: View, item: Node)
      requires Shaped(u)
      ensures Put(u, freeEntries, 0, item) == u.(free := [item] + u.free)
    {
    }

    /** Empties the slot `item`; the state is then `w`, but for the index. */
    method Vacate(item: Node, fd: int, ghost w: View)
      requires Filled(view) && Counted(view) && item in items
      requires Linked(w) && Inv(w) && w.item == view.item[item := view.item[item].(con := None)]
      requires w == view.(active := w.active, serviceable := w.serviceable, free := w.free, item := w.item, index := w.index,
        readable := view.readable - {fd}, writeable := view.writeable - {fd}, connectionCount := view.connectionCount - 1)
      modifies this`view, this`readableFdset, this`writeableFdset, this`connectionCount, item`connection
      ensures InStep() && view == w && item.connection == null
    {
      hide Linked, Inv, SlotIs;
      ItemSlot(item);
      readableFdset := readableFdset - {fd};
      writeableFdset := writeableFdset - {fd};
      connectionCount := connectionCount - 1;
      item.connection := null;
      view := w;
      EmptySlot(item, w.item[item]);
    }

    lemma EmptySlot(x: Node, i: Item<Connection>)
      requires x.connection == null && i == Item(None, x.fd, x.lastIoMode, x.bestBefore)
      ensures SlotIs(x, i)
    {
    }

    /** The connection registered for `fd`, if any. */
    ghost function Registered(fd: int): (cs: set<Connection>)
      reads this`view
    {
      if fd in view.index && view.index[fd] in view.item && view.item[view.index[fd]].con.Some?
      then {view.item[view.index[fd]].con.value} else {}
    }

    lemma NotRegistered(fd: int)
      requires fd !in view.index
      ensures Registered(fd) == {}
    {
    }

    lemma RegisteredIs(fd: int)
      requires InStep() && fd in view.index
      ensures var item := view.index[fd];
        item in items && item in view.item && item.connection != null && Registered(fd) == {item.connection}
        && item.connection.fd == fd
    {
      InStepInv();
      IndexedSlot(view, fd);
      ItemSlot(view.index[fd]);
    }

    lemma RegisteredSlot(fd: int)
      requires Valid() && fd in view.index
      ensures var item := view.index[fd];
        item in items && item in nodes && item in view.item && item.connection != null && Registered(fd) == {item.connection}
        && item.connection.fd == fd && view.item[item].con == Some(item.connection) && ListsApart(view)
    {
      InStepInv();
      RegisteredItem(fd);
      RegisteredIs(fd);
      ItemSlot(view.index[fd]);
    }

    lemma RegisteredItem(fd: int)
      requires Valid() && fd in view.index
      ensures view.index[fd] in view.item && ListsApart(view)
    {
      InStepInv();
      RegisteredIs(fd);
    }

    /** Takes the slot `item` of `fd` off its list, empties it and puts it on the free list. */
    method Expel(item: Node, fd: int)
      requires InStep() && Coherent(view) && fd in view.index && view.index[fd] == item && item in items
      modifies this`view, this`readableFdset, this`writeableFdset, this`connectionCount, item`connection
      modifies nodes`next, nodes`prev
      ensures item in old(view).item && InStep() && view == Remove(old(view), fd) && item.connection == null
    {
      hide Linked, Inv, Filled, Remove;
      ghost var v := view;
      InStepInv();
      RemoveKeepsCoherent(v, fd);
      RemoveRest(v, fd);
      Release(item, v, fd);
      Vacate(item, fd, Remove(v, fd));
    }

    /** Takes `fd`, whose slot has been emptied, out of the index. */
    method Forget(fd: int)
      requires InStep() && Coherent(view) && index.nodes == nodes && index.Valid()
      requires fd in index.contents && view.index == index.contents - {fd}
      modifies index`contents, index.repr
      ensures Valid()
    {
      hide InStep, Inv, FdIndex.Valid;
      index.ReprTypes();
      index.Delete(fd);
    }

    /** Removes the connection in slot `item`, which is registered under `fd`. */
    method RemoveItem(item: Node, con: Connection, fd: int)
      requires Valid() && fd in view.index && view.index[fd] == item && item in items && item.connection == con
      modifies this`view, this`readableFdset, this`writeableFdset, this`connectionCount, item`connection
      modifies nodes`next, nodes`prev, index`contents, index.repr, con`managed
      ensures Valid() && item in old(view).item && view == Remove(old(view), fd)
      ensures !con.managed && item.connection == null
    {
      hide InStep, Inv, FdIndex.Valid, Remove;
      ghost var v := view;
      index.ReprTypes();
      InStepInv();
      RemoveRest(v, fd);
      RemoveKeepsCoherent(v, fd);
      con.managed := false;
      Expel(item, fd);
      Forget(fd);
    }

    /** Takes the connection registered under the fd of `con` out of the manager's control. */
    method RemoveConnection(con: Connection) returns (ok: bool)
      requires Valid()
      modifies this`view, this`readableFdset, this`writeableFdset, this`connectionCount, nodes`connection
      modifies nodes`next, nodes`prev, index`contents, index.repr, Registered(con.fd)`managed
      ensures Valid()
      ensures ok <==> con.fd in old(view.index)
      ensures ok ==> old(view.index[con.fd]) in old(view).item && view == Remove(old(view), con.fd)
      ensures forall c :: c in old(Registered(con.fd)) ==> !c.managed
      ensures !ok ==> view == old(view)
    {
      hide InStep, Inv, FdIndex.Valid, Remove, Registered;
      InStepInv();
      var item := index.Lookup(con.fd);
      if item != null {
        RegisteredIs(con.fd);
        RemoveItem(item, item.connection, con.fd);
        return true;
      }
      NotRegistered(con.fd);
      return false;
    }

    lemma ServiceableFirst(v: View)
      requires Linked(v)
      ensures serviceableConnections.next == if v.serviceable == [] then serviceableConnections else v.serviceable[0]
      ensures v.serviceable != [] ==> v.serviceable[0] in items && v.serviceable[0] != serviceableConnections
    {
      var r := [serviceableConnections] + v.serviceable;
      assert r in Rings(v);
      RingLinks(r, 0);
      if v.serviceable != [] { assert v.serviceable[0] in v.serviceable; }
    }

    lemma ServeUnlinks(v: View)
      requires ListsApart(v) && v.serviceable != []
      ensures var u := ConnectionState.Unlink(v, v.serviceable[0]);
        u.active == v.active && u.serviceable == v.serviceable[1..] && u.free == v.free
    {
    }

    lemma ServeSame(v: View)
      requires v.serviceable != [] && ListsApart(v) && Linked(ConnectionState.Unlink(v, v.serviceable[0])) && Filled(v)
      ensures Linked(Serve(v)) && Filled(Serve(v))
    {
      ServeUnlinks(v);
      LinkedSame(ConnectionState.Unlink(v, v.serviceable[0]), Serve(v));
    }

    /** Takes the slot `item` off the front of the serviceable list. */
    method TakeServiceable(item: Node)
      requires InStep() && Coherent(view) && view.serviceable != [] && item == view.serviceable[0] && item in items
      modifies this`view, this`serviceableCount, nodes`next, nodes`prev
      ensures InStep() && Coherent(view) && view == Serve(old(view)) && item.connection != null
    {
      hide Linked, Inv, Filled;
      ghost var v := view;
      InStepInv();
      ServeKeepsCoherent(v);
      ServedCon(v);
      Unlink(item, v);
      ServeSame(v);
      serviceableCount := serviceableCount - 1;
      view := Serve(v);
    }

    /** Takes the first connection that waits to be served off the serviceable list. */
    method GetNextServiceableConnection() returns (con: Connection?)
      requires Valid()
      modifies this`view, this`serviceableCount, nodes`next, nodes`prev
      ensures Valid()
      ensures if old(view.serviceable) == [] then con == null && view == old(view)
        else con != null && con == old(view.serviceable[0].connection) && view == Serve(old(view))
    {
      hide Inv, FdIndex.Valid, Serve, Shaped, Rings, Filled;
      index.ReprTypes();
      ServiceableFirst(view);
      if serviceableConnections.next == serviceableConnections {
        return null;
      }
      var item := serviceableConnections.next;
      ServeIndex(view);
      TakeServiceable(item);
      con := item.connection;
    }

    lemma ServeIndex(v: View)
      requires v.serviceable != []
      ensures Serve(v).index == v.index
    {
    }

    lemma ServedCon(v: View)
      requires Inv(v) && v.serviceable != []
      ensures v.serviceable[0] in v.item && v.item[v.serviceable[0]].con.Some?
    {
      assert v.serviceable[0] in v.serviceable;
    }

    /** `TrackCnxIoMode` between two operations. */
    method Follow(item: Node, con: Connection, ioMode: IoMode) returns (ghost r: Report)
      requires Valid() && item in items && item.connection == con
      modifies this`view, this`readableFdset, this`writeableFdset, this`serviceableCount, this`clock
      modifies this`ioErrors, this`ioRxErrors, this`ioTxErrors
      modifies item`bestBefore, item`lastIoMode, nodes`next, nodes`prev, con`timeout, con`dead, con`calls
      ensures Valid() && view.index == old(view.index) && item.connection == con
      ensures ListsApart(old(view)) && item in old(view).item
      ensures view == TrackAll(old(view), item, r) && r.mode == ioMode
      ensures r.due > old(clock) && r.sentDue > old(clock) && clock >= old(clock)
      ensures Dated(r, old(clock), clock) && r.span == old(con.timeout) && con.timeout == r.sentSpan
      ensures con.calls == old(con.calls) + FastSend(old(view).item[item].mode, r)
    {
      hide InStep, Inv, FdIndex.Valid, TrackAll, FastSend;
      ghost var v := view;
      InStepInv();
      r := TrackRegistered(item, ioMode);
      TrackAllKeepsCoherent(v, item, r);
    }

    lemma ValidRepr()
      requires Valid()
      ensures forall o :: o in index.repr ==> o is Bucket || o is array<Node?>
      ensures index.Valid() && index.contents == view.index
    {
      index.ReprTypes();
    }

    /** What follows every callback: the io mode is tracked, and a connection reported dead is
        removed and shut down, or reset if it must not be destroyed. */
    method Handle(item: Node, con: Connection, ioMode: IoMode) returns (ghost r: Report, ghost again: Report)
      requires Valid() && con.fd in view.index && view.index[con.fd] == item && item in items && item.connection == con
      modifies this`view, this`readableFdset, this`writeableFdset, this`serviceableCount, this`clock
      modifies this`ioErrors, this`ioRxErrors, this`ioTxErrors, this`connectionCount
      modifies item`bestBefore, item`lastIoMode, item`connection, nodes`next, nodes`prev
      modifies con`timeout, con`dead, con`calls, con`managed, index`contents, index.repr
      ensures Valid() && ListsApart(old(view)) && item in old(view).item
      ensures view == Handled(old(view), item, con.fd, r, con.autoDestroyable, again)
      ensures r.due > old(clock) && r.sentDue > old(clock) && again.due > old(clock) && again.sentDue > old(clock)
      ensures Dated(r, old(clock), clock) && Dated(again, old(clock), clock) && r.span == old(con.timeout)
      ensures clock >= old(clock) && r.mode == ioMode
      ensures item.connection == con || item.connection == null
      ensures con.calls == old(con.calls) + FollowUp(old(view).item[item].mode, r, con.autoDestroyable, again)
    {
      hide Valid, TrackAll, Remove, ListsApart, FastSend, Dated;
      ghost var v := view;
      r := Follow(item, con, ioMode);
      TrackAllSlots(v, item, r);
      ValidRepr();
      again := r;
      ghost var before, later := old(con.calls) + FastSend(v.item[item].mode, r), clock;
      if ioMode.dead {
        again := Bury(item, con);
      }
      DatedWithin(r, old(clock), later, old(clock), clock);
      if ioMode.dead {
        DatedWithin(again, later, clock, old(clock), clock);
      }
      assert con.calls == before + con.calls[|before|..];
    }

    /** Removes a connection and shuts it down. */
    method Destroy(item: Node, con: Connection)
      requires Valid() && con.fd in view.index && view.index[con.fd] == item && item in items && item.connection == con
      modifies this`view, this`readableFdset, this`writeableFdset, this`connectionCount
      modifies item`connection, nodes`next, nodes`prev, con`dead, con`calls, con`managed, index`contents, index.repr
      ensures Valid() && item in old(view).item && con.fd in old(view).index
      ensures view == Remove(old(view), con.fd) && item.connection == null
      ensures con.dead && con.calls == old(con.calls) + [ShutDown]
    {
      hide Valid, Remove;
      ValidRepr();
      RemoveItem(item, con, con.fd);
      ValidRepr();
      con.Shutdown();
    }

    /** Removes a connection reported dead and shuts it down, or resets it if it must not be
        destroyed. */
    method Bury(item: Node, con: Connection) returns (ghost again: Report)
      requires Valid() && con.fd in view.index && view.index[con.fd] == item && item in items && item.connection == con
      modifies this`view, this`readableFdset, this`writeableFdset, this`serviceableCount, this`clock
      modifies this`ioErrors, this`ioRxErrors, this`ioTxErrors, this`connectionCount
      modifies item`bestBefore, item`lastIoMode, item`connection, nodes`next, nodes`prev
      modifies con`timeout, con`dead, con`calls, con`managed, index`contents, index.repr
      ensures Valid() && item in old(view).item && ListsApart(old(view))
      ensures con.fd in old(view).index && old(view).index[con.fd] == item
      ensures view == if con.autoDestroyable then Remove(old(view), con.fd) else TrackAll(old(view), item, again)
      ensures again.due > old(clock) && again.sentDue > old(clock) && clock >= old(clock)
      ensures Dated(again, old(clock), clock)
      ensures item.connection == con || item.connection == null
      ensures con.calls == old(con.calls) +
        if con.autoDestroyable then [ShutDown] else [Restored(again.mode, again.span)] + FastSend(old(view).item[item].mode, again)
    {
      hide Valid, TrackAll, Remove, ListsApart, FastSend, Dated, Unasked;
      RegisteredItem(con.fd);
      ValidRepr();
      if con.autoDestroyable {
        again := Unasked(clock);
        Destroy(item, con);
      } else {
        var reset := con.Reset();
        again := Follow(item, con, reset);
      }
    }

    /** The io mode of `con` is tracked in the slot registered for its fd. */
    method Reactivate(item: Node, registered: Connection, con: Connection) returns (ghost r: Report)
      requires Valid() && con.fd in view.index && view.index[con.fd] == item && item in items && item.connection == registered
      requires registered.fd == con.fd
      modifies this`view, this`readableFdset, this`writeableFdset, this`serviceableCount, this`clock
      modifies this`ioErrors, this`ioRxErrors, this`ioTxErrors
      modifies item`bestBefore, item`lastIoMode, nodes`next, nodes`prev
      modifies con`timeout, con`dead, con`calls, registered`timeout, registered`dead, registered`calls
      ensures Valid() && ListsApart(old(view)) && item in old(view).item && view == TrackAll(old(view), item, r)
      ensures view.index == old(view.index) && item.connection == registered && item in view.item
      ensures con.calls == old(con.calls) + Early(old(view).item[item].mode, Asked(r.mode, old(con.timeout)), registered == con, r)
      ensures registered != con ==> registered.calls == old(registered.calls) + FastSend(old(view).item[item].mode, r)
      ensures Dated(r, old(clock), clock) && r.span == old(registered.timeout)
    {
      hide InStep, Inv, FdIndex.Valid, TrackAll, ListsApart, FastSend, Dated;
      ghost var v := view;
      ValidRepr();
      var mode := con.GetIoMode();
      r := Follow(item, registered, mode);
      TrackAllKeepsApart(v, item, r);
    }

    /** So is what `con` answers when it is reset. */
    method Restore(item: Node, registered: Connection, con: Connection) returns (ghost r: Report, ghost first: Call)
      requires Valid() && con.fd in view.index && view.index[con.fd] == item && item in items && item.connection == registered
      requires registered.fd == con.fd
      modifies this`view, this`readableFdset, this`writeableFdset, this`serviceableCount, this`clock
      modifies this`ioErrors, this`ioRxErrors, this`ioTxErrors
      modifies item`bestBefore, item`lastIoMode, nodes`next, nodes`prev
      modifies con`timeout, con`dead, con`calls, registered`timeout, registered`dead, registered`calls
      ensures Valid() && ListsApart(old(view)) && item in old(view).item && view == TrackAll(old(view), item, r)
      ensures view.index == old(view.index) && item.connection == registered && item in view.item
      ensures con.calls == old(con.calls) + Early(old(view).item[item].mode, first, registered == con, r)
      ensures registered != con ==> registered.calls == old(registered.calls) + FastSend(old(view).item[item].mode, r)
      ensures first.Restored? && first.mode == r.mode && (registered == con ==> r.span == first.span)
      ensures Dated(r, old(clock), clock) && (registered != con ==> r.span == old(registered.timeout))
    {
      hide InStep, Inv, FdIndex.Valid, TrackAll, ListsApart, FastSend, Dated;
      ghost var v := view;
      ValidRepr();
      var mode := con.Reset();
      first := Restored(mode, con.timeout);
      r := Follow(item, registered, mode);
      TrackAllKeepsApart(v, item, r);
    }

    /** Brings a served connection back into play. A dead one is destroyed if that is allowed;
        otherwise it is reset and the call fails. What is tracked and removed is the connection
        registered under the same fd, which should be the same one. */
    method TrackConnection(con: Connection) returns (ok: bool, ghost r: Report)
      requires Valid()
      modifies this, nodes, index, index.repr, con, Registered(con.fd)
      ensures Valid()
      ensures BroughtBack(old(view), view, con, old(con.dead), con.dead, ok, r)
      ensures old(con.calls) <= con.calls
      ensures Heard(old(view), con, old(con.dead), con.dead, ok, Asked(r.mode, old(con.timeout)), r, true, con.calls[|old(con.calls)|..])
      ensures con.fd in old(view.index) && !old(con.dead) ==>
        Dated(r, old(clock), clock) && forall c :: c in old(Registered(con.fd)) ==> r.span == old(c.timeout)
    {
      hide Valid, InStep, Inv, FdIndex.Valid, TrackAll, Remove, ListsApart, Early, Heard, Dated;
      ghost var v := view;
      ghost var early: seq<Call>, late: seq<Call> := [], [];
      r := NO_REPORT;
      ValidRepr();
      var item := index.Lookup(con.fd);
      if item == null {
        ok := false;
        HeardNothing(v, con, old(con.dead), con.dead, ok, Asked(r.mode, old(con.timeout)), r, true, early + late);
      } else {
        RegisteredSlot(con.fd);
        ok := !con.dead;
        if ok {
          r := Reactivate(item, item.connection, con);
          early := Early(v.item[item].mode, Asked(r.mode, old(con.timeout)), v.item[item].con == Some(con), r);
          ok := !con.dead;
        }
        if !ok {
          ghost var last;
          ok, last := Retire(item, item.connection, con);
          late := [last];
        }
        HeardSo(v, con, old(con.dead), con.dead, ok, Asked(r.mode, old(con.timeout)), r, true, early, late);
      }
      assert con.calls == old(con.calls) + (early + late);
      assert con.calls[|old(con.calls)|..] == early + late;
    }

    /** Shuts a dead connection down and removes it, if it may be destroyed. */
    method Discard(item: Node, registered: Connection, con: Connection) returns (ok: bool)
      requires Valid() && con.fd in view.index && view.index[con.fd] == item && item in items && item.connection == registered
      modifies this`view, this`readableFdset, this`writeableFdset, this`connectionCount
      modifies item`lastIoMode, item`connection, nodes`next, nodes`prev
      modifies con`timeout, con`dead, con`calls, registered`managed, index`contents, index.repr
      ensures Valid() && ok == con.autoDestroyable && (ok ==> con.dead)
      ensures con.fd in old(view.index) && old(view.index)[con.fd] in old(view).item
      ensures view == if ok then Remove(old(view), con.fd) else old(view)
      ensures !ok ==> con.dead == old(con.dead)
      ensures con.calls == old(con.calls) + if ok then [ShutDown] else []
    {
      hide Valid, Remove;
      RegisteredItem(con.fd);
      ok := con.autoDestroyable;
      if ok {
        ValidRepr();
        con.Shutdown();
        RemoveItem(item, registered, con.fd);
      }
    }

    /** Discards a dead connection, or else tries to reset it nevertheless. */
    method Retire(item: Node, registered: Connection, con: Connection) returns (ok: bool, ghost last: Call)
      requires Valid() && con.fd in view.index && view.index[con.fd] == item && item in items && item.connection == registered
      modifies this`view, this`readableFdset, this`writeableFdset, this`connectionCount
      modifies item`lastIoMode, item`connection, nodes`next, nodes`prev
      modifies con`timeout, con`dead, con`calls, registered`managed, index`contents, index.repr
      ensures Valid() && ok == con.autoDestroyable && (ok ==> con.dead)
      ensures con.fd in old(view.index) && old(view.index)[con.fd] in old(view).item
      ensures view == if ok then Remove(old(view), con.fd) else old(view)
      ensures con.calls == old(con.calls) + [last] && if ok then last == ShutDown else last.Restored?
    {
      hide InStep, Inv, FdIndex.Valid, Remove;
      ok := Discard(item, registered, con);
      last := ShutDown;
      if !ok {
        ValidRepr();
        var reset := con.Reset();
        last := Restored(reset, con.timeout);
      }
    }

    /** Resets a connection from outside; a dead one is destroyed if that is allowed. */
    method ResetConnection(con: Connection) returns (ok: bool, ghost r: Report, ghost first: Call)
      requires Valid()
      modifies this, nodes, index, index.repr, con, Registered(con.fd)
      ensures Valid()
      ensures BroughtBack(old(view), view, con, old(con.dead), con.dead, ok, r)
      ensures old(con.calls) <= con.calls
      ensures Heard(old(view), con, old(con.dead), con.dead, ok, first, r, false, con.calls[|old(con.calls)|..])
      ensures con.fd in old(view.index) && !old(con.dead) ==>
        Dated(r, old(clock), clock) && first.Restored? && first.mode == r.mode &&
        forall c :: c in old(Registered(con.fd)) ==> r.span == if c == con then first.span else old(c.timeout)
    {
      hide Valid, InStep, Inv, FdIndex.Valid, TrackAll, Remove, ListsApart, Early, Heard, Dated;
      ghost var v := view;
      ghost var early: seq<Call>, late: seq<Call> := [], [];
      r, first := NO_REPORT, Restored(DORMANT, 0);
      ValidRepr();
      var item := index.Lookup(con.fd);
      if item == null {
        ok := false;
        HeardNothing(v, con, old(con.dead), con.dead, ok, first, r, false, early + late);
      } else {
        RegisteredSlot(con.fd);
        ok := !con.dead;
        if ok {
          r, first := Restore(item, item.connection, con);
          early := Early(v.item[item].mode, first, v.item[item].con == Some(con), r);
          ok := !con.dead;
        }
        if !ok {
          ok := Discard(item, item.connection, con);
          late := if ok then [ShutDown] else [];
        }
        HeardSo(v, con, old(con.dead), con.dead, ok, first, r, false, early, late);
      }
      assert con.calls == old(con.calls) + (early + late);
      assert con.calls[|old(con.calls)|..] == early + late;
    }

    // ---------- callbacks ----------

    /** Calls `con` back and follows what it answers. */
    method ServeItem(item: Node, con: Connection, cause: Cause) returns (ghost a: Answer)
      requires Valid() && con.fd in view.index && view.index[con.fd] == item && item in items && item.connection == con
      modifies this`view, this`readableFdset, this`writeableFdset, this`serviceableCount, this`clock
      modifies this`ioErrors, this`ioRxErrors, this`ioTxErrors, this`connectionCount
      modifies item`bestBefore, item`lastIoMode, item`connection, nodes`next, nodes`prev
      modifies con`timeout, con`dead, con`calls, con`managed, index`contents, index.repr
      ensures Valid() && (item.connection == con || item.connection == null)
      ensures Coherent(old(view)) && view == Attended(old(view), con.fd, a)
      ensures con.calls == old(con.calls) + ServedCalls(old(view), con.fd, a, cause)
      ensures WellDated(a, old(clock), clock) && clock >= old(clock)
      ensures a.r.due > old(clock) && a.r.sentDue > old(clock) && a.again.due > old(clock) && a.again.sentDue > old(clock)
    {
      hide Valid, Handled, FollowUp, Coherent, Attended, ServedCalls, ListsApart, Dated;
      ghost var v := view;
      ValidRepr();
      RegisteredSlot(con.fd);
      ValidCoherent();
      ghost var before := con.calls;
      var ioMode := con.CallBack(cause);
      ghost var r, again := Handle(item, con, ioMode);
      a := Answer(r, again);
      AttendedIs(v, item, con, a, cause);
      assert con.calls == before + ServedCalls(v, con.fd, a, cause);
    }

    lemma AttendedIs(v: View, item: Node, con: Connection, a: Answer, cause: Cause)
      requires Coherent(v) && ListsApart(v) && con.fd in v.index && v.index[con.fd] == item && item in v.item
      requires v.item[item].con == Some(con)
      ensures Attended(v, con.fd, a) == Handled(v, item, con.fd, a.r, con.autoDestroyable, a.again)
      ensures ServedCalls(v, con.fd, a, cause) ==
        [First(cause, a.r.mode, a.r.span)] + FollowUp(v.item[item].mode, a.r, con.autoDestroyable, a.again)
    {
      hide Handled, Coherent, ListsApart, FollowUp;
    }

    // ---------- timeouts ----------

    method MayHaveTimeout() returns (may: bool)
      requires Valid()
      ensures may <==> view.active != []
    {
      ActiveFirst();
      may := activeConnections.next != activeConnections;
    }

    lemma ActiveFirst()
      requires InStep()
      ensures activeConnections.next == if view.active == [] then activeConnections else view.active[0]
      ensures activeConnections !in view.active
    {
      ActiveRing(view);
      RingLinks([activeConnections] + view.active, 0);
    }

    /** The earliest due time among the supervised connections. */
    method GetEarliestTimeout() returns (t: int)
      requires Valid()
      ensures view.active == [] ==> t == FAR_AWAY
      ensures view.active != [] ==> exists x :: x in view.active && x.bestBefore == t
      ensures forall x :: x in view.active ==> t <= x.bestBefore
    {
      var may := MayHaveTimeout();
      if !may {
        return FAR_AWAY;
      }
      ActiveFirst();
      EarliestFirst();
      t := activeConnections.next.bestBefore;
    }

    lemma EarliestFirst()
      requires InStep()
      ensures view.active != [] ==> view.active[0] in view.active
      ensures forall x :: x in view.active ==> view.active[0].bestBefore <= x.bestBefore
    {
      forall x | x in view.active ensures view.active[0].bestBefore <= x.bestBefore {
        var i :| 0 <= i < |view.active| && view.active[i] == x;
        ActiveDue();
        assert view.active[0] in view.active;
        assert i > 0 ==> view.item[view.active[0]].best <= view.item[view.active[i]].best;
      }
    }

    /** The time left until then; nothing if it has passed. */
    method GetEarliestTimeoutSpan() returns (span: int)
      requires Valid()
      modifies this`clock
      ensures clock >= old(clock) && Valid()
      ensures view.active == [] ==> span == FAR_AWAY
      ensures view.active != [] ==> exists x :: x in view.active && span == if x.bestBefore > clock then x.bestBefore - clock else 0
      ensures forall x :: x in view.active ==> span <= if x.bestBefore > clock then x.bestBefore - clock else 0
    {
      hide InStep, Inv, FdIndex.Valid, Coherent;
      ValidRepr();
      ActiveFirst();
      EarliestFirst();
      if activeConnections.next == activeConnections {
        return FAR_AWAY;
      }
      var due := activeConnections.next.bestBefore;
      var now := Now();
      return if due > now then due - now else 0;
    }

    /** Tells the connection in slot `item` that it has timed out and follows what it answers. */
    method Expire(item: Node, con: Connection, ghost now: int) returns (ghost a: Answer)
      requires Valid() && item in items && item.connection == con && now <= clock
      modifies this`view, this`readableFdset, this`writeableFdset, this`serviceableCount, this`clock
      modifies this`ioErrors, this`ioRxErrors, this`ioTxErrors, this`connectionCount
      modifies item`bestBefore, item`lastIoMode, item`connection, nodes`next, nodes`prev
      modifies con`timeout, con`dead, con`calls, con`managed, index`contents, index.repr
      ensures Valid() && Moved(old(view), view, item, now) && now <= clock
      ensures Coherent(old(view)) && con.fd in old(view).index && old(view).index[con.fd] == item
      ensures view == Attended(old(view), con.fd, a)
      ensures con.calls == old(con.calls) + ServedCalls(old(view), con.fd, a, ToExpire)
      ensures WellDated(a, old(clock), clock) && clock >= old(clock)
    {
      hide InStep, Inv, FdIndex.Valid, Handled, Moved, ListsApart, ServedCalls, Attended, WellDated;
      ghost var v := view;
      InStepInv();
      SlotIndexed(item);
      ValidRepr();
      RegisteredSlot(con.fd);
      a := ServeItem(item, con, ToExpire);
      AttendedIs(v, item, con, a, ToExpire);
      HandledMoves(v, item, con.fd, a.r, con.autoDestroyable, a.again, now);
    }

    lemma SlotIndexed(item: Node)
      requires InStep() && item in items && item.connection != null
      ensures item.connection.fd in view.index && view.index[item.connection.fd] == item && item in view.item
    {
      InStepInv();
      ItemSlot(item);
    }

    /** The connections under control, by slot. */
    ghost function Connected(): (cs: map<Node, Connection>)
      reads nodes`connection
    {
      map x | x in nodes && x in items && x.connection != null :: x.connection
    }

    /** The walk stands at `item`, which is the first of `r`, or the head at the end. */
    ghost predicate Walking(a: seq<Node>, done: seq<Node>, p: seq<Node>, r: seq<Node>, now: int, item: Node)
      reads this`view
    {
      && Cursor(view, a, done, p, r, now)
      && item == if r == [] then activeConnections else r[0]
    }

    /** The entry behind the cursor, read before the one at the cursor is served. */
    lemma WalkNext(a: seq<Node>, done: seq<Node>, p: seq<Node>, r: seq<Node>, now: int, item: Node)
      requires Valid() && Walking(a, done, p, r, now, item) && r != []
      ensures item in items && item in view.active && item.connection != null && item.bestBefore == view.item[item].best
      ensures item != activeConnections && item in nodes && item in view.item
      ensures item.next == if |r| == 1 then activeConnections else r[1]
      ensures item.bestBefore <= now ==> item !in done && |done| < |a|
    {
      hide Rings, Cursor;
      CursorAt(view, a, done, p, r, now);
      ActiveRing(view);
      ActiveDue();
      InStepInv();
      InvParts(view);
      if view.item[r[0]].best <= now { CursorNext(view, a, done, p, r, now); }
      RingLinks([activeConnections] + view.active, |p| + 1);
    }

    lemma WalkStart(now: int)
      requires Valid()
      ensures Walking(view.active, [], [], view.active, now, activeConnections.next)
    {
      ActiveFirst();
      CursorStart(view, now);
    }

    lemma WalkAt(a: seq<Node>, done: seq<Node>, p: seq<Node>, r: seq<Node>, now: int, item: Node)
      requires Valid() && Walking(a, done, p, r, now, item)
      ensures item == activeConnections <==> r == []
    {
      ActiveFirst();
      if r != [] { CursorAt(view, a, done, p, r, now); }
    }

    /** Where the walk stops, what it has not served is due later. */
    lemma WalkEnd(a: seq<Node>, done: seq<Node>, p: seq<Node>, r: seq<Node>, now: int, item: Node)
      requires Valid() && Walking(a, done, p, r, now, item) && (r == [] || item.bestBefore > now)
      ensures done <= a && forall y :: y in a && y !in done ==> y in nodes && y.bestBefore > now
    {
      hide Rings, Pending;
      InStepInv();
      InvParts(view);
      if r != [] { CursorAt(view, a, done, p, r, now); ActiveDue(); }
      InvSorted(view);
      CursorEnd(view, a, done, p, r, now);
      forall y | y in a && y !in done ensures y in nodes && y.bestBefore > now {
        assert a == done + a[|done|..];
        ItemSlot(y);
      }
    }

    /** The time of the entry at the cursor has come; `next` is the one behind it. */
    ghost predicate Elapsed(item: Node, next: Node, r: seq<Node>, now: int)
      reads this`view, item`bestBefore, item`next
    {
      && item in view.item && item.bestBefore == view.item[item].best && item.bestBefore <= now
      && r != [] && next == item.next && next == if |r| == 1 then activeConnections else r[1]
    }

    /** Serves the expired entry at the cursor; the cursor moves on to `next`. */
    method WalkStep(item: Node, con: Connection, next: Node, ghost a: seq<Node>, ghost done: seq<Node>,
          ghost p: seq<Node>, ghost r: seq<Node>, ghost now: int)
      returns (ghost p': seq<Node>, ghost r': seq<Node>, ghost answer: Answer)
      requires Valid() && Walking(a, done, p, r, now, item) && r != [] && now <= clock
      requires item in items && item in nodes && item.connection == con && Elapsed(item, next, r, now)
      modifies this`view, this`readableFdset, this`writeableFdset, this`serviceableCount, this`clock
      modifies this`ioErrors, this`ioRxErrors, this`ioTxErrors, this`connectionCount
      modifies item`bestBefore, item`lastIoMode, item`connection, nodes`next, nodes`prev
      modifies con`timeout, con`dead, con`calls, con`managed, index`contents, index.repr
      ensures Valid() && Walking(a, done + [item], p', r', now, next) && now <= clock
      ensures |done| < |a| && item !in done
      ensures Attends(old(view), view, con.fd, answer)
      ensures con.calls == old(con.calls) + ServedCalls(old(view), con.fd, answer, ToExpire)
      ensures OnceExpired(old(con.calls), con.calls)
      ensures WellDated(answer, old(clock), clock) && clock >= old(clock)
    {
      hide InStep, Inv, FdIndex.Valid, Cursor, Moved, ListsApart, ServedCalls, Attended, WellDated, OnceExpired;
      ghost var v := view;
      InStepInv();
      ApartDistinct(v);
      CursorAt(v, a, done, p, r, now);
      CursorNext(v, a, done, p, r, now);
      answer := Expire(item, con, now);
      CoherentSlot(v, con.fd);
      ServedOnce(v, con.fd, answer, old(con.calls));
      p', r' := CursorStep(v, view, a, done, p, r, now);
    }

    /** No connection is in two slots. */
    lemma RegisteredOnce()
      requires Valid()
      ensures var cons := Connected(); forall x, y :: x in cons && y in cons && cons[x] == cons[y] ==> x == y
    {
      var cons := Connected();
      forall x, y | x in cons && y in cons && cons[x] == cons[y] ensures x == y {
        SlotIndexed(x);
        SlotIndexed(y);
      }
    }

    ghost function CallLists(): (es: map<Node, seq<Call>>)
      reads nodes`connection, Connected().Values`calls
    {
      var cons := Connected();
      map x | x in cons :: cons[x].calls
    }

    ghost function DueTimes(): (ds: map<Node, int>)
      reads nodes`bestBefore
    {
      map x | x in nodes :: x.bestBefore
    }

    /** Each connection of `cons` had the calls `es`, and since then no others than those that
        telling it of its timeout amounts to, if its slot is in `done`; the slots not in `done`
        still hold their connection of `cons`, due as in `ds`. */
    ghost predicate Told(cons: map<Node, Connection>, es: map<Node, seq<Call>>, ds: map<Node, int>, done: seq<Node>)
      reads cons.Values`calls, nodes`connection, nodes`bestBefore
    {
      && cons.Keys == es.Keys
      && (forall x :: x in cons ==> if x in done then OnceExpired(es[x], cons[x].calls) else cons[x].calls == es[x])
      && (forall x :: x in nodes && x !in done ==> x in ds && x.bestBefore == ds[x])
      && (forall x :: x in nodes && x in items && x !in done && x.connection != null ==> x in cons && x.connection == cons[x])
    }

    /** From `v` on the connections of the slots `done` have been told one after the other that they
        have timed out, and each answer has been followed, which makes `w` of `v`. */
    ghost predicate Followed(cons: map<Node, Connection>, es: map<Node, seq<Call>>, v: View, w: View, done: seq<Node>, answers: seq<Answer>)
      reads cons.Values`calls
    {
      && Coherent(v) && |done| == |answers| && cons.Keys == es.Keys
      && (forall x :: x in done ==> x in cons)
      && (forall i :: 0 <= i < |done| ==> HeardOut(cons[done[i]], es[done[i]], v, answers[i]))
      && w == Played(v, Fds(cons, done), answers)
    }

    /** `con` had the calls `before`, and since then those that telling it of its timeout amounts to
        if it answers `a`. */
    ghost predicate HeardOut(con: Connection, before: seq<Call>, v: View, a: Answer)
      reads con`calls
    {
      con.calls == before + ServedCalls(v, con.fd, a, ToExpire)
    }

    ghost function Fds(cons: map<Node, Connection>, done: seq<Node>): (fds: seq<int>)
      requires forall x :: x in done ==> x in cons
    {
      seq(|done|, i requires 0 <= i < |done| => cons[done[i]].fd)
    }

    ghost predicate AllWellDated(answers: seq<Answer>, early: int, late: int) {
      forall i :: 0 <= i < |answers| ==> WellDated(answers[i], early, late)
    }

    lemma ToldCon(cons: map<Node, Connection>, es: map<Node, seq<Call>>, ds: map<Node, int>, done: seq<Node>, x: Node)
      requires Told(cons, es, ds, done) && x in nodes && x in items && x !in done && x.connection != null
      ensures x in cons && cons[x] == x.connection && cons[x] in cons.Values && x in ds && ds[x] == x.bestBefore
      ensures x in es && es[x] == cons[x].calls
    {
    }

    lemma ToldNothing()
      requires Valid()
      ensures Told(Connected(), CallLists(), DueTimes(), [])
      ensures forall x :: x in view.active ==> x in DueTimes() && DueTimes()[x] == x.bestBefore
    {
      InStepInv();
      InvParts(view);
    }

    ghost predicate OneEach(cons: map<Node, Connection>) {
      forall x, y :: x in cons && y in cons && cons[x] == cons[y] ==> x == y
    }

    lemma OtherConnections(cons: map<Node, Connection>, item: Node)
      requires OneEach(cons)
      ensures item in cons ==> forall x :: x in cons && x != item ==> cons[x] != cons[item]
    {
    }

    /** Each connection of `cons` is registered in its slot. */
    ghost predicate Housed(cons: map<Node, Connection>, v: View) {
      && Coherent(v)
      && forall x :: x in cons ==> cons[x].fd in v.index && v.index[cons[x].fd] == x
    }

    lemma FollowedMore(cons: map<Node, Connection>, es: map<Node, seq<Call>>, v: View, t: View, w: View, done: seq<Node>,
        answers: seq<Answer>, item: Node, answer: Answer)
      requires Followed(cons, es, v, t, done, answers) && Housed(cons, v) && item in cons && item !in done && Coherent(t)
      requires cons[item].fd in t.index && w == Attended(t, cons[item].fd, answer)
      requires cons[item].calls == es[item] + ServedCalls(t, cons[item].fd, answer, ToExpire)
      ensures Followed(cons, es, v, w, done + [item], answers + [answer])
    {
      var fd, fds := cons[item].fd, Fds(cons, done);
      hide Coherent, Attended, Played, ServedCalls;
      FdOther(cons, v, done, item);
      PlayedCalls(v, fds, answers, fd, answer);
      FdsMore(cons, done, item);
      assert HeardOut(cons[item], es[item], v, answer);
      hide Fds, HeardOut;
      forall i | 0 <= i < |done + [item]| ensures HeardOut(cons[(done + [item])[i]], es[(done + [item])[i]], v, (answers + [answer])[i]) {
        assert i < |done| ==> (done + [item])[i] == done[i] && (answers + [answer])[i] == answers[i];
      }
    }

    lemma FdOther(cons: map<Node, Connection>, v: View, done: seq<Node>, item: Node)
      requires Housed(cons, v) && item in cons && item !in done && forall x :: x in done ==> x in cons
      ensures cons[item].fd !in Fds(cons, done) && cons[item].fd in v.index
    {
      hide Coherent;
      forall i | 0 <= i < |done| ensures cons[done[i]].fd != cons[item].fd { assert done[i] in done; }
    }

    lemma FdsMore(cons: map<Node, Connection>, done: seq<Node>, item: Node)
      requires item in cons && forall x :: x in done ==> x in cons
      ensures forall x :: x in done + [item] ==> x in cons
      ensures Fds(cons, done + [item]) == Fds(cons, done) + [cons[item].fd]
    {
    }

    lemma FollowedNothing(cons: map<Node, Connection>, es: map<Node, seq<Call>>, v: View)
      requires Coherent(v) && cons.Keys == es.Keys
      ensures Followed(cons, es, v, v, [], [])
    {
      hide Coherent;
      assert Fds(cons, []) == [];
    }

    /** Serving the entry at the cursor, with the record of who has been told. */
    method WalkTold(item: Node, con: Connection, next: Node, ghost a: seq<Node>, ghost done: seq<Node>,
          ghost p: seq<Node>, ghost r: seq<Node>, ghost now: int,
          ghost cons: map<Node, Connection>, ghost es: map<Node, seq<Call>>, ghost ds: map<Node, int>)
      returns (ghost p': seq<Node>, ghost r': seq<Node>, ghost answer: Answer)
      requires Valid() && Walking(a, done, p, r, now, item) && r != [] && now <= clock
      requires item in items && item in nodes && item !in done && item.connection == con && Elapsed(item, next, r, now)
      requires Told(cons, es, ds, done) && OneEach(cons)
      modifies this`view, this`readableFdset, this`writeableFdset, this`serviceableCount, this`clock
      modifies this`ioErrors, this`ioRxErrors, this`ioTxErrors, this`connectionCount
      modifies item`bestBefore, item`lastIoMode, item`connection, nodes`next, nodes`prev
      modifies con`timeout, con`dead, con`calls, con`managed, index`contents, index.repr
      ensures Valid() && Walking(a, done + [item], p', r', now, next) && now <= clock
      ensures |done| < |a| && Told(cons, es, ds, done + [item])
      ensures item in cons && con == cons[item] && (forall x :: x in cons && x != item ==> cons[x] != con)
      ensures Attends(old(view), view, con.fd, answer)
      ensures con.calls == old(con.calls) + ServedCalls(old(view), con.fd, answer, ToExpire)
      ensures WellDated(answer, old(clock), clock) && clock >= old(clock)
    {
      hide InStep, Inv, FdIndex.Valid, Walking, Valid, OneEach, OnceExpired, Coherent, Attends, ServedCalls, WellDated, Elapsed;
      ValidRepr();
      OtherConnections(cons, item);
      assert item in cons && con == cons[item];
      p', r', answer := WalkStep(item, con, next, a, done, p, r, now);
    }

    lemma CoherentSlot(v: View, fd: int)
      requires Coherent(v) && fd in v.index
      ensures v.index[fd] in v.item
    {
      SlotsApart(v);
    }

    /** The same, with the record of what was answered and followed. */
    method WalkFollowed(item: Node, con: Connection, next: Node, ghost a: seq<Node>, ghost done: seq<Node>,
          ghost p: seq<Node>, ghost r: seq<Node>, ghost now: int,
          ghost cons: map<Node, Connection>, ghost es: map<Node, seq<Call>>, ghost ds: map<Node, int>,
          ghost v: View, ghost answers: seq<Answer>)
      returns (ghost p': seq<Node>, ghost r': seq<Node>, ghost answer: Answer)
      requires Valid() && Walking(a, done, p, r, now, item) && r != [] && now <= clock
      requires item in items && item in nodes && item !in done && item.connection == con && Elapsed(item, next, r, now)
      requires Told(cons, es, ds, done) && OneEach(cons)
      requires Followed(cons, es, v, view, done, answers) && Housed(cons, v)
      modifies this`view, this`readableFdset, this`writeableFdset, this`serviceableCount, this`clock
      modifies this`ioErrors, this`ioRxErrors, this`ioTxErrors, this`connectionCount
      modifies item`bestBefore, item`lastIoMode, item`connection, nodes`next, nodes`prev
      modifies con`timeout, con`dead, con`calls, con`managed, index`contents, index.repr
      ensures Valid() && Walking(a, done + [item], p', r', now, next) && now <= clock
      ensures |done| < |a| && Told(cons, es, ds, done + [item])
      ensures Followed(cons, es, v, view, done + [item], answers + [answer])
      ensures WellDated(answer, old(clock), clock) && clock >= old(clock)
    {
      hide Valid, Walking, Told, OneEach, Coherent, Attended, ServedCalls, WellDated, Housed, Fds, Played, HeardOut, Elapsed;
      ghost var t := view;
      ValidRepr();
      ToldCon(cons, es, ds, done, item);
      p', r', answer := WalkTold(item, con, next, a, done, p, r, now, cons, es, ds);
      forall i | 0 <= i < |done| ensures HeardOut(cons[done[i]], es[done[i]], v, answers[i]) {
        assert done[i] in done && old(HeardOut(cons[done[i]], es[done[i]], v, answers[i]));
      }
      FollowedMore(cons, es, v, t, view, done, answers, item, answer);
    }

    /** Serves the connections due by `t`. */
    method ServeExpired(t: int) returns (ghost done: seq<Node>, ghost answers: seq<Answer>)
      requires Valid() && t <= clock
      modifies this, nodes, index`contents, index.repr, Connected().Values
      ensures Valid() && t <= clock && done <= old(view.active)
      ensures Told(old(Connected()), old(CallLists()), old(DueTimes()), done)
      ensures Followed(old(Connected()), old(CallLists()), old(view), view, done, answers) && AllWellDated(answers, old(clock), clock)
      ensures forall x :: x in old(view.active) ==> x in old(DueTimes()) && (x in done <==> old(DueTimes())[x] <= t)
    {
      hide Valid, Walking, Connected, CallLists, DueTimes, Told, Followed, Housed, AllWellDated, Coherent;
      RegisteredOnce();
      ToldNothing();
      WalkStart(t);
      HousedAtFirst();
      ghost var cons, es, ds, v, early := Connected(), CallLists(), DueTimes(), view, clock;
      ghost var a, p, r := view.active, [], view.active;
      var item := activeConnections.next;
      done, answers := [], [];
      while item != activeConnections
        invariant index.repr == old(index.repr) && Valid() && t <= clock && Walking(a, done, p, r, t, item)
        invariant Told(cons, es, ds, done)
        invariant Followed(cons, es, v, view, done, answers) && AllWellDated(answers, early, clock) && early <= clock
        invariant forall x :: x in done ==> x in ds && ds[x] <= t
        decreases |a| - |done|
      {
        ValidRepr();
        WalkAt(a, done, p, r, t, item);
        WalkNext(a, done, p, r, t, item);
        var next := item.next;
        if item.bestBefore <= t {
          ToldCon(cons, es, ds, done, item);
          ghost var before, answer := clock, NO_ANSWER;
          p, r, answer := WalkFollowed(item, item.connection, next, a, done, p, r, t, cons, es, ds, v, answers);
          WellDatedMore(answers, answer, early, before, clock);
          done, answers := done + [item], answers + [answer];
          item := next;
        } else {
          break;
        }
      }
      WalkAt(a, done, p, r, t, item);
      WalkEnd(a, done, p, r, t, item);
      ToldDue(cons, es, ds, done, a, t);
    }

    lemma HousedAtFirst()
      requires Valid()
      ensures Housed(Connected(), view) && Followed(Connected(), CallLists(), view, view, [], [])
      ensures AllWellDated([], clock, clock)
    {
      AllIndexed();
      FollowedNothing(Connected(), CallLists(), view);
    }

    lemma WellDatedMore(answers: seq<Answer>, a: Answer, early: int, now: int, late: int)
      requires AllWellDated(answers, early, now) && early <= now <= late && WellDated(a, now, late)
      ensures AllWellDated(answers + [a], early, late)
    {
      var more := answers + [a];
      forall i | 0 <= i < |more| ensures WellDated(more[i], early, late) {
        assert i < |answers| ==> more[i] == answers[i];
      }
    }

    /** Serves every connection that has timed out by now, each once, in order of due time, and
        follows its answer. */
    method ProcessTimeout() returns (ghost done: seq<Node>, ghost now: int, ghost answers: seq<Answer>)
      requires Valid()
      modifies this, nodes, index`contents, index.repr, Connected().Values
      ensures Valid() && now >= old(clock) && done <= old(view.active)
      ensures forall x :: x in old(view.active) ==> x in old(DueTimes()) && (x in done <==> old(DueTimes())[x] <= now)
      ensures Told(old(Connected()), old(CallLists()), old(DueTimes()), done)
      ensures Followed(old(Connected()), old(CallLists()), old(view), view, done, answers) && AllWellDated(answers, now, clock)
    {
      hide InStep, Inv, FdIndex.Valid, Told, Followed, AllWellDated;
      ValidRepr();
      var t := Now();
      assert Connected() == old(Connected()) && CallLists() == old(CallLists()) && DueTimes() == old(DueTimes());
      now := t;
      done, answers := ServeExpired(t);
    }

    lemma ToldDue(cons: map<Node, Connection>, es: map<Node, seq<Call>>, ds: map<Node, int>, done: seq<Node>, a: seq<Node>, now: int)
      requires Told(cons, es, ds, done) && forall x :: x in done ==> x in ds && ds[x] <= now
      requires forall y :: y in a && y !in done ==> y in nodes && y.bestBefore > now
      ensures forall x :: x in a ==> x in ds && (x in done <==> ds[x] <= now)
    {
    }

    // ---------- serving ready connections ----------

    /** The slots have kept their connections of `cons` or lost them. */
    ghost predicate KeptOrLost(cons: map<Node, Connection>)
      reads nodes`connection
    {
      forall x :: x in nodes && x in items && x.connection != null ==> x in cons && x.connection == cons[x]
    }

    /** Each connection of `cons` had the calls `before`, and that of `item` the calls `more` besides. */
    ghost predicate Grew(cons: map<Node, Connection>, before: map<Node, seq<Call>>, item: Node?, more: seq<Call>)
      reads cons.Values`calls
    {
      && cons.Keys == before.Keys
      && forall x :: x in cons ==> cons[x].calls == before[x] + if item in cons && cons[x] == cons[item] then more else []
    }

    /** `ServeItem`, after which the other slots still have their connections. */
    method ServeKept(item: Node, con: Connection, cause: Cause, ghost cons: map<Node, Connection>, ghost before: map<Node, seq<Call>>)
      returns (ghost a: Answer)
      requires Valid() && con.fd in view.index && view.index[con.fd] == item && item in items && item.connection == con
      requires KeptOrLost(cons) && item in cons && cons[item] == con && Grew(cons, before, null, [])
      modifies this`view, this`readableFdset, this`writeableFdset, this`serviceableCount, this`clock
      modifies this`ioErrors, this`ioRxErrors, this`ioTxErrors, this`connectionCount
      modifies item`bestBefore, item`lastIoMode, item`connection, nodes`next, nodes`prev
      modifies con`timeout, con`dead, con`calls, con`managed, index`contents, index.repr
      ensures Valid() && KeptOrLost(cons)
      ensures Coherent(old(view)) && view == Attended(old(view), con.fd, a)
      ensures Grew(cons, before, item, ServedCalls(old(view), con.fd, a, cause))
      ensures WellDated(a, old(clock), clock) && clock >= old(clock)
    {
      hide Valid, Coherent, ServedCalls, Attended, WellDated;
      ValidRepr();
      a := ServeItem(item, con, cause);
    }

    /** No other slot than that of the index had the connection registered for an fd. */
    ghost predicate AtHome(cons: map<Node, Connection>, v: View) {
      forall x :: x in cons && cons[x].fd in v.index ==> v.index[cons[x].fd] == x
    }

    /** Each connection of `cons` had the calls `was`, and then those that serving the ready fds
        amounts to for it: none if its fd was not served, and else one and what follows upon it. */
    ghost predicate AllHeard(cons: map<Node, Connection>, was: map<Node, seq<Call>>, v: View, ready: set<int>, answers: seq<Answer>, cause: Cause)
      reads cons.Values`calls
    {
      cons.Keys == was.Keys &&
      forall x :: x in cons ==> cons[x].calls == was[x] + RoundCalls(v, ready, answers, cons[x].fd, cause)
    }

    lemma Kept(cons: map<Node, Connection>, fd: int)
      requires Valid() && KeptOrLost(cons) && fd in view.index
      ensures var item := view.index[fd];
        item in nodes && item in items && item in view.item && item.connection != null && item.connection.fd == fd
        && item in cons && cons[item] == item.connection && cons[item] in cons.Values
    {
      RegisteredIs(fd);
      InStepInv();
    }

    /** Lets the connection of `fd` send or receive and follows what it answers. */
    method ServeFd(fd: int, cause: Cause, ghost cons: map<Node, Connection>, ghost before: map<Node, seq<Call>>)
      returns (item: Node?, ghost a: Answer)
      requires Valid() && KeptOrLost(cons) && Grew(cons, before, null, [])
      modifies this, nodes, index`contents, index.repr, cons.Values
      ensures Valid() && KeptOrLost(cons) && index.repr == old(index.repr)
      ensures item != null <==> fd in old(view.index)
      ensures item != null ==> item == old(view.index[fd]) && item in cons && cons[item].fd == fd
      ensures Coherent(old(view)) && view == if item != null then Attended(old(view), fd, a) else old(view)
      ensures Grew(cons, before, item, ServedCalls(old(view), fd, a, cause))
      ensures clock >= old(clock) && (item != null ==> WellDated(a, old(clock), clock))
    {
      hide Valid, FdIndex.Valid, Coherent, ServedCalls, Attended, Grew, WellDated;
      ValidRepr();
      ValidCoherent();
      item := index.Lookup(fd);
      a := NO_ANSWER;
      if item != null {
        Kept(cons, fd);
        hide KeptOrLost;
        a := ServeKept(item, item.connection, cause, cons, before);
      } else {
        GrewNothing(cons, before, ServedCalls(view, fd, a, cause));
      }
    }

    lemma GrewNothing(cons: map<Node, Connection>, before: map<Node, seq<Call>>, more: seq<Call>)
      requires Grew(cons, before, null, [])
      ensures Grew(cons, before, null, more)
    {
    }

    lemma NowGrew(cons: map<Node, Connection>, before: map<Node, seq<Call>>)
      requires before == map x | x in cons :: cons[x].calls
      ensures Grew(cons, before, null, [])
    {
    }

    /** What serving the next fd adds for each connection; `t` is the state then, `before` what each
        has been told before, and `item` the slot served, if any. */
    lemma HeardMore(cons: map<Node, Connection>, was: map<Node, seq<Call>>, before: map<Node, seq<Call>>, v: View, t: View,
        ready: set<int>, answers: seq<Answer>, a: Answer, item: Node?, cause: Cause)
      requires Coherent(v) && t == Through(v, ready, answers) && AtHome(cons, v) && Before(cons, was, before, v, ready, answers, cause)
      requires if |answers| in ready then
          |answers| in t.index && t.index[|answers|] == item && item in cons && cons[item].fd == |answers|
        else item == null
      requires Grew(cons, before, item, ServedCalls(t, |answers|, a, cause))
      ensures AllHeard(cons, was, v, ready, answers + [a], cause)
    {
      hide Coherent, Through;
      var fd := |answers|;
      SameServed(v, t, ready, answers, a, cause);
      hide ServedCalls, RoundCalls;
      forall x | x in cons
        ensures cons[x].calls == was[x] + RoundCalls(v, ready, answers + [a], cons[x].fd, cause)
      {
        assert cons[x].fd != fd ==> RoundCalls(v, ready, answers + [a], cons[x].fd, cause) == RoundCalls(v, ready, answers, cons[x].fd, cause);
      }
    }

    ghost predicate Before(cons: map<Node, Connection>, was: map<Node, seq<Call>>, before: map<Node, seq<Call>>, v: View,
        ready: set<int>, answers: seq<Answer>, cause: Cause)
    {
      && cons.Keys == was.Keys == before.Keys
      && forall x :: x in cons ==> before[x] == was[x] + RoundCalls(v, ready, answers, cons[x].fd, cause)
    }

    lemma HeardBefore(cons: map<Node, Connection>, was: map<Node, seq<Call>>, before: map<Node, seq<Call>>, v: View,
        ready: set<int>, answers: seq<Answer>, cause: Cause)
      requires before == map x | x in cons :: cons[x].calls
      ensures AllHeard(cons, was, v, ready, answers, cause) <==> Before(cons, was, before, v, ready, answers, cause)
    {
    }

    lemma HeardSame(cons: map<Node, Connection>, was: map<Node, seq<Call>>, before: map<Node, seq<Call>>, v: View,
        ready: set<int>, answers: seq<Answer>, cause: Cause, more: seq<Call>)
      requires Before(cons, was, before, v, ready, answers, cause) && Grew(cons, before, null, more)
      ensures AllHeard(cons, was, v, ready, answers, cause)
    {
    }

    /** The next fd, if it is ready. */
    method ServeNext(fd: int, ready: set<int>, cause: Cause, ghost cons: map<Node, Connection>, ghost was: map<Node, seq<Call>>,
        ghost v: View, ghost answers: seq<Answer>) returns (found: bool, ghost a: Answer)
      requires Valid() && KeptOrLost(cons) && Coherent(v) && AtHome(cons, v) && fd == |answers|
      requires view == Through(v, ready, answers) && AllHeard(cons, was, v, ready, answers, cause)
      modifies this, nodes, index`contents, index.repr, cons.Values
      ensures Valid() && KeptOrLost(cons) && index.repr == old(index.repr)
      ensures found <==> fd !in ready || fd in v.index
      ensures found ==> view == Through(v, ready, answers + [a]) && AllHeard(cons, was, v, ready, answers + [a], cause)
      ensures !found ==> view == old(view) && AllHeard(cons, was, v, ready, answers, cause)
      ensures clock >= old(clock) && (fd in ready && fd in v.index ==> WellDated(a, old(clock), clock))
    {
      hide Valid, Coherent, KeptOrLost, AtHome, RoundCalls, ServedCalls, Through, Attended, Grew, Before, AllHeard, WellDated;
      ghost var t := view;
      ghost var before := map x | x in cons :: cons[x].calls;
      NowGrew(cons, before);
      HeardBefore(cons, was, before, v, ready, answers, cause);
      StillThere(v, t, ready, answers, fd);
      var item: Node? := null;
      found, a := true, NO_ANSWER;
      if fd in ready {
        item, a := ServeFd(fd, cause, cons, before);
        found := item != null;
      } else {
        GrewNothing(cons, before, ServedCalls(t, fd, a, cause));
      }
      ThroughMore(v, ready, answers, a);
      if found {
        HeardMore(cons, was, before, v, t, ready, answers, a, item, cause);
      } else {
        HeardSame(cons, was, before, v, ready, answers, cause, ServedCalls(t, fd, a, cause));
      }
    }

    lemma StillThere(v: View, t: View, ready: set<int>, answers: seq<Answer>, fd: int)
      requires Coherent(v) && t == Through(v, ready, answers) && fd == |answers|
      ensures fd in t.index <==> fd in v.index
    {
      ThroughLoses(v, ready, answers);
      SameThere(v, t, ready, answers, fd);
    }

    lemma ValidCoherent()
      requires Valid()
      ensures Coherent(view)
    {
    }

    /** Serves, in ascending order, every connection whose fd is in `ready`, up to the first fd in
        `ready` that has no item any more, if there is one. */
    method ServeReady(ready: set<int>, cause: Cause, ghost cons: map<Node, Connection>, ghost was: map<Node, seq<Call>>)
      returns (stopped: int, ghost answers: seq<Answer>)
      requires Valid() && KeptOrLost(cons) && Coherent(view) && AtHome(cons, view)
      requires AllHeard(cons, was, view, ready, [], cause)
      modifies this, nodes, index`contents, index.repr, cons.Values
      ensures Valid() && KeptOrLost(cons) && index.repr == old(index.repr)
      ensures StopsAt(old(view), ready, |items|, stopped) && |answers| == stopped
      ensures view == Through(old(view), ready, answers)
      ensures AllDated(old(view), ready, answers, old(clock), clock) && clock >= old(clock)
      ensures AllHeard(cons, was, old(view), ready, answers, cause)
    {
      hide Valid, Coherent, KeptOrLost, AtHome, AllHeard, Through, WellDated;
      ghost var v, early := view, clock;
      var fdIdx := 0;
      answers := [];
      ThroughNone(v, ready);
      while fdIdx < |items|
        invariant 0 <= fdIdx <= |items| && |answers| == fdIdx
        invariant Valid() && KeptOrLost(cons) && index.repr == old(index.repr)
        invariant StopsAt(v, ready, fdIdx, fdIdx)
        invariant view == Through(v, ready, answers) && AllHeard(cons, was, v, ready, answers, cause)
        invariant AllDated(v, ready, answers, early, clock) && early <= clock
      {
        var found;
        ghost var a, now := NO_ANSWER, clock;
        found, a := ServeNext(fdIdx, ready, cause, cons, was, v, answers);
        DatedMore(v, ready, answers, a, early, now, clock);
        if !found {
          DatedLater(v, ready, answers, early, now, clock);
          return fdIdx, answers;
        }
        answers := answers + [a];
        fdIdx := fdIdx + 1;
      }
      stopped := |items|;
    }

    lemma ThroughNone(v: View, ready: set<int>)
      requires Coherent(v)
      ensures Through(v, ready, []) == v
    {
    }

    /** Lets every connection in `writeables` send and then every one in `readables` receive.
        `sends` and `receives` are what they answer, `mid` is the state between the two rounds.
        The result is the number to be served, or the fd at which a null item is dereferenced:
        that happens exactly if a ready fd was not registered, or a readable one lost its
        connection while sending. */
    method ProcessConnections(readables: set<int>, writeables: set<int>)
      returns (res: Outcome, ghost sends: seq<Answer>, ghost receives: seq<Answer>, ghost mid: View)
      requires Valid()
      modifies this, nodes, index`contents, index.repr, Connected().Values
      ensures Valid()
      ensures Coherent(old(view)) && Coherent(mid)
      ensures mid == Through(old(view), writeables, sends) && view == Through(mid, readables, receives)
      ensures StopsAt(old(view), writeables, |items|, |sends|)
      ensures AllDated(old(view), writeables, sends, old(clock), clock) && AllDated(mid, readables, receives, old(clock), clock)
      ensures if |sends| < |items| then res == NullItem(|sends|) && receives == []
        else if |receives| < |items| then res == NullItem(|receives|) && StopsAt(mid, readables, |items|, |receives|)
        else res == Serviceable(view.serviceableCount) && StopsAt(mid, readables, |items|, |receives|)
      ensures res.NullItem? <==> Missing(old(view), readables, writeables, |items|, sends)
      ensures res.NullItem? ==> exists fd :: 0 <= fd < |items| && Endangered(old(view), readables, writeables, fd)
      ensures res.Serviceable? ==> res.count >= |view.serviceable|
      ensures BothHeard(old(Connected()), old(CallLists()), old(view), writeables, sends, mid, readables, receives)
    {
      hide Valid, Coherent, Through, AllHeard, KeptOrLost, AtHome, BothHeard, Missing, Endangered, AllDated;
      ValidCoherent();
      ghost var v, cons, was := view, Connected(), CallLists();
      Starting();
      NoneHeard(v, writeables);
      var stopped;
      stopped, sends := ServeReady(writeables, ToSend, cons, was);
      mid, receives := view, [];
      ghost var between := map x | x in cons :: cons[x].calls;
      ghost var early, now := old(clock), clock;
      ValidCoherent();
      NoneDated(mid, readables, early, clock);
      Between(cons, was, between, v, writeables, sends, mid, readables);
      if stopped < |items| {
        BothRounds(cons, was, between, v, writeables, sends, mid, readables, receives);
        StopsMissing(v, readables, writeables, |items|, sends, |items|);
        MissingEndangered(v, readables, writeables, |items|, sends);
        return NullItem(stopped), sends, receives, mid;
      }
      stopped, receives := ServeReady(readables, ToReceive, cons, between);
      DatedLater(v, writeables, sends, early, now, clock);
      DatedEarlier(mid, readables, receives, early, now, clock);
      BothRounds(cons, was, between, v, writeables, sends, mid, readables, receives);
      StopsMissing(v, readables, writeables, |items|, sends, stopped);
      if stopped < |items| {
        MissingEndangered(v, readables, writeables, |items|, sends);
        return NullItem(stopped), sends, receives, mid;
      }
      res := Serviceable(serviceableCount);
      ValidCount();
    }

    /** What each connection has been told in both rounds. */
    ghost predicate BothHeard(cons: map<Node, Connection>, was: map<Node, seq<Call>>, v: View, writeables: set<int>, sends: seq<Answer>,
        mid: View, readables: set<int>, receives: seq<Answer>)
      reads cons.Values`calls
    {
      && cons.Keys == was.Keys
      && forall x :: x in cons ==> cons[x].calls == was[x] + RoundCalls(v, writeables, sends, cons[x].fd, ToSend) + RoundCalls(mid, readables, receives, cons[x].fd, ToReceive)
    }

    lemma Starting()
      requires Valid()
      ensures KeptOrLost(Connected()) && AtHome(Connected(), view)
    {
      AllIndexed();
      hide Valid;
    }

    lemma NoneHeard(v: View, ready: set<int>)
      ensures AllHeard(Connected(), CallLists(), v, ready, [], ToSend)
    {
    }

    lemma AllIndexed()
      requires Valid()
      ensures var cons := Connected(); forall x :: x in cons ==> cons[x].fd in view.index && view.index[cons[x].fd] == x
    {
      var cons := Connected();
      hide InStep, Coherent, FdIndex.Valid;
      forall x | x in cons ensures cons[x].fd in view.index && view.index[cons[x].fd] == x {
        SlotIndexed(x);
      }
    }

    lemma Between(cons: map<Node, Connection>, was: map<Node, seq<Call>>, between: map<Node, seq<Call>>, v: View,
        writeables: set<int>, sends: seq<Answer>, mid: View, readables: set<int>)
      requires Coherent(v) && AtHome(cons, v) && mid == Through(v, writeables, sends)
      requires between == map x | x in cons :: cons[x].calls
      requires AllHeard(cons, was, v, writeables, sends, ToSend)
      ensures AtHome(cons, mid) && AllHeard(cons, between, mid, readables, [], ToReceive) && Through(mid, readables, []) == mid
      ensures cons.Keys == was.Keys == between.Keys
      ensures forall x :: x in cons ==> between[x] == was[x] + RoundCalls(v, writeables, sends, cons[x].fd, ToSend)
    {
      ThroughLoses(v, writeables, sends);
      ThroughNone(mid, readables);
      hide Coherent, Through;
    }

    lemma BothRounds(cons: map<Node, Connection>, was: map<Node, seq<Call>>, between: map<Node, seq<Call>>, v: View,
        writeables: set<int>, sends: seq<Answer>, mid: View, readables: set<int>, receives: seq<Answer>)
      requires cons.Keys == was.Keys == between.Keys
      requires forall x :: x in cons ==> between[x] == was[x] + RoundCalls(v, writeables, sends, cons[x].fd, ToSend)
      requires AllHeard(cons, between, mid, readables, receives, ToReceive)
      ensures BothHeard(cons, was, v, writeables, sends, mid, readables, receives)
    {
      hide RoundCalls;
    }

    lemma ValidCount()
      requires Valid()
      ensures serviceableCount == view.serviceableCount && serviceableCount >= |view.serviceable|
    {
    }
  }

  datatype Outcome = Serviceable(count: int) | NullItem(fd: int)

  /** `PltTime(MAXINT)`: what is returned when nothing can time out. */
  const FAR_AWAY := 0x7fff_ffff
}