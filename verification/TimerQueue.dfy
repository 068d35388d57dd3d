/** The queue of timer events: a heap in an array, with the event that is due first at the top. */
module TimerQueue {

  datatype TimerEvent = TimerEvent(triggersAt: int, id: nat)

  function Parent(i: nat): (p: nat)
    requires i > 0
    ensures p < i
  {
    (i - 1) / 2
  }

  /** No event is due before its parent, except perhaps the one at `skip`. */
  ghost predicate HeapBut(s: seq<TimerEvent>, skip: int) {
    forall c {:trigger s[c]} :: 0 < c < |s| && c != skip ==> s[Parent(c)].triggersAt <= s[c].triggersAt
  }

  ghost predicate Heap(s: seq<TimerEvent>) {
    HeapBut(s, 0)
  }

  /** The top of a heap is due first. */
  lemma {:induction false} TopIsFirst(s: seq<TimerEvent>, i: nat)
    requires Heap(s) && i < |s|
    ensures s[0].triggersAt <= s[i].triggersAt
  {
    if i > 0 {
      TopIsFirst(s, Parent(i));
    }
  }

  /** A heap with a hole at `i`, filled for the moment by an event that may be due too early. */
  ghost predicate Rising(s: seq<TimerEvent>, i: nat) {
    && HeapBut(s, i)
    && forall c {:trigger s[c]} :: 0 < c < |s| && i > 0 && Parent(c) == i && i < |s| ==>
         s[Parent(i)].triggersAt <= s[c].triggersAt
  }

  function Swap(s: seq<TimerEvent>, i: nat, j: nat): (t: seq<TimerEvent>)
    requires i < |s| && j < |s|
    ensures |t| == |s|
    ensures forall c {:trigger t[c]} :: 0 <= c < |t| ==> t[c] == if c == j then s[i] else if c == i then s[j] else s[c]
  {
    s[i := s[j]][j := s[i]]
  }

  lemma Swapped(s: seq<TimerEvent>, i: nat, j: nat) returns (t: seq<TimerEvent>)
    requires i < |s| && j < |s|
    ensures t == Swap(s, i, j) && |t| == |s|
    ensures forall c {:trigger t[c]} :: 0 <= c < |t| ==> t[c] == if c == j then s[i] else if c == i then s[j] else s[c]
  {
    t := Swap(s, i, j);
  }

  lemma SwapContents(s: seq<TimerEvent>, i: nat, j: nat)
    requires i < |s| && j < |s|
    ensures multiset(Swap(s, i, j)) == multiset(s)
  {
  }

  lemma RiseStep(s: seq<TimerEvent>, i: nat)
    requires 0 < i < |s| && Rising(s, i) && s[i].triggersAt < s[Parent(i)].triggersAt
    ensures Rising(Swap(s, i, Parent(i)), Parent(i))
  {
    hide Swap;
    var j := Parent(i);
    var t := Swap(s, i, j);
    forall c {:trigger t[c]} | 0 < c < |t| && c != j ensures t[Parent(c)].triggersAt <= t[c].triggersAt {
      assert s[Parent(c)] == s[Parent(c)] && s[c] == s[c];
      if Parent(c) == j && c != i {
        assert s[j].triggersAt <= s[c].triggersAt;
      }
    }
    forall c {:trigger t[c]} | 0 < c < |t| && j > 0 && Parent(c) == j ensures t[Parent(j)].triggersAt <= t[c].triggersAt {
      assert s[Parent(j)].triggersAt <= s[j].triggersAt;
      assert c != i ==> s[j].triggersAt <= s[c].triggersAt;
    }
  }

  lemma RiseEnds(s: seq<TimerEvent>, i: nat)
    requires i < |s| && Rising(s, i) && (i == 0 || s[Parent(i)].triggersAt <= s[i].triggersAt)
    ensures Heap(s)
  {
  }

  /** A heap with a hole at `k`, filled for the moment by an event that may be due too late; the
      event at `skip` may be due before its parent. */
  ghost predicate Sinking(s: seq<TimerEvent>, k: nat, skip: int) {
    && (forall c {:trigger s[c]} :: 0 < c < |s| && c != skip && Parent(c) != k ==> s[Parent(c)].triggersAt <= s[c].triggersAt)
    && (forall c {:trigger s[c]} :: 0 < c < |s| && k > 0 && k != skip && Parent(c) == k && k < |s| ==>
          s[Parent(k)].triggersAt <= s[c].triggersAt)
  }

  lemma SinkStep(s: seq<TimerEvent>, k: nat, j: nat, skip: int)
    requires k < j < |s| && Parent(j) == k && Sinking(s, k, skip) && s[j].triggersAt < s[k].triggersAt && skip <= k
    requires forall c {:trigger s[c]} :: 0 < c < |s| && Parent(c) == k ==> s[j].triggersAt <= s[c].triggersAt
    ensures Sinking(Swap(s, k, j), j, skip)
  {
    hide Swap;
    var t := Swap(s, k, j);
    forall c {:trigger t[c]} | 0 < c < |t| && c != skip && Parent(c) != j
      ensures t[Parent(c)].triggersAt <= t[c].triggersAt
    {
      assert s[c] == s[c];
    }
  }

  lemma SinkEnds(s: seq<TimerEvent>, k: nat, skip: int)
    requires k < |s| && Sinking(s, k, skip)
    requires forall c {:trigger s[c]} :: 0 < c < |s| && Parent(c) == k ==> s[k].triggersAt <= s[c].triggersAt
    ensures HeapBut(s, skip)
  {
  }

  /** No child of `k` is due before it. */
  ghost predicate Stays(s: seq<TimerEvent>, k: nat)
    requires k < |s|
  {
    forall c {:trigger s[c]} :: 0 < c < |s| && Parent(c) == k ==> s[k].triggersAt <= s[c].triggersAt
  }

  class PriorityQueue {
    var elems: array<TimerEvent>
    var size: nat

    ghost predicate Valid()
      reads this, elems
    {
      size <= elems.Length && Heap(elems[..size])
    }

    /** The events queued. */
    ghost function Contents(): (m: multiset<TimerEvent>)
      requires size <= elems.Length
      reads this, elems
    {
      multiset(elems[..size])
    }

    constructor (capacity: nat)
      ensures Valid() && Contents() == multiset{} && fresh(elems)
    {
      elems := new TimerEvent[capacity](_ => TimerEvent(0, 0));
      size := 0;
    }

    method Peek() returns (x: TimerEvent)
      requires Valid() && size > 0
      ensures x == elems[0] && x in Contents() && forall y :: y in Contents() ==> x.triggersAt <= y.triggersAt
    {
      x := elems[0];
      TopOfAll(elems[..size]);
      assert elems[..size][0] == x;
    }

    lemma TopOfAll(s: seq<TimerEvent>)
      requires Heap(s) && s != []
      ensures forall y :: y in multiset(s) ==> s[0].triggersAt <= y.triggersAt
    {
      forall y | y in multiset(s) ensures s[0].triggersAt <= y.triggersAt {
        var i :| 0 <= i < |s| && s[i] == y;
        TopIsFirst(s, i);
      }
    }

    /** Makes room for more events. */
    method Grow(capacity: nat)
      requires size <= capacity && size <= elems.Length
      modifies this`elems
      ensures fresh(elems) && elems.Length == capacity && elems[..size] == old(elems[..size])
    {
      var p := new TimerEvent[capacity](_ => TimerEvent(0, 0));
      var i := 0;
      while i < size
        invariant 0 <= i <= size && elems == old(elems) && fresh(p) && p[..i] == old(elems[..i])
      {
        p[i] := elems[i];
        i := i + 1;
      }
      elems := p;
    }

    /** Queues an event: it rises past all parents that are due later. */
    method Add(x: TimerEvent)
      requires Valid()
      modifies this, elems
      ensures Valid() && Contents() == old(Contents()) + multiset{x} && (elems == old(elems) || fresh(elems))
    {
      hide Heap;
      if size == elems.Length {
        Grow(size + 16);
      }
      ghost var s := elems[..size] + [x];
      Appended(elems[..size], x);
      size := size + 1;
      Upheap(x, s);
    }

    /** Finds the place for `x` from the last one on; `s` are the events with `x` there. */
    method Upheap(x: TimerEvent, ghost was: seq<TimerEvent>)
      requires 0 < size <= elems.Length && |was| == size && was[size - 1] == x && was[..size - 1] == elems[..size - 1]
      requires Rising(was, size - 1)
      modifies elems
      ensures Valid() && Contents() == multiset(was)
    {
      hide Rising, Heap, Swap;
      ghost var s := was;
      var i: nat := size - 1;
      assert forall c {:trigger elems[c]} :: 0 <= c < size - 1 ==> elems[c] == elems[..size - 1][c];
      while i > 0
        invariant i < size && |s| == size && s[i] == x && Rising(s, i) && multiset(s) == multiset(was)
        invariant forall c {:trigger elems[c]} :: 0 <= c < size && c != i ==> elems[c] == s[c]
      {
        var j := Parent(i);
        if x.triggersAt >= elems[j].triggersAt {
          break;
        }
        RiseStep(s, i);
        SwapContents(s, i, j);
        elems[i] := elems[j];
        s := Swapped(s, i, j);
        i := j;
      }
      elems[i] := x;
      RiseEnds(s, i);
      assert elems[..size] == s;
    }

    lemma Appended(s: seq<TimerEvent>, x: TimerEvent)
      requires Heap(s)
      ensures Rising(s + [x], |s|)
    {
    }

    /** Finds the place for `v` from `k` on downwards; `was` are the events with `v` there. With
        one event only, the source looks at the place behind it, too. */
    method Downheap(k0: nat, v: TimerEvent, ghost was: seq<TimerEvent>, ghost skip: int)
      requires k0 < size <= elems.Length && |was| == size && was[k0] == v && skip <= k0
      requires forall c {:trigger elems[c]} :: 0 <= c < size && c != k0 ==> elems[c] == was[c]
      requires size == 1 ==> elems.Length > 1 && elems[1] == v
      requires Sinking(was, k0, skip)
      modifies elems
      ensures HeapBut(elems[..size], skip) && Contents() == multiset(was)
      ensures Stays(was, k0) ==> elems[..size] == was
    {
      hide Sinking, HeapBut, Swap;
      ghost var s := was;
      var k := k0;
      while size == 1 || k <= (size - 2) / 2
        invariant k0 <= k < size && |s| == size && s[k] == v && Sinking(s, k, skip) && multiset(s) == multiset(was)
        invariant forall c {:trigger elems[c]} :: 0 <= c < size && c != k ==> elems[c] == s[c]
        invariant size == 1 ==> k == 0 && elems.Length > 1 && elems[1] == v
        invariant Stays(was, k0) ==> k == k0 && s == was
        decreases size - k
      {
        var lc := 2 * k + 1;
        var rc := lc + 1;
        var j := if rc < size && elems[rc].triggersAt < elems[lc].triggersAt then rc else lc;
        if elems[j].triggersAt >= v.triggersAt {
          break;
        }
        SinkStep(s, k, j, skip);
        SwapContents(s, k, j);
        elems[k] := elems[j];
        s := Swapped(s, k, j);
        k := j;
      }
      elems[k] := v;
      SinkEnds(s, k, skip);
      assert elems[..size] == s;
    }

    /** Takes the event that is due first. */
    method RemoveFirst() returns (x: TimerEvent)
      requires Valid() && size > 0
      modifies this`size, elems
      ensures Valid() && old(Contents()) == Contents() + multiset{x}
      ensures forall y :: y in old(Contents()) ==> x.triggersAt <= y.triggersAt
    {
      x := Peek();
      hide Valid, Contents;
      DropTop();
    }

    method DropTop()
      requires Valid() && size > 0
      modifies this`size, elems
      ensures Valid() && old(Contents()) == Contents() + multiset{old(elems[0])}
    {
      hide Heap, HeapBut, Sinking;
      ghost var s := elems[..size];
      assert s[0] == elems[0];
      size := size - 1;
      assert s == elems[..size + 1];
      if size > 0 {
        TakeTop(s, size);
        TakeTopContents(s, size);
        Settle(s);
      } else {
        assert s == [elems[0]];
        OneLeft(elems[..size]);
      }
    }

    lemma OneLeft(s: seq<TimerEvent>)
      requires s == []
      ensures Heap(s) && multiset(s) == multiset{}
    {
    }

    /** Puts the last event in the place of the first. */
    method Settle(ghost s: seq<TimerEvent>)
      requires 0 < size < elems.Length && |s| == size + 1 && s == elems[..size + 1]
      requires Sinking(s[..size][0 := s[size]], 0, 0)
      modifies elems
      ensures Valid() && Contents() == multiset(s[..size][0 := s[size]])
    {
      hide Sinking;
      Downheap(0, elems[size], s[..size][0 := s[size]], 0);
    }

    lemma TakeTop(s: seq<TimerEvent>, n: nat)
      requires Heap(s) && |s| == n + 1 && n > 0
      ensures Sinking(s[..n][0 := s[n]], 0, 0)
    {
      var t := s[..n][0 := s[n]];
      forall c {:trigger t[c]} | 0 < c < |t| && Parent(c) != 0 ensures t[Parent(c)].triggersAt <= t[c].triggersAt {
        assert s[c] == t[c];
      }
    }

    lemma TakeTopContents(s: seq<TimerEvent>, n: nat)
      requires |s| == n + 1 && n > 0
      ensures multiset(s) == multiset(s[..n][0 := s[n]]) + multiset{s[0]}
    {
      assert s == [s[0]] + s[1..n] + [s[n]];
      assert s[..n][0 := s[n]] == [s[n]] + s[1..n];
    }

    /** Looks below `node` for an event that is due at the same time as `x`. */
    method Locate(node: nat, x: TimerEvent) returns (found: nat)
      requires Valid() && (node < size || (size == 0 == node && elems.Length > 0))
      ensures found < size ==> elems[found].triggersAt == x.triggersAt
      ensures found >= size ==> found == size && AbsentBelow(elems[..size], node, x.triggersAt)
      decreases size - node
    {
      hide AbsentBelow, Heap;
      AbsentEarlier(elems[..size], node, x.triggersAt);
      if x.triggersAt == elems[node].triggersAt {
        return node;
      }
      var lc := 2 * node + 1;
      var rc := lc + 1;
      if node < size {
        Absent(elems[..size], node, x.triggersAt);
      }
      AbsentEarlier(elems[..size], lc, x.triggersAt);
      AbsentEarlier(elems[..size], rc, x.triggersAt);
      if lc < size {
        if x.triggersAt >= elems[lc].triggersAt {
          found := Locate(lc, x);
          if found < size {
            return;
          }
        }
        if rc < size {
          if x.triggersAt >= elems[rc].triggersAt {
            found := Locate(rc, x);
            return;
          }
        }
      }
      found := size;
    }

    /** Removes an event that is due at the same time as `x`, whichever is found first. The array
        must have been allocated. */
    method Remove(x: TimerEvent) returns (ok: bool, ghost loc: nat)
      requires Valid() && elems.Length > 0
      modifies this`size, elems
      ensures ok <==> exists y :: y in old(Contents()) && y.triggersAt == x.triggersAt
      ensures !ok ==> Valid() && Contents() == old(Contents())
      ensures ok ==> loc < old(size) && size == old(size) - 1 && elems == old(elems)
      ensures ok ==> old(elems[loc]).triggersAt == x.triggersAt && old(Contents()) == Contents() + multiset{old(elems[loc])}
      ensures ok ==> (Valid() <==>
        loc == 0 || loc == size || old(elems[Parent(loc)]).triggersAt <= old(elems[size - 1]).triggersAt)
    {
      hide Heap, AbsentBelow;
      var found := Locate(0, x);
      loc := found;
      if found < size {
        assert elems[..size][found] in Contents();
        RemoveAt(found);
        ok := true;
      } else {
        AbsentEverywhere(elems[..size], x.triggersAt);
        ok := false;
      }
    }

    /** Removes the event at `loc`. The last event takes its place and can only sink: the queue
        remains a heap exactly if that event is not due before the parent of the place. */
    method RemoveAt(loc: nat)
      requires Valid() && loc < size
      modifies this`size, elems
      ensures size == old(size) - 1 && elems == old(elems) && old(Contents()) == Contents() + multiset{old(elems[loc])}
      ensures Valid() <==>
        loc == 0 || loc == size || old(elems[Parent(loc)]).triggersAt <= old(elems[size - 1]).triggersAt
    {
      hide Heap, HeapBut;
      ghost var s := elems[..size];
      size := size - 1;
      assert s == elems[..size + 1];
      if size > 0 && loc < size {
        TakeContents(s, size, loc);
        Replace(s, loc);
      } else {
        assert s == elems[..size] + [elems[loc]];
        Shorter(s, size);
      }
    }

    method Replace(ghost s: seq<TimerEvent>, loc: nat)
      requires loc < size < elems.Length && |s| == size + 1 && s == elems[..size + 1] && Heap(s)
      modifies elems
      ensures Contents() == multiset(s[..size][loc := s[size]])
      ensures Valid() <==> loc == 0 || s[Parent(loc)].triggersAt <= s[size].triggersAt
    {
      ghost var t := s[..size][loc := s[size]];
      var v := elems[size];
      ghost var fits := loc == 0 || s[Parent(loc)].triggersAt <= v.triggersAt;
      ghost var skip := if fits then 0 else loc;
      Sinks(s, size, loc, skip);
      if !fits {
        TooEarly(s, size, loc);
      }
      hide Sinking, Stays, HeapBut;
      Downheap(loc, v, t, skip);
    }

    lemma Sinks(s: seq<TimerEvent>, n: nat, loc: nat, skip: int)
      requires Heap(s) && |s| == n + 1 && loc < n
      requires skip == loc || (skip == 0 && (loc == 0 || s[Parent(loc)].triggersAt <= s[n].triggersAt))
      ensures Sinking(s[..n][loc := s[n]], loc, skip)
    {
      var t := s[..n][loc := s[n]];
      forall c {:trigger t[c]} | 0 < c < |t| && c != skip && Parent(c) != loc
        ensures t[Parent(c)].triggersAt <= t[c].triggersAt
      {
        assert s[Parent(c)].triggersAt <= s[c].triggersAt;
      }
      forall c {:trigger t[c]} | 0 < c < |t| && loc > 0 && loc != skip && Parent(c) == loc
        ensures t[Parent(loc)].triggersAt <= t[c].triggersAt
      {
        assert s[loc].triggersAt <= s[c].triggersAt && s[Parent(loc)].triggersAt <= s[loc].triggersAt;
      }
    }

    lemma TooEarly(s: seq<TimerEvent>, n: nat, loc: nat)
      requires Heap(s) && |s| == n + 1 && 0 < loc < n && s[Parent(loc)].triggersAt > s[n].triggersAt
      ensures Stays(s[..n][loc := s[n]], loc) && !Heap(s[..n][loc := s[n]])
    {
      var t := s[..n][loc := s[n]];
      assert s[Parent(loc)].triggersAt <= s[loc].triggersAt;
      forall c {:trigger t[c]} | 0 < c < |t| && Parent(c) == loc ensures t[loc].triggersAt <= t[c].triggersAt {
        assert s[loc].triggersAt <= s[c].triggersAt;
      }
      assert t[loc] == s[n] && t[Parent(loc)] == s[Parent(loc)];
    }

    lemma TakeContents(s: seq<TimerEvent>, n: nat, loc: nat)
      requires |s| == n + 1 && loc < n
      ensures multiset(s) == multiset(s[..n][loc := s[n]]) + multiset{s[loc]}
    {
      var a, b := s[..loc], s[loc + 1..n];
      assert s == a + [s[loc]] + b + [s[n]];
      assert s[..n][loc := s[n]] == a + [s[n]] + b;
      Exchanged(a, s[loc], b, s[n]);
    }

    lemma Exchanged(a: seq<TimerEvent>, x: TimerEvent, b: seq<TimerEvent>, y: TimerEvent)
      ensures multiset(a + [x] + b + [y]) == multiset(a + [y] + b) + multiset{x}
    {
    }

    lemma Shorter(s: seq<TimerEvent>, n: nat)
      requires Heap(s) && n <= |s|
      ensures Heap(s[..n])
    {
      forall c {:trigger s[..n][c]} | 0 < c < n ensures s[..n][Parent(c)].triggersAt <= s[..n][c].triggersAt {
        assert s[c] == s[..n][c];
      }
    }
  }

  /** Position `i` is `node` or below it. */
  predicate Below(node: nat, i: nat)
    decreases i
  {
    i == node || (i > node && Below(node, Parent(i)))
  }

  /** No event at `node` or below is due at time `t`. */
  ghost predicate AbsentBelow(s: seq<TimerEvent>, node: nat, t: int) {
    forall i: nat :: i < |s| && Below(node, i) ==> s[i].triggersAt != t
  }

  /** Events below are due later. */
  lemma AbsentEarlier(s: seq<TimerEvent>, node: nat, t: int)
    requires Heap(s)
    ensures node >= |s| || t < s[node].triggersAt ==> AbsentBelow(s, node, t)
  {
    if node >= |s| || t < s[node].triggersAt {
      forall i: nat | i < |s| && Below(node, i) ensures s[i].triggersAt != t {
        LaterBelow(s, node, i);
      }
    }
  }

  lemma Absent(s: seq<TimerEvent>, node: nat, t: int)
    requires node < |s| && s[node].triggersAt != t
    ensures AbsentBelow(s, 2 * node + 1, t) && AbsentBelow(s, 2 * node + 2, t) ==> AbsentBelow(s, node, t)
  {
    Descend(node);
  }

  lemma AbsentEverywhere(s: seq<TimerEvent>, t: int)
    requires AbsentBelow(s, 0, t)
    ensures forall y :: y in multiset(s) ==> y.triggersAt != t
  {
    forall y | y in multiset(s) ensures y.triggersAt != t {
      var i :| 0 <= i < |s| && s[i] == y;
      AllBelow(i);
    }
  }

  lemma {:induction false} AllBelow(i: nat)
    ensures Below(0, i)
  {
    if i > 0 {
      AllBelow(Parent(i));
    }
  }

  lemma {:induction false} LaterBelow(s: seq<TimerEvent>, node: nat, i: nat)
    requires Heap(s) && i < |s| && Below(node, i)
    ensures node < |s| && s[node].triggersAt <= s[i].triggersAt
    decreases i
  {
    if i != node {
      LaterBelow(s, node, Parent(i));
    }
  }

  /** What is below a node is the node, or below one of its children. */
  lemma {:induction false} Descend(node: nat)
    ensures forall i: nat :: Below(node, i) ==> i == node || Below(2 * node + 1, i) || Below(2 * node + 2, i)
  {
    forall i: nat | Below(node, i) ensures i == node || Below(2 * node + 1, i) || Below(2 * node + 2, i) {
      DescendTo(node, i);
    }
  }

  lemma {:induction false} DescendTo(node: nat, i: nat)
    requires Below(node, i)
    ensures i == node || Below(2 * node + 1, i) || Below(2 * node + 2, i)
    decreases i
  {
    if i != node && Parent(i) != node {
      DescendTo(node, Parent(i));
    }
  }

  /** The event at `loc` is due at a time of its own, and its parent after the last event. */
  ghost predicate Misplaces(s: seq<TimerEvent>, loc: nat) {
    && 0 < loc < |s| - 1 && s[Parent(loc)].triggersAt > s[|s| - 1].triggersAt
    && forall i :: 0 <= i < |s| && i != loc ==> s[i].triggersAt != s[loc].triggersAt
  }

  /** Removing such an event leaves no heap. */
  method RemovalBreaks(q: PriorityQueue, loc: nat)
    requires q.Valid() && Misplaces(q.elems[..q.size], loc)
    modifies q`size, q.elems
    ensures q.size == old(q.size) - 1 && q.elems == old(q.elems) && !q.Valid()
    ensures old(q.Contents()) == q.Contents() + multiset{old(q.elems[loc])}
  {
    hide Heap;
    ghost var s := q.elems[..q.size];
    assert s[loc] == q.elems[loc] && s[loc] in q.Contents();
    assert s[Parent(loc)] == q.elems[Parent(loc)];
    var ok, found := q.Remove(q.elems[loc]);
    assert s[found] == old(q.elems[found]);
  }

  /** There are such events. */
  lemma RemovalCanFail() returns (s: seq<TimerEvent>, loc: nat)
    ensures Heap(s) && Misplaces(s, loc)
  {
    s := [TimerEvent(1, 0), TimerEvent(5, 1), TimerEvent(2, 2), TimerEvent(6, 3), TimerEvent(7, 4), TimerEvent(3, 5)];
    loc := 3;
    HeapOfSix(s);
    hide Heap;
    assert s[3].triggersAt == 6 && s[5].triggersAt == 3 && s[1].triggersAt == 5;
  }

  lemma HeapOfSix(s: seq<TimerEvent>)
    requires |s| == 6 && s[0].triggersAt <= s[1].triggersAt && s[0].triggersAt <= s[2].triggersAt
    requires s[1].triggersAt <= s[3].triggersAt && s[1].triggersAt <= s[4].triggersAt && s[2].triggersAt <= s[5].triggersAt
    ensures Heap(s)
  {
    forall c {:trigger s[c]} | 0 < c < |s| ensures s[Parent(c)].triggersAt <= s[c].triggersAt {
      assert Parent(c) == if c <= 2 then 0 else if c <= 4 then 1 else 2;
    }
  }
}
