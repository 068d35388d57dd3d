/** The intrusive circular doubly linked list of the connection manager
    (`_PltDLinkedListNode`), and the connection items that are its nodes. */
module LinkedList {
  import opened Sequences
  import opened ConnectionState
  import opened Connections

  /** Index of the successor and of the predecessor of position `i` on a ring of `n` nodes. */
  function Succ(i: nat, n: nat): (j: nat)
    requires i < n
  {
    if i + 1 == n then 0 else i + 1
  }

  function Pred(i: nat, n: nat): (j: nat)
    requires i < n
  {
    if i == 0 then n - 1 else i - 1
  }

  /** `r` is a circular list whose links are `nexts` one way and `prevs` the other:
      position by position, the successor and the predecessor on the ring. */
  ghost predicate Links<T>(r: seq<T>, nexts: seq<T>, prevs: seq<T>) {
    && |nexts| == |prevs| == |r| > 0
    && (forall i, j :: 0 <= i < j < |r| ==> r[i] != r[j])
    && (forall i {:trigger nexts[i]} :: 0 <= i < |r| ==> nexts[i] == r[Succ(i, |r|)])
    && (forall i {:trigger prevs[i]} :: 0 <= i < |r| ==> prevs[i] == r[Pred(i, |r|)])
  }

  ghost function Nexts(r: seq<Node>): (s: seq<Node>)
    reads r`next
    ensures |s| == |r| && forall i {:trigger s[i]} :: 0 <= i < |r| ==> s[i] == r[i].next
  {
    if r == [] then [] else [r[0].next] + Nexts(r[1..])
  }

  ghost function Prevs(r: seq<Node>): (s: seq<Node>)
    reads r`prev
    ensures |s| == |r| && forall i {:trigger s[i]} :: 0 <= i < |r| ==> s[i] == r[i].prev
  {
    if r == [] then [] else [r[0].prev] + Prevs(r[1..])
  }

  /** The nodes of `r` form one circular list in the heap. */
  ghost predicate Ring(r: seq<Node>)
    reads r`next, r`prev
  {
    Links(r, Nexts(r), Prevs(r))
  }

  lemma RingDistinct(r: seq<Node>)
    requires Ring(r)
    ensures |r| > 0 && Distinct(r)
  {
  }

  lemma RingTail(h: Node, s: seq<Node>)
    requires Ring([h] + s)
    ensures Distinct(s)
  {
    var r := [h] + s;
    forall i, j | 0 <= i < j < |s| ensures s[i] != s[j] {
      assert r[i + 1] == s[i] && r[j + 1] == s[j];
    }
  }

  lemma RingLinks(r: seq<Node>, k: nat)
    requires Ring(r) && k < |r|
    ensures r[k].next == r[Succ(k, |r|)] && r[k].prev == r[Pred(k, |r|)]
  {
    assert Nexts(r)[k] == r[k].next && Prevs(r)[k] == r[k].prev;
  }

  lemma AloneRing(x: Node)
    ensures Ring([x]) <==> x.next == x && x.prev == x
  {
    assert Nexts([x])[0] == x.next && Prevs([x])[0] == x.prev;
  }

  /** Linking `x` in at position `k` of a ring. */
  lemma InsertLinks<T>(r: seq<T>, nexts: seq<T>, prevs: seq<T>, k: nat, x: T, nexts': seq<T>, prevs': seq<T>)
    requires Links(r, nexts, prevs) && 0 < k <= |r| && x !in r
    requires |nexts'| == |prevs'| == |r| + 1
    requires forall i {:trigger nexts'[i]} :: 0 <= i <= |r| ==>
      nexts'[i] == if i < k - 1 then nexts[i] else if i == k - 1 then x else nexts[i - 1]
    requires forall i {:trigger prevs'[i]} :: 0 <= i <= |r| ==>
      prevs'[i] == if i == (if k == |r| then 0 else k + 1) then x else if i < k then prevs[i]
                   else if i == k then r[k - 1] else prevs[i - 1]
    ensures Links(Inserted(r, k, x), nexts', prevs')
  {
  }

  /** Unlinking position `k` of a ring. */
  lemma RemoveLinks<T>(r: seq<T>, nexts: seq<T>, prevs: seq<T>, k: nat, nexts': seq<T>, prevs': seq<T>)
    requires Links(r, nexts, prevs) && k < |r| && |r| > 1
    requires |nexts'| == |prevs'| == |r| - 1
    requires forall i {:trigger nexts'[i]} :: 0 <= i < |r| - 1 ==>
      var j := if i < k then i else i + 1;
      nexts'[i] == if j == Pred(k, |r|) then nexts[k] else nexts[j]
    requires forall i {:trigger prevs'[i]} :: 0 <= i < |r| - 1 ==>
      var j := if i < k then i else i + 1;
      prevs'[i] == if j == Succ(k, |r|) then prevs[k] else prevs[j]
    ensures Links(Removed(r, k), nexts', prevs')
  {
  }

  ghost function Members(r: seq<Node>): (s: set<Node>) {
    set x | x in r
  }

  /** A list node. The nodes of the connection table also carry the slot's contents; the list
      heads leave them unused. */
  class Node {
    var next: Node
    var prev: Node
    var connection: Connection?
    var bestBefore: int
    var lastIoMode: IoMode
    var fd: int

    constructor ()
      ensures Ring([this])
      ensures next == this && prev == this
      ensures connection == null && bestBefore == 0 && lastIoMode == DORMANT && fd == -1
    {
      next := this;
      prev := this;
      connection := null;
      bestBefore := 0;
      lastIoMode := DORMANT;
      fd := -1;
    }

    /** Inserts `this` behind `n`. */
    method AddAfter(n: Node, ghost r: seq<Node>, ghost k: nat)
      requires Ring(r) && k < |r| && r[k] == n && this !in r
      modifies this`next, this`prev, Members(r)`next, Members(r)`prev
      ensures Ring(Inserted(r, k + 1, this))
    {
      hide Nexts, Prevs;
      ghost var m := Succ(k, |r|);
      assert n.next == Nexts(r)[k] == r[m] && r[m].prev == Prevs(r)[m] == n;
      next := n.next;
      n.next := this;
      prev := next.prev;
      next.prev := this;
      ghost var q := Inserted(r, k + 1, this);
      forall i {:trigger Prevs(q)[i]} | 0 <= i <= |r|
        ensures Prevs(q)[i] == if i == (if k + 1 == |r| then 0 else k + 2) then this
                               else if i <= k then old(Prevs(r))[i]
                               else if i == k + 1 then n else old(Prevs(r))[i - 1]
      {
        assert q[i] == r[m] <==> i == (if k + 1 == |r| then 0 else k + 2);
      }
      InsertLinks(r, old(Nexts(r)), old(Prevs(r)), k + 1, this, Nexts(q), Prevs(q));
    }

    /** Inserts `this` in front of `n`. */
    method AddBefore(n: Node, ghost r: seq<Node>, ghost k: nat)
      requires Ring(r) && 0 < k < |r| && r[k] == n && this !in r
      modifies this`next, this`prev, Members(r)`next, Members(r)`prev
      ensures Ring(Inserted(r, k, this))
    {
      hide Nexts, Prevs;
      assert n.prev == Prevs(r)[k] == r[k - 1] && r[k - 1].next == Nexts(r)[k - 1] == n;
      prev := n.prev;
      n.prev := this;
      next := prev.next;
      prev.next := this;
      ghost var q := Inserted(r, k, this);
      InsertLinks(r, old(Nexts(r)), old(Prevs(r)), k, this, Nexts(q), Prevs(q));
    }

    /** Takes `this` out of its list; it becomes a list of its own. */
    method Remove(ghost r: seq<Node>)
      requires Ring(r) && this in r
      modifies Members(r)`next, Members(r)`prev
      ensures next == this && prev == this
      ensures |r| > 1 ==> Ring(Without(r, this))
    {
      hide Nexts, Prevs;
      ghost var k := IndexOf(r, this);
      ghost var m, p := Succ(k, |r|), Pred(k, |r|);
      assert next == Nexts(r)[k] == r[m] && prev == Prevs(r)[k] == r[p];
      next.prev := prev;
      prev.next := next;
      next, prev := this, this;
      if |r| > 1 {
        ghost var q := Removed(r, k);
        forall i {:trigger Nexts(q)[i]} | 0 <= i < |q|
          ensures Nexts(q)[i] == var j := if i < k then i else i + 1; if j == p then r[m] else old(Nexts(r))[j]
        {
          assert q[i] == r[if i < k then i else i + 1];
        }
        forall i {:trigger Prevs(q)[i]} | 0 <= i < |q|
          ensures Prevs(q)[i] == var j := if i < k then i else i + 1; if j == m then r[p] else old(Prevs(r))[j]
        {
          assert q[i] == r[if i < k then i else i + 1];
        }
        RemoveLinks(r, old(Nexts(r)), old(Prevs(r)), k, Nexts(q), Prevs(q));
      }
    }
  }

  /** Takes `x` out of the list `r`; lists that share no node with it stay as they are. */
  method Detach(x: Node, ghost r: seq<Node>, ghost rs: set<seq<Node>>)
    requires Ring(r) && x in r
    requires forall q :: q in rs ==> Ring(q)
    requires forall q :: q in rs ==> q == r || forall o :: o in r ==> o !in q
    modifies Members(r)`next, Members(r)`prev
    ensures x.next == x && x.prev == x
    ensures |r| > 1 ==> Ring(Without(r, x))
    ensures forall q :: q in rs && q != r ==> Ring(q)
  {
    hide Ring;
    x.Remove(r);
  }

  /** Puts `x` behind position `k` of the list `r`. */
  method Attach(x: Node, n: Node, ghost r: seq<Node>, ghost k: nat, ghost rs: set<seq<Node>>)
    requires Ring(r) && k < |r| && r[k] == n && x !in r
    requires forall q :: q in rs ==> Ring(q) && x !in q
    requires forall q :: q in rs ==> q == r || forall o :: o in r ==> o !in q
    modifies x`next, x`prev, Members(r)`next, Members(r)`prev
    ensures Ring(Inserted(r, k + 1, x))
    ensures forall q :: q in rs && q != r ==> Ring(q)
  {
    hide Ring;
    x.AddAfter(n, r, k);
  }
}
