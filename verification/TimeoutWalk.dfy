/** The walk along the timeout list that serves the expired connections. Serving one may take it
    off the list, leave it where it is, or put it back somewhere with a later due time, also
    behind the entry the walk goes on with. */
module TimeoutWalk {
  import opened Sequences
  import opened ConnectionState

  /** From `s` to `t` only `x` may have moved on the timeout list, and only to a time after `now`. */
  ghost predicate Moved<T, C>(s: State<T, C>, t: State<T, C>, x: T, now: int) {
    && Without(t.active, x) == Without(s.active, x)
    && t.item.Keys == s.item.Keys
    && (forall y :: y in s.item && y != x ==> t.item[y].best == s.item[y].best && t.item[y].con == s.item[y].con)
    && (x in t.active ==> x in t.item && x in s.item && Later(s, t, x, now))
  }

  ghost predicate Later<T, C>(s: State<T, C>, t: State<T, C>, x: T, now: int)
    requires x in s.item && x in t.item
  {
    t.item[x].best > now || (t.active == s.active && t.item[x].best == s.item[x].best)
  }

  lemma WithoutTwice<T>(s: seq<T>, x: T)
    requires Distinct(s)
    ensures Without(Without(s, x), x) == Without(s, x)
  {
    WithoutMembers(s, x);
  }

  lemma WithoutInserted<T>(s: seq<T>, k: nat, x: T)
    requires k <= |s| && x !in s
    ensures Without(Inserted(s, k, x), x) == s
  {
    var q := Inserted(s, k, x);
    assert q[k] == x;
    assert forall j :: 0 <= j < |q| && q[j] == x ==> j == k;
  }

  lemma TrackMoves<T, C>(s: State<T, C>, x: T, m: IoMode, due: int, now: int)
    requires ListsApart(s) && x in s.item && due > now
    ensures Moved(s, Track(s, x, m, due), x, now)
  {
    var t := Track(s, x, m, due);
    var a := Attend(s, x, m);
    AttendKeepsApart(s, x, m);
    TrackSlots(s, x, m, due);
    WithoutTwice(s.active, x);
    WithoutTwice(a.active, x);
    WithoutMembers(a.active, x);
    if m.needTimeout && !s.item[x].mode.needTimeout {
      var u := Unlink(a, x).(item := a.item[x := a.item[x].(best := due)]);
      WithoutInserted(u.active, Place(u.active, u.item, due), x);
    }
  }

  lemma MovedOn<T, C>(s: State<T, C>, t: State<T, C>, u: State<T, C>, x: T, now: int)
    requires Moved(s, t, x, now) && Moved(t, u, x, now)
    requires Distinct(t.active)
    ensures Moved(s, u, x, now)
  {
    WithoutMembers(t.active, x);
  }

  lemma TrackAllMoves<T, C>(s: State<T, C>, x: T, r: Report, now: int)
    requires ListsApart(s) && x in s.item && r.due > now && r.sentDue > now
    ensures Moved(s, TrackAll(s, x, r), x, now) && ListsApart(TrackAll(s, x, r))
  {
    hide Track, Moved;
    TrackAllKeepsApart(s, x, r);
    TrackMoves(s, x, r.mode, r.due, now);
    TrackKeepsApart(s, x, r.mode, r.due);
    TrackSlots(s, x, r.mode, r.due);
    if FastWrite(s.item[x].mode, r.mode) {
      var t := Track(s, x, r.mode, r.due);
      TrackMoves(t, x, r.sent, r.sentDue, now);
      MovedOn(s, t, Track(t, x, r.sent, r.sentDue), x, now);
    }
  }

  lemma RemoveMoves<T, C>(s: State<T, C>, fd: int, now: int)
    requires ListsApart(s) && fd in s.index && s.index[fd] in s.item
    ensures Moved(s, Remove(s, fd), s.index[fd], now)
  {
    WithoutTwice(s.active, s.index[fd]);
    WithoutMembers(s.active, s.index[fd]);
  }

  /** Serving a connection moves nothing else. */
  lemma HandledMoves<T, C>(s: State<T, C>, x: T, fd: int, r: Report, destroy: bool, again: Report, now: int)
    requires ListsApart(s) && x in s.item && fd in s.index && s.index[fd] == x
    requires r.due > now && r.sentDue > now && again.due > now && again.sentDue > now
    ensures Moved(s, Handled(s, x, fd, r, destroy, again), x, now)
  {
    hide TrackAll, Remove, Moved, ListsApart;
    TrackAllMoves(s, x, r, now);
    TrackAllKeepsApart(s, x, r);
    var t := TrackAll(s, x, r);
    if r.mode.dead {
      if destroy {
        RemoveMoves(t, fd, now);
        ApartDistinct(t);
        MovedOn(s, t, Remove(t, fd), x, now);
      } else {
        TrackAllMoves(t, x, again, now);
        ApartDistinct(t);
        MovedOn(s, t, TrackAll(t, x, again), x, now);
      }
    }
  }

  lemma ApartDistinct<T, C>(s: State<T, C>)
    requires ListsApart(s)
    ensures Distinct(s.active) && ActiveKnown(s)
  {
  }

  // ---------- the cursor ----------

  /** The entries of `r` that are not among `done`, in order. */
  ghost function Pending<T>(r: seq<T>, done: set<T>): (q: seq<T>)
    ensures forall y :: y in q ==> y in r && y !in done
    ensures forall y :: y in r && y !in done ==> y in q
  {
    if r == [] then []
    else if r[0] in done then Pending(r[1..], done)
    else [r[0]] + Pending(r[1..], done)
  }

  lemma PendingAll<T>(r: seq<T>)
    ensures Pending(r, {}) == r
  {
  }

  lemma {:induction false} PendingMore<T>(r: seq<T>, done: set<T>, x: T)
    requires x !in r
    ensures Pending(r, done + {x}) == Pending(r, done)
  {
    if r != [] {
      assert r[0] in r;
      PendingMore(r[1..], done, x);
    }
  }

  lemma {:induction false} PendingInserted<T>(r: seq<T>, k: nat, x: T, done: set<T>)
    requires k <= |r| && x in done
    ensures Pending(Inserted(r, k, x), done) == Pending(r, done)
  {
    var q := Inserted(r, k, x);
    if k == 0 {
      assert q[1..] == r;
    } else {
      assert q[1..] == Inserted(r[1..], k - 1, x);
      PendingInserted(r[1..], k - 1, x, done);
    }
  }

  /** The walk has served `done`, the first entries of the list `a` it found; it stands between
      `p`, which it has passed, and `r`, where what was served and is there again is due later. */
  ghost predicate Cursor<T, C>(s: State<T, C>, a: seq<T>, done: seq<T>, p: seq<T>, r: seq<T>, now: int) {
    && s.active == p + r
    && done <= a
    && (forall y :: y in p ==> y in done)
    && (forall y :: y in r && y in done ==> y in s.item && s.item[y].best > now)
    && Pending(r, set y | y in done) == a[|done|..]
  }

  /** An expired entry in front of the cursor is the next one of the list the walk found. */
  lemma CursorNext<T, C>(s: State<T, C>, a: seq<T>, done: seq<T>, p: seq<T>, r: seq<T>, now: int)
    requires Cursor(s, a, done, p, r, now) && r != [] && r[0] in s.item && s.item[r[0]].best <= now
    ensures |done| < |a| && a[|done|] == r[0] && r[0] !in done
    ensures Pending(r[1..], set y | y in done) == a[|done| + 1..]
  {
    var d := set y | y in done;
    assert r[0] in r;
    assert Pending(r, d) == [r[0]] + Pending(r[1..], d);
    assert a[|done|..][1..] == a[|done| + 1..];
  }

  lemma InsertedSplit<T>(p: seq<T>, r: seq<T>, k: nat, x: T)
    requires k <= |p| + |r|
    ensures Inserted(p + r, k, x) == if k <= |p| then Inserted(p, k, x) + r else p + Inserted(r, k - |p|, x)
  {
  }

  /** Where the cursor stands once `x`, the first of `x + rest`, has been served and the list
      has become `q`. */
  lemma NewCursor<T>(q: seq<T>, p: seq<T>, rest: seq<T>, x: T, done: set<T>) returns (p': seq<T>, r': seq<T>)
    requires Without(q, x) == p + rest && x in done && x !in p && x !in rest
    ensures q == p' + r'
    ensures forall y :: y in p' ==> y in p || y == x
    ensures forall y :: y in r' ==> y in rest || (y == x && q != p + [x] + rest && x in q)
    ensures Pending(r', done) == Pending(rest, done)
    ensures if rest == [] then r' == [] else r' != [] && r'[0] == rest[0]
  {
    p', r' := p, rest;
    if x in q {
      var k := IndexOf(q, x);
      assert q == Inserted(p + rest, k, x);
      InsertedSplit(p, rest, k, x);
      if k <= |p| {
        p' := Inserted(p, k, x);
      } else {
        r' := Inserted(rest, k - |p|, x);
        PendingInserted(rest, k - |p|, x, done);
        assert q[|p|] == rest[0];
      }
    }
  }

  /** Serving it brings the cursor to the entry behind it, wherever it went itself. */
  lemma CursorStep<T, C>(s: State<T, C>, t: State<T, C>, a: seq<T>, done: seq<T>, p: seq<T>, r: seq<T>, now: int)
      returns (p': seq<T>, r': seq<T>)
    requires Cursor(s, a, done, p, r, now) && r != [] && r[0] in s.item && s.item[r[0]].best <= now
    requires Distinct(s.active) && ActiveKnown(s) && Moved(s, t, r[0], now)
    ensures Cursor(t, a, done + [r[0]], p', r', now)
    ensures if |r| == 1 then r' == [] else r' != [] && r'[0] == r[1]
  {
    hide Pending, Without, Distinct;
    var x := r[0];
    CursorNext(s, a, done, p, r, now);
    CursorWithout(s, p, r);
    assert done + [x] == a[..|done| + 1];
    var d, d' := set y | y in done, set y | y in done + [x];
    assert d' == d + {x};
    PendingMore(r[1..], d, x);
    p', r' := NewCursor(t.active, p, r[1..], x, d');
    assert s.active == p + [x] + r[1..];
    forall y | y in r' && y in done + [x] ensures y in t.item && t.item[y].best > now {
      if y != x {
        assert y in r[1..] && y in r && y in done;
        assert s.item[y].best > now;
      }
    }
  }

  lemma CursorWithout<T, C>(s: State<T, C>, p: seq<T>, r: seq<T>)
    requires s.active == p + r && r != [] && Distinct(s.active)
    ensures Without(s.active, r[0]) == p + r[1..] && r[0] !in p && r[0] !in r[1..]
  {
    var q := s.active;
    assert q[|p|] == r[0];
    var k := IndexOf(q, r[0]);
    assert k == |p|;
    forall i | 0 <= i < |p| ensures p[i] != r[0] { assert q[i] == p[i]; }
    forall i | 0 <= i < |r| - 1 ensures r[1..][i] != r[0] { assert q[|p| + 1 + i] == r[1..][i]; }
  }

  lemma CursorAt<T, C>(s: State<T, C>, a: seq<T>, done: seq<T>, p: seq<T>, r: seq<T>, now: int)
    requires Cursor(s, a, done, p, r, now) && r != []
    ensures |p| < |s.active| && s.active[|p|] == r[0] && r[0] in s.active
    ensures |s.active| == |p| + |r| && (|r| > 1 ==> s.active[|p| + 1] == r[1])
  {
  }

  lemma CursorStart<T, C>(s: State<T, C>, now: int)
    ensures Cursor(s, s.active, [], [], s.active, now)
  {
    PendingAll(s.active);
    var none: set<T> := {};
    assert (set y | y in s.active[..0]) == none;
  }

  /** Where the walk stops, everything not served is due later: the list is sorted. */
  lemma CursorEnd<T, C>(s: State<T, C>, a: seq<T>, done: seq<T>, p: seq<T>, r: seq<T>, now: int)
    requires ActiveKnown(s) && Cursor(s, a, done, p, r, now) && Sorted(s.active, s.item)
    requires r == [] || s.item[r[0]].best > now
    ensures forall y :: y in a[|done|..] ==> y in s.item && s.item[y].best > now
  {
    forall y | y in a[|done|..] ensures y in s.item && s.item[y].best > now {
      assert y in r;
      var i :| 0 <= i < |r| && r[i] == y;
      assert s.active[|p| + i] == y && s.active[|p|] == r[0];
      assert s.active[|p|] in s.active && y in s.active;
    }
  }
}