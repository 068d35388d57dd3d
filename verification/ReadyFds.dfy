/** Serving the connections whose fds are ready, in ascending order: what is made of the answers,
    and when an fd has no connection any more. */
module ReadyFds {
  import opened Wrappers
  import opened ConnectionState
  import opened Connections

  /** What a connection answers when it is served, and when it is reset if it is dead then. */
  datatype Answer = Answer(r: Report, again: Report)

  const NO_ANSWER := Answer(NO_REPORT, NO_REPORT)

  /** The connection at `fd` may be destroyed. */
  predicate Destroyable<T>(s: State<T, Connection>, fd: int) {
    && fd in s.index && s.index[fd] in s.item
    && s.item[s.index[fd]].con.Some? && s.item[s.index[fd]].con.value.autoDestroyable
  }

  /** Both due times lie a timeout after some time from `early` to `late`. */
  predicate WellDated(a: Answer, early: int, late: int) {
    Dated(a.r, early, late) && Dated(a.again, early, late)
  }

  /** The connection at `fd` has been served. */
  ghost function Attended<T>(s: State<T, Connection>, fd: int, a: Answer): (t: State<T, Connection>)
    requires Coherent(s) && fd in s.index
    ensures Coherent(t)
  {
    HandledKeepsCoherent(s, fd, a.r, Destroyable(s, fd), a.again);
    InvParts(s);
    Handled(s, s.index[fd], fd, a.r, Destroyable(s, fd), a.again)
  }

  /** `t` is `s` with the connection at `fd` served. */
  ghost predicate Attends<T>(s: State<T, Connection>, t: State<T, Connection>, fd: int, a: Answer) {
    Coherent(s) && fd in s.index && t == Attended(s, fd, a)
  }

  lemma AttendedRest<T>(s: State<T, Connection>, fd: int, a: Answer)
    requires Coherent(s) && fd in s.index
    ensures var t := Attended(s, fd, a);
      && t.index == (if a.r.mode.dead && Destroyable(s, fd) then s.index - {fd} else s.index)
      && t.item.Keys == s.item.Keys && s.index[fd] in s.item
      && forall y :: y in s.item && y != s.index[fd] ==> t.item[y] == s.item[y]
  {
    hide Handled, Inv;
    HandledKeepsCoherent(s, fd, a.r, Destroyable(s, fd), a.again);
    InvParts(s);
    HandledIndex(s, s.index[fd], fd, a.r, Destroyable(s, fd), a.again);
    HandledSlots(s, s.index[fd], fd, a.r, Destroyable(s, fd), a.again);
  }

  /** The fds below `|answers|` that are ready have been served; `answers` has an entry for each
      fd, also for those that are not. */
  ghost function Through<T>(s: State<T, Connection>, ready: set<int>, answers: seq<Answer>): (t: State<T, Connection>)
    requires Coherent(s)
    ensures Coherent(t)
  {
    if answers == [] then s
    else
      var fd := |answers| - 1;
      var t := Through(s, ready, answers[..fd]);
      if fd in ready && fd in t.index then Attended(t, fd, answers[fd]) else t
  }

  lemma ThroughMore<T>(s: State<T, Connection>, ready: set<int>, answers: seq<Answer>, a: Answer)
    requires Coherent(s)
    ensures var t := Through(s, ready, answers); var fd := |answers|;
      Through(s, ready, answers + [a]) == if fd in ready && fd in t.index then Attended(t, fd, a) else t
  {
    assert (answers + [a])[..|answers|] == answers;
  }

  /** So are those of all that have been served. */
  ghost predicate AllDated<T>(s: State<T, Connection>, ready: set<int>, answers: seq<Answer>, early: int, late: int) {
    forall fd :: 0 <= fd < |answers| && fd in ready && fd in s.index ==> WellDated(answers[fd], early, late)
  }

  lemma DatedMore<T>(s: State<T, Connection>, ready: set<int>, answers: seq<Answer>, a: Answer, early: int, now: int, late: int)
    requires AllDated(s, ready, answers, early, now) && early <= now <= late
    requires |answers| in ready && |answers| in s.index ==> WellDated(a, now, late)
    ensures AllDated(s, ready, answers + [a], early, late)
  {
    var more := answers + [a];
    forall fd | 0 <= fd < |more| && fd in ready && fd in s.index ensures WellDated(more[fd], early, late) {
      assert fd < |answers| ==> more[fd] == answers[fd];
    }
  }

  lemma DatedLater<T>(s: State<T, Connection>, ready: set<int>, answers: seq<Answer>, early: int, now: int, late: int)
    requires AllDated(s, ready, answers, early, now) && now <= late
    ensures AllDated(s, ready, answers, early, late)
  {
    forall fd | 0 <= fd < |answers| && fd in ready && fd in s.index ensures WellDated(answers[fd], early, late) {
      assert WellDated(answers[fd], early, now);
    }
  }

  lemma DatedEarlier<T>(s: State<T, Connection>, ready: set<int>, answers: seq<Answer>, early: int, now: int, late: int)
    requires AllDated(s, ready, answers, now, late) && early <= now
    ensures AllDated(s, ready, answers, early, late)
  {
    forall fd | 0 <= fd < |answers| && fd in ready && fd in s.index ensures WellDated(answers[fd], early, late) {
      assert WellDated(answers[fd], now, late);
    }
  }

  lemma NoneDated<T>(s: State<T, Connection>, ready: set<int>, early: int, late: int)
    ensures AllDated(s, ready, [], early, late)
  {
  }

  /** Connections have been served one after the other, those at `fds`. */
  ghost function Played<T>(s: State<T, Connection>, fds: seq<int>, answers: seq<Answer>): (t: State<T, Connection>)
    requires Coherent(s) && |fds| == |answers|
    ensures Coherent(t)
  {
    if fds == [] then s
    else
      var n := |fds| - 1;
      var t := Played(s, fds[..n], answers[..n]);
      if fds[n] in t.index then Attended(t, fds[n], answers[n]) else t
  }

  lemma PlayedMore<T>(s: State<T, Connection>, fds: seq<int>, answers: seq<Answer>, fd: int, a: Answer)
    requires Coherent(s) && |fds| == |answers|
    ensures var t := Played(s, fds, answers);
      fd in t.index ==> Played(s, fds + [fd], answers + [a]) == Attended(t, fd, a)
  {
    assert (fds + [fd])[..|fds|] == fds && (answers + [a])[..|answers|] == answers;
  }

  /** What has not been served is as before. */
  lemma {:induction false} PlayedRest<T>(s: State<T, Connection>, fds: seq<int>, answers: seq<Answer>, fd: int)
    requires Coherent(s) && |fds| == |answers| && fd in s.index && fd !in fds
    ensures var t := Played(s, fds, answers);
      && fd in t.index && t.index[fd] == s.index[fd]
      && s.index[fd] in s.item && s.index[fd] in t.item && t.item[s.index[fd]] == s.item[s.index[fd]]
  {
    SlotsApart(s);
    if fds != [] {
      var n := |fds| - 1;
      PlayedRest(s, fds[..n], answers[..n], fd);
      var t := Played(s, fds[..n], answers[..n]);
      SlotsApart(t);
      hide Attended, Coherent;
      assert fds[n] != fd;
      if fds[n] in t.index { AttendedRest(t, fds[n], answers[n]); }
    }
  }

  /** The connection at `fd` was served, reported dead and was destroyed. */
  predicate Lost<T>(s: State<T, Connection>, ready: set<int>, answers: seq<Answer>, fd: int) {
    0 <= fd < |answers| && fd in ready && answers[fd].r.mode.dead && Destroyable(s, fd)
  }

  /** Each fd but those lost keeps its slot, and what has not been served is as before. */
  ghost predicate Undisturbed<T>(s: State<T, Connection>, t: State<T, Connection>, ready: set<int>, answers: seq<Answer>) {
    && (forall fd :: fd in t.index <==> fd in s.index && !Lost(s, ready, answers, fd))
    && (forall fd :: fd in t.index ==> t.index[fd] == s.index[fd])
    && (forall fd :: fd in s.index && (fd !in ready || fd >= |answers| || fd < 0) ==>
          s.index[fd] in s.item && s.index[fd] in t.item && t.item[s.index[fd]] == s.item[s.index[fd]])
  }

  lemma {:induction false} ThroughLoses<T>(s: State<T, Connection>, ready: set<int>, answers: seq<Answer>)
    requires Coherent(s)
    ensures Undisturbed(s, Through(s, ready, answers), ready, answers)
  {
    if answers != [] {
      var fd := |answers| - 1;
      ThroughLoses(s, ready, answers[..fd]);
      StepLoses(s, Through(s, ready, answers[..fd]), Through(s, ready, answers), ready, answers);
    }
  }

  lemma StepLoses<T>(s: State<T, Connection>, t: State<T, Connection>, u: State<T, Connection>, ready: set<int>, answers: seq<Answer>)
    requires Coherent(s) && Coherent(t) && answers != []
    requires var fd := |answers| - 1;
      Undisturbed(s, t, ready, answers[..fd]) && u == if fd in ready && fd in t.index then Attended(t, fd, answers[fd]) else t
    ensures Undisturbed(s, u, ready, answers)
  {
    hide Attended, Coherent, Lost, Destroyable;
    var fd := |answers| - 1;
    LostLast(s, ready, answers);
    SlotsApart(s);
    SameThere(s, t, ready, answers[..fd], fd);
    if fd in ready && fd in t.index { AttendedRest(t, fd, answers[fd]); }
  }

  lemma LostLast<T>(s: State<T, Connection>, ready: set<int>, answers: seq<Answer>)
    requires answers != []
    ensures var n := |answers| - 1; forall fd ::
      Lost(s, ready, answers, fd) <==>
        if fd == n then n in ready && answers[n].r.mode.dead && Destroyable(s, n) else Lost(s, ready, answers[..n], fd)
  {
  }

  lemma SameThere<T>(s: State<T, Connection>, t: State<T, Connection>, ready: set<int>, answers: seq<Answer>, fd: int)
    requires Undisturbed(s, t, ready, answers) && fd >= |answers|
    ensures fd in t.index <==> fd in s.index
    ensures Destroyable(t, fd) <==> Destroyable(s, fd)
  {
  }

  lemma SlotsApart<T>(s: State<T, Connection>)
    requires Coherent(s)
    ensures forall fd :: fd in s.index ==> s.index[fd] in s.item && s.item[s.index[fd]].con.Some?
    ensures forall d, e :: d in s.index && e in s.index && s.index[d] == s.index[e] ==> d == e
  {
    forall d, e | d in s.index && e in s.index && s.index[d] == s.index[e] ensures d == e {
      assert s.item[s.index[d]].fd == d;
    }
  }

  /** One call back, and what follows upon the answer. */
  function ServedCalls<T>(s: State<T, Connection>, fd: int, a: Answer, cause: Cause): (calls: seq<Call>)
  {
    if fd !in s.index || s.index[fd] !in s.item then []
    else
      [First(cause, a.r.mode, a.r.span)]
      + FollowUp(s.item[s.index[fd]].mode, a.r, Destroyable(s, fd), a.again)
  }

  /** Nothing that follows upon a timeout tells the connection of another. */
  lemma ServedOnce<T>(s: State<T, Connection>, fd: int, a: Answer, before: seq<Call>)
    requires fd in s.index && s.index[fd] in s.item
    ensures OnceExpired(before, before + ServedCalls(s, fd, a, ToExpire))
  {
  }

  /** What has not been served yet does when it is what it would have done at first. */
  lemma PlayedCalls<T>(s: State<T, Connection>, fds: seq<int>, answers: seq<Answer>, fd: int, a: Answer)
    requires Coherent(s) && |fds| == |answers| && fd in s.index && fd !in fds
    ensures var t := Played(s, fds, answers);
      && fd in t.index && t.index[fd] in t.item && t.index[fd] == s.index[fd]
      && ServedCalls(t, fd, a, ToExpire) == ServedCalls(s, fd, a, ToExpire)
      && Played(s, fds + [fd], answers + [a]) == Attended(t, fd, a)
  {
    PlayedRest(s, fds, answers, fd);
    PlayedMore(s, fds, answers, fd, a);
    hide Coherent, Played, FollowUp;
  }

  /** What serving the ready fds makes the connection at `fd` do. */
  function RoundCalls<T>(s: State<T, Connection>, ready: set<int>, answers: seq<Answer>, fd: int, cause: Cause): (calls: seq<Call>) {
    if 0 <= fd < |answers| && fd in ready then ServedCalls(s, fd, answers[fd], cause) else []
  }

  /** A ready connection is told to send in the first round, and to receive in the second, before
      anything else, once; the others are told nothing. */
  lemma RoundFirst<T>(s: State<T, Connection>, ready: set<int>, answers: seq<Answer>, fd: int, cause: Cause)
    requires Coherent(s)
    ensures var calls := RoundCalls(s, ready, answers, fd, cause);
      && (calls != [] <==> 0 <= fd < |answers| && fd in ready && fd in s.index)
      && (calls != [] ==>
            && (cause == ToSend ==> calls[0] == Sent(answers[fd].r.mode, answers[fd].r.span))
            && (cause == ToReceive ==> calls[0] == Received(answers[fd].r.mode, answers[fd].r.span))
            && (cause == ToExpire ==> calls[0] == Expired(answers[fd].r.mode, answers[fd].r.span))
            && forall i :: 0 < i < |calls| ==> !calls[i].Received? && !calls[i].Expired?)
  {
    SlotsApart(s);
    hide Coherent;
  }

  /** One more fd adds to the calls of its own connection only, and to these what serving it in
      the state then reached amounts to. */
  lemma SameServed<T>(s: State<T, Connection>, t: State<T, Connection>, ready: set<int>, answers: seq<Answer>, a: Answer, cause: Cause)
    requires Coherent(s) && t == Through(s, ready, answers)
    ensures var n := |answers|; var more := answers + [a];
      && (forall fd :: fd != n ==> RoundCalls(s, ready, more, fd, cause) == RoundCalls(s, ready, answers, fd, cause))
      && RoundCalls(s, ready, answers, n, cause) == []
      && (n !in ready ==> RoundCalls(s, ready, more, n, cause) == [])
      && (n in t.index ==> n in s.index && t.index[n] == s.index[n])
      && (n in ready && n in t.index ==>
            RoundCalls(s, ready, more, n, cause) == ServedCalls(t, n, a, cause))
  {
    ThroughLoses(s, ready, answers);
    SlotsApart(s);
    hide Coherent, Through, FollowUp;
    SameThere(s, t, ready, answers, |answers|);
  }

  /** Serving goes on up to `n` and stops before the first ready fd that has no connection. */
  ghost predicate StopsAt<T>(s: State<T, Connection>, ready: set<int>, n: nat, stopped: int) {
    && 0 <= stopped <= n
    && (forall fd :: 0 <= fd < stopped && fd in ready ==> fd in s.index)
    && (stopped < n ==> stopped in ready && stopped !in s.index)
  }

  /** A ready fd has no connection when it is its turn. */
  ghost predicate Missing<T>(s: State<T, Connection>, readables: set<int>, writeables: set<int>, n: nat, sends: seq<Answer>) {
    exists fd :: 0 <= fd < n && MissingAt(s, readables, writeables, sends, fd)
  }

  predicate MissingAt<T>(s: State<T, Connection>, readables: set<int>, writeables: set<int>, sends: seq<Answer>, fd: int) {
    if fd in s.index then fd in readables && Lost(s, writeables, sends, fd)
    else fd in readables || fd in writeables
  }

  lemma StopsMissing<T>(s: State<T, Connection>, readables: set<int>, writeables: set<int>, n: nat, sends: seq<Answer>, stopped: int)
    requires Coherent(s) && StopsAt(s, writeables, n, |sends|)
    requires |sends| == n ==> StopsAt(Through(s, writeables, sends), readables, n, stopped)
    ensures Missing(s, readables, writeables, n, sends) <==> |sends| < n || stopped < n
  {
    ThroughLoses(s, writeables, sends);
    hide Through, Coherent;
    if |sends| < n {
      assert MissingAt(s, readables, writeables, sends, |sends|);
    } else if stopped < n {
      assert MissingAt(s, readables, writeables, sends, stopped);
    }
  }

  /** A ready fd that has no connection, or is ready in both ways and its connection may be
      destroyed. */
  predicate Endangered<T>(s: State<T, Connection>, readables: set<int>, writeables: set<int>, fd: int) {
    if fd in s.index then fd in readables && fd in writeables && Destroyable(s, fd)
    else fd in readables || fd in writeables
  }

  lemma MissingEndangered<T>(s: State<T, Connection>, readables: set<int>, writeables: set<int>, n: nat, sends: seq<Answer>)
    requires Missing(s, readables, writeables, n, sends)
    ensures exists fd :: 0 <= fd < n && Endangered(s, readables, writeables, fd)
  {
    var fd :| 0 <= fd < n && MissingAt(s, readables, writeables, sends, fd);
    assert Endangered(s, readables, writeables, fd);
  }

  const DEAD := DORMANT.(dead := true)

  /** Depending on the answers, a ready fd can come to have no connection exactly if one of them is
      endangered. */
  lemma MissingExactly<T>(s: State<T, Connection>, readables: set<int>, writeables: set<int>, n: nat)
    ensures (exists sends: seq<Answer> :: |sends| == n && Missing(s, readables, writeables, n, sends)) <==>
      exists fd :: 0 <= fd < n && Endangered(s, readables, writeables, fd)
  {
    if fd :| 0 <= fd < n && Endangered(s, readables, writeables, fd) {
      var r := NO_REPORT.(mode := DEAD);
      var sends := seq(n, i => Answer(r, r));
      assert MissingAt(s, readables, writeables, sends, fd);
      assert Missing(s, readables, writeables, n, sends);
    }
    forall sends: seq<Answer> | |sends| == n && Missing(s, readables, writeables, n, sends)
      ensures exists fd :: 0 <= fd < n && Endangered(s, readables, writeables, fd)
    {
      MissingEndangered(s, readables, writeables, n, sends);
    }
  }

  /** If what is ready was watched, and no connection that may be destroyed asks for both ways at
      once, every ready fd has its connection. */
  lemma WatchedServed<T>(s: State<T, Connection>, readables: set<int>, writeables: set<int>, n: nat, sends: seq<Answer>)
    requires Coherent(s) && readables <= s.readable && writeables <= s.writeable
    requires forall fd :: Destroyable(s, fd) ==> !(s.item[s.index[fd]].mode.readable && s.item[s.index[fd]].mode.writeable)
    ensures !Missing(s, readables, writeables, n, sends)
  {
  }

  /** From every state with a free slot a connection that may be destroyed can be added that asks
      for both ways; if then it is ready in both and sending reports it dead, it is gone before
      it can receive. */
  lemma GoneBeforeReceiving<T>(s: State<T, Connection>, fd: int, con: Connection, r: Report, n: nat, sends: seq<Answer>)
    requires Coherent(s) && s.free != [] && fd !in s.index && con.autoDestroyable && 0 <= fd < n == |sends|
    requires r.mode.readable && r.mode.writeable && r.mode.noFastWrite && sends[fd].r.mode.dead
    ensures var t := Add(s, fd, con, r);
      && Coherent(t) && fd in t.readable && fd in t.writeable
      && fd !in Through(t, {fd}, sends).index && Missing(t, {fd}, {fd}, n, sends)
  {
    AddKeepsCoherent(s, fd, con, r);
    var x := s.free[0];
    OccupyKeepsInv(s, x, fd, con);
    var o := Occupy(s, x, fd, con);
    InvParts(o);
    TrackSlots(o, x, r.mode, r.due);
    var t := Add(s, fd, con, r);
    ThroughLoses(t, {fd}, sends);
    hide Track, Inv, Through, Occupy;
    assert MissingAt(t, {fd}, {fd}, sends, fd);
  }
}
