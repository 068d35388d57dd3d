/** A connection as the connection manager sees it. What happens on the wire is open: sending,
    receiving, timing out and resetting report some io mode, may kill the connection and may
    change its timeout. */
module Connections {
  import opened ConnectionState

  /** A timeout span; `KssConnection::getTimeout` of a connection that times out is positive. */
  type Span = t: int | 0 < t witness 1

  /** What a connection is told to do or asked for, with the io mode it answers and the timeout it
      has then. */
  datatype Call =
    | Sent(mode: IoMode, span: int)
    | Received(mode: IoMode, span: int)
    | Expired(mode: IoMode, span: int)
    | Restored(mode: IoMode, span: int)
    | Asked(mode: IoMode, span: int)
    | ShutDown

  /** Why a connection is called back. */
  datatype Cause = ToSend | ToReceive | ToExpire

  function First(cause: Cause, mode: IoMode, span: int): (call: Call) {
    match cause
    case ToSend => Sent(mode, span)
    case ToReceive => Received(mode, span)
    case ToExpire => Expired(mode, span)
  }

  class Connection {
    const fd: int
    const autoDestroyable: bool
    var timeout: Span
    var dead: bool
    var managed: bool
    /** All calls so far. */
    ghost var calls: seq<Call>

    constructor (fd: int, autoDestroyable: bool, timeout: Span)
      ensures this.fd == fd && this.autoDestroyable == autoDestroyable && this.timeout == timeout
      ensures !dead && !managed && calls == []
    {
      this.fd := fd;
      this.autoDestroyable := autoDestroyable;
      this.timeout := timeout;
      dead := false;
      managed := false;
      calls := [];
    }

    /** What all callbacks have in common. */
    method Respond() returns (mode: IoMode)
      modifies this`timeout, this`dead
    {
      mode := *;
      var span: int :| 0 < span;
      timeout := span;
      dead := *;
    }

    method Send() returns (mode: IoMode)
      modifies this`timeout, this`dead, this`calls
      ensures calls == old(calls) + [Sent(mode, timeout)]
    {
      mode := Respond();
      calls := calls + [Sent(mode, timeout)];
    }

    method Receive() returns (mode: IoMode)
      modifies this`timeout, this`dead, this`calls
      ensures calls == old(calls) + [Received(mode, timeout)]
    {
      mode := Respond();
      calls := calls + [Received(mode, timeout)];
    }

    method TimedOut() returns (mode: IoMode)
      modifies this`timeout, this`dead, this`calls
      ensures calls == old(calls) + [Expired(mode, timeout)]
    {
      mode := Respond();
      calls := calls + [Expired(mode, timeout)];
    }

    /** Calls the connection back. */
    method CallBack(cause: Cause) returns (mode: IoMode)
      modifies this`timeout, this`dead, this`calls
      ensures calls == old(calls) + [First(cause, mode, timeout)]
    {
      match cause
      case ToSend => mode := Send();
      case ToReceive => mode := Receive();
      case ToExpire => mode := TimedOut();
    }

    method Reset() returns (mode: IoMode)
      modifies this`timeout, this`dead, this`calls
      ensures calls == old(calls) + [Restored(mode, timeout)]
    {
      mode := Respond();
      calls := calls + [Restored(mode, timeout)];
    }

    method GetIoMode() returns (mode: IoMode)
      modifies this`calls
      ensures calls == old(calls) + [Asked(mode, timeout)]
    {
      mode := *;
      calls := calls + [Asked(mode, timeout)];
    }

    method Shutdown()
      modifies this`dead, this`calls
      ensures dead && calls == old(calls) + [ShutDown]
    {
      dead := true;
      calls := calls + [ShutDown];
    }
  }

  /** The send tried at once when the io mode `r.mode` follows upon `last`. */
  function FastSend(last: IoMode, r: Report): (calls: seq<Call>) {
    if FastWrite(last, r.mode) then [Sent(r.sent, r.sentSpan)] else []
  }

  /** The io mode remembered then. */
  function Remembered(last: IoMode, r: Report): (mode: IoMode) {
    if FastWrite(last, r.mode) then r.sent else r.mode
  }

  /** All that is made of the answer to a callback: perhaps a send at once, and if the answer was
      that the connection is dead, its end or its reset. */
  function FollowUp(last: IoMode, r: Report, destroy: bool, again: Report): (calls: seq<Call>) {
    FastSend(last, r) +
    if !r.mode.dead then []
    else if destroy then [ShutDown]
    else [Restored(again.mode, again.span)] + FastSend(Remembered(last, r), again)
  }

  /** A connection is shut down exactly if its answer was that it is dead and it may be destroyed, and
      reset exactly if it was and may not; it is shut down once, and nothing comes after that. */
  lemma FollowUpExactly(last: IoMode, r: Report, destroy: bool, again: Report)
    ensures var calls := FollowUp(last, r, destroy, again);
      && (ShutDown in calls <==> r.mode.dead && destroy)
      && (ShutDown in calls ==> calls[|calls| - 1] == ShutDown && ShutDown !in calls[..|calls| - 1])
      && ((exists c :: c in calls && c.Restored?) <==> r.mode.dead && !destroy)
      && (calls == [] <==> !r.mode.dead && !(r.mode.writeable && !last.writeable && !r.mode.noFastWrite))
      && forall c :: c in calls ==> c in {ShutDown, Restored(again.mode, again.span), Sent(r.sent, r.sentSpan), Sent(again.sent, again.sentSpan)}
  {
    var calls := FollowUp(last, r, destroy, again);
    if r.mode.dead && !destroy {
      assert Restored(again.mode, again.span) in calls;
    }
    if r.mode.dead && destroy {
      assert calls[|calls| - 1] == ShutDown;
    }
  }

  /** From `before` to `after` the connection was told once, and then not again, that it has timed out. */
  predicate OnceExpired(before: seq<Call>, after: seq<Call>) {
    && before < after && after[|before|].Expired?
    && forall i :: |before| < i < |after| ==> !after[i].Expired?
  }
}
