/** RPC headers as in section 9 of RFC 5531, and how they are written to and read from a memory
    stream. Only the authentication flavor "none" is used. */
module RpcHeader {
  import opened Fragments
  import opened MemStream
  import opened NetworkOrder
  import opened Wrappers

  newtype Word = x: int | 0 <= x < 0x1_0000_0000

  const CALL: Word := 0
  const REPLY: Word := 1
  const MSG_ACCEPTED: Word := 0
  const MSG_DENIED: Word := 1
  const SUCCESS: Word := 0
  const PROG_UNAVAIL: Word := 1
  const PROG_MISMATCH: Word := 2
  const PROC_UNAVAIL: Word := 3
  const GARBAGE_ARGS: Word := 4
  const SYSTEM_ERR: Word := 5
  const RPC_MISMATCH: Word := 0
  const AUTH_ERROR: Word := 1
  const AUTH_NONE: Word := 0
  const RPC_VERSION: Word := 2

  /** The fields of a header. */
  datatype Header = Header(
    xid: Word, msgType: Word, rpcVersion: Word, progNumber: Word, progVersion: Word, procedure: Word,
    replyStatus: Word, acceptStatus: Word, low: Word, high: Word, authError: Word, rejectStatus: Word)

  /** Accepted calls that carry nothing but their status. */
  predicate Bare(acceptStatus: Word) {
    acceptStatus in {SUCCESS, PROG_UNAVAIL, PROC_UNAVAIL, GARBAGE_ARGS, SYSTEM_ERR}
  }

  /** The words that a header is written as, if it is one of a valid kind. */
  function Encoding(h: Header): (o: Option<seq<Word>>) {
    if h.msgType == CALL then
      if h.rpcVersion != RPC_VERSION then None
      else Some([h.xid, CALL, RPC_VERSION, h.progNumber, h.progVersion, h.procedure, AUTH_NONE, 0, AUTH_NONE, 0])
    else if h.msgType != REPLY then None
    else if h.replyStatus == MSG_ACCEPTED then
      if Bare(h.acceptStatus) then Some([h.xid, REPLY, MSG_ACCEPTED, AUTH_NONE, 0, h.acceptStatus])
      else if h.acceptStatus == PROG_MISMATCH then
        Some([h.xid, REPLY, MSG_ACCEPTED, AUTH_NONE, 0, PROG_MISMATCH, h.low, h.high])
      else None
    else if h.replyStatus == MSG_DENIED then
      if h.rejectStatus == RPC_MISMATCH then Some([h.xid, REPLY, MSG_DENIED, RPC_MISMATCH, h.low, h.high])
      else if h.rejectStatus == AUTH_ERROR then Some([h.xid, REPLY, MSG_DENIED, AUTH_ERROR, h.authError])
      else None
    else None
  }

  /** Two headers agree in all fields that a message of their kind carries. */
  predicate SameMessage(h: Header, g: Header) {
    && h.xid == g.xid && h.msgType == g.msgType
    && (h.msgType == CALL ==>
          h.rpcVersion == g.rpcVersion && h.progNumber == g.progNumber && h.progVersion == g.progVersion
          && h.procedure == g.procedure)
    && (h.msgType == REPLY ==> h.replyStatus == g.replyStatus)
    && (h.msgType == REPLY && h.replyStatus == MSG_ACCEPTED ==>
          h.acceptStatus == g.acceptStatus && (h.acceptStatus == PROG_MISMATCH ==> h.low == g.low && h.high == g.high))
    && (h.msgType == REPLY && h.replyStatus == MSG_DENIED ==>
          h.rejectStatus == g.rejectStatus
          && (h.rejectStatus == RPC_MISMATCH ==> h.low == g.low && h.high == g.high)
          && (h.rejectStatus == AUTH_ERROR ==> h.authError == g.authError))
  }

  /** The messages that can be written, by the numbers that stand for their kinds. */
  lemma EncodesExactly(h: Header)
    ensures Encoding(h).Some? <==>
      || (h.msgType == 0 && h.rpcVersion == 2)
      || (h.msgType == 1 && h.replyStatus == 0 && h.acceptStatus <= 5)
      || (h.msgType == 1 && h.replyStatus == 1 && h.rejectStatus <= 1)
  {
  }

  /** Where each field comes. */
  lemma Layout(h: Header)
    requires Encoding(h).Some?
    ensures var ws := Encoding(h).value;
      && |ws| >= 5 && ws[0] == h.xid && ws[1] == h.msgType
      && (h.msgType == 0 ==> ws[2..] == [2, h.progNumber, h.progVersion, h.procedure, 0, 0, 0, 0])
      && (h.msgType == 1 && h.replyStatus == 0 ==>
            ws[2..] == if h.acceptStatus == 2 then [0, 0, 0, 2, h.low, h.high] else [0, 0, 0, h.acceptStatus])
      && (h.msgType == 1 && h.replyStatus == 1 ==>
            ws[2..] == if h.rejectStatus == 0 then [1, 0, h.low, h.high] else [1, 1, h.authError])
  {
  }

  datatype Step = Fail | Step(header: Header, taken: nat)

  /** What reading from a sequence of words comes to: the header, whose other fields stay as they
      were, and how many words were read. */
  function Decoding(h: Header, ws: seq<Word>): (r: Step) {
    if |ws| < 2 then Fail
    else
      var h := h.(xid := ws[0], msgType := ws[1], rpcVersion := 0);
      if ws[1] == CALL then DecodingCall(h, ws)
      else if ws[1] == REPLY then DecodingReply(h, ws)
      else Fail
  }

  function DecodingReply(h: Header, ws: seq<Word>): (r: Step) {
    if |ws| < 3 then Fail
    else
      var h := h.(replyStatus := ws[2]);
      if ws[2] == MSG_ACCEPTED then DecodingAccepted(h, ws)
      else if ws[2] == MSG_DENIED then DecodingDenied(h, ws)
      else Fail
  }

  function DecodingCall(h: Header, ws: seq<Word>): (r: Step)
    requires |ws| >= 2
  {
    if |ws| < 10 || ws[2] != RPC_VERSION || ws[6..10] != [AUTH_NONE, 0, AUTH_NONE, 0] then Fail
    else Step(h.(rpcVersion := ws[2], progNumber := ws[3], progVersion := ws[4], procedure := ws[5]), 10)
  }

  function DecodingAccepted(h: Header, ws: seq<Word>): (r: Step)
    requires |ws| >= 3
  {
    if |ws| < 6 || ws[3..5] != [AUTH_NONE, 0] then Fail
    else
      var h := h.(acceptStatus := ws[5]);
      if Bare(ws[5]) then Step(h, 6)
      else if ws[5] == PROG_MISMATCH && |ws| >= 8 then Step(h.(low := ws[6], high := ws[7]), 8)
      else Fail
  }

  function DecodingDenied(h: Header, ws: seq<Word>): (r: Step)
    requires |ws| >= 3
  {
    if |ws| < 4 then Fail
    else
      var h := h.(rejectStatus := ws[3]);
      if ws[3] == RPC_MISMATCH && |ws| >= 6 then Step(h.(low := ws[4], high := ws[5]), 6)
      else if ws[3] == AUTH_ERROR && |ws| >= 5 then Step(h.(authError := ws[4]), 5)
      else Fail
  }

  /** A header that can be written is read back, whatever header it is read into, and nothing of
      what follows is taken. */
  lemma DecodeEncode(h: Header, g: Header, payload: seq<Word>)
    requires Encoding(h).Some?
    ensures var ws := Encoding(h).value; var r := Decoding(g, ws + payload);
      r.Step? && r.taken == |ws| && SameMessage(h, r.header)
  {
    var ws := Encoding(h).value;
    assert forall i :: 0 <= i < |ws| ==> (ws + payload)[i] == ws[i];
    if h.msgType == CALL {
      assert (ws + payload)[6..10] == [AUTH_NONE, 0, AUTH_NONE, 0];
    } else if h.replyStatus == MSG_ACCEPTED {
      assert (ws + payload)[3..5] == [AUTH_NONE, 0];
    }
  }

  /** And a header that was read is written as the words it was read from. */
  lemma EncodeDecode(g: Header, ws: seq<Word>)
    requires Decoding(g, ws).Step?
    ensures var r := Decoding(g, ws); r.taken <= |ws| && Encoding(r.header) == Some(ws[..r.taken])
  {
    if ws[1] == CALL {
      assert ws[6] == AUTH_NONE && ws[7] == 0 && ws[8] == AUTH_NONE && ws[9] == 0 by {
        assert ws[6..10][0] == ws[6] && ws[6..10][1] == ws[7] && ws[6..10][2] == ws[8] && ws[6..10][3] == ws[9];
      }
      assert ws[..10] == [ws[0], CALL, RPC_VERSION, ws[3], ws[4], ws[5], AUTH_NONE, 0, AUTH_NONE, 0];
    } else if ws[2] == MSG_ACCEPTED {
      assert ws[3] == AUTH_NONE && ws[4] == 0 by {
        assert ws[3..5][0] == ws[3] && ws[3..5][1] == ws[4];
      }
      assert ws[..6] == [ws[0], REPLY, MSG_ACCEPTED, AUTH_NONE, 0, ws[5]];
      assert |ws| >= 8 ==> ws[..8] == [ws[0], REPLY, MSG_ACCEPTED, AUTH_NONE, 0, ws[5], ws[6], ws[7]];
    } else {
      assert |ws| >= 5 ==> ws[..5] == [ws[0], REPLY, MSG_DENIED, ws[3], ws[4]];
      assert |ws| >= 6 ==> ws[..6] == [ws[0], REPLY, MSG_DENIED, ws[3], ws[4], ws[5]];
    }
  }

  function Signed(w: Word): (v: Long) {
    if w < 0x8000_0000 then w as Long else (w as int - 0x1_0000_0000) as Long
  }

  function Unsigned(v: Long): (w: Word) {
    if v < 0 then (v as int + 0x1_0000_0000) as Word else v as Word
  }

  function WordBytes(w: Word): (s: seq<byte>)
    ensures |s| == 4
  {
    Network(Signed(w))
  }

  /** A word is written with its most significant byte first. */
  lemma WordBigEndian(w: Word)
    ensures var s := WordBytes(w);
      s[0] as int * 0x100_0000 + s[1] as int * 0x1_0000 + s[2] as int * 0x100 + s[3] as int == w as int
  {
    NetworkBigEndian(Signed(w));
  }

  function Bytes(ws: seq<Word>): (s: seq<byte>)
    ensures |s| == 4 * |ws|
  {
    if ws == [] then [] else WordBytes(ws[0]) + Bytes(ws[1..])
  }

  lemma {:induction false} BytesAppend(ws: seq<Word>, vs: seq<Word>)
    ensures Bytes(ws + vs) == Bytes(ws) + Bytes(vs)
    decreases ws
  {
    if ws == [] {
      assert ws + vs == vs;
    } else {
      assert (ws + vs)[1..] == ws[1..] + vs;
      BytesAppend(ws[1..], vs);
    }
  }

  /** A stream to which words can be written. */
  ghost predicate Writable(s: XdrStream)
    reads s, Members(s.chain), s.pool, Members(s.pool.free)
  {
    s.Valid() && s.op == Encode && s.pool.bufferSize % 4 == 0 && |s.Contents(s.pool.bufferSize)| % 4 == 0
  }

  /** Writes words one by one, until there is no more room. */
  method PutWords(s: XdrStream, ws: seq<Word>) returns (ok: bool)
    requires Writable(s)
    modifies s, s.pool`freeList, s.pool`fragmentCount, s.pool`freeFragmentCount, s.pool`free, s.pool`live
    modifies Members(s.chain), Members(s.pool.free)
    ensures Writable(s)
    ensures forall f :: f in s.chain ==> f in old(s.chain) || f in old(s.pool.free) || fresh(f)
    ensures forall f :: f in s.pool.free ==> f in old(s.pool.free)
    ensures ok <==> 4 * |ws| <= old(s.Room())
    ensures ok ==> s.Room() == old(s.Room()) - 4 * |ws|
    ensures ok ==> s.Contents(s.pool.bufferSize) == old(s.Contents(s.pool.bufferSize)) + Bytes(ws)
  {
    hide XdrStream.Own, XdrStream.Contents, XdrStream.Room, FragmentPool.Valid, Bytes, WordBytes;
    NoBytes();
    var i := 0;
    while i < |ws|
      invariant 0 <= i <= |ws| && Writable(s)
      invariant forall f :: f in s.chain ==> f in old(s.chain) || f in old(s.pool.free) || fresh(f)
      invariant forall f :: f in s.pool.free ==> f in old(s.pool.free)
      invariant s.Room() == old(s.Room()) - 4 * i
      invariant s.Contents(s.pool.bufferSize) == old(s.Contents(s.pool.bufferSize)) + Bytes(ws[..i])
    {
      ok := PutWord(s, ws[i]);
      if !ok {
        return;
      }
      OneMore(ws, i);
      i := i + 1;
    }
    assert ws[..i] == ws;
    ok := true;
  }

  method PutWord(s: XdrStream, w: Word) returns (ok: bool)
    requires Writable(s)
    modifies s, s.pool`freeList, s.pool`fragmentCount, s.pool`freeFragmentCount, s.pool`free, s.pool`live
    modifies Members(s.chain), Members(s.pool.free)
    ensures Writable(s)
    ensures forall f :: f in s.chain ==> f in old(s.chain) || f in old(s.pool.free) || fresh(f)
    ensures forall f :: f in s.pool.free ==> f in old(s.pool.free)
    ensures ok <==> 4 <= old(s.Room())
    ensures ok ==> s.Room() == old(s.Room()) - 4
    ensures ok ==> s.Contents(s.pool.bufferSize) == old(s.Contents(s.pool.bufferSize)) + WordBytes(w)
  {
    hide XdrStream.Own, XdrStream.Contents, XdrStream.Room, FragmentPool.Valid, Network;
    s.PutsAligned();
    ok := s.PutLong(Signed(w));
  }

  lemma NoBytes()
    ensures Bytes([]) == []
  {
  }

  lemma OneMore(ws: seq<Word>, i: nat)
    requires i < |ws|
    ensures Bytes(ws[..i + 1]) == Bytes(ws[..i]) + WordBytes(ws[i])
  {
    assert ws[..i + 1] == ws[..i] + [ws[i]];
    BytesAppend(ws[..i], [ws[i]]);
    assert Bytes([ws[i]]) == WordBytes(ws[i]) + Bytes([]);
  }

  /** A stream from which words can be read. */
  ghost predicate Readable(s: XdrStream)
    reads s, Members(s.chain), s.pool, Members(s.pool.free)
  {
    && s.Valid() && s.op != Encode && s.current != null && s.pool.bufferSize % 4 == 0
    && |s.Contents(s.pool.bufferSize)| % 4 == 0 && |s.Unread(s.pool.bufferSize)| % 4 == 0
  }

  method GetWord(s: XdrStream) returns (ok: bool, w: Word)
    requires Readable(s)
    modifies s`current, s`pos, s`handy, s`at
    ensures s.Valid() && s.Contents(s.pool.bufferSize) == old(s.Contents(s.pool.bufferSize))
    ensures ok ==> Readable(s) && old(s.Unread(s.pool.bufferSize)) == WordBytes(w) + s.Unread(s.pool.bufferSize)
    ensures !ok ==> old(s.Unread(s.pool.bufferSize)) == []
  {
    hide XdrStream.Own, XdrStream.Contents, XdrStream.Unread, FragmentPool.Valid, Network;
    var v;
    s.GetsAligned();
    ok, v := s.GetLong();
    w := Unsigned(v);
    assert Signed(w) == v;
  }

  /** Reads `n` words, if there are as many. */
  method GetWords(s: XdrStream, n: nat) returns (ok: bool, ws: seq<Word>)
    requires Readable(s)
    modifies s`current, s`pos, s`handy, s`at
    ensures s.Valid() && s.Contents(s.pool.bufferSize) == old(s.Contents(s.pool.bufferSize))
    ensures ok ==> Readable(s) && |ws| == n && old(s.Unread(s.pool.bufferSize)) == Bytes(ws) + s.Unread(s.pool.bufferSize)
    ensures !ok ==> |old(s.Unread(s.pool.bufferSize))| < 4 * n
  {
    hide XdrStream.Own, XdrStream.Contents, XdrStream.Unread, FragmentPool.Valid, Bytes, WordBytes;
    NoBytes();
    ws := [];
    while |ws| < n
      invariant |ws| <= n && Readable(s)
      invariant s.Contents(s.pool.bufferSize) == old(s.Contents(s.pool.bufferSize))
      invariant old(s.Unread(s.pool.bufferSize)) == Bytes(ws) + s.Unread(s.pool.bufferSize)
    {
      var w;
      ok, w := GetWord(s);
      if !ok {
        return;
      }
      OneMore(ws + [w], |ws|);
      assert (ws + [w])[..|ws| + 1] == ws + [w] && (ws + [w])[..|ws|] == ws;
      ws := ws + [w];
    }
    ok := true;
  }

  class KsRpcHeader {
    var xid: Word
    var msgType: Word
    var rpcVersion: Word
    var progNumber: Word
    var progVersion: Word
    var procedure: Word
    var replyStatus: Word
    var acceptStatus: Word
    var low: Word
    var high: Word
    var authError: Word
    var rejectStatus: Word

    ghost function Value(): (h: Header)
      reads this
    {
      Header(xid, msgType, rpcVersion, progNumber, progVersion, procedure, replyStatus, acceptStatus, low, high,
             authError, rejectStatus)
    }

    constructor ()
      ensures Value() == Header(0, CALL, RPC_VERSION, 0, 0, 0, MSG_ACCEPTED, SYSTEM_ERR, 0, 0, AUTH_NONE, RPC_MISMATCH)
    {
      xid, msgType, rpcVersion, progNumber, progVersion, procedure := 0, CALL, RPC_VERSION, 0, 0, 0;
      replyStatus, acceptStatus, low, high := MSG_ACCEPTED, SYSTEM_ERR, 0, 0;
      authError, rejectStatus := AUTH_NONE, RPC_MISMATCH;
    }

    method SetRequest(xid: Word, progNumber: Word, progVersion: Word, procedure: Word)
      modifies this
      ensures Encoding(Value()) ==
        Some([xid, CALL, RPC_VERSION, progNumber, progVersion, procedure, AUTH_NONE, 0, AUTH_NONE, 0])
    {
      this.xid := xid;
      msgType := CALL;
      rpcVersion := RPC_VERSION;
      this.progNumber, this.progVersion, this.procedure := progNumber, progVersion, procedure;
    }

    /** Turns a call into a reply to it: the transaction stays the same. */
    method SetAccepted(status: Word)
      requires Bare(status)
      modifies this
      ensures Encoding(Value()) == Some([old(xid), REPLY, MSG_ACCEPTED, AUTH_NONE, 0, status])
    {
      msgType, replyStatus, acceptStatus := REPLY, MSG_ACCEPTED, status;
    }

    method SetProgramVersionMismatchError(low: Word, high: Word)
      modifies this
      ensures Encoding(Value()) == Some([old(xid), REPLY, MSG_ACCEPTED, AUTH_NONE, 0, PROG_MISMATCH, low, high])
    {
      msgType, replyStatus, acceptStatus := REPLY, MSG_ACCEPTED, PROG_MISMATCH;
      this.low, this.high := low, high;
    }

    method SetAuthRefusalError(why: Word)
      modifies this
      ensures Encoding(Value()) == Some([old(xid), REPLY, MSG_DENIED, AUTH_ERROR, why])
    {
      msgType, replyStatus, rejectStatus, authError := REPLY, MSG_DENIED, AUTH_ERROR, why;
    }

    method SetRpcVersionMismatchError(low: Word, high: Word)
      modifies this
      ensures Encoding(Value()) == Some([old(xid), REPLY, MSG_DENIED, RPC_MISMATCH, low, high])
    {
      msgType, replyStatus, rejectStatus := REPLY, MSG_DENIED, RPC_MISMATCH;
      this.low, this.high := low, high;
    }

    /** Writes the header; it fails exactly if the header is invalid or the room too small. */
    method XdrEncode(s: XdrStream) returns (ok: bool)
      requires Writable(s)
      modifies s, s.pool`freeList, s.pool`fragmentCount, s.pool`freeFragmentCount, s.pool`free, s.pool`live
      modifies Members(s.chain), Members(s.pool.free)
      ensures Writable(s) && Value() == old(Value())
      ensures forall f :: f in s.chain ==> f in old(s.chain) || f in old(s.pool.free) || fresh(f)
      ensures forall f :: f in s.pool.free ==> f in old(s.pool.free)
      ensures ok <==> Encoding(Value()).Some? && 4 * |Encoding(Value()).value| <= old(s.Room())
      ensures ok ==> s.Room() == old(s.Room()) - 4 * |Encoding(Value()).value|
      ensures ok ==> s.Contents(s.pool.bufferSize) == old(s.Contents(s.pool.bufferSize)) + Bytes(Encoding(Value()).value)
    {
      var rest := Rest();
      hide XdrStream.Own, XdrStream.Contents, XdrStream.Room, FragmentPool.Valid, Bytes;
      assert (this as object) !in Members(s.chain) && (this as object) !in Members(s.pool.free);
      ghost var front, all := [xid, msgType], Encoding(Value());
      assert all.Some? ==> |all.value| >= 2;
      ok := PutWords(s, [xid, msgType]);
      if !ok {
        return;
      }
      if rest == None {
        return false;
      }
      BytesAppend(front, rest.value);
      assert all.value == front + rest.value;
      ok := PutWords(s, rest.value);
    }

    /** The words behind the transaction and the type of the message. */
    method Rest() returns (rest: Option<seq<Word>>)
      ensures rest == (if Encoding(Value()).Some? then Some(Encoding(Value()).value[2..]) else None)
      ensures Encoding(Value()).Some? ==> Encoding(Value()).value[..2] == [xid, msgType]
    {
      if msgType == CALL {
        if rpcVersion != RPC_VERSION {
          return None;
        }
        rest := Some([rpcVersion, progNumber, progVersion, procedure, AUTH_NONE, 0, AUTH_NONE, 0]);
      } else if msgType == REPLY {
        if replyStatus == MSG_ACCEPTED {
          if Bare(acceptStatus) {
            rest := Some([replyStatus, AUTH_NONE, 0, acceptStatus]);
          } else if acceptStatus == PROG_MISMATCH {
            rest := Some([replyStatus, AUTH_NONE, 0, acceptStatus, low, high]);
          } else {
            rest := None;
          }
        } else if replyStatus == MSG_DENIED {
          if rejectStatus == RPC_MISMATCH {
            rest := Some([replyStatus, rejectStatus, low, high]);
          } else if rejectStatus == AUTH_ERROR {
            rest := Some([replyStatus, rejectStatus, authError]);
          } else {
            rest := None;
          }
        } else {
          rest := None;
        }
      } else {
        rest := None;
      }
    }

    /** Reads `n` more words; `ws` have been read already, of all the words `whole`. */
    method GetMore(s: XdrStream, n: nat, ghost ws: seq<Word>, ghost whole: seq<Word>) returns (ok: bool, more: seq<Word>)
      requires Readable(s) && whole == ws + WordsOf(s.Unread(s.pool.bufferSize))
      modifies s`current, s`pos, s`handy, s`at
      ensures s.Valid() && s.Contents(s.pool.bufferSize) == old(s.Contents(s.pool.bufferSize))
      ensures ok ==> Readable(s) && |more| == n && whole == ws + more + WordsOf(s.Unread(s.pool.bufferSize))
      ensures !ok ==> |whole| < |ws| + n
    {
      hide XdrStream.Own, XdrStream.Contents, XdrStream.Unread, FragmentPool.Valid, Bytes, WordsOf;
      ghost var unread := s.Unread(s.pool.bufferSize);
      ok, more := GetWords(s, n);
      if ok {
        WordsOfBytes(more, s.Unread(s.pool.bufferSize));
        assert ws + (more + WordsOf(s.Unread(s.pool.bufferSize))) == ws + more + WordsOf(s.Unread(s.pool.bufferSize));
      }
    }

    method DecodeCall(s: XdrStream, ghost ws: seq<Word>, ghost whole: seq<Word>) returns (ok: bool)
      requires Readable(s) && |ws| == 2 && whole == ws + WordsOf(s.Unread(s.pool.bufferSize))
      modifies this, s`current, s`pos, s`handy, s`at
      ensures s.Valid() && s.Contents(s.pool.bufferSize) == old(s.Contents(s.pool.bufferSize))
      ensures |whole| >= 2 && (ok <==> DecodingCall(old(Value()), whole).Step?)
      ensures ok ==> var r := DecodingCall(old(Value()), whole);
        Readable(s) && Value() == r.header && r.taken <= |whole| && WordsOf(s.Unread(s.pool.bufferSize)) == whole[r.taken..]
    {
      hide XdrStream.Own, XdrStream.Contents, XdrStream.Unread, FragmentPool.Valid, WordsOf;
      assert (this as object) !in Members(s.chain) && (this as object) !in Members(s.pool.free);
      var a;
      ok, a := GetMore(s, 8, ws, whole);
      if !ok {
        return;
      }
      rpcVersion, progNumber, progVersion, procedure := a[0], a[1], a[2], a[3];
      ok := rpcVersion == RPC_VERSION && a[4..8] == [AUTH_NONE, 0, AUTH_NONE, 0];
      assert whole[6..10] == a[4..8];
    }

    method DecodeAccepted(s: XdrStream, ghost ws: seq<Word>, ghost whole: seq<Word>) returns (ok: bool)
      requires Readable(s) && |ws| == 3 && whole == ws + WordsOf(s.Unread(s.pool.bufferSize))
      modifies this, s`current, s`pos, s`handy, s`at
      ensures s.Valid() && s.Contents(s.pool.bufferSize) == old(s.Contents(s.pool.bufferSize))
      ensures |whole| >= 3 && (ok <==> DecodingAccepted(old(Value()), whole).Step?)
      ensures ok ==> var r := DecodingAccepted(old(Value()), whole);
        Readable(s) && Value() == r.header && r.taken <= |whole| && WordsOf(s.Unread(s.pool.bufferSize)) == whole[r.taken..]
    {
      hide XdrStream.Own, XdrStream.Contents, XdrStream.Unread, FragmentPool.Valid, WordsOf;
      assert (this as object) !in Members(s.chain) && (this as object) !in Members(s.pool.free);
      var a;
      ok, a := GetMore(s, 3, ws, whole);
      if !ok {
        return;
      }
      assert whole[3..5] == a[..2];
      if a[..2] != [AUTH_NONE, 0] {
        return false;
      }
      acceptStatus := a[2];
      if Bare(acceptStatus) {
        return true;
      }
      if acceptStatus != PROG_MISMATCH {
        return false;
      }
      ok := DecodeRange(s, ws + a, whole);
    }

    /** Reads the lowest and the highest version. */
    method DecodeRange(s: XdrStream, ghost ws: seq<Word>, ghost whole: seq<Word>) returns (ok: bool)
      requires Readable(s) && whole == ws + WordsOf(s.Unread(s.pool.bufferSize))
      modifies this`low, this`high, s`current, s`pos, s`handy, s`at
      ensures s.Valid() && s.Contents(s.pool.bufferSize) == old(s.Contents(s.pool.bufferSize))
      ensures ok <==> |whole| >= |ws| + 2
      ensures ok ==> low == whole[|ws|] && high == whole[|ws| + 1]
      ensures ok ==> Readable(s) && WordsOf(s.Unread(s.pool.bufferSize)) == whole[|ws| + 2..]
    {
      hide XdrStream.Own, XdrStream.Contents, XdrStream.Unread, FragmentPool.Valid, WordsOf;
      assert (this as object) !in Members(s.chain) && (this as object) !in Members(s.pool.free);
      var b;
      ok, b := GetMore(s, 2, ws, whole);
      if !ok {
        return;
      }
      low, high := b[0], b[1];
    }

    method DecodeDenied(s: XdrStream, ghost ws: seq<Word>, ghost whole: seq<Word>) returns (ok: bool)
      requires Readable(s) && |ws| == 3 && whole == ws + WordsOf(s.Unread(s.pool.bufferSize))
      modifies this, s`current, s`pos, s`handy, s`at
      ensures s.Valid() && s.Contents(s.pool.bufferSize) == old(s.Contents(s.pool.bufferSize))
      ensures |whole| >= 3 && (ok <==> DecodingDenied(old(Value()), whole).Step?)
      ensures ok ==> var r := DecodingDenied(old(Value()), whole);
        Readable(s) && Value() == r.header && r.taken <= |whole| && WordsOf(s.Unread(s.pool.bufferSize)) == whole[r.taken..]
    {
      hide XdrStream.Own, XdrStream.Contents, XdrStream.Unread, FragmentPool.Valid, WordsOf;
      assert (this as object) !in Members(s.chain) && (this as object) !in Members(s.pool.free);
      var a;
      ok, a := GetMore(s, 1, ws, whole);
      if !ok {
        return;
      }
      rejectStatus := a[0];
      if rejectStatus == RPC_MISMATCH {
        ok := DecodeRange(s, ws + a, whole);
      } else if rejectStatus == AUTH_ERROR {
        var b;
        ok, b := GetMore(s, 1, ws + a, whole);
        if ok {
          authError := b[0];
        }
      } else {
        ok := false;
      }
    }

    /** Reads a header; what follows it in the stream is left there. */
    method XdrDecode(s: XdrStream) returns (ok: bool)
      requires Readable(s)
      modifies this, s`current, s`pos, s`handy, s`at
      ensures s.Valid() && s.Contents(s.pool.bufferSize) == old(s.Contents(s.pool.bufferSize))
      ensures ok <==> Decoding(old(Value()), WordsOf(old(s.Unread(s.pool.bufferSize)))).Step?
      ensures ok ==>
        var whole := WordsOf(old(s.Unread(s.pool.bufferSize)));
        var r := Decoding(old(Value()), whole);
        Readable(s) && Value() == r.header && r.taken <= |whole| && WordsOf(s.Unread(s.pool.bufferSize)) == whole[r.taken..]
    {
      hide XdrStream.Own, XdrStream.Contents, XdrStream.Unread, FragmentPool.Valid, WordsOf;
      hide DecodingCall, DecodingAccepted, DecodingDenied;
      assert (this as object) !in Members(s.chain) && (this as object) !in Members(s.pool.free);
      ghost var whole := WordsOf(s.Unread(s.pool.bufferSize));
      rpcVersion := 0;
      var a;
      ok, a := GetMore(s, 2, [], whole);
      if !ok {
        return;
      }
      xid, msgType := a[0], a[1];
      assert Value() == old(Value()).(xid := whole[0], msgType := whole[1], rpcVersion := 0);
      if msgType == CALL {
        ok := DecodeCall(s, a, whole);
      } else if msgType == REPLY {
        ok := DecodeReply(s, a, whole);
      } else {
        ok := false;
      }
    }

    method DecodeReply(s: XdrStream, ghost ws: seq<Word>, ghost whole: seq<Word>) returns (ok: bool)
      requires Readable(s) && |ws| == 2 && whole == ws + WordsOf(s.Unread(s.pool.bufferSize))
      modifies this, s`current, s`pos, s`handy, s`at
      ensures s.Valid() && s.Contents(s.pool.bufferSize) == old(s.Contents(s.pool.bufferSize))
      ensures ok <==> DecodingReply(old(Value()), whole).Step?
      ensures ok ==> var r := DecodingReply(old(Value()), whole);
        Readable(s) && Value() == r.header && r.taken <= |whole| && WordsOf(s.Unread(s.pool.bufferSize)) == whole[r.taken..]
    {
      hide XdrStream.Own, XdrStream.Contents, XdrStream.Unread, FragmentPool.Valid, WordsOf;
      hide DecodingAccepted, DecodingDenied;
      assert (this as object) !in Members(s.chain) && (this as object) !in Members(s.pool.free);
      var b;
      ok, b := GetMore(s, 1, ws, whole);
      if !ok {
        return;
      }
      replyStatus := b[0];
      assert |whole| >= 3 && whole[2] == b[0] && Value() == old(Value()).(replyStatus := whole[2]);
      if replyStatus == MSG_ACCEPTED {
        ok := DecodeAccepted(s, ws + b, whole);
      } else if replyStatus == MSG_DENIED {
        ok := DecodeDenied(s, ws + b, whole);
      } else {
        ok := false;
      }
    }
  }

  /** The words that bytes stand for. */
  function WordsOf(s: seq<byte>): (ws: seq<Word>)
    requires |s| % 4 == 0
    ensures 4 * |ws| == |s|
  {
    if s == [] then [] else [Unsigned(Host(s[..4]))] + WordsOf(s[4..])
  }

  lemma UnsignedNetwork(w: Word)
    ensures Unsigned(Host(WordBytes(w))) == w
  {
    hide Network, Host;
    HostNetwork(Signed(w));
  }

  lemma {:induction false} WordsOfBytes(ws: seq<Word>, t: seq<byte>)
    requires |t| % 4 == 0
    ensures WordsOf(Bytes(ws) + t) == ws + WordsOf(t)
    decreases ws
  {
    hide Network, Host, WordBytes, WordsOf, Unsigned;
    if ws == [] {
      assert Bytes(ws) + t == t;
    } else {
      var rest := Bytes(ws[1..]) + t;
      assert Bytes(ws) + t == WordBytes(ws[0]) + rest;
      WordsOfBytes(ws[1..], t);
      WordFirst(WordBytes(ws[0]), rest);
      UnsignedNetwork(ws[0]);
    }
  }

  lemma WordFirst(b: seq<byte>, s: seq<byte>)
    requires |b| == 4 && |s| % 4 == 0
    ensures WordsOf(b + s) == [Unsigned(Host(b))] + WordsOf(s)
  {
    assert (b + s)[..4] == b && (b + s)[4..] == s;
  }

  /** A header and a payload go through a stream: what was written can be read, gives the same
      message in any other header object, and leaves exactly the payload. */
  method PassHeader(h: KsRpcHeader, g: KsRpcHeader, s: XdrStream, payload: seq<Word>) returns (written: bool, ok: bool)
    requires Writable(s) && s.Contents(s.pool.bufferSize) == [] && h != g
    modifies s, s.pool`freeList, s.pool`fragmentCount, s.pool`freeFragmentCount, s.pool`free, s.pool`live
    modifies Members(s.chain), Members(s.pool.free), g
    ensures s.Valid() && written == ok
    ensures written <==> FitsIn(h.Value(), payload, old(s.Room()))
    ensures ok ==> SameMessage(h.Value(), g.Value()) && s.Unread(s.pool.bufferSize) == Bytes(payload)
  {
    hide XdrStream.Own, XdrStream.Contents, XdrStream.Unread, XdrStream.Room, FragmentPool.Valid, WordsOf, Bytes, Encoding, Decoding;
    hide SameMessage;
    ok := false;
    written := Compose(h, s, payload);
    if written {
      s.Rewind(Decode);
      ghost var ws := Encoding(h.Value()).value;
      BytesAppend(ws, payload);
      WordsOfAll(ws + payload);
      DecodeEncode(h.Value(), g.Value(), payload);
      ok := g.XdrDecode(s);
      PayloadLeft(ws, payload, s.Unread(s.pool.bufferSize));
    }
  }

  /** The header can be encoded, and it and the payload fit into `room` bytes. */
  predicate FitsIn(h: Header, payload: seq<Word>, room: nat) {
    Encoding(h).Some? && 4 * (|Encoding(h).value| + |payload|) <= room
  }

  method Compose(h: KsRpcHeader, s: XdrStream, payload: seq<Word>) returns (written: bool)
    requires Writable(s) && s.Contents(s.pool.bufferSize) == []
    modifies s, s.pool`freeList, s.pool`fragmentCount, s.pool`freeFragmentCount, s.pool`free, s.pool`live
    modifies Members(s.chain), Members(s.pool.free)
    ensures s.Valid() && s.op == Encode && h.Value() == old(h.Value())
    ensures forall f :: f in s.chain ==> f in old(s.chain) || f in old(s.pool.free) || fresh(f)
    ensures forall f :: f in s.pool.free ==> f in old(s.pool.free)
    ensures written <==> FitsIn(h.Value(), payload, old(s.Room()))
    ensures written ==> s.Contents(s.pool.bufferSize) == Bytes(Encoding(h.Value()).value) + Bytes(payload)
  {
    hide XdrStream.Own, XdrStream.Contents, XdrStream.Unread, XdrStream.Room, FragmentPool.Valid, Bytes, Encoding;
    assert (h as object) !in Members(s.chain) && (h as object) !in Members(s.pool.free);
    written := h.XdrEncode(s);
    if written {
      assert (h as object) !in Members(s.chain) && (h as object) !in Members(s.pool.free);
      written := PutWords(s, payload);
    }
  }

  lemma WordsOfAll(ws: seq<Word>)
    ensures WordsOf(Bytes(ws)) == ws
  {
    WordsOfBytes(ws, []);
    assert Bytes(ws) + [] == Bytes(ws) && ws + [] == ws;
  }

  lemma {:induction false} BytesOfWords(s: seq<byte>)
    requires |s| % 4 == 0
    ensures Bytes(WordsOf(s)) == s
  {
    if s != [] {
      BytesOfWords(s[4..]);
      NetworkHost(s[..4]);
      SignedUnsigned(Host(s[..4]));
      assert s == s[..4] + s[4..];
    }
  }

  lemma SignedUnsigned(v: Long)
    ensures Signed(Unsigned(v)) == v
  {
  }

  lemma PayloadLeft(ws: seq<Word>, payload: seq<Word>, unread: seq<byte>)
    requires |unread| % 4 == 0 && WordsOf(unread) == (ws + payload)[|ws|..]
    ensures unread == Bytes(payload)
  {
    assert (ws + payload)[|ws|..] == payload;
    BytesOfWords(unread);
  }
}
