/** Growable byte streams over pooled fragments. A stream in encode mode is filled at its end;
    rewound to decode mode it is consumed from its start. */
module MemStream {
  import opened Sequences
  import opened Fragments
  import opened NetworkOrder

  datatype XdrOp = Encode | Decode | Free
  datatype Errno = NoError | Invalid | NoMemory | IoError | BrokenPipe | Again | Interrupted | OtherError

  predicate Transient(e: Errno) {
    e == Again || e == Interrupted
  }

  /** A system call that was asked for `count` bytes and answered `n`. */
  datatype Call = Call(count: nat, n: int, errno: Errno)

  /** How a transfer goes on after a call: whether at all, and if not, with what result; `none` is
      the error reported when nothing was transferred. */
  function After(c: Call, none: Errno): (r: (bool, bool, Errno)) {
    if c.n < 0 then (false, Transient(c.errno), c.errno)
    else if c.n == 0 then (false, false, none)
    else (c.n == c.count, true, NoError)
  }

  /** Where in its fragment, one of `size` bytes, a position is. */
  function Offset(position: nat, size: nat): (offset: nat)
    requires size > 0
    ensures offset < size && offset <= position
  {
    if position < size then position else Offset(position - size, size)
  }

  /** A 32-bit integer at `position` does not reach beyond its fragment. */
  predicate Within(position: nat, size: nat)
    requires size > 0
  {
    Offset(position, size) + 4 <= size
  }

  lemma {:induction false} OffsetBehind(n: nat, size: nat, pos: nat)
    requires pos <= size && size > 0
    ensures n * size >= 0
    ensures Offset(n * size + pos, size) == if pos == size then 0 else pos
  {
    if n > 0 {
      assert n * size == (n - 1) * size + size;
      OffsetBehind(n - 1, size, pos);
    } else if pos == size {
      assert Offset(0, size) == 0;
    }
  }

  lemma EndWithin(n: nat, size: nat, handy: nat, length: nat)
    requires n > 0 && handy <= size && size >= 4 && length == n * size - handy
    ensures Within(length, size) <==> handy == 0 || handy >= 4
  {
    assert n * size == (n - 1) * size + size;
    OffsetBehind(n - 1, size, size - handy);
  }

  lemma CursorWithin(n: nat, size: nat, pos: nat, handy: nat, rest: nat, last: bool, next: nat, position: nat)
    requires pos + handy <= size && size >= 4 && position == n * size + pos && handy + rest > 0
    requires if last then rest == 0 else pos + handy == size && rest >= next && (next == size || rest == next)
    ensures handy >= 4 || (handy == 0 && (last || next == 0 || next >= 4)) <==> handy + rest >= 4 && Within(position, size)
  {
    OffsetBehind(n, size, pos);
  }

  lemma {:induction false} AlignedWithin(position: nat, size: nat)
    requires position % 4 == 0 && size % 4 == 0 && size > 0
    ensures Within(position, size)
  {
    if position >= size {
      AlignedWithin(position - size, size);
    }
  }

  lemma CursorAligned(contents: nat, unread: nat, size: nat)
    requires contents % 4 == unread % 4 == size % 4 == 0 && 0 < unread <= contents && size > 0
    ensures unread >= 4 && Within(contents - unread, size)
  {
    AlignedWithin(contents - unread, size);
  }

  /** How many bytes some calls have transferred. */
  function Carried(calls: seq<Call>): (n: nat) {
    if calls == [] then 0
    else
      var last := calls[|calls| - 1];
      Carried(calls[..|calls| - 1]) + if last.n < 0 then 0 else last.n
  }

  /** The calls have transferred `n` bytes and none has stopped the transfer. */
  predicate Going(calls: seq<Call>, n: nat, none: Errno) {
    n == Carried(calls) && forall i :: 0 <= i < |calls| ==> After(calls[i], none).0
  }

  /** How a transfer of at most `max` bytes has gone: the calls made for it have transferred `n`,
      and these are fewer only if there was nothing more to transfer with or from, which is
      reported as a lack of memory, or if the last call stopped it. */
  predicate Transferred(max: nat, n: nat, ok: bool, errno: Errno, none: Errno, dry: bool, calls: seq<Call>) {
    if n == max then ok && errno == NoError && Going(calls, n, none)
    else
      && n < max && n == Carried(calls)
      && if Going(calls, n, none) then !ok && errno == NoMemory && dry
         else calls != [] && Going(calls[..|calls| - 1], Carried(calls[..|calls| - 1]), none) && (false, ok, errno) == After(calls[|calls| - 1], none)
  }

  /** What one round of a transfer leaves: no call could be made, or one was. */
  predicate Round(more: bool, ok: bool, errno: Errno, n: nat, none: Errno, dry: bool, before: seq<Call>, calls: seq<Call>) {
    if calls == before then !more && !ok && errno == NoMemory && n == 0 && dry
    else
      && before < calls && |calls| == |before| + 1
      && var c := calls[|before|];
         n == (if c.n < 0 then 0 else c.n) && (more, ok, errno) == After(c, none)
  }

  /** One more round of a transfer; `first` are the calls before it. */
  lemma TransferMore(max: nat, done: nat, more: bool, ok: bool, errno: Errno, n: nat, none: Errno, dry: bool,
      first: seq<Call>, made: seq<Call>, calls: seq<Call>) returns (made': seq<Call>)
    requires Going(made, done, none) && Round(more, ok, errno, n, none, dry, first + made, calls)
    requires done < max && (!more ==> done + n < max)
    ensures calls == first + made'
    ensures if more then Going(made', done + n, none) && ok && errno == NoError
      else Transferred(max, done + n, ok, errno, none, dry, made')
  {
    if calls == first + made {
      made' := made;
    } else {
      var c := calls[|first + made|];
      made' := made + [c];
      assert made'[..|made|] == made;
    }
  }

  lemma GoingNone(none: Errno)
    ensures Going([], 0, none)
  {
  }

  lemma TransferDone(max: nat, none: Errno, dry: bool, calls: seq<Call>)
    requires Going(calls, max, none)
    ensures Transferred(max, max, true, NoError, none, dry, calls)
  {
  }

  /** A file descriptor: any system call may come short or fail. `calls` records all of them. */
  class Channel {
    ghost var received: seq<byte>
    ghost var sent: seq<byte>
    ghost var calls: seq<Call>

    method Read(count: nat) returns (n: int, data: seq<byte>, errno: Errno)
      modifies this`received, this`calls
      ensures n <= count && calls == old(calls) + [Call(count, n, errno)]
      ensures n > 0 ==> |data| == n && received == old(received) + data
      ensures n <= 0 ==> received == old(received)
      ensures n < 0 ==> errno != NoError
    {
      n :| n <= count;
      errno :| n < 0 ==> errno != NoError;
      data := [];
      if n > 0 {
        assert |seq(n, _ => 0 as byte)| == n;
        data :| |data| == n;
        received := received + data;
      }
      calls := calls + [Call(count, n, errno)];
    }

    method Write(data: seq<byte>) returns (n: int, errno: Errno)
      modifies this`sent, this`calls
      ensures n <= |data| && calls == old(calls) + [Call(|data|, n, errno)]
      ensures n > 0 ==> sent == old(sent) + data[..n]
      ensures n <= 0 ==> sent == old(sent)
      ensures n < 0 ==> errno != NoError
    {
      n :| n <= |data|;
      errno :| n < 0 ==> errno != NoError;
      if n > 0 {
        sent := sent + data[..n];
      }
      calls := calls + [Call(|data|, n, errno)];
    }
  }

  ghost predicate Fits(c: seq<Fragment>)
    reads Members(c)`used, Members(c)`data
  {
    forall i :: 0 <= i < |c| ==> c[i].used <= |c[i].data|
  }

  /** The bytes in use in a chain of fragments. */
  ghost function Flat(c: seq<Fragment>): (s: seq<byte>)
    requires Fits(c)
    reads Members(c)`used, Members(c)`data
  {
    if c == [] then [] else c[0].data[..c[0].used] + Flat(c[1..])
  }

  lemma {:induction false} FlatAppend(c: seq<Fragment>, d: seq<Fragment>)
    requires Fits(c) && Fits(d)
    ensures Flat(c + d) == Flat(c) + Flat(d)
  {
    if c == [] {
      assert c + d == d;
    } else {
      assert (c + d)[1..] == c[1..] + d;
      FlatAppend(c[1..], d);
    }
  }

  lemma FlatEmpty(c: seq<Fragment>)
    requires c == []
    ensures Fits(c) && Flat(c) == []
  {
  }

  lemma FlatHead(c: seq<Fragment>, i: nat)
    requires i < |c| && Fits(c) && Fits(c[i..]) && Fits(c[i + 1..])
    ensures Flat(c[i..]) == c[i].data[..c[i].used] + Flat(c[i + 1..])
  {
    assert c[i..][1..] == c[i + 1..];
  }

  lemma ChainNext(first: Fragment?, c: seq<Fragment>, i: nat)
    requires Chain(first, c) && i < |c|
    ensures c[i].next == if i + 1 < |c| then c[i + 1] else null
  {
  }

  lemma ChainEnds(first: Fragment?, c: seq<Fragment>)
    requires Chain(first, c)
    ensures if first == null then c == [] else first in c
  {
  }

  lemma ChainTail(first: Fragment?, c: seq<Fragment>)
    requires Chain(first, c) && Distinct(c) && c != []
    ensures first == c[0] && Chain(c[0].next, c[1..]) && Distinct(c[1..])
    ensures c[0] !in c[1..] && forall f :: f in c[1..] ==> f in c
  {
  }

  lemma {:induction false} FlatFull(c: seq<Fragment>, size: nat)
    requires Fits(c) && forall i :: 0 <= i < |c| ==> c[i].used == size
    ensures |Flat(c)| == |c| * size
  {
    if c != [] {
      FlatFull(c[1..], size);
      assert |c| * size == (|c| - 1) * size + size;
    }
  }

  lemma LastApart(c: seq<Fragment>)
    requires Distinct(c) && c != []
    ensures c == c[..|c| - 1] + [c[|c| - 1]] && c[|c| - 1] !in c[..|c| - 1]
  {
  }

  lemma AppendDistinct(c: seq<Fragment>, f: Fragment)
    requires Distinct(c) && f !in c
    ensures Distinct(c + [f])
  {
  }

  lemma FlatSplit(c: seq<Fragment>, k: nat)
    requires Fits(c) && k < |c| && Fits(c[..k]) && Fits(c[k + 1..])
    ensures Flat(c) == Flat(c[..k]) + c[k].data[..c[k].used] + Flat(c[k + 1..])
  {
    hide Flat;
    assert Fits(c[k..]);
    assert c == c[..k] + c[k..];
    FlatAppend(c[..k], c[k..]);
    FlatHead(c, k);
  }

  lemma FlatLast(c: seq<Fragment>, before: seq<Fragment>, f: Fragment)
    requires |c| == |before| + 1 && c[|before|] == f && c == before + [f] && Fits(c) && Fits(before)
    ensures Flat(c) == Flat(before) + f.data[..f.used]
  {
    hide Flat;
    assert c[|c| - 1] == f;
    FlatAppend(before, [f]);
    FlatHead([f], 0);
    FlatEmpty([f][1..]);
    assert [f][0..] == [f];
  }

  lemma Spent(size: nat, reserve: nat)
    requires reserve > 0
    ensures size * reserve == size + size * (reserve - 1)
  {
  }

  class XdrStream {
    const pool: FragmentPool
    var first: Fragment?
    var current: Fragment?
    var fragmentCount: nat
    var length: nat
    var op: XdrOp
    var pos: nat
    var handy: nat
    ghost var chain: seq<Fragment>
    ghost var at: nat

    /** The chain of `size`-byte fragments this stream owns; all but the last are full. */
    ghost predicate Owns(size: nat)
      reads this`first, this`fragmentCount, this`chain, Members(chain)
    {
      && chain != [] && fragmentCount == |chain|
      && Chain(first, chain) && Distinct(chain)
      && (forall f :: f in chain ==> f.owner == this && |f.data| == size && f.used <= size)
      && (forall i {:trigger chain[i]} :: 0 <= i < |chain| - 1 ==> chain[i].used == size)
    }

    /** The cursor. While encoding, `used` of the last fragment is only a forecast. */
    ghost predicate Placed(size: nat)
      reads this, Members(chain)
    {
      && at <= |chain|
      && current == (if at < |chain| then chain[at] else null)
      && (op == Encode ==> at + 1 == |chain| && pos + handy == size && chain[at].used == size)
      && (op != Encode ==> if current == null then handy == 0 else pos + handy == current.used)
    }

    ghost predicate Own(size: nat)
      reads this, Members(chain)
    {
      Owns(size) && Placed(size)
    }

    ghost predicate Valid()
      reads this, Members(chain), pool, Members(pool.free)
    {
      && pool.Valid() && pool.bufferSize > 0
      && this in pool.live && pool.live[this] == |chain|
      && Own(pool.bufferSize)
    }

    /** All bytes in the stream. */
    ghost function Contents(size: nat): (s: seq<byte>)
      requires Own(size)
      reads this, Members(chain)
    {
      if op == Encode then Flat(chain[..at]) + current.data[..pos] else Flat(chain)
    }

    /** The bytes still to be read. */
    ghost function Unread(size: nat): (s: seq<byte>)
      requires Own(size)
      reads this, Members(chain)
    {
      if op == Encode || current == null then []
      else current.data[pos..pos + handy] + Flat(chain[at + 1..])
    }

    /** How many bytes can still be written. */
    ghost function Room(): (n: nat)
      reads this, pool
    {
      handy + pool.bufferSize * pool.Reserve()
    }

    constructor (pool: FragmentPool)
      ensures this.pool == pool && op == Encode && chain == [] && fragmentCount == 0 && current == null
    {
      this.pool := pool;
      first, current := null, null;
      fragmentCount := 0;
      op := Encode;
      chain, at := [], 0;
    }

    /** Puts another fragment, if there is one, at the end of the chain. */
    method Allocate() returns (f: Fragment?)
      requires pool.Valid() && this in pool.live && pool.live[this] == |chain| == fragmentCount
      requires Distinct(chain) && forall g :: g in chain ==> g.owner == this
      requires current == if chain == [] then null else chain[|chain| - 1]
      modifies this`current, this`pos, this`handy, this`fragmentCount, this`chain, this`at
      modifies pool`freeList, pool`fragmentCount, pool`freeFragmentCount, pool`free, pool`live
      modifies Members(pool.free)`owner, Members(pool.free)`next, Members(pool.free)`used, Members(chain)`next
      ensures pool.Valid()
      ensures f == null <==> old(pool.Reserve()) == 0
      ensures f == null ==> unchanged(this) && unchanged(pool) && unchanged(Members(chain))
      ensures pool.live == old(pool.live)[this := |chain|]
      ensures forall g :: g in old(chain) ==> g.owner == this && g.used == old(g.used) && g.data == old(g.data)
      ensures f != null ==> f !in old(chain) && (f in old(pool.free) || fresh(f))
      ensures f != null ==> chain == old(chain) + [f] && fragmentCount == |chain| && Distinct(chain)
      ensures f != null ==> current == f && at == |chain| - 1 && pos == 0 && handy == pool.bufferSize
      ensures f != null ==> f.owner == this && f.next == null && f.used == |f.data| == pool.bufferSize
      ensures f != null ==> pool.Reserve() == old(pool.Reserve()) - 1
      ensures f != null ==> forall g :: g in pool.free ==> g in old(pool.free)
      ensures f != null && old(current) != null ==> old(current).next == f
      ensures f != null ==> forall g :: g in old(chain) && g != old(current) ==> g.next == old(g.next)
    {
      hide FragmentPool.Valid, FragmentPool.Reserve, Distinct;
      pool.FreeOwned();
      f := pool.Obtain(this);
      if f != null {
        pool.FreeOwned();
        assert f !in Members(pool.free) && current !in Members(pool.free);
        Attach(f);
      }
    }

    /** Puts `f` at the end of the chain, and the cursor to its start. */
    method Attach(f: Fragment)
      requires Distinct(chain) && f !in chain
      requires current == if chain == [] then null else chain[|chain| - 1]
      modifies this`current, this`pos, this`handy, this`fragmentCount, this`chain, this`at
      modifies f`next, f`used, Members(chain)`next
      ensures chain == old(chain) + [f] && fragmentCount == old(fragmentCount) + 1 && Distinct(chain)
      ensures current == f && at == |chain| - 1 && pos == 0 && handy == pool.bufferSize
      ensures f.next == null && f.used == pool.bufferSize
      ensures old(current) != null ==> old(current).next == f
      ensures forall g :: g in old(chain) && g != old(current) ==> g.next == old(g.next)
    {
      hide Distinct;
      AppendDistinct(chain, f);
      if current != null {
        current.next := f;
      }
      current := f;
      pos := 0;
      handy := pool.bufferSize;
      f.next := null;
      f.used := pool.bufferSize;
      fragmentCount := fragmentCount + 1;
      chain := chain + [f];
      at := |chain| - 1;
    }

    lemma OwnFits(size: nat)
      requires Owns(size)
      ensures Fits(chain)
      ensures forall k :: 0 <= k <= |chain| ==> Fits(chain[..k]) && Fits(chain[k..])
    {
    }

    lemma FullContents(size: nat)
      requires Own(size) && op == Encode && handy == 0
      ensures Fits(chain) && Contents(size) == Flat(chain)
    {
      OwnFits(size);
      assert chain == chain[..at] + [current];
      FlatAppend(chain[..at], [current]);
      assert Flat([current]) == current.data[..current.used] + Flat([]);
    }

    /** A full stream, before it is extended. */
    lemma Filled(size: nat)
      requires Own(size) && op == Encode && handy == 0
      ensures chain != [] && first == chain[0] && fragmentCount == |chain| && Distinct(chain)
      ensures forall i {:trigger chain[i]} :: 0 <= i < |chain| - 1 ==> chain[i].next == chain[i + 1]
      ensures forall f :: f in chain ==> f.owner == this && |f.data| == f.used == size
      ensures current == chain[|chain| - 1] && Fits(chain) && Contents(size) == Flat(chain)
    {
      FullContents(size);
    }

    lemma Grown(size: nat, c: seq<Fragment>, f: Fragment)
      requires c != [] && chain == c + [f] && fragmentCount == |chain| && Distinct(chain) && first == c[0]
      requires forall i {:trigger c[i]} :: 0 <= i < |c| - 1 ==> c[i].next == c[i + 1]
      requires c[|c| - 1].next == f && f.next == null
      requires forall g :: g in chain ==> g.owner == this && |g.data| == g.used == size
      requires op == Encode && current == f && at == |c| && pos == 0 && handy == size
      ensures Own(size) && Fits(c) && Contents(size) == Flat(c)
    {
      assert chain[..at] == c;
    }

    /** Adds a fragment when the last one is full. */
    method Extend() returns (ok: bool)
      requires Valid() && op == Encode && handy == 0
      modifies this`current, this`pos, this`handy, this`fragmentCount, this`chain, this`at
      modifies pool`freeList, pool`fragmentCount, pool`freeFragmentCount, pool`free, pool`live
      modifies Members(pool.free)`owner, Members(pool.free)`next, Members(pool.free)`used, Members(chain)`next
      ensures Valid() && Contents(pool.bufferSize) == old(Contents(pool.bufferSize)) && op == Encode
      ensures ok <==> old(pool.Reserve()) > 0
      ensures if ok then handy == pool.bufferSize && pool.Reserve() == old(pool.Reserve()) - 1 else unchanged(this) && unchanged(pool)
      ensures forall f :: f in chain ==> f in old(chain) || f in old(pool.free) || fresh(f)
      ensures forall f :: f in pool.free ==> f in old(pool.free)
      ensures pool.live == old(pool.live)[this := |chain|]
    {
      hide Own, FragmentPool.Valid, FragmentPool.Reserve, Contents, Flat, Fits, Distinct;
      ghost var size, c := pool.bufferSize, chain;
      Filled(size);
      pool.FreeOwned();
      var f := Allocate();
      ok := f != null;
      if ok {
        assert Flat(c) == old(Flat(c));
        Grown(size, c, f);
      }
    }

    /** Copies bytes behind those written so far; they must fit into the last fragment. */
    method Fill(bytes: seq<byte>)
      requires Valid() && op == Encode && |bytes| <= handy
      modifies this`pos, this`handy, current`data
      ensures Valid() && Contents(pool.bufferSize) == old(Contents(pool.bufferSize)) + bytes
      ensures handy == old(handy) - |bytes|
    {
      hide FragmentPool.Valid, Chain, Flat;
      pool.FreeOwned();
      OwnFits(pool.bufferSize);
      ghost var before := chain[..at];
      assert current !in Members(before) && current !in Members(pool.free);
      current.data := current.data[..pos] + bytes + current.data[pos + |bytes|..];
      pos := pos + |bytes|;
      handy := handy - |bytes|;
      assert Flat(before) == old(Flat(before));
      assert current.data[..pos] == old(current.data[..pos]) + bytes;
      assert Flat(before) + current.data[..pos] == old(Flat(before) + current.data[..pos]) + bytes;
    }

    lemma Ahead(size: nat, count: nat)
      requires Own(size) && op != Encode && current != null && count <= handy
      ensures pos + count <= |current.data| && count <= |Unread(size)|
      ensures current.data[pos..pos + count] == Unread(size)[..count]
    {
      hide Flat, Chain, Distinct;
      OwnFits(size);
      assert |current.data[pos..pos + handy]| == handy;
    }

    /** Copies the next bytes of the current fragment. */
    method Take(count: nat) returns (bytes: seq<byte>)
      requires Valid() && op != Encode && count <= handy && current != null
      modifies this`pos, this`handy
      ensures Valid() && Contents(pool.bufferSize) == old(Contents(pool.bufferSize))
      ensures handy == old(handy) - count
      ensures |bytes| == count && old(Unread(pool.bufferSize)) == bytes + Unread(pool.bufferSize)
    {
      hide FragmentPool.Valid, Chain, Flat;
      bytes := current.data[pos..pos + count];
      pos := pos + count;
      handy := handy - count;
    }

    /** What is left to be read when the current fragment is used up. */
    lemma Onward(size: nat)
      requires Own(size) && op != Encode && handy == 0 && current != null && size > 0
      ensures Fits(chain[at + 1..]) && Unread(size) == Flat(chain[at + 1..])
      ensures current.next == if at + 1 < |chain| then chain[at + 1] else null
      ensures at + 1 == |chain| ==> Flat(chain[at + 1..]) == []
      ensures at + 1 < |chain| ==> var f := chain[at + 1];
        && f.used <= |f.data| == size && Fits(chain[at + 2..])
        && Flat(chain[at + 1..]) == f.data[..f.used] + Flat(chain[at + 2..])
        && (f.used == 0 ==> Flat(chain[at + 2..]) == [])
    {
      hide Distinct, Chain, Flat;
      OwnFits(size);
      ChainNext(first, chain, at);
      if at + 1 < |chain| {
        FlatHead(chain, at + 1);
      }
      if at + 2 >= |chain| {
        FlatEmpty(chain[|chain|..]);
      }
    }

    /** Moves on to the next fragment when the current one is used up. It fails when nothing is
        left to be read; if there is no next fragment the stream then has no current one. */
    method Advance() returns (ok: bool)
      requires Valid() && op != Encode && handy == 0 && current != null
      modifies this`current, this`pos, this`handy, this`at
      ensures Valid() && Contents(pool.bufferSize) == old(Contents(pool.bufferSize))
      ensures Unread(pool.bufferSize) == old(Unread(pool.bufferSize))
      ensures ok <==> Unread(pool.bufferSize) != []
      ensures if ok then current != null && handy > 0 else handy == 0
      ensures current == old(current.next) && (current != null ==> handy == current.used)
    {
      hide FragmentPool.Valid, Flat, Chain, Distinct, Fits;
      ghost var size := pool.bufferSize;
      OwnFits(size);
      Onward(size);
      var next := current.next;
      current := next;
      at := at + 1;
      if next == null {
        handy := 0;
        return false;
      }
      pos := 0;
      handy := next.used;
      ok := handy != 0;
    }

    lemma CurrentInChain(size: nat)
      requires Own(size) && op == Encode
      ensures current in chain && handy <= size
    {
    }

    /** Copies as many bytes as fit into the last fragment, after adding one if it is full. */
    method PutSome(bytes: seq<byte>) returns (ok: bool, count: nat)
      requires Valid() && op == Encode && bytes != []
      modifies this`current, this`pos, this`handy, this`fragmentCount, this`chain, this`at
      modifies pool`freeList, pool`fragmentCount, pool`freeFragmentCount, pool`free, pool`live
      modifies Members(pool.free), Members(chain)
      ensures Valid() && op == Encode
      ensures forall f :: f in chain ==> f in old(chain) || f in old(pool.free) || fresh(f)
      ensures forall f :: f in pool.free ==> f in old(pool.free)
      ensures pool.live == old(pool.live)[this := |chain|]
      ensures count <= |bytes| && Room() == old(Room()) - count && (if ok then count > 0 else count == Room() == 0)
      ensures Contents(pool.bufferSize) == old(Contents(pool.bufferSize)) + bytes[..count]
    {
      hide Own, Contents, FragmentPool.Valid, FragmentPool.Reserve;
      if handy == 0 {
        var more := Extend();
        if !more {
          return false, 0;
        }
        Spent(pool.bufferSize, old(pool.Reserve()));
      }
      CurrentInChain(pool.bufferSize);
      count := if |bytes| < handy then |bytes| else handy;
      Fill(bytes[..count]);
      ok := true;
    }

    /** Writes bytes. They all fit exactly if there is room for them; if not, as many are written
        as do fit. */
    method PutBytes(bytes: seq<byte>) returns (ok: bool)
      requires Valid() && op == Encode
      modifies this`current, this`pos, this`handy, this`fragmentCount, this`chain, this`at
      modifies pool`freeList, pool`fragmentCount, pool`freeFragmentCount, pool`free, pool`live
      modifies Members(pool.free), Members(chain)
      ensures Valid() && op == Encode
      ensures forall f :: f in chain ==> f in old(chain) || f in old(pool.free) || fresh(f)
      ensures forall f :: f in pool.free ==> f in old(pool.free)
      ensures pool.live == old(pool.live)[this := |chain|]
      ensures ok <==> |bytes| <= old(Room())
      ensures ok ==> Room() == old(Room()) - |bytes| && Contents(pool.bufferSize) == old(Contents(pool.bufferSize)) + bytes
      ensures !ok ==> Room() == 0 && Contents(pool.bufferSize) == old(Contents(pool.bufferSize)) + bytes[..old(Room())]
    {
      hide Own, Contents, FragmentPool.Valid, FragmentPool.Reserve, Room;
      var done := 0;
      while done != |bytes|
        invariant Valid() && op == Encode && done <= |bytes| && Room() == old(Room()) - done
        invariant Contents(pool.bufferSize) == old(Contents(pool.bufferSize)) + bytes[..done]
        invariant forall f :: f in chain ==> f in old(chain) || f in old(pool.free) || fresh(f)
        invariant forall f :: f in pool.free ==> f in old(pool.free)
        invariant pool.live == old(pool.live)[this := |chain|]
      {
        var more, count := PutSome(bytes[done..]);
        if !more {
          return false;
        }
        assert bytes[..done] + bytes[done..][..count] == bytes[..done + count];
        done := done + count;
      }
      assert bytes[..done] == bytes;
      ok := true;
    }

    /** One system call that reads into the space left in the last fragment. */
    method Receive(fd: Channel, count: nat) returns (n: int, errno: Errno, ghost data: seq<byte>)
      requires Valid() && op == Encode && count <= handy
      modifies this`pos, this`handy, current`data, fd`received, fd`calls
      ensures Valid() && n <= count && |data| == (if n < 0 then 0 else n) && handy == old(handy) - |data|
      ensures Contents(pool.bufferSize) == old(Contents(pool.bufferSize)) + data
      ensures fd.received == old(fd.received) + data && fd.calls == old(fd.calls) + [Call(count, n, errno)]
      ensures n < 0 ==> errno != NoError
    {
      hide Own, Contents, FragmentPool.Valid;
      assert (fd as object) !in Members(chain) && (fd as object) !in Members(pool.free);
      var bytes;
      n, bytes, errno := fd.Read(count);
      data := [];
      if n > 0 {
        CurrentInChain(pool.bufferSize);
        Fill(bytes);
        data := bytes;
      }
    }

    /** One system call that writes from the current fragment. */
    method Transmit(fd: Channel, count: nat) returns (n: int, errno: Errno, ghost data: seq<byte>)
      requires Valid() && op != Encode && 0 < count <= handy && current != null
      modifies this`pos, this`handy, fd`sent, fd`calls
      ensures Valid() && n <= count && |data| == (if n < 0 then 0 else n) && handy == old(handy) - |data|
      ensures Contents(pool.bufferSize) == old(Contents(pool.bufferSize))
      ensures old(Unread(pool.bufferSize)) == data + Unread(pool.bufferSize)
      ensures fd.sent == old(fd.sent) + data && fd.calls == old(fd.calls) + [Call(count, n, errno)]
      ensures n < 0 ==> errno != NoError
      ensures n < count ==> Unread(pool.bufferSize) != []
    {
      hide Own, Contents, Unread, FragmentPool.Valid;
      assert (fd as object) !in Members(chain) && (fd as object) !in Members(pool.free);
      Ahead(pool.bufferSize, count);
      ghost var front := current.data[pos..pos + count];
      n, errno := fd.Write(current.data[pos..pos + count]);
      data := [];
      if n > 0 {
        var part := Take(n);
        data := part;
      }
      Ahead(pool.bufferSize, handy);
    }

    /** One round of reading: it ends the call when the pool, the file descriptor or a short
        count says so. */
    method ReceiveRound(fd: Channel, max: nat) returns (more: bool, ok: bool, errno: Errno, ghost data: seq<byte>, n: nat)
      requires Valid() && op == Encode && max > 0
      modifies this`current, this`pos, this`handy, this`fragmentCount, this`chain, this`at, fd`received, fd`calls
      modifies pool`freeList, pool`fragmentCount, pool`freeFragmentCount, pool`free, pool`live
      modifies Members(pool.free), Members(chain)
      ensures Valid() && op == Encode
      ensures forall f :: f in chain ==> f in old(chain) || f in old(pool.free) || fresh(f)
      ensures forall f :: f in pool.free ==> f in old(pool.free)
      ensures pool.live == old(pool.live)[this := |chain|]
      ensures fd.received == old(fd.received) + data && |data| == n <= max
      ensures Contents(pool.bufferSize) == old(Contents(pool.bufferSize)) + data && Room() == old(Room()) - n
      ensures more ==> n > 0
      ensures !more ==> n < max
      ensures Round(more, ok, errno, n, IoError, Room() == 0, old(fd.calls), fd.calls)
    {
      hide Own, Contents, FragmentPool.Valid, FragmentPool.Reserve;
      data, n := [], 0;
      if handy == 0 {
        var extended := Extend();
        if !extended {
          return false, false, NoMemory, data, n;
        }
        Spent(pool.bufferSize, old(pool.Reserve()));
      }
      CurrentInChain(pool.bufferSize);
      var count := if max < handy then max else handy;
      var result;
      result, errno, data := Receive(fd, count);
      if result < 0 {
        return false, Transient(errno), errno, data, n;
      }
      if result == 0 {
        return false, false, IoError, data, n;
      }
      n := result;
      more, ok, errno := n == count, true, NoError;
    }

    /** Reads at most `max` bytes from a file descriptor. Every byte received is in the stream,
        also when the call fails. */
    method ReadFromFd(fd: Channel, max: nat) returns (ok: bool, left: nat, errno: Errno, ghost got: seq<byte>, ghost calls: seq<Call>)
      requires Valid()
      modifies this`current, this`pos, this`handy, this`fragmentCount, this`chain, this`at, fd`received, fd`calls
      modifies pool`freeList, pool`fragmentCount, pool`freeFragmentCount, pool`free, pool`live
      modifies Members(pool.free), Members(chain)
      ensures Valid() && op == old(op) && left <= max
      ensures forall f :: f in chain ==> f in old(chain) || f in old(pool.free) || fresh(f)
      ensures forall f :: f in pool.free ==> f in old(pool.free)
      ensures pool.live == old(pool.live)[this := |chain|]
      ensures op != Encode ==> !ok && errno == Invalid && left == max && unchanged(this) && unchanged(fd)
      ensures op != Encode ==> unchanged(pool) && unchanged(Members(chain))
      ensures op == Encode && left == 0 ==> ok && errno == NoError
      ensures op == Encode ==> Transferred(max, |got|, ok, errno, IoError, Room() == 0, calls)
      ensures fd.calls == old(fd.calls) + calls
      ensures fd.received == old(fd.received) + got && |got| == max - left
      ensures op == Encode ==> Contents(pool.bufferSize) == old(Contents(pool.bufferSize)) + got
      ensures op == Encode ==> Room() == old(Room()) - |got|
    {
      hide Own, Contents, Room, FragmentPool.Valid, FragmentPool.Reserve, Round, Going, Transferred;
      if op != Encode {
        return false, max, Invalid, [], [];
      }
      ok, left, errno, got := true, max, NoError, [];
      calls := [];
      GoingNone(IoError);
      var more := true;
      while more && left != 0
        invariant Valid() && op == Encode && left <= max && |got| == max - left
        invariant fd.calls == old(fd.calls) + calls && (more ==> ok && errno == NoError && Going(calls, |got|, IoError))
        invariant !more ==> left > 0 && Transferred(max, |got|, ok, errno, IoError, Room() == 0, calls)
        invariant fd.received == old(fd.received) + got
        invariant Contents(pool.bufferSize) == old(Contents(pool.bufferSize)) + got && Room() == old(Room()) - |got|
        invariant forall f :: f in chain ==> f in old(chain) || f in old(pool.free) || fresh(f)
        invariant forall f :: f in pool.free ==> f in old(pool.free)
        invariant pool.live == old(pool.live)[this := |chain|]
        decreases left, more
      {
        ghost var data;
        var n;
        more, ok, errno, data, n := ReceiveRound(fd, left);
        calls := TransferMore(max, |got|, more, ok, errno, n, IoError, Room() == 0, old(fd.calls), calls, fd.calls);
        got := got + data;
        left := left - n;
      }
      if more {
        TransferDone(max, IoError, Room() == 0, calls);
      }
    }

    /** Reads `len` bytes; all that is left, if that is less. */
    method GetBytes(len: nat) returns (ok: bool, bytes: seq<byte>)
      requires Valid() && op != Encode && (len > 0 ==> current != null)
      modifies this`current, this`pos, this`handy, this`at
      ensures Valid() && Contents(pool.bufferSize) == old(Contents(pool.bufferSize))
      ensures ok <==> len <= |old(Unread(pool.bufferSize))|
      ensures old(Unread(pool.bufferSize)) == bytes + Unread(pool.bufferSize)
      ensures if ok then |bytes| == len else Unread(pool.bufferSize) == []
      ensures ok && old(current) != null ==> current != null
    {
      hide Own, Contents, Unread, FragmentPool.Valid;
      ghost var size, all := pool.bufferSize, Unread(pool.bufferSize);
      bytes := [];
      while |bytes| != len
        invariant Valid() && op != Encode && |bytes| <= len
        invariant Contents(size) == old(Contents(size))
        invariant all == bytes + Unread(size)
        invariant old(current) != null ==> current != null
        decreases len - |bytes|
      {
        if handy == 0 {
          var more := Advance();
          if !more {
            return false, bytes;
          }
        }
        var count := if len - |bytes| < handy then len - |bytes| else handy;
        var part := Take(count);
        bytes := bytes + part;
      }
      ok := true;
    }

    /** One round of writing to a file descriptor. */
    method TransmitRound(fd: Channel, max: nat) returns (more: bool, ok: bool, errno: Errno, ghost data: seq<byte>, n: nat)
      requires Valid() && op == Decode && max > 0 && current != null
      modifies this`current, this`pos, this`handy, this`at, fd`sent, fd`calls
      ensures Valid() && Contents(pool.bufferSize) == old(Contents(pool.bufferSize))
      ensures fd.sent == old(fd.sent) + data && |data| == n <= max
      ensures old(Unread(pool.bufferSize)) == data + Unread(pool.bufferSize)
      ensures more ==> n > 0
      ensures !more && ok ==> Unread(pool.bufferSize) != []
      ensures !more ==> n < max
      ensures Round(more, ok, errno, n, BrokenPipe, Unread(pool.bufferSize) == [], old(fd.calls), fd.calls)
      ensures ok ==> current != null
    {
      hide Own, Contents, Unread, FragmentPool.Valid;
      data, n := [], 0;
      if handy == 0 {
        var advanced := Advance();
        if !advanced {
          return false, false, NoMemory, data, n;
        }
      }
      var count := if max <= handy then max else handy;
      var result;
      result, errno, data := Transmit(fd, count);
      if result < 0 {
        return false, Transient(errno), errno, data, n;
      }
      if result == 0 {
        return false, false, BrokenPipe, data, n;
      }
      n := result;
      more, ok, errno := n == count, true, NoError;
    }

    /** Writes at most `max` of the bytes left to a file descriptor. */
    method WriteToFd(fd: Channel, max: nat) returns (ok: bool, left: nat, errno: Errno, ghost put: seq<byte>, ghost calls: seq<Call>)
      requires Valid() && (op == Decode && max > 0 ==> current != null)
      modifies this`current, this`pos, this`handy, this`at, fd`sent, fd`calls
      ensures Valid() && Contents(pool.bufferSize) == old(Contents(pool.bufferSize)) && left <= max
      ensures op != Decode ==> !ok && errno == Invalid && left == max && unchanged(this) && unchanged(fd)
      ensures old(Unread(pool.bufferSize)) == put + Unread(pool.bufferSize)
      ensures fd.sent == old(fd.sent) + put && |put| == max - left
      ensures op == Decode && left == 0 ==> ok && errno == NoError
      ensures op == Decode ==> Transferred(max, |put|, ok, errno, BrokenPipe, Unread(pool.bufferSize) == [], calls)
      ensures fd.calls == old(fd.calls) + calls
      ensures ok && left > 0 ==> Unread(pool.bufferSize) != []
      ensures ok && old(current) != null ==> current != null
    {
      hide Own, Contents, Unread, FragmentPool.Valid, Round, Going, Transferred;
      if op != Decode {
        return false, max, Invalid, [], [];
      }
      ok, left, errno, put := true, max, NoError, [];
      calls := [];
      GoingNone(BrokenPipe);
      var more := true;
      while more && left != 0
        invariant Valid() && op == Decode && left <= max && |put| == max - left
        invariant fd.calls == old(fd.calls) + calls && (more ==> ok && errno == NoError && Going(calls, |put|, BrokenPipe))
        invariant !more ==> left > 0 && (ok ==> Unread(pool.bufferSize) != [])
        invariant !more ==> left > 0 && Transferred(max, |put|, ok, errno, BrokenPipe, Unread(pool.bufferSize) == [], calls)
        invariant Contents(pool.bufferSize) == old(Contents(pool.bufferSize))
        invariant fd.sent == old(fd.sent) + put && old(Unread(pool.bufferSize)) == put + Unread(pool.bufferSize)
        invariant ok && (old(current) != null || max > 0) ==> current != null
        decreases left, more
      {
        ghost var data;
        var n;
        more, ok, errno, data, n := TransmitRound(fd, left);
        calls := TransferMore(max, |put|, more, ok, errno, n, BrokenPipe, Unread(pool.bufferSize) == [], old(fd.calls), calls, fd.calls);
        put := put + data;
        left := left - n;
      }
      if more {
        TransferDone(max, BrokenPipe, Unread(pool.bufferSize) == [], calls);
      }
    }

    /** Written bytes fill all fragments but for what is left in the last one. */
    lemma EncodedLength(size: nat)
      requires Own(size) && op == Encode
      ensures |Contents(size)| == fragmentCount * size - handy
    {
      hide Chain, Distinct, Flat;
      OwnFits(size);
      FlatFull(chain[..at], size);
      assert (at + 1) * size == at * size + size;
    }

    lemma PoolSize()
      requires Valid()
      ensures pool.bufferSize >= 256 && pool.quota < UNSIGNED
    {
    }

    /** Exactly when the number of bytes written says so. */
    lemma PutsWholeExactly(size: nat)
      requires Own(size) && op == Encode && size >= 4
      ensures PutsWhole() <==> Within(|Contents(size)|, size)
    {
      CurrentInChain(size);
      EncodedLength(size);
      hide Own, Contents, Within;
      EndWithin(fragmentCount, size, handy, |Contents(size)|);
    }

    /** Where the cursor stands, and how much is left here and behind. */
    lemma Position(size: nat) returns (rest: nat)
      requires Own(size) && op != Encode && current != null && size > 0
      ensures |Unread(size)| == handy + rest && |Contents(size)| == at * size + pos + handy + rest && pos + handy == current.used <= size
      ensures if current.next == null then rest == 0
        else current.used == size && rest >= current.next.used && (current.next.used == size || rest == current.next.used)
    {
      OwnFits(size);
      FlatSplit(chain, at);
      FlatFull(chain[..at], size);
      ChainNext(first, chain, at);
      rest := |Flat(chain[at + 1..])|;
      if at + 1 < |chain| {
        FlatHead(chain, at + 1);
      }
      hide Chain, Distinct, Flat;
      if at + 2 >= |chain| {
        FlatEmpty(chain[|chain|..]);
      }
    }

    /** Exactly when the number of bytes read, and that of those left, say so. */
    lemma GetsWholeExactly(size: nat)
      requires Own(size) && op != Encode && current != null && size >= 4 && Unread(size) != []
      ensures |Unread(size)| <= |Contents(size)|
      ensures GetsWhole() <==> |Unread(size)| >= 4 && Within(|Contents(size)| - |Unread(size)|, size)
    {
      hide Own, Contents, Unread, Within;
      var rest := Position(size);
      CursorWithin(at, size, pos, handy, rest, current.next == null, if current.next == null then 0 else current.next.used,
        |Contents(size)| - |Unread(size)|);
    }

    /** When nothing is left, reading fails cleanly. */
    lemma GetsAtEnd(size: nat)
      requires Own(size) && op != Encode && current != null && size > 0 && Unread(size) == []
      ensures GetsWhole()
    {
      hide Own, Contents, Unread;
      var rest := Position(size);
    }

    /** Integers at multiples of four never reach beyond fragments of such a size. */
    lemma PutsAligned()
      requires Valid() && op == Encode && pool.bufferSize % 4 == 0 && |Contents(pool.bufferSize)| % 4 == 0
      ensures PutsWhole()
    {
      PoolSize();
      hide Own, Contents, Within, FragmentPool.Valid;
      PutsWholeExactly(pool.bufferSize);
      AlignedWithin(|Contents(pool.bufferSize)|, pool.bufferSize);
    }

    lemma GetsAligned()
      requires Valid() && op != Encode && current != null && pool.bufferSize % 4 == 0
      requires |Contents(pool.bufferSize)| % 4 == 0 && |Unread(pool.bufferSize)| % 4 == 0
      ensures GetsWhole()
    {
      PoolSize();
      hide Own, Contents, Unread, Within, FragmentPool.Valid, GetsWhole;
      var size := pool.bufferSize;
      if Unread(size) == [] {
        GetsAtEnd(size);
      } else {
        GetsWholeExactly(size);
        CursorAligned(|Contents(size)|, |Unread(size)|, size);
      }
    }

    /** A 32-bit integer written now does not reach beyond its fragment. */
    predicate PutsWhole()
      reads this`handy
    {
      handy == 0 || handy >= 4
    }

    /** A 32-bit integer read now does not reach beyond what its fragment holds. */
    predicate GetsWhole()
      reads this`handy, this`current, current, if current == null then null else current.next
    {
      current != null &&
      (handy >= 4 || (handy == 0 && (current.next == null || current.next.used == 0 || current.next.used >= 4)))
    }

    /** Writes a 32-bit integer. */
    method PutLong(v: Long) returns (ok: bool)
      requires Valid() && op == Encode && PutsWhole()
      modifies this`current, this`pos, this`handy, this`fragmentCount, this`chain, this`at
      modifies pool`freeList, pool`fragmentCount, pool`freeFragmentCount, pool`free, pool`live
      modifies Members(pool.free), Members(chain)
      ensures Valid() && op == Encode
      ensures forall f :: f in chain ==> f in old(chain) || f in old(pool.free) || fresh(f)
      ensures forall f :: f in pool.free ==> f in old(pool.free)
      ensures pool.live == old(pool.live)[this := |chain|]
      ensures ok <==> 4 <= old(Room())
      ensures ok ==> Room() == old(Room()) - 4 && Contents(pool.bufferSize) == old(Contents(pool.bufferSize)) + Network(v)
      ensures !ok ==> Room() == 0 && Contents(pool.bufferSize) == old(Contents(pool.bufferSize))
    {
      hide Own, Contents, FragmentPool.Valid, FragmentPool.Reserve, Network;
      ghost var size := pool.bufferSize;
      PoolSize();
      if handy == 0 {
        var next := Extend();
        if !next {
          return false;
        }
        Spent(pool.bufferSize, old(pool.Reserve()));
      }
      CurrentInChain(size);
      Fill(Network(v));
      ok := true;
    }

    /** Reads a 32-bit integer. */
    method GetLong() returns (ok: bool, v: Long)
      requires Valid() && op != Encode && GetsWhole()
      modifies this`current, this`pos, this`handy, this`at
      ensures Valid() && Contents(pool.bufferSize) == old(Contents(pool.bufferSize))
      ensures ok <==> old(Unread(pool.bufferSize)) != []
      ensures if ok then old(Unread(pool.bufferSize)) == Network(v) + Unread(pool.bufferSize) else Unread(pool.bufferSize) == []
      ensures ok ==> current != null
    {
      hide Own, Contents, Unread, FragmentPool.Valid, Network, Host;
      ghost var size := pool.bufferSize;
      v := 0;
      if handy == 0 {
        var more := Advance();
        if !more {
          return false, v;
        }
      }
      var bytes := Take(4);
      v := Host(bytes);
      NetworkHost(bytes);
      ok := true;
    }

    /** Gives the first fragment of `tail` back to the pool, and moves on to the next. */
    method ReleaseHead(fragment: Fragment, ghost tail: seq<Fragment>) returns (next: Fragment?)
      requires pool.Valid() && Chain(fragment, tail) && Distinct(tail) && tail != []
      requires forall f :: f in tail ==> f.owner == this && |f.data| == pool.bufferSize
      requires this in pool.live && pool.live[this] > 0
      modifies pool`freeList, pool`freeFragmentCount, pool`free, pool`live
      modifies fragment`next, fragment`owner
      ensures pool.Valid() && pool.live == old(pool.live)[this := old(pool.live)[this] - 1]
      ensures Chain(next, tail[1..]) && Distinct(tail[1..])
      ensures if next == null then tail[1..] == [] else next in tail[1..]
      ensures forall f :: f in tail[1..] ==> f in tail && f.owner == this
      ensures pool.free == [fragment] + old(pool.free) && fragment in tail
    {
      hide FragmentPool.Valid, Chain, Distinct;
      next := fragment.next;
      ChainTail(fragment, tail);
      ChainEnds(next, tail[1..]);
      pool.FreeOwned();
      assert fragment !in Members(tail[1..]);
      pool.Release(fragment, this);
    }

    /** Gives the fragments of `rest` back to the pool. */
    method ReleaseAll(from: Fragment?, ghost rest: seq<Fragment>)
      requires pool.Valid() && Chain(from, rest) && Distinct(rest)
      requires forall f :: f in rest ==> f.owner == this && |f.data| == pool.bufferSize
      requires this in pool.live && pool.live[this] >= |rest|
      modifies pool`freeList, pool`freeFragmentCount, pool`free, pool`live
      modifies Members(rest)`next, Members(rest)`owner
      ensures pool.Valid() && pool.live == old(pool.live)[this := old(pool.live)[this] - |rest|]
      ensures |pool.free| == old(|pool.free|) + |rest|
      ensures forall f :: f in pool.free ==> f in old(pool.free) || f in rest
    {
      hide FragmentPool.Valid, Chain, Distinct;
      var fragment := from;
      ghost var tail := rest;
      ChainEnds(fragment, tail);
      while fragment != null
        invariant Chain(fragment, tail) && Distinct(tail)
        invariant if fragment == null then tail == [] else fragment in tail
        invariant forall f :: f in tail ==> f in rest && f.owner == this && |f.data| == pool.bufferSize
        invariant pool.Valid() && |pool.free| + |tail| == old(|pool.free|) + |rest|
        invariant pool.live == old(pool.live)[this := old(pool.live)[this] - |rest| + |tail|]
        invariant forall f :: f in pool.free ==> f in old(pool.free) || f in rest
        decreases |tail|
      {
        fragment := ReleaseHead(fragment, tail);
        tail := tail[1..];
      }
    }

    lemma Born(size: nat, f: Fragment)
      requires chain == [f] && fragmentCount == 1 && first == current == f && at == 0 && op == Encode
      requires f.next == null && f.owner == this && |f.data| == f.used == size && pos == 0 && handy == size
      ensures Own(size) && Contents(size) == []
    {
      assert chain[..at] == [];
    }

    /** A new stream in encode mode, unless the pool has no fragment for it. */
    static method Create(pool: FragmentPool) returns (s: XdrStream?)
      requires pool.Valid()
      modifies pool`freeList, pool`fragmentCount, pool`freeFragmentCount, pool`free, pool`live
      modifies Members(pool.free)
      ensures pool.Valid()
      ensures s == null <==> old(pool.Reserve()) == 0
      ensures s == null ==> pool.live == old(pool.live) && pool.free == old(pool.free) && pool.fragmentCount == old(pool.fragmentCount)
      ensures s != null ==> pool.Reserve() == old(pool.Reserve()) - 1 && s.handy == pool.bufferSize
      ensures s != null ==> fresh(s) && s.pool == pool && s.Valid() && s.op == Encode
      ensures s != null ==> s.Contents(pool.bufferSize) == [] && s.Room() == pool.bufferSize * old(pool.Reserve())
      ensures s != null ==> pool.live == old(pool.live)[s := 1]
      ensures s != null ==> forall f :: f in s.chain ==> f in old(pool.free) || fresh(f)
      ensures forall f :: f in pool.free ==> f in old(pool.free)
    {
      hide FragmentPool.Valid, FragmentPool.Reserve, XdrStream.Own, XdrStream.Contents;
      ghost var size, live := pool.bufferSize, pool.live;
      var xdrs := new XdrStream(pool);
      pool.Register(xdrs);
      var fragment := xdrs.Allocate();
      if fragment == null {
        pool.Unregister(xdrs);
        assert live[xdrs := 0] - {xdrs as object} == live;
        return null;
      }
      s := xdrs;
      s.first := fragment;
      s.Born(size, fragment);
      assert size * old(pool.Reserve()) == size * (old(pool.Reserve()) - 1) + size;
    }

    /** Empties the stream: all fragments but the first go back to the pool. */
    method Clear()
      requires Valid()
      modifies this`current, this`pos, this`handy, this`fragmentCount, this`chain, this`at, this`op
      modifies pool`freeList, pool`freeFragmentCount, pool`free, pool`live
      modifies Members(chain)
      ensures Valid() && op == Encode && Contents(pool.bufferSize) == []
      ensures fragmentCount == 1 && chain == [old(first)] && handy == pool.bufferSize
      ensures pool.live == old(pool.live)[this := 1] && |pool.free| == |old(pool.free)| + |old(chain)| - 1
      ensures forall f :: f in pool.free ==> f in old(pool.free) || f in old(chain)
    {
      hide FragmentPool.Valid, Own, Contents, Chain, Distinct;
      Parts(pool.bufferSize);
      ChainTail(first, chain);
      ReleaseAll(first.next, chain[1..]);
      pool.FreeOwned();
      assert first !in Members(pool.free);
      Restart();
    }

    /** Sets the cursor to the start of the first fragment, which becomes the only one. */
    method Restart()
      requires first != null && first.owner == this && |first.data| == pool.bufferSize
      modifies this`current, this`pos, this`handy, this`fragmentCount, this`chain, this`at, this`op
      modifies first`next, first`used
      ensures Own(pool.bufferSize) && op == Encode && Contents(pool.bufferSize) == []
      ensures fragmentCount == 1 && chain == [first] && handy == pool.bufferSize
    {
      hide Own, Contents;
      var fragment := first;
      current := fragment;
      op := Encode;
      pos := 0;
      handy := pool.bufferSize;
      fragment.used := pool.bufferSize;
      first.next := null;
      fragmentCount := 1;
      chain, at := [fragment], 0;
      Born(pool.bufferSize, fragment);
    }

    lemma Parts(size: nat)
      requires Own(size)
      ensures chain != [] && first == chain[0] && Chain(first, chain) && Distinct(chain)
      ensures forall f :: f in chain ==> f.owner == this && |f.data| == size
    {
    }

    lemma Readable(size: nat)
      requires Own(size) && op != Encode
      ensures Owns(size) && Fits(chain) && Contents(size) == Flat(chain)
    {
    }

    lemma Started(size: nat)
      requires Owns(size) && op != Encode && current == first && at == 0 && pos == 0 && handy == first.used
      ensures Own(size) && Fits(chain) && Contents(size) == Unread(size) == Flat(chain)
    {
      OwnFits(size);
    }

    /** Corrects the forecast in the last fragment, and computes the length. */
    method Seal()
      requires Valid() && op == Encode
      modifies this`length, current`used
      ensures pool.Valid() && Owns(pool.bufferSize) && Fits(chain)
      ensures Flat(chain) == old(Contents(pool.bufferSize)) && length == |Flat(chain)| % UNSIGNED
    {
      hide FragmentPool.Valid, Own, Owns, Contents, Flat;
      EncodedLength(pool.bufferSize);
      var total := fragmentCount * pool.bufferSize - handy;
      CurrentInChain(pool.bufferSize);
      assert (current as object) != pool && (this as object) != pool && (this as object) !in Members(chain);
      assert (this as object) !in Members(pool.free);
      Trim(pool.bufferSize);
      length := total % UNSIGNED;
    }

    /** The forecast for the last fragment becomes what is used of it. */
    method Trim(ghost size: nat)
      requires Own(size) && op == Encode
      modifies current`used
      ensures Owns(size) && Fits(chain) && Flat(chain) == old(Contents(size))
    {
      hide Flat, Chain, Distinct;
      ghost var before := chain[..at];
      LastApart(chain);
      OwnFits(size);
      assert current !in Members(before) && chain == before + [current];
      current.used := current.used - handy;
      assert Flat(before) == old(Flat(before));
      FlatLast(chain, before, current);
    }

    method StartReading(op: XdrOp)
      requires Owns(pool.bufferSize) && op != Encode && Fits(chain) && first != null
      modifies this`current, this`pos, this`handy, this`op, this`at
      ensures Own(pool.bufferSize) && this.op == op && current == first
      ensures Contents(pool.bufferSize) == Unread(pool.bufferSize) == Flat(chain)
    {
      hide Own, Owns, Contents, Unread, Flat, Fits;
      assert (this as object) !in Members(chain);
      current := first;
      pos := 0;
      handy := first.used;
      this.op := op;
      at := 0;
      Started(pool.bufferSize);
    }

    /** Starts over from the first fragment: writing, after emptying the stream, or reading. */
    method Rewind(op: XdrOp)
      requires Valid()
      modifies this`current, this`pos, this`handy, this`fragmentCount, this`chain, this`at, this`op, this`length
      modifies pool`freeList, pool`freeFragmentCount, pool`free, pool`live
      modifies Members(chain)
      ensures Valid() && this.op == op && first == old(first)
      ensures op == Encode ==> Contents(pool.bufferSize) == [] && fragmentCount == 1
      ensures op != Encode ==> Contents(pool.bufferSize) == old(Contents(pool.bufferSize))
      ensures op != Encode ==> Unread(pool.bufferSize) == Contents(pool.bufferSize) && current != null
      ensures op != Encode ==> chain == old(chain) && unchanged(pool)
      ensures if old(this.op) == Encode != op then length == |Contents(pool.bufferSize)| % UNSIGNED else length == old(length)
      ensures pool.live == old(pool.live)[this := |chain|]
      ensures forall f :: f in chain ==> f in old(chain)
      ensures forall f :: f in pool.free ==> f in old(pool.free) || f in old(chain)
    {
      hide FragmentPool.Valid, Own, Owns, Contents, Unread, Flat, Fits;
      ghost var size := pool.bufferSize;
      Parts(size);
      if op == Encode {
        Clear();
      } else {
        if this.op == Encode {
          CurrentInChain(size);
          Seal();
        } else {
          Readable(size);
        }
        assert (this as object) !in Members(pool.free);
        StartReading(op);
      }
    }

    /** Ends the stream's life: all its fragments go back to the pool. */
    method Destroy()
      requires Valid()
      modifies pool`freeList, pool`freeFragmentCount, pool`free, pool`live
      modifies Members(chain)
      ensures pool.Valid() && pool.live == old(pool.live) - {this}
      ensures |pool.free| == |old(pool.free)| + |chain|
      ensures forall f :: f in pool.free ==> f in old(pool.free) || f in chain
    {
      hide FragmentPool.Valid, Own;
      Parts(pool.bufferSize);
      ghost var live := pool.live;
      ReleaseAll(first, chain);
      assert live[this := 0] - {this} == live - {this};
      pool.Unregister(this);
    }
  }
}
