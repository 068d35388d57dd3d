/** The index from file descriptors to connection items: a hash table whose entries are
    overflow arrays of item references. It refines a partial map from fds to items. */
module HashIndex {
  import opened Sequences
  import opened LinkedList

  /** One entry of the hash table (`_KssCnxHashTableItem`). */
  class Bucket {
    var overflowTable: array?<Node?>
    var size: nat
    var used: nat
    ghost var entries: seq<Node>

    /** The first `used` cells of the array are `entries`; the array has `size` cells. */
    ghost predicate Valid()
      reads this, overflowTable
    {
      && (if overflowTable == null then size == 0 else overflowTable.Length == size)
      && |entries| == used <= size
      && (forall i {:trigger entries[i]} :: 0 <= i < used ==> overflowTable[i] == entries[i])
    }

    constructor ()
      ensures Valid() && entries == [] && overflowTable == null
    {
      overflowTable := null;
      size, used := 0, 0;
      entries := [];
    }

    /** The position of the entry for `fd`, or `used` if there is none. */
    method Find(fd: int) returns (idx: nat)
      requires Valid()
      ensures idx <= |entries|
      ensures idx < |entries| ==> entries[idx].fd == fd
      ensures forall i :: 0 <= i < idx ==> entries[i].fd != fd
    {
      var i, cnx := used, 0;
      while i != 0
        invariant cnx + i == used
        invariant forall j :: 0 <= j < cnx ==> entries[j].fd != fd
        decreases i
      {
        assert overflowTable[cnx] == entries[cnx];
        if overflowTable[cnx].fd == fd {
          return cnx;
        }
        i, cnx := i - 1, cnx + 1;
      }
      return used;
    }

    /** Makes room for one more entry: a full array is copied into one eight cells larger. */
    method Reserve()
      requires Valid()
      modifies this`overflowTable, this`size
      ensures Valid() && used < size
      ensures overflowTable == old(overflowTable) || fresh(overflowTable)
    {
      if used == size {
        var cnx := new Node?[size + 8](_ => null);
        if overflowTable != null {
          var i := 0;
          while i < used
            invariant 0 <= i <= used && overflowTable == old(overflowTable) && size == old(size)
            invariant forall j {:trigger entries[j]} :: 0 <= j < i ==> cnx[j] == entries[j]
          {
            assert overflowTable[i] == entries[i];
            cnx[i] := overflowTable[i];
            i := i + 1;
          }
        }
        overflowTable := cnx;
        size := size + 8;
      }
    }

    method Append(x: Node)
      requires Valid() && used < size
      modifies this`used, this`entries, overflowTable
      ensures Valid() && entries == old(entries) + [x]
    {
      overflowTable[used] := x;
      used := used + 1;
      entries := entries + [x];
    }

    /** Takes entry `idx` out; the later ones move down. */
    method RemoveAt(idx: nat)
      requires Valid() && idx < used
      modifies this`used, this`entries, overflowTable
      ensures Valid() && entries == Removed(old(entries), idx)
    {
      var i := idx;
      while i < used - 1
        invariant used == old(used) && entries == old(entries) && idx <= i < used
        invariant forall j {:trigger overflowTable[j]} :: 0 <= j < used ==>
          overflowTable[j] == if idx <= j < i then entries[j + 1] else entries[j]
      {
        assert overflowTable[i + 1] == entries[i + 1];
        overflowTable[i] := overflowTable[i + 1];
        i := i + 1;
      }
      used := used - 1;
      entries := Removed(entries, idx);
    }
  }

  const HASH_FACTOR := 625842579
  const UNSIGNED := 0x1_0000_0000

  /** The hash table; `contents` is the map it represents. Items come from `nodes`. */
  class FdIndex {
    const buckets: seq<Bucket>
    ghost const nodes: set<Node>
    ghost var contents: map<int, Node>
    ghost var repr: set<object>

    /** The multiplication wraps to 32 bits; masking with a power of two less one is a remainder. */
    function Hash(fd: int): (h: nat)
      requires |buckets| > 0
      ensures h < |buckets|
    {
      fd * HASH_FACTOR % UNSIGNED % |buckets|
    }

    /** The bucket `b` at `h` holds items with that hash, each the indexed item of its fd, none
        of them twice. */
    ghost predicate Holds(b: Bucket, h: nat)
      requires |buckets| > 0
      reads this`contents, b`entries, nodes`fd
    {
      && Distinct(b.entries)
      && (forall e :: e in b.entries ==> e in nodes && Hash(e.fd) == h && e.fd in contents && contents[e.fd] == e)
    }

    ghost predicate Separate()
      reads this, repr
    {
      && |buckets| > 0
      && (forall o :: o in repr ==> o is Bucket || o is array<Node?>)
      && (forall h :: 0 <= h < |buckets| ==> buckets[h] in repr)
      && (forall h :: 0 <= h < |buckets| ==> buckets[h].overflowTable == null || buckets[h].overflowTable in repr)
      && (forall h :: 0 <= h < |buckets| ==> buckets[h].Valid())
      && (forall h, k :: 0 <= h < k < |buckets| ==> buckets[h] != buckets[k])
      && (forall h, k :: 0 <= h < k < |buckets| ==>
            buckets[h].overflowTable == null || buckets[h].overflowTable != buckets[k].overflowTable)
    }

    ghost predicate Valid()
      reads this, repr, nodes`fd
    {
      && Separate()
      && (forall h :: 0 <= h < |buckets| ==> Holds(buckets[h], h))
      && (forall fd :: fd in contents ==>
            contents[fd] in nodes && contents[fd].fd == fd && contents[fd] in buckets[Hash(fd)].entries)
    }

    /** The least power of two that is at least 32 and `fdsetSize`. */
    static method TableSize(fdsetSize: nat) returns (size: nat)
      ensures size >= 32 && size >= fdsetSize && (size == 32 || size < 2 * fdsetSize)
    {
      size := 32;
      while size < fdsetSize
        invariant size >= 32 && (size == 32 || size < 2 * fdsetSize)
      {
        size := 2 * size;
      }
    }

    constructor (fdsetSize: nat, ghost nodes: set<Node>)
      ensures Valid() && fresh(repr) && contents == map[] && this.nodes == nodes
    {
      hide Bucket.Valid;
      var size := TableSize(fdsetSize);
      var bs: seq<Bucket> := [];
      while |bs| < size
        invariant |bs| <= size
        invariant forall h :: 0 <= h < |bs| ==> fresh(bs[h]) && bs[h].Valid() && bs[h].entries == [] && bs[h].overflowTable == null
        invariant forall h, k :: 0 <= h < k < |bs| ==> bs[h] != bs[k]
      {
        var b := new Bucket();
        bs := bs + [b];
      }
      buckets := bs;
      this.nodes := nodes;
      contents := map[];
      repr := set b | b in bs;
    }

    /** The item registered for `fd`, or null. */
    method Lookup(fd: int) returns (x: Node?)
      requires Valid()
      ensures x == if fd in contents then contents[fd] else null
    {
      var b := buckets[Hash(fd)];
      var idx := b.Find(fd);
      assert Holds(b, Hash(fd));
      if idx == b.used {
        return null;
      }
      assert b.entries[idx] in b.entries;
      assert b.overflowTable[idx] == b.entries[idx];
      return b.overflowTable[idx];
    }

    /** Makes room for an item in the bucket of `fd`. */
    method Reserve(fd: int)
      requires Valid()
      modifies this`repr, repr
      ensures Valid() && fresh(repr - old(repr)) && contents == old(contents)
      ensures buckets[Hash(fd)].used < buckets[Hash(fd)].size
    {
      var b := buckets[Hash(fd)];
      b.Reserve();
      repr := repr + {b.overflowTable};
    }

    /** Registers the item `x`, which is not in use, under `fd`. */
    method Insert(x: Node, fd: int)
      requires Valid() && x in nodes && fd !in contents && (forall d :: d in contents ==> contents[d] != x)
      requires buckets[Hash(fd)].used < buckets[Hash(fd)].size
      modifies this`contents, repr, x`fd
      ensures Valid() && contents == old(contents)[fd := x] && x.fd == fd
    {
      hide Distinct;
      ghost var g := Hash(fd);
      var b := buckets[Hash(fd)];
      ghost var es := b.entries;
      assert Holds(b, g);
      Unused(x);
      b.Append(x);
      x.fd := fd;
      contents := contents[fd := x];
      InsertedLast(es, x);
      forall h | 0 <= h < |buckets| ensures Holds(buckets[h], h) {
        assert old(Holds(buckets[h], h));
      }
    }

    lemma ReprTypes()
      requires Valid()
      ensures forall o :: o in repr ==> o is Bucket || o is array<Node?>
    {
    }

    lemma Unused(x: Node)
      requires Valid() && forall d :: d in contents ==> contents[d] != x
      ensures forall h :: 0 <= h < |buckets| ==> x !in buckets[h].entries
    {
      forall h | 0 <= h < |buckets| ensures x !in buckets[h].entries {
        assert Holds(buckets[h], h);
      }
    }

    /** Takes the item registered for `fd` out of the table. */
    method Delete(fd: int)
      requires Valid() && fd in contents
      modifies this`contents, repr
      ensures Valid() && contents == old(contents) - {fd}
    {
      ghost var g := Hash(fd);
      var b := buckets[Hash(fd)];
      hide Distinct, Removed;
      assert Holds(b, g);
      ghost var es := b.entries;
      var idx := b.Find(fd);
      assert es[idx] in es;
      b.RemoveAt(idx);
      contents := contents - {fd};
      RemovedAt(es, idx);
      forall h | 0 <= h < |buckets| ensures Holds(buckets[h], h) {
        assert old(Holds(buckets[h], h));
      }
    }
  }
}
