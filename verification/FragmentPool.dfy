/** The pool of fixed-size fragments that all memory streams share: the free list, its counters
    and the configured limits. */
module Fragments {
  import opened Sequences

  newtype byte = x: int | 0 <= x < 256

  const MIN_FRAGMENT_SIZE := 256
  const DEFAULT_FRAGMENT_SIZE := 8192
  const UNSIGNED := 0x1_0000_0000

  /** A fragment: its link, the number of bytes in use, and the buffer behind its head. `owner`
      is the stream or pool it belongs to. */
  class Fragment {
    var next: Fragment?
    var used: nat
    var data: seq<byte>
    ghost var owner: object?

    constructor (size: nat)
      ensures |data| == size
    {
      next := null;
      used := 0;
      data := seq(size, _ => 0);
      owner := null;
    }
  }

  ghost function Members(c: seq<Fragment>): (s: set<Fragment>) {
    set f | f in c
  }

  /** `c` is the null-terminated list of fragments starting at `first`. */
  ghost predicate Chain(first: Fragment?, c: seq<Fragment>)
    reads Members(c)`next
  {
    && first == (if c == [] then null else c[0])
    && (forall i {:trigger c[i]} :: 0 <= i < |c| ==> c[i].next == if i + 1 < |c| then c[i + 1] else null)
  }

  /** The number of fragments of all streams together. */
  ghost function Total(counts: map<object, nat>): (n: nat) {
    if counts == map[] then 0 else
      var k :| k in counts;
      counts[k] + Total(counts - {k})
  }

  lemma {:induction false} TotalWithout(counts: map<object, nat>, k: object)
    requires k in counts
    ensures Total(counts) == counts[k] + Total(counts - {k})
    decreases |counts|
  {
    var j :| j in counts && Total(counts) == counts[j] + Total(counts - {j});
    if j != k {
      TotalWithout(counts - {j}, k);
      TotalWithout(counts - {k}, j);
      assert counts - {j} - {k} == counts - {k} - {j};
    }
  }

  lemma TotalUpdate(counts: map<object, nat>, k: object, n: nat)
    ensures Total(counts[k := n]) == Total(counts) - (if k in counts then counts[k] else 0) + n
  {
    var counts' := counts[k := n];
    TotalWithout(counts', k);
    assert counts' - {k} == counts - {k};
    if k in counts {
      TotalWithout(counts, k);
    } else {
      assert counts - {k} == counts;
    }
  }

  lemma PushDistinct(c: seq<Fragment>, f: Fragment)
    requires Distinct(c) && f !in c
    ensures Distinct([f] + c) && Distinct(c)
  {
  }

  class FragmentPool {
    var bufferSize: nat
    var freeList: Fragment?
    var fragmentCount: nat
    var freeFragmentCount: nat
    var quota: nat
    var watermark: nat
    var freePercentage: nat
    ghost var free: seq<Fragment>
    ghost var live: map<object, nat>
    ghost var ceiling: nat

    /** The free list holds `free`. */
    ghost predicate ListValid()
      reads this`freeList, this`freeFragmentCount, this`free, this`bufferSize
      reads Members(free)`next, Members(free)`owner, Members(free)`data
    {
      && Chain(freeList, free) && Distinct(free)
      && (forall f :: f in free ==> f.owner == this && |f.data| == bufferSize)
      && freeFragmentCount == |free|
    }

    /** Fragments are conserved: every one counted is free or in the chain of a live stream.
        There are never more than the ceiling: the quota, or what there was when it was set. */
    ghost predicate Valid()
      reads this, Members(free)`next, Members(free)`owner, Members(free)`data
    {
      && ListValid()
      && bufferSize >= MIN_FRAGMENT_SIZE
      && fragmentCount == |free| + Total(live)
      && fragmentCount <= ceiling && quota <= ceiling < UNSIGNED
    }

    lemma FreeOwned()
      requires Valid()
      ensures forall f :: f in free ==> f.owner == this
    {
    }

    lemma SizeKnown()
      requires Valid()
      ensures bufferSize >= MIN_FRAGMENT_SIZE && quota < UNSIGNED
    {
    }

    /** How many more fragments the pool can hand out. */
    ghost function Reserve(): (n: nat)
      reads this`free, this`fragmentCount, this`quota
    {
      |free| + if fragmentCount < quota then quota - fragmentCount else 0
    }

    constructor ()
      ensures Valid() && bufferSize == DEFAULT_FRAGMENT_SIZE && free == [] && live == map[]
      ensures fragmentCount == 0 && quota == ceiling == UNSIGNED - 1
    {
      bufferSize := DEFAULT_FRAGMENT_SIZE;
      freeList := null;
      fragmentCount, freeFragmentCount := 0, 0;
      quota := UNSIGNED - 1;
      watermark := 0;
      freePercentage := 50;
      free := [];
      live := map[];
      ceiling := UNSIGNED - 1;
    }

    ghost method Register(s: object)
      requires Valid() && s !in live
      modifies this`live
      ensures Valid() && live == old(live)[s := 0]
    {
      TotalUpdate(live, s, 0);
      live := live[s := 0];
    }

    ghost method Unregister(s: object)
      requires Valid() && s in live && live[s] == 0
      modifies this`live
      ensures Valid() && live == old(live) - {s}
    {
      TotalWithout(live, s);
      live := live - {s};
    }

    /** Sets the limits. The fragment size cannot be changed while there are fragments. */
    method ControlUsage(fragmentSize: nat, quota: nat, watermark: nat, freePercentage: nat) returns (ok: bool)
      requires Valid() && quota < UNSIGNED
      modifies this`bufferSize, this`quota, this`watermark, this`freePercentage, this`ceiling
      ensures Valid()
      ensures ok <==> fragmentSize == old(bufferSize) || fragmentCount == 0
      ensures fragmentCount > 0 ==> bufferSize == old(bufferSize)
      ensures ok && fragmentSize >= MIN_FRAGMENT_SIZE ==> bufferSize == fragmentSize
      ensures ok && fragmentSize < MIN_FRAGMENT_SIZE ==> bufferSize == MIN_FRAGMENT_SIZE
      ensures if ok then this.quota == quota && this.watermark == watermark && this.freePercentage == freePercentage
        else unchanged(this)
      ensures ok ==> ceiling == if fragmentCount <= quota then quota else fragmentCount
    {
      if fragmentSize != bufferSize && fragmentCount != 0 {
        return false;
      }
      bufferSize := if fragmentSize < MIN_FRAGMENT_SIZE then MIN_FRAGMENT_SIZE else fragmentSize;
      this.quota := quota;
      this.watermark := watermark;
      this.freePercentage := freePercentage;
      ceiling := if fragmentCount <= quota then quota else fragmentCount;
      ok := true;
    }

    /** A fragment for the stream `s`: the first free one, or a new one within the quota. */
    method Obtain(ghost s: object) returns (f: Fragment?)
      requires Valid() && s in live && s != this
      modifies this`freeList, this`fragmentCount, this`freeFragmentCount, this`free, this`live
      modifies Members(free)`owner
      ensures Valid()
      ensures f == null <==> old(Reserve()) == 0
      ensures f == null ==> unchanged(this)
      ensures f != null ==> live == old(live)[s := old(live)[s] + 1] && |f.data| == bufferSize && f.owner == s
      ensures f != null ==> Reserve() == old(Reserve()) - 1
      ensures fragmentCount <= old(fragmentCount) || fragmentCount <= quota
      ensures f != null ==> if old(free) == [] then fresh(f) && free == [] && fragmentCount == old(fragmentCount) + 1
        else f == old(free)[0] && free == old(free)[1..] && fragmentCount == old(fragmentCount)
    {
      hide Total;
      if freeList != null {
        f := freeList;
        freeList := f.next;
        freeFragmentCount := freeFragmentCount - 1;
        free := free[1..];
      } else {
        if fragmentCount >= quota {
          return null;
        }
        f := new Fragment(bufferSize);
        fragmentCount := fragmentCount + 1;
      }
      TotalUpdate(live, s, live[s] + 1);
      live := live[s := live[s] + 1];
      f.owner := s;
    }

    /** Puts a fragment at the head of the free list. */
    method Push(f: Fragment)
      requires ListValid() && f !in free && |f.data| == bufferSize
      modifies this`freeList, this`freeFragmentCount, this`free, f`next, f`owner
      ensures ListValid() && free == [f] + old(free)
    {
      hide Distinct;
      PushDistinct(free, f);
      f.next := freeList;
      freeList := f;
      freeFragmentCount := freeFragmentCount + 1;
      f.owner := this;
      free := [f] + free;
    }

    /** Takes a fragment back from the stream `s`. */
    method Release(f: Fragment, ghost s: object)
      requires Valid() && s in live && live[s] > 0 && f !in free && |f.data| == bufferSize
      modifies this`freeList, this`freeFragmentCount, this`free, this`live, f`next, f`owner
      ensures Valid()
      ensures live == old(live)[s := old(live)[s] - 1] && free == [f] + old(free)
    {
      hide Total, ListValid;
      Push(f);
      TotalUpdate(live, s, live[s] - 1);
      live := live[s := live[s] - 1];
    }

    /** Gives the first free fragment back to the system. */
    method Drop()
      requires Valid() && free != []
      modifies this`freeList, this`fragmentCount, this`freeFragmentCount, this`free
      ensures Valid() && free == old(free)[1..] && fragmentCount == old(fragmentCount) - 1
    {
      freeList := freeList.next;
      freeFragmentCount := freeFragmentCount - 1;
      fragmentCount := fragmentCount - 1;
      free := free[1..];
    }

    /** Gives back free fragments above the watermark. If there are fewer than are wanted, the
        list ends, and the null behind it is taken for a fragment. */
    method FreeGarbage() returns (sound: bool)
      requires Valid()
      modifies this`freeList, this`fragmentCount, this`freeFragmentCount, this`free
      ensures Valid()
      ensures sound <==> GarbageCount(|old(free)|, watermark, freePercentage) <= |old(free)|
      ensures var n := if sound then GarbageCount(|old(free)|, watermark, freePercentage) else |old(free)|;
        free == old(free)[n..] && fragmentCount == old(fragmentCount) - n
    {
      hide ListValid;
      Counted();
      if freeFragmentCount > watermark {
        var toFree := (freeFragmentCount - watermark) * freePercentage % UNSIGNED / 100;
        if toFree == 0 {
          toFree := freeFragmentCount - watermark;
        }
        sound := DropSome(toFree);
      } else {
        sound := true;
      }
    }

    lemma Counted()
      requires ListValid()
      ensures freeFragmentCount == |free| && (freeList == null <==> free == [])
    {
    }

    /** Gives back `wanted` fragments, or all if there are not as many. */
    method DropSome(wanted: nat) returns (sound: bool)
      requires Valid()
      modifies this`freeList, this`fragmentCount, this`freeFragmentCount, this`free
      ensures Valid() && (sound <==> wanted <= |old(free)|)
      ensures var n := if sound then wanted else |old(free)|;
        free == old(free)[n..] && fragmentCount == old(fragmentCount) - n
    {
      hide ListValid, Total;
      var toFree := wanted;
      while toFree > 0
        invariant Valid() && 0 <= toFree <= wanted && wanted - toFree <= |old(free)|
        invariant free == old(free)[wanted - toFree..] && fragmentCount == old(fragmentCount) - (wanted - toFree)
      {
        Counted();
        if freeList == null {
          return false;
        }
        Drop();
        toFree := toFree - 1;
      }
      sound := true;
    }
  }

  /** How many fragments one round of garbage collection wants to give back. */
  function GarbageCount(free: nat, watermark: nat, percentage: nat): (n: nat) {
    if free <= watermark then 0
    else
      var part := (free - watermark) * percentage % UNSIGNED / 100;
      if part == 0 then free - watermark else part
  }

  /** Above the watermark the percentage of the surplus is given back, computed in 32 bits and
      rounded down; and the whole surplus if that comes to nothing. */
  lemma GarbageCountExactly(free: nat, watermark: nat, percentage: nat)
    ensures var n := GarbageCount(free, watermark, percentage);
      && (free <= watermark ==> n == 0)
      && (free > watermark ==>
            var share := (free - watermark) * percentage % UNSIGNED;
            if share < 100 then n == free - watermark else 100 * n <= share < 100 * n + 100)
  {
  }

  lemma ShareAtMost(surplus: nat, percentage: nat)
    requires percentage <= 100
    ensures surplus * percentage % UNSIGNED / 100 <= surplus
  {
    assert surplus * percentage <= surplus * 100;
    assert surplus * percentage % UNSIGNED <= surplus * percentage;
  }

  lemma {:induction false} GarbageCountWithin(free: nat, watermark: nat, percentage: nat)
    requires percentage <= 100
    ensures GarbageCount(free, watermark, percentage) <= free
    ensures free > watermark ==> GarbageCount(free, watermark, percentage) > 0
  {
    if free > watermark {
      ShareAtMost(free - watermark, percentage);
    }
  }

  /** Garbage collection never wants more fragments than are free, whatever the free list and
      the watermark, exactly if the configured percentage is at most a hundred. */
  lemma GarbageCountSafe(percentage: nat)
    requires percentage < UNSIGNED
    ensures percentage <= 100 <==> forall free: nat, watermark: nat :: GarbageCount(free, watermark, percentage) <= free
  {
    if percentage <= 100 {
      forall free: nat, watermark: nat ensures GarbageCount(free, watermark, percentage) <= free {
        GarbageCountWithin(free, watermark, percentage);
      }
    } else if percentage < 200 {
      assert GarbageCount(100, 0, percentage) == percentage;
    } else {
      assert GarbageCount(1, 0, percentage) == percentage / 100;
    }
  }
}
