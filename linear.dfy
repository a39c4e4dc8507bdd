/**
 * Linear (bump-pointer) allocator (linear.c).
 *
 * The buffer `allocbuf` is the unit range [0, AllocSize) and a pointer into
 * it is its offset from `allocbuf`; `allocp` is the offset of the first free
 * byte. NULL, which `alloc` returns when the request does not fit, is None.
 */
module Linear {
  import opened Wrappers

  /** ALLOCSIZE (linear.c:11): the bytes in the buffer. */
  const AllocSize: nat := 10000

  /** What one call of `alloc` returns (an offset or NULL) and the offset `allocp` it leaves. */
  datatype Bump = Bump(result: Option<nat>, allocp: nat)

  /** Bytes still free above the offset `allocp`. */
  function Remaining(allocp: nat): nat
    requires allocp <= AllocSize
  {
    AllocSize - allocp
  }

  /**
   * alloc (linear.c:20-26): NULL, with nothing changed, when `size` bytes
   * past `allocp` would overrun the buffer; otherwise the old offset is
   * returned and `allocp` moves up by `size`.
   */
  function AllocSpec(allocp: nat, size: nat): (r: Bump)
    requires allocp <= AllocSize
    ensures r.allocp <= AllocSize
    ensures r.result.None? <==> size > Remaining(allocp)
    ensures r.result.None? ==> r.allocp == allocp
    ensures r.result.Some? ==> r.result.value == allocp && r.allocp == r.result.value + size
  {
    if allocp + size > AllocSize then Bump(None, allocp) else Bump(Some(allocp), allocp + size)
  }

  /** A successful allocation is a block of `size` bytes inside the buffer, starting where the free space did. */
  lemma AllocInBuffer(allocp: nat, size: nat)
    requires allocp <= AllocSize && size <= Remaining(allocp)
    ensures var r := AllocSpec(allocp, size);
      && r.result == Some(allocp)
      && r.result.value + size <= AllocSize
      && Remaining(r.allocp) + size == Remaining(allocp)
  {
  }

  /**
   * Two successful allocations in a row (linear.c:24-25) return adjacent
   * blocks: the second starts where the first ends, so they do not overlap.
   */
  lemma AllocAdjacent(allocp: nat, s1: nat, s2: nat)
    requires allocp <= AllocSize
    requires AllocSpec(allocp, s1).result.Some?
    requires AllocSpec(AllocSpec(allocp, s1).allocp, s2).result.Some?
    ensures var r1 := AllocSpec(allocp, s1);
      var r2 := AllocSpec(r1.allocp, s2);
      && r2.result.value == r1.result.value + s1
      && r2.allocp == allocp + s1 + s2
  {
  }

  /** alloc(0) always succeeds, returns the current offset and changes nothing. */
  lemma AllocZero(allocp: nat)
    requires allocp <= AllocSize
    ensures AllocSpec(allocp, 0) == Bump(Some(allocp), allocp)
  {
  }

  /** The bytes asked for by a sequence of requests. */
  function Sum(sizes: seq<nat>): nat
  {
    if |sizes| == 0 then 0 else Sum(sizes[..|sizes| - 1]) + sizes[|sizes| - 1]
  }

  /** The results of a sequence of `alloc` calls, in order, and the offset left after the last one. */
  function Run(allocp: nat, sizes: seq<nat>): (r: (seq<Option<nat>>, nat))
    requires allocp <= AllocSize
    ensures |r.0| == |sizes| && r.1 <= AllocSize
    decreases |sizes|
  {
    if |sizes| == 0 then ([], allocp)
    else
      var prefix := Run(allocp, sizes[..|sizes| - 1]);
      var b := AllocSpec(prefix.1, sizes[|sizes| - 1]);
      (prefix.0 + [b.result], b.allocp)
  }

  /**
   * Requests that fit together are all served, back to back: the `j`-th
   * block starts after the bytes of the ones before it, and the offset ends
   * up past all of them.
   */
  lemma {:induction false} RunContiguous(allocp: nat, sizes: seq<nat>)
    requires allocp + Sum(sizes) <= AllocSize
    ensures var r := Run(allocp, sizes);
      && r.1 == allocp + Sum(sizes)
      && forall j :: 0 <= j < |sizes| ==> r.0[j] == Some(allocp + Sum(sizes[..j]))
    decreases |sizes|
  {
    if |sizes| > 0 {
      var n := |sizes| - 1;
      var init := sizes[..n];
      assert Sum(sizes) == Sum(init) + sizes[n];
      RunContiguous(allocp, init);
      var prefix := Run(allocp, init);
      forall j | 0 <= j < |sizes|
        ensures Run(allocp, sizes).0[j] == Some(allocp + Sum(sizes[..j]))
      {
        if j < n {
          assert sizes[..j] == init[..j];
        } else {
          assert sizes[..j] == init;
        }
      }
    }
  }

  /**
   * LIFO release (linear.c:4 and 28-30): whatever the requests, freeing the
   * block that the `j`-th of them returned puts the offset back where it was
   * just before that request, so that releasing blocks latest first undoes
   * the allocations one by one.
   */
  lemma {:induction false} RunRelease(allocp: nat, sizes: seq<nat>, j: nat)
    requires allocp <= AllocSize && j < |sizes|
    ensures var r := Run(allocp, sizes);
      r.0[j].Some? ==> r.0[j].value == Run(allocp, sizes[..j]).1
    decreases |sizes|
  {
    var n := |sizes| - 1;
    if j < n {
      RunRelease(allocp, sizes[..n], j);
      assert sizes[..n][..j] == sizes[..j];
    } else {
      assert sizes[..j] == sizes[..n];
    }
  }

  /**
   * The allocator's state (linear.c:13-14): the offset `allocp` into the
   * fixed buffer, which starts at the buffer's beginning.
   */
  class LinearAllocator {
    var allocp: nat

    ghost predicate Valid()
      reads this
    {
      allocp <= AllocSize
    }

    constructor()
      ensures Valid() && allocp == 0
    {
      allocp := 0;
    }

    /** alloc (linear.c:20-26). */
    method Alloc(size: nat) returns (p: Option<nat>)
      requires Valid()
      modifies this
      ensures Valid()
      ensures Bump(p, allocp) == AllocSpec(old(allocp), size)
    {
      if allocp + size > AllocSize {
        return None;
      }
      allocp := allocp + size;
      p := Some(allocp - size);
    }

    /** afree (linear.c:28-30): the offset goes back to `pointer`. */
    method Afree(pointer: nat)
      requires Valid() && pointer <= AllocSize
      modifies this
      ensures Valid() && allocp == pointer
    {
      allocp := pointer;
    }
  }
}
