/**
 * Next-fit free-list allocator (freelist.c).
 *
 * Raw addresses become unit indices into one arena: a header occupies one unit,
 * and "block + n" is index arithmetic. The static sentinel `base` sits at the
 * reserved index `Base`; every block the program break lets the allocator use
 * lies at indices 1 .. brk - 1. A header is split into two maps, `next` and
 * `size`, so that an operation that writes only one field of a header visibly
 * leaves the other alone.
 *
 * The free list is a circular singly-linked list through `next`. Its order is
 * recorded by `ring`, which starts at the sentinel: `ring[i]`'s successor is
 * `ring[i + 1]`, and the last node's successor is the sentinel again.
 */
module FreeList {
  import opened Wrappers

  /** Index of the sentinel header `base`. */
  const Base: nat := 0

  /**
   * The allocator's globals: the header fields, the cursor `free_block`
   * (None until the first call), the program break `brk` (the first unit
   * index that the growth step has not yet handed over) and the list order.
   */
  datatype Heap = Heap(
    next: map<nat, nat>,
    size: map<nat, nat>,
    cursor: Option<nat>,
    brk: nat,
    ring: seq<nat>)

  /** What one call of `memalloc` returns (a payload index or NULL) and the state it leaves. */
  datatype Step = Step(payload: Option<nat>, after: Heap)

  /** The heap before the first call: no sentinel yet, the arena starting at unit 1. */
  const Empty: Heap := Heap(map[], map[], None, 1, [])

  function Max(a: nat, b: nat): nat
  {
    if a < b then b else a
  }

  /** Position of the successor of position `i` in a ring of `n` nodes. */
  function Succ(n: nat, i: nat): (j: nat)
    requires i < n
    ensures j < n
  {
    if i + 1 < n then i + 1 else 0
  }

  /** Position reached after `t` steps round a ring of `n` nodes from position `k`. */
  function Visit(n: nat, k: nat, t: nat): (j: nat)
    requires k < n && t <= n
    ensures j < n
  {
    if k + t < n then k + t else k + t - n
  }

  /**
   * Header units a request of `bytes` needs (freelist.c:29): the payload
   * rounded up to whole units, plus one unit for the header.
   */
  function NeededUnits(bytes: nat, unit: nat): (n: nat)
    requires unit > 0
    ensures n >= 1
    ensures (n - 1) * unit >= bytes
    ensures (n - 1) * unit < bytes + unit
  {
    var q := (bytes + unit - 1) / unit;
    DivisionBounds(bytes + unit - 1, unit);
    q + 1
  }

  lemma DivisionBounds(a: nat, d: nat)
    requires d > 0
    ensures (a / d) * d <= a < (a / d) * d + d
  {
    assert a == (a / d) * d + a % d;
  }

  /** `r` is `ring` with `x` inserted right after position `k`. */
  ghost predicate Inserted(ring: seq<nat>, k: nat, x: nat, r: seq<nat>)
  {
    && k < |ring| && |r| == |ring| + 1 && r[k + 1] == x
    && (forall j {:trigger r[j]} :: 0 <= j <= k ==> r[j] == ring[j])
    && (forall j {:trigger r[j]} :: k + 1 < j < |r| ==> r[j] == ring[j - 1])
  }

  /** `r` is `ring` without position `i`. */
  ghost predicate Removed(ring: seq<nat>, i: nat, r: seq<nat>)
  {
    && i < |ring| && |r| + 1 == |ring|
    && (forall j {:trigger r[j]} :: 0 <= j < i ==> r[j] == ring[j])
    && (forall j {:trigger r[j]} :: i <= j < |r| ==> r[j] == ring[j + 1])
  }

  /** Insertion of `x` right after position `k`. */
  function Insert(ring: seq<nat>, k: nat, x: nat): (r: seq<nat>)
    requires k < |ring|
    ensures Inserted(ring, k, x, r)
  {
    ring[..k + 1] + [x] + ring[k + 1..]
  }

  /** Removal of position `i`. */
  function Remove(ring: seq<nat>, i: nat): (r: seq<nat>)
    requires i < |ring|
    ensures Removed(ring, i, r)
  {
    ring[..i] + ring[i + 1..]
  }

  /** Following `next` from `ring[i]` leads to the node after it, and from the last node back to the first. */
  ghost predicate Cycle(next: map<nat, nat>, ring: seq<nat>)
  {
    && (forall i :: 0 <= i < |ring| ==> ring[i] in next)
    && (forall i {:trigger next[ring[i]], Succ(|ring|, i)} :: 0 <= i < |ring| ==> next[ring[i]] == ring[Succ(|ring|, i)])
  }

  /** Block `b`'s span [b, b + size[b]) is non-empty and lies inside the arena below `brk`. */
  ghost predicate InArena(size: map<nat, nat>, brk: nat, b: nat)
    requires b in size
  {
    1 <= b && size[b] >= 1 && b + size[b] <= brk
  }

  /** The spans of blocks `a` and `b` do not overlap. */
  ghost predicate Apart(size: map<nat, nat>, a: nat, b: nat)
    requires a in size && b in size
  {
    a + size[a] <= b || b + size[b] <= a
  }

  /** Every node of the list is a key of `m` (it has a size, or a link). */
  ghost predicate Keyed(m: map<nat, nat>, ring: seq<nat>)
  {
    forall i :: 0 <= i < |ring| ==> ring[i] in m
  }

  /** Every node but the first is a block of the arena, and no two of their spans overlap. */
  ghost predicate Spans(size: map<nat, nat>, brk: nat, ring: seq<nat>)
  {
    && Keyed(size, ring)
    && (forall i {:trigger InArena(size, brk, ring[i])} :: 1 <= i < |ring| ==> InArena(size, brk, ring[i]))
    && (forall i, j {:trigger Apart(size, ring[i], ring[j])} ::
          1 <= i < |ring| && 1 <= j < |ring| && i != j ==> Apart(size, ring[i], ring[j]))
  }


  /**
   * The shape of an initialised free list: it starts at the zero-sized
   * sentinel and contains the cursor, and its other nodes are non-empty
   * blocks of the arena with pairwise disjoint spans.
   */
  ghost predicate Linked(h: Heap)
  {
    && |h.ring| >= 1
    && h.ring[0] == Base
    && h.cursor.Some?
    && h.cursor.value in h.ring
    && Keyed(h.next, h.ring)
    && Spans(h.size, h.brk, h.ring)
    && h.size[Base] == 0
  }

  /** The allocator's invariant on sizes and positions, before and after the first call. */
  ghost predicate WellFormed(h: Heap)
  {
    && h.brk >= 1
    && (h.cursor.None? ==> h.ring == [])
    && (h.cursor.Some? ==> Linked(h))
  }

  /** The `next` fields close the list order into a circle. */
  ghost predicate Circular(h: Heap)
  {
    Cycle(h.next, h.ring)
  }

  /** The node at position `k` occurs nowhere else in the list. */
  lemma OccursOnce(size: map<nat, nat>, brk: nat, ring: seq<nat>, k: nat)
    requires Spans(size, brk, ring) && |ring| >= 1 && ring[0] == Base && k < |ring|
    ensures forall j :: 0 <= j < |ring| && j != k ==> ring[j] != ring[k]
  {
    forall j | 0 <= j < |ring| && j != k
      ensures ring[j] != ring[k]
    {
      if j != 0 {
        assert InArena(size, brk, ring[j]);
      }
      if k != 0 {
        assert InArena(size, brk, ring[k]);
      }
      if j != 0 && k != 0 {
        assert Apart(size, ring[j], ring[k]);
      }
    }
  }

  /** Every node of the list lies below the program break (the first one is the sentinel). */
  lemma BelowBreak(size: map<nat, nat>, brk: nat, ring: seq<nat>)
    requires Spans(size, brk, ring) && |ring| >= 1 && ring[0] < brk
    ensures forall j :: 0 <= j < |ring| ==> ring[j] < brk
  {
    forall j | 1 <= j < |ring|
      ensures ring[j] < brk
    {
      assert InArena(size, brk, ring[j]);
    }
  }

  /** Position of `x` in the list order. */
  function IndexOf(ring: seq<nat>, x: nat): (i: nat)
    requires x in ring
    ensures i < |ring| && ring[i] == x
  {
    IndexFrom(ring, x, 0)
  }

  /** Position of the first occurrence of `x` at or after position `from`. */
  function IndexFrom(ring: seq<nat>, x: nat, from: nat): (i: nat)
    requires exists j :: from <= j < |ring| && ring[j] == x
    ensures from <= i < |ring| && ring[i] == x
    decreases |ring| - from
  {
    if ring[from] == x then from else IndexFrom(ring, x, from + 1)
  }

  /** The node `t` steps after the cursor (at position `k`) is big enough for the request. */
  ghost predicate Fits(h: Heap, needed: nat, k: nat, t: nat)
    requires Keyed(h.size, h.ring) && k < |h.ring| && t <= |h.ring|
  {
    h.size[h.ring[Visit(|h.ring|, k, t)]] >= needed
  }

  /**
   * The next-fit search (freelist.c:47-59): the first step count `t` (from
   * `t` on, at most once round the list) at which the walk from the cursor
   * meets a block that is big enough, or None when no step up to the full
   * circle, which ends back at the cursor, does.
   */
  function Scan(h: Heap, needed: nat, k: nat, t: nat): (r: Option<nat>)
    requires Keyed(h.size, h.ring) && k < |h.ring| && 1 <= t
    ensures r.Some? ==> t <= r.value <= |h.ring| && Fits(h, needed, k, r.value)
    ensures r.Some? ==> forall t' :: t <= t' < r.value ==> !Fits(h, needed, k, t')
    ensures r.None? ==> forall t' :: t <= t' <= |h.ring| ==> !Fits(h, needed, k, t')
    decreases |h.ring| + 1 - t
  {
    if t > |h.ring| then None
    else if h.size[h.ring[Visit(|h.ring|, k, t)]] >= needed then Some(t)
    else Scan(h, needed, k, t + 1)
  }

  /** Every position of the list is met within one circle from any starting position. */
  lemma VisitCovers(n: nat, k: nat, j: nat) returns (t: nat)
    requires k < n && j < n
    ensures 1 <= t <= n && Visit(n, k, t) == j
  {
    t := if j > k then j - k else j + n - k;
  }

  /** Lazy initialisation on the first call (freelist.c:31-40): a self-linked sentinel of size 0. */
  function InitSentinel(h: Heap): (r: Heap)
    requires WellFormed(h)
    ensures WellFormed(r) && r.cursor.Some? && r.brk == h.brk
    ensures Circular(h) ==> Circular(r)
    ensures h.cursor.Some? ==> r == h
    ensures h.cursor.None? ==> r.ring == [Base] && r.cursor == Some(Base) && r.next[Base] == Base
  {
    if h.cursor.Some? then h
    else Heap(h.next[Base := Base], h.size[Base := 0], Some(Base), h.brk, [Base])
  }

  /**
   * The block with header `hd` and `n` units that is handed to the caller:
   * it lies in the arena, its header records its size, it is not on the free
   * list and it overlaps no free block.
   */
  ghost predicate Handed(size: map<nat, nat>, brk: nat, ring: seq<nat>, hd: nat, n: nat)
    requires Keyed(size, ring)
  {
    && 1 <= hd && hd + n <= brk && hd in size && size[hd] == n
    && (forall j {:trigger ring[j]} :: 0 <= j < |ring| ==> ring[j] != hd)
    && (forall j {:trigger Apart(size, ring[j], hd)} :: 1 <= j < |ring| ==> Apart(size, ring[j], hd))
  }

  /**
   * A step that returns a payload hands out the block whose header is the
   * unit just before it, `n` units long, as `Handed` says.
   */
  ghost predicate Delivers(r: Step, n: nat)
  {
    r.payload.Some? ==>
      && r.payload.value >= 2
      && Keyed(r.after.size, r.after.ring)
      && Handed(r.after.size, r.after.brk, r.after.ring, r.payload.value - 1, n)
  }

  /**
   * Exact fit (freelist.c:52-57): the block at list position `i` is unlinked
   * from its predecessor, which becomes the cursor, and handed out whole.
   */
  function Unlink(h: Heap, i: nat): (r: Step)
    requires WellFormed(h) && h.cursor.Some? && 1 <= i < |h.ring|
    ensures WellFormed(r.after) && r.after.brk == h.brk && r.after.cursor == Some(h.ring[i - 1])
    ensures r.payload == Some(h.ring[i] + 1) && Delivers(r, h.size[h.ring[i]])
    ensures Removed(h.ring, i, r.after.ring) && r.after.size == h.size
    ensures r.after.next == h.next[h.ring[i - 1] := h.next[h.ring[i]]]
  {
    var c := h.ring[i];
    var p := h.ring[i - 1];
    var ring' := Remove(h.ring, i);
    assert ring'[i - 1] == p;
    SpansRemove(h.size, h.brk, h.ring, i, ring');
    UnlinkHands(h.size, h.brk, h.ring, i, ring');
    Step(Some(c + 1), Heap(h.next[p := h.next[c]], h.size, Some(p), h.brk, ring'))
  }

  /**
   * Split (freelist.c:59-75): the block at list position `i` keeps its first
   * size - needed units on the list; its last `needed` units, under a header
   * of their own, are handed out. The predecessor becomes the cursor, and the
   * list order and links stay as they were.
   */
  function Split(h: Heap, needed: nat, i: nat): (r: Step)
    requires WellFormed(h) && h.cursor.Some? && needed >= 1
    requires 1 <= i < |h.ring| && h.size[h.ring[i]] > needed
    ensures WellFormed(r.after) && r.after.brk == h.brk && r.after.cursor == Some(h.ring[i - 1])
    ensures r.payload == Some(h.ring[i] + (h.size[h.ring[i]] - needed) + 1) && Delivers(r, needed)
    ensures r.after.ring == h.ring && r.after.next == h.next
    ensures r.after.size[h.ring[i]] + needed == h.size[h.ring[i]]
    ensures r.after.size == Carve(h.size, h.ring[i], needed)
  {
    var c := h.ring[i];
    var rest := h.size[c] - needed;
    TailApart(h.size, h.brk, h.ring, i, needed);
    SpansShrink(h.size, Carve(h.size, c, needed), h.brk, h.ring, i);
    SplitHands(h.size, h.brk, h.ring, i, needed);
    Step(Some(c + rest + 1), Heap(h.next, Carve(h.size, c, needed), Some(h.ring[i - 1]), h.brk, h.ring))
  }

  /**
   * The sizes after a split of block `c` (freelist.c:67-69): the block keeps
   * its first size - needed units, and the header at the start of its last
   * `needed` units records `needed`; that header is the only new key, and
   * no other header's size changes.
   */
  function Carve(size: map<nat, nat>, c: nat, needed: nat): (r: map<nat, nat>)
    requires c in size && size[c] > needed
    ensures r.Keys == size.Keys + {c + (size[c] - needed)}
    ensures r[c] == size[c] - needed && r[c + (size[c] - needed)] == needed
    ensures forall x :: x in size && x != c && x != c + (size[c] - needed) ==> r[x] == size[x]
  {
    size[c := size[c] - needed][c + (size[c] - needed) := needed]
  }

  /**
   * Taking the block at list position `i` for a request of `needed` units
   * (freelist.c:52-76): an exact fit is unlinked, a larger block is split.
   * Either way the handed-out header is the last `needed` units of the block.
   */
  function Take(h: Heap, needed: nat, i: nat): (r: Step)
    requires WellFormed(h) && h.cursor.Some? && needed >= 1
    requires 1 <= i < |h.ring| && h.size[h.ring[i]] >= needed
    ensures WellFormed(r.after) && r.after.brk == h.brk && r.after.cursor == Some(h.ring[i - 1])
    ensures r.payload == Some(h.ring[i] + h.size[h.ring[i]] - needed + 1) && Delivers(r, needed)
  {
    if h.size[h.ring[i]] == needed then Unlink(h, i) else Split(h, needed, i)
  }

  /**
   * The successful growth step: a fresh block of `units` units at the
   * program break, linked into the list right after the cursor, which is at
   * list position `k`; the cursor stays where it is.
   */
  function Grow(h: Heap, k: nat, units: nat): (r: Heap)
    requires WellFormed(h) && h.cursor.Some? && k < |h.ring| && h.ring[k] == h.cursor.value && units >= 1
    ensures WellFormed(r) && r.cursor == h.cursor && r.brk == h.brk + units
    ensures Inserted(h.ring, k, h.brk, r.ring) && r.size[h.brk] == units
    ensures r.next == h.next[h.brk := h.next[h.ring[k]]][h.ring[k] := h.brk]
  {
    var c := h.ring[k];
    var ring' := Insert(h.ring, k, h.brk);
    SpansInsert(h.size, h.brk, h.ring, k, units, ring');
    Heap(h.next[h.brk := h.next[c]][c := h.brk], h.size[h.brk := units], h.cursor, h.brk + units, ring')
  }

  /**
   * The growth step followed by the loop's next iteration (freelist.c:78-83,
   * then 50 and 52-76): a fresh block of `units` units is linked after the
   * cursor at list position `k`, and is then taken for the request.
   */
  function Extend(h: Heap, needed: nat, k: nat, units: nat): (r: Step)
    requires WellFormed(h) && h.cursor.Some? && k < |h.ring| && h.ring[k] == h.cursor.value
    requires 1 <= needed <= units
    ensures WellFormed(r.after) && r.after.cursor == h.cursor && r.after.brk == h.brk + units
    ensures r.payload == Some(h.brk + units - needed + 1) && Delivers(r, needed)
  {
    var g := Grow(h, k, units);
    assert g.ring[k + 1] == h.brk && g.ring[k] == h.cursor.value;
    Take(g, needed, k + 1)
  }

  /**
   * The search and its outcome on an initialised list (freelist.c:47-84):
   * the first block at or after the cursor's successor that is big enough is
   * taken; when the walk gets back to the cursor without one, the growth
   * step's answer `grant` decides. None: NULL is returned and nothing
   * changes. Some(g): a fresh block of max(needed, g) units is linked after
   * the cursor, which the walk then meets and takes.
   */
  function Allocate(h: Heap, needed: nat, grant: Option<nat>): (r: Step)
    requires WellFormed(h) && h.cursor.Some? && needed >= 1
    ensures WellFormed(r.after) && r.after.cursor.Some? && Delivers(r, needed)
  {
    var k := IndexOf(h.ring, h.cursor.value);
    match Scan(h, needed, k, 1)
    case Some(t) => Take(h, needed, Visit(|h.ring|, k, t))
    case None =>
      if grant.None? then Step(None, h)
      else Extend(h, needed, k, Max(needed, grant.value))
  }

  /**
   * memalloc (freelist.c:23-86): the request rounded up to whole units plus
   * a header, the sentinel set up on the first call, then the search.
   * `grant` is the answer of the growth step request_memory, which the
   * source does not define. Whatever happens, the invariant is kept, and a
   * returned payload sits just past the header of a block of the needed
   * units, which holds at least `bytes` bytes and overlaps no free block.
   */
  function MemallocSpec(h: Heap, bytes: nat, unit: nat, grant: Option<nat>): (r: Step)
    requires WellFormed(h) && unit > 0
    ensures WellFormed(r.after) && r.after.cursor.Some? && Delivers(r, NeededUnits(bytes, unit))
    ensures r.payload.Some? ==> (NeededUnits(bytes, unit) - 1) * unit >= bytes
  {
    Allocate(InitSentinel(h), NeededUnits(bytes, unit), grant)
  }

  /** Removing a node other than the sentinel keeps the spans in the arena and apart. */
  lemma SpansRemove(size: map<nat, nat>, brk: nat, ring: seq<nat>, i: nat, r: seq<nat>)
    requires Spans(size, brk, ring) && Removed(ring, i, r) && 1 <= i
    ensures Spans(size, brk, r)
  {
    forall j | 1 <= j < |r|
      ensures InArena(size, brk, r[j])
    {
      var jj := if j < i then j else j + 1;
      assert r[j] == ring[jj] && InArena(size, brk, ring[jj]);
    }
    forall a, b | 1 <= a < |r| && 1 <= b < |r| && a != b
      ensures Apart(size, r[a], r[b])
    {
      var aa := if a < i then a else a + 1;
      var bb := if b < i then b else b + 1;
      assert r[a] == ring[aa] && r[b] == ring[bb] && Apart(size, ring[aa], ring[bb]);
    }
  }

  /** The unlinked block is off the list and apart from every block left on it. */
  lemma UnlinkHands(size: map<nat, nat>, brk: nat, ring: seq<nat>, i: nat, r: seq<nat>)
    requires Spans(size, brk, ring) && Removed(ring, i, r) && ring[0] == Base && 1 <= i
    ensures Keyed(size, r) && Handed(size, brk, r, ring[i], size[ring[i]])
  {
    var c := ring[i];
    assert InArena(size, brk, c);
    OccursOnce(size, brk, ring, i);
    forall j | 0 <= j < |r|
      ensures r[j] in size && r[j] != c
      ensures 1 <= j ==> r[j] + size[r[j]] <= c || c + size[c] <= r[j]
    {
      var jj := if j < i then j else j + 1;
      assert r[j] == ring[jj];
      if 1 <= j {
        assert Apart(size, ring[jj], c);
      }
    }
  }

  /**
   * The last `needed` units of the block at position `i` meet no other node
   * of the list: its new header is nowhere on the list, every other node's
   * size is unaffected, and every other block lies wholly before or after it.
   */
  lemma TailApart(size: map<nat, nat>, brk: nat, ring: seq<nat>, i: nat, needed: nat)
    requires Spans(size, brk, ring) && |ring| >= 1 && ring[0] == Base
    requires 1 <= i < |ring| && needed >= 1 && ring[i] in size && size[ring[i]] > needed
    ensures var c := ring[i];
      var rest := size[c] - needed;
      var size' := Carve(size, c, needed);
      && Keyed(size', ring)
      && size'[c] == rest
      && forall j {:trigger ring[j]} :: 0 <= j < |ring| ==>
        && ring[j] != c + rest
        && (j != i ==> size'[ring[j]] == size[ring[j]])
        && (1 <= j && j != i ==> ring[j] + size[ring[j]] <= c || c + size[c] <= ring[j])
  {
    var c := ring[i];
    assert InArena(size, brk, c);
    forall j | 1 <= j < |ring| && j != i
      ensures ring[j] + size[ring[j]] <= c || c + size[c] <= ring[j]
    {
      assert InArena(size, brk, ring[j]) && Apart(size, ring[j], c);
    }
  }

  /**
   * Shrinking the block at position `i` (to a size of at least one unit),
   * with every other node's size unchanged, keeps the spans in the arena and
   * apart.
   */
  lemma SpansShrink(size: map<nat, nat>, size': map<nat, nat>, brk: nat, ring: seq<nat>, i: nat)
    requires Spans(size, brk, ring) && Keyed(size', ring) && 1 <= i < |ring|
    requires forall j {:trigger ring[j]} :: 0 <= j < |ring| && j != i ==> size'[ring[j]] == size[ring[j]]
    requires 1 <= size'[ring[i]] <= size[ring[i]]
    ensures Spans(size', brk, ring)
  {
    forall j | 1 <= j < |ring|
      ensures InArena(size', brk, ring[j])
    {
      assert InArena(size, brk, ring[j]);
    }
    forall a, b | 1 <= a < |ring| && 1 <= b < |ring| && a != b
      ensures Apart(size', ring[a], ring[b])
    {
      assert Apart(size, ring[a], ring[b]);
      ApartShrink(size, size', ring[a], ring[b]);
    }
  }

  /** Two spans that are apart stay apart when either of them shrinks. */
  lemma ApartShrink(size: map<nat, nat>, size': map<nat, nat>, a: nat, b: nat)
    requires a in size && b in size && a in size' && b in size'
    requires Apart(size, a, b) && size'[a] <= size[a] && size'[b] <= size[b]
    ensures Apart(size', a, b)
  {
  }

  /** The header of the split-off tail is off the list and apart from every free block. */
  lemma SplitHands(size: map<nat, nat>, brk: nat, ring: seq<nat>, i: nat, needed: nat)
    requires Spans(size, brk, ring) && |ring| >= 1 && ring[0] == Base
    requires 1 <= i < |ring| && needed >= 1 && size[ring[i]] > needed
    ensures var c := ring[i];
      var rest := size[c] - needed;
      var size' := Carve(size, c, needed);
      Keyed(size', ring) && Handed(size', brk, ring, c + rest, needed)
  {
    var c := ring[i];
    assert InArena(size, brk, c);
    TailApart(size, brk, ring, i, needed);
  }

  /** A fresh block `[brk, brk + units)` beyond every other block keeps the spans apart. */
  lemma SpansInsert(size: map<nat, nat>, brk: nat, ring: seq<nat>, k: nat, units: nat, r: seq<nat>)
    requires Spans(size, brk, ring) && Inserted(ring, k, brk, r) && units >= 1 && ring[0] < brk
    ensures Spans(size[brk := units], brk + units, r)
  {
    var n := |ring|;
    var size' := size[brk := units];
    BelowBreak(size, brk, ring);
    forall j | 0 <= j < n + 1
      ensures r[j] in size'
    {
    }
    forall j | 1 <= j < n + 1
      ensures InArena(size', brk + units, r[j])
    {
      if j != k + 1 {
        var jj := if j <= k then j else j - 1;
        assert r[j] == ring[jj] && jj >= 1;
        assert InArena(size, brk, ring[jj]);
      }
    }
    forall i, j | 1 <= i < n + 1 && 1 <= j < n + 1 && i != j
      ensures Apart(size', r[i], r[j])
    {
      var ii := if i <= k then i else i - 1;
      var jj := if j <= k then j else j - 1;
      if i == k + 1 {
        assert InArena(size, brk, ring[jj]);
      } else if j == k + 1 {
        assert InArena(size, brk, ring[ii]);
      } else {
        assert Apart(size, ring[ii], ring[jj]);
      }
    }
  }

  /** Splicing a node `x` that is not yet in the list right after position `k` keeps it a cycle. */
  lemma CycleInsert(next: map<nat, nat>, ring: seq<nat>, k: nat, x: nat, r: seq<nat>)
    requires Cycle(next, ring) && Inserted(ring, k, x, r)
    requires forall j :: 0 <= j < |ring| && j != k ==> ring[j] != ring[k]
    requires forall j :: 0 <= j < |ring| ==> ring[j] != x
    ensures Cycle(next[x := next[ring[k]]][ring[k] := x], r)
  {
    var n := |ring|;
    var c := ring[k];
    var next' := next[x := next[c]][c := x];
    forall j | 0 <= j < n + 1
      ensures r[j] in next'
      ensures next'[r[j]] == r[Succ(n + 1, j)]
    {
      if j < k {
        assert r[j] == ring[j] != c;
        assert next'[r[j]] == next[ring[j]] == ring[Succ(n, j)];
      } else if j == k + 1 {
        assert next'[x] == next[c] == ring[Succ(n, k)];
      } else if j > k + 1 {
        assert r[j] == ring[j - 1] != c;
        assert next'[r[j]] == next[ring[j - 1]] == ring[Succ(n, j - 1)];
      }
    }
  }

  /** Unlinking position `i` from its predecessor keeps the list a cycle. */
  lemma CycleRemove(next: map<nat, nat>, ring: seq<nat>, i: nat, r: seq<nat>)
    requires Cycle(next, ring) && Removed(ring, i, r) && 1 <= i
    requires forall j :: 0 <= j < |ring| && j != i - 1 ==> ring[j] != ring[i - 1]
    ensures Cycle(next[ring[i - 1] := next[ring[i]]], r)
  {
    var n := |ring|;
    var p := ring[i - 1];
    var next' := next[p := next[ring[i]]];
    forall j | 0 <= j < n - 1
      ensures r[j] in next'
      ensures next'[r[j]] == r[Succ(n - 1, j)]
    {
      if j < i - 1 {
        assert r[j] == ring[j] != p && r[j + 1] == ring[j + 1];
        assert next'[r[j]] == next[ring[j]] == ring[Succ(n, j)];
      } else if j == i - 1 {
        assert next'[p] == next[ring[i]] == ring[Succ(n, i)];
        if i + 1 < n {
          assert r[i] == ring[i + 1];
        } else {
          assert r[0] == ring[0];
        }
      } else {
        assert r[j] == ring[j + 1] != p;
        assert next'[r[j]] == next[ring[j + 1]] == ring[Succ(n, j + 1)];
        if j + 2 < n {
          assert r[j + 1] == ring[j + 2];
        } else {
          assert r[0] == ring[0];
        }
      }
    }
  }

  /** Taking a block keeps the `next` fields a circle through the list. */
  lemma TakeCircular(h: Heap, needed: nat, i: nat)
    requires WellFormed(h) && h.cursor.Some? && needed >= 1
    requires 1 <= i < |h.ring| && h.size[h.ring[i]] >= needed
    requires Circular(h)
    ensures Circular(Take(h, needed, i).after)
  {
    if h.size[h.ring[i]] == needed {
      UnlinkCircular(h, i);
    }
  }

  /** Unlinking a block keeps the `next` fields a circle through the shorter list. */
  lemma UnlinkCircular(h: Heap, i: nat)
    requires WellFormed(h) && h.cursor.Some? && 1 <= i < |h.ring|
    requires Circular(h)
    ensures Circular(Unlink(h, i).after)
  {
    var r := Unlink(h, i);
    OccursOnce(h.size, h.brk, h.ring, i - 1);
    CycleRemove(h.next, h.ring, i, r.after.ring);
  }

  /** Linking a fresh block after the cursor keeps the `next` fields a circle through the list. */
  lemma GrowCircular(h: Heap, k: nat, units: nat)
    requires WellFormed(h) && h.cursor.Some? && k < |h.ring| && h.ring[k] == h.cursor.value && units >= 1
    requires Circular(h)
    ensures Circular(Grow(h, k, units))
  {
    var g := Grow(h, k, units);
    BelowBreak(h.size, h.brk, h.ring);
    OccursOnce(h.size, h.brk, h.ring, k);
    CycleInsert(h.next, h.ring, k, h.brk, g.ring);
  }

  /** memalloc keeps the free list circular. */
  lemma MemallocCircular(h: Heap, bytes: nat, unit: nat, grant: Option<nat>)
    requires WellFormed(h) && Circular(h) && unit > 0
    ensures Circular(MemallocSpec(h, bytes, unit, grant).after)
  {
    var needed := NeededUnits(bytes, unit);
    var h1 := InitSentinel(h);
    var k := IndexOf(h1.ring, h1.cursor.value);
    match Scan(h1, needed, k, 1)
    case Some(t) =>
      TakeCircular(h1, needed, Visit(|h1.ring|, k, t));
    case None =>
      if grant.Some? {
        var units := Max(needed, grant.value);
        var g := Grow(h1, k, units);
        GrowCircular(h1, k, units);
        assert g.ring[k + 1] == h1.brk;
        TakeCircular(g, needed, k + 1);
      }
  }

  /**
   * The search returns NULL exactly when no block on the list, the sentinel
   * included, is big enough and the growth step fails; the list is then
   * left as it was.
   */
  lemma AllocateNull(h: Heap, needed: nat, grant: Option<nat>)
    requires WellFormed(h) && h.cursor.Some? && needed >= 1
    ensures var r := Allocate(h, needed, grant);
      && (r.payload.None? <==> grant.None? && forall j :: 0 <= j < |h.ring| ==> h.size[h.ring[j]] < needed)
      && (r.payload.None? ==> r.after == h)
  {
    var k := IndexOf(h.ring, h.cursor.value);
    match Scan(h, needed, k, 1)
    case Some(t) =>
      assert Fits(h, needed, k, t);
    case None =>
      forall j | 0 <= j < |h.ring|
        ensures h.size[h.ring[j]] < needed
      {
        var t := VisitCovers(|h.ring|, k, j);
        assert !Fits(h, needed, k, t);
      }
  }

  /**
   * Next fit: when the first block big enough, walking from the cursor's
   * successor, is `t` steps on, that block is taken; its last `needed`
   * units are handed out, its predecessor becomes the cursor and the program
   * break stays where it is.
   */
  lemma AllocateNextFit(h: Heap, needed: nat, grant: Option<nat>, t: nat)
    requires WellFormed(h) && h.cursor.Some? && needed >= 1
    requires var k := IndexOf(h.ring, h.cursor.value);
      && 1 <= t <= |h.ring| && Fits(h, needed, k, t)
      && forall t' :: 1 <= t' < t ==> !Fits(h, needed, k, t')
    ensures var k := IndexOf(h.ring, h.cursor.value);
      var i := Visit(|h.ring|, k, t);
      var c := h.ring[i];
      var r := Allocate(h, needed, grant);
      && 1 <= i
      && r.payload == Some(c + h.size[c] - needed + 1)
      && r.after.cursor == Some(h.ring[i - 1])
      && r.after.brk == h.brk
      && r == Take(h, needed, i)
  {
    var k := IndexOf(h.ring, h.cursor.value);
    var s := Scan(h, needed, k, 1);
    assert s.Some? && s.value == t;
  }

  /**
   * Growth: when no block on the list is big enough and the growth step
   * grants `g` units, the break moves up by max(needed, g) units, the
   * request is served from the top of the fresh block and the cursor stays.
   */
  lemma AllocateGrows(h: Heap, needed: nat, g: nat)
    requires WellFormed(h) && h.cursor.Some? && needed >= 1
    requires forall j :: 0 <= j < |h.ring| ==> h.size[h.ring[j]] < needed
    ensures var units := Max(needed, g);
      var r := Allocate(h, needed, Some(g));
      && r.payload == Some(h.brk + units - needed + 1)
      && r.after.brk == h.brk + units
      && r.after.cursor == h.cursor
  {
  }

  /**
   * When the walk finds no block big enough, the growth step decides: refused,
   * nothing changes; granted `g` units, the fresh block is linked and then taken.
   */
  lemma AllocateNoFit(h: Heap, needed: nat, grant: Option<nat>, k: nat)
    requires WellFormed(h) && h.cursor.Some? && needed >= 1 && k == IndexOf(h.ring, h.cursor.value)
    requires forall t :: 1 <= t < |h.ring| ==> !Fits(h, needed, k, t)
    requires !Fits(h, needed, k, |h.ring|)
    ensures grant.None? ==> Allocate(h, needed, grant) == Step(None, h)
    ensures grant.Some? ==> Allocate(h, needed, grant) == Extend(h, needed, k, Max(needed, grant.value))
  {
    assert Scan(h, needed, k, 1).None?;
  }

  /**
   * A block of `n` units with header `hd` that an earlier call handed out and
   * the caller still holds: it is non-empty, lies in the arena, is off the
   * free list and overlaps no free block.
   */
  ghost predicate Live(h: Heap, hd: nat, n: nat)
  {
    n >= 1 && Keyed(h.size, h.ring) && Handed(h.size, h.brk, h.ring, hd, n)
  }

  /** The block of `needed` units that a step hands out, if any, does not overlap the block [hd, hd + n). */
  ghost predicate Misses(r: Step, needed: nat, hd: nat, n: nat)
  {
    r.payload.Some? ==> r.payload.value - 1 + needed <= hd || hd + n <= r.payload.value - 1
  }

  /** An exact fit leaves a live block live, and the block it hands out does not overlap it. */
  lemma UnlinkKeepsLive(h: Heap, i: nat, hd: nat, n: nat)
    requires WellFormed(h) && h.cursor.Some? && 1 <= i < |h.ring| && Live(h, hd, n)
    ensures Live(Unlink(h, i).after, hd, n) && Misses(Unlink(h, i), h.size[h.ring[i]], hd, n)
  {
    var ring' := Unlink(h, i).after.ring;
    assert Apart(h.size, h.ring[i], hd);
    forall j | 0 <= j < |ring'|
      ensures ring'[j] in h.size && ring'[j] != hd
      ensures 1 <= j ==> Apart(h.size, ring'[j], hd)
    {
      var jj := if j < i then j else j + 1;
      assert ring'[j] == h.ring[jj];
      if 1 <= j {
        assert Apart(h.size, h.ring[jj], hd);
      }
    }
  }

  /**
   * A split leaves a live block live: the header written at the split point
   * lies inside the free block, so it cannot be the live block's header, and
   * the tail it hands out lies inside the free block too, so it does not
   * overlap the live block.
   */
  lemma SplitKeepsLive(h: Heap, needed: nat, i: nat, hd: nat, n: nat)
    requires WellFormed(h) && h.cursor.Some? && needed >= 1
    requires 1 <= i < |h.ring| && h.size[h.ring[i]] > needed
    requires Live(h, hd, n)
    ensures Live(Split(h, needed, i).after, hd, n) && Misses(Split(h, needed, i), needed, hd, n)
  {
    var c := h.ring[i];
    var size' := Carve(h.size, c, needed);
    assert InArena(h.size, h.brk, c) && Apart(h.size, c, hd);
    TailApart(h.size, h.brk, h.ring, i, needed);
    forall j | 1 <= j < |h.ring|
      ensures Apart(size', h.ring[j], hd)
    {
      assert Apart(h.size, h.ring[j], hd);
      ApartShrink(h.size, size', h.ring[j], hd);
    }
  }

  /** Taking a block leaves a live block live, and the block handed out does not overlap it. */
  lemma TakeKeepsLive(h: Heap, needed: nat, i: nat, hd: nat, n: nat)
    requires WellFormed(h) && h.cursor.Some? && needed >= 1
    requires 1 <= i < |h.ring| && h.size[h.ring[i]] >= needed
    requires Live(h, hd, n)
    ensures Live(Take(h, needed, i).after, hd, n) && Misses(Take(h, needed, i), needed, hd, n)
  {
    if h.size[h.ring[i]] == needed {
      UnlinkKeepsLive(h, i, hd, n);
    } else {
      SplitKeepsLive(h, needed, i, hd, n);
    }
  }

  /** The fresh block of the growth step starts at the break, beyond every live block, so a live block stays live. */
  lemma GrowKeepsLive(h: Heap, k: nat, units: nat, hd: nat, n: nat)
    requires WellFormed(h) && h.cursor.Some? && k < |h.ring| && h.ring[k] == h.cursor.value && units >= 1
    requires Live(h, hd, n)
    ensures Live(Grow(h, k, units), hd, n)
  {
    var g := Grow(h, k, units);
    forall j | 0 <= j < |g.ring|
      ensures g.ring[j] != hd
      ensures 1 <= j ==> Apart(g.size, g.ring[j], hd)
    {
      if j != k + 1 {
        var jj := if j <= k then j else j - 1;
        assert g.ring[j] == h.ring[jj];
        if 1 <= j {
          assert jj >= 1 && Apart(h.size, h.ring[jj], hd);
        }
      }
    }
  }

  /**
   * Live allocations do not overlap: a search leaves every block handed out
   * before it live, and the block it hands out overlaps none of them.
   */
  lemma AllocateKeepsLive(h: Heap, needed: nat, grant: Option<nat>, hd: nat, n: nat)
    requires WellFormed(h) && h.cursor.Some? && needed >= 1 && Live(h, hd, n)
    ensures Live(Allocate(h, needed, grant).after, hd, n) && Misses(Allocate(h, needed, grant), needed, hd, n)
  {
    var k := IndexOf(h.ring, h.cursor.value);
    match Scan(h, needed, k, 1)
    case Some(t) =>
      TakeKeepsLive(h, needed, Visit(|h.ring|, k, t), hd, n);
    case None =>
      if grant.Some? {
        var units := Max(needed, grant.value);
        var g := Grow(h, k, units);
        GrowKeepsLive(h, k, units, hd, n);
        assert g.ring[k + 1] == h.brk;
        TakeKeepsLive(g, needed, k + 1, hd, n);
      }
  }

  /** A whole memalloc call keeps every earlier allocation live and hands out a block that overlaps none of them. */
  lemma MemallocKeepsLive(h: Heap, bytes: nat, unit: nat, grant: Option<nat>, hd: nat, n: nat)
    requires WellFormed(h) && unit > 0 && Live(h, hd, n)
    ensures Live(MemallocSpec(h, bytes, unit, grant).after, hd, n)
    ensures Misses(MemallocSpec(h, bytes, unit, grant), NeededUnits(bytes, unit), hd, n)
  {
    AllocateKeepsLive(InitSentinel(h), NeededUnits(bytes, unit), grant, hd, n);
  }

  /** The block a step hands out is live in the state the step leaves. */
  lemma HandedIsLive(r: Step, n: nat)
    requires Delivers(r, n) && r.payload.Some? && n >= 1
    ensures Live(r.after, r.payload.value - 1, n)
  {
  }

  /** memalloc returns NULL exactly when the search does (see `AllocateNull`), after the sentinel is set up. */
  lemma MemallocNull(h: Heap, bytes: nat, unit: nat, grant: Option<nat>)
    requires WellFormed(h) && unit > 0
    ensures var h1 := InitSentinel(h);
      var needed := NeededUnits(bytes, unit);
      var r := MemallocSpec(h, bytes, unit, grant);
      && (r.payload.None? <==> grant.None? && forall j :: 0 <= j < |h1.ring| ==> h1.size[h1.ring[j]] < needed)
      && (r.payload.None? ==> r.after == h1)
  {
    AllocateNull(InitSentinel(h), NeededUnits(bytes, unit), grant);
  }

  /**
   * The first call (freelist.c:31-40 and 78-83): the sentinel alone is on
   * the list, so the growth step decides. Refused, NULL comes back and the
   * sentinel is left self-linked with size 0 under the cursor; granted `g`
   * units, the request is served from the top of the first block at unit 1.
   */
  lemma FirstCall(bytes: nat, unit: nat, grant: Option<nat>)
    requires unit > 0
    ensures var needed := NeededUnits(bytes, unit);
      var r := MemallocSpec(Empty, bytes, unit, grant);
      && (grant.None? ==>
            && r.payload.None? && r.after.ring == [Base] && r.after.cursor == Some(Base)
            && r.after.next[Base] == Base && r.after.size[Base] == 0 && r.after.brk == 1)
      && (grant.Some? ==>
            && r.payload == Some(Max(needed, grant.value) - needed + 2)
            && r.after.brk == 1 + Max(needed, grant.value))
  {
    var needed := NeededUnits(bytes, unit);
    var h1 := InitSentinel(Empty);
    assert h1.size[h1.ring[0]] == 0;
    if grant.None? {
      AllocateNull(h1, needed, grant);
    } else {
      AllocateGrows(h1, needed, grant.value);
    }
  }

  /** The node reached from `x` by following `m` links, or None when a link on the way is unset. */
  function Follow(next: map<nat, nat>, x: nat, m: nat): Option<nat>
    decreases m
  {
    if m == 0 then Some(x)
    else if x in next then Follow(next, next[x], m - 1)
    else None
  }

  /** One more step of the walk moves to the successor position. */
  lemma VisitStep(n: nat, k: nat, t: nat)
    requires k < n && 1 <= t <= n
    ensures Visit(n, k, t) == Succ(n, Visit(n, k, t - 1))
  {
  }

  /**
   * Following `m` links from the node at position `i` of a circular list
   * (freelist.c:48-50) reaches the node `m` positions further round it.
   */
  lemma {:induction false} RingWalk(next: map<nat, nat>, ring: seq<nat>, i: nat, m: nat)
    requires Cycle(next, ring) && i < |ring| && m <= |ring|
    ensures Follow(next, ring[i], m) == Some(ring[Visit(|ring|, i, m)])
    decreases m
  {
    if m > 0 {
      var n := |ring|;
      RingWalk(next, ring, Succ(n, i), m - 1);
      assert Visit(n, Succ(n, i), m - 1) == Visit(n, i, m);
    }
  }

  /**
   * A walk of as many links as the list has nodes gets back to its start,
   * which is what lets the search (freelist.c:78) tell that it has tried
   * every block once the walk is back at the cursor.
   */
  lemma RingReturns(next: map<nat, nat>, ring: seq<nat>, i: nat)
    requires Cycle(next, ring) && i < |ring|
    ensures Follow(next, ring[i], |ring|) == Some(ring[i])
  {
    RingWalk(next, ring, i, |ring|);
  }

  /**
   * The allocator's state (freelist.c:19-21): the header fields of every
   * unit that has ever been a header, the cursor `free_block`, and the
   * program break. `ring` records the order of the free list.
   */
  class Allocator {
    /** sizeof(Header): the number of bytes in one unit. */
    const unit: nat
    var next: map<nat, nat>
    var size: map<nat, nat>
    var freeBlock: Option<nat>
    var brk: nat
    ghost var ring: seq<nat>

    ghost function Model(): Heap
      reads this
    {
      Heap(next, size, freeBlock, brk, ring)
    }

    ghost predicate Valid()
      reads this
    {
      unit > 0 && WellFormed(Model()) && Circular(Model())
    }

    /** The state at program start: `free_block` is NULL and no memory has been requested. */
    constructor(unit: nat)
      requires unit > 0
      ensures Valid() && this.unit == unit && Model() == Empty
    {
      this.unit := unit;
      next := map[];
      size := map[];
      freeBlock := None;
      brk := 1;
      ring := [];
    }

    /**
     * request_memory, which the source declares but does not define: the
     * system's answer is `grant`. Refused, it returns NULL and changes
     * nothing; granted, a fresh block of max(needed, g) units at the break
     * is linked after the cursor at list position `k`, and the cursor is
     * returned.
     */
    method RequestMemory(needed: nat, grant: Option<nat>, ghost k: nat) returns (r: Option<nat>)
      requires Valid() && freeBlock.Some? && k < |ring| && ring[k] == freeBlock.value && needed >= 1
      modifies this
      ensures Valid()
      ensures grant.None? ==> r.None? && Model() == old(Model())
      ensures grant.Some? ==> r == freeBlock && Model() == Grow(old(Model()), k, Max(needed, grant.value))
    {
      if grant.None? {
        return None;
      }
      var units := Max(needed, grant.value);
      var c := freeBlock.value;
      ghost var g := Grow(Model(), k, units);
      GrowCircular(Model(), k, units);
      r := freeBlock;
      next, size, brk, ring := next[brk := next[c]][c := brk], size[brk := units], brk + units, Insert(ring, k, brk);
      assert next == g.next && size == g.size && ring == g.ring && brk == g.brk && freeBlock == g.cursor;
    }

    /** Lazy initialisation (freelist.c:31-40): on the first call the sentinel becomes a self-linked block of size 0 under the cursor. */
    method SetUpBase()
      requires Valid()
      modifies this
      ensures Valid() && freeBlock.Some? && Model() == InitSentinel(old(Model()))
    {
      if freeBlock.None? {
        next, size, freeBlock, ring := next[Base := Base], size[Base := 0], Some(Base), [Base];
      }
    }

    /**
     * Exact fit (freelist.c:52-57): the block `current` at list position `i`
     * is unlinked from its predecessor `previous`, which becomes the cursor,
     * and the payload just past its header is returned.
     */
    method UnlinkBlock(previous: nat, current: nat, ghost i: nat) returns (p: nat)
      requires Valid() && freeBlock.Some? && 1 <= i < |ring| && previous == ring[i - 1] && current == ring[i]
      modifies this
      ensures Valid()
      ensures Some(p) == Unlink(old(Model()), i).payload && Model() == Unlink(old(Model()), i).after
    {
      ghost var h := Model();
      ghost var r := Unlink(h, i);
      UnlinkCircular(h, i);
      p := current + 1;
      assert r.payload == Some(p);
      next, freeBlock, ring := next[previous := next[current]], Some(previous), r.after.ring;
      assert Model() == r.after;
    }

    /**
     * Split (freelist.c:59-75): the block `current` at list position `i`
     * keeps its first size - needed units; its last `needed` units get a
     * header of their own and are handed out. The predecessor `previous`
     * becomes the cursor.
     */
    method SplitBlock(needed: nat, previous: nat, current: nat, ghost i: nat) returns (p: nat)
      requires Valid() && freeBlock.Some? && needed >= 1
      requires 1 <= i < |ring| && previous == ring[i - 1] && current == ring[i] && size[current] > needed
      modifies this
      ensures Valid()
      ensures Some(p) == Split(old(Model()), needed, i).payload
      ensures Model() == Split(old(Model()), needed, i).after
    {
      ghost var r := Split(Model(), needed, i);
      p := current + (size[current] - needed) + 1;
      size, freeBlock := Carve(size, current, needed), Some(previous);
      assert Model() == r.after;
    }

    /**
     * The two success branches of the walk (freelist.c:52-76) on the block
     * `current` at list position `i`, whose predecessor is `previous`: an
     * exact fit is unlinked and a larger block is split.
     */
    method TakeBlock(needed: nat, previous: nat, current: nat, ghost i: nat) returns (p: nat)
      requires Valid() && freeBlock.Some? && needed >= 1
      requires 1 <= i < |ring| && previous == ring[i - 1] && current == ring[i] && size[current] >= needed
      modifies this
      ensures Valid()
      ensures Some(p) == Take(old(Model()), needed, i).payload && Model() == Take(old(Model()), needed, i).after
    {
      if size[current] == needed {
        p := UnlinkBlock(previous, current, i);
      } else {
        p := SplitBlock(needed, previous, current, i);
      }
    }

    /**
     * The walk of freelist.c:47-51 and 78: from the cursor's successor,
     * follow the links until a block of at least `needed` units turns up or
     * the walk is back at the cursor, which sits at list position `k`. The
     * walk stops `t` steps on, at `current`, with `previous` before it, and
     * no block it passed on the way was big enough.
     */
    method Walk(needed: nat, ghost k: nat) returns (previous: nat, current: nat, ghost t: nat, ghost i: nat, ghost pi: nat)
      requires Valid() && freeBlock.Some? && k < |ring| && ring[k] == freeBlock.value
      ensures 1 <= t <= |ring| && i == Visit(|ring|, k, t) && current == ring[i]
      ensures pi < |ring| && Succ(|ring|, pi) == i && previous == ring[pi]
      ensures forall t' :: 1 <= t' < t ==> !Fits(Model(), needed, k, t')
      ensures Fits(Model(), needed, k, t) || t == |ring|
      ensures size[current] >= needed || current == freeBlock.value
    {
      ghost var n: nat := |ring|;
      pi := k;
      previous := freeBlock.value;
      current := next[previous];
      t, i := 1, Succ(n, k);
      while size[current] < needed && current != freeBlock.value
        invariant 1 <= t <= n && i == Visit(n, k, t) && current == ring[i]
        invariant pi < n && previous == ring[pi] && Succ(n, pi) == i
        invariant forall t' :: 1 <= t' < t ==> size[ring[Visit(n, k, t')]] < needed
        decreases n - t
      {
        assert i != k;
        assert t < n;
        assert forall t' :: 1 <= t' < t + 1 ==> size[ring[Visit(n, k, t')]] < needed;
        VisitStep(n, k, t + 1);
        previous, pi := current, i;
        current := next[current];
        t, i := t + 1, Succ(n, i);
      }
      OccursOnce(size, brk, ring, k);
    }

    /**
     * memalloc (freelist.c:23-86): `needed` units are computed, the sentinel
     * is set up on the first call, and the list is walked from the cursor's
     * successor. A block big enough is taken at once; when the walk is back
     * at the cursor without one, the growth step is asked (`grant` stands for
     * its answer). Refused, NULL is returned; granted, the walk's next step
     * meets the fresh block, which is big enough and is taken. The call does
     * what `MemallocSpec` says.
     */
    method Memalloc(bytes: nat, grant: Option<nat>) returns (p: Option<nat>)
      requires Valid()
      modifies this
      ensures Valid()
      ensures p == MemallocSpec(old(Model()), bytes, unit, grant).payload
      ensures Model() == MemallocSpec(old(Model()), bytes, unit, grant).after
    {
      var needed := (bytes + unit - 1) / unit + 1;
      assert needed == NeededUnits(bytes, unit);
      SetUpBase();
      p := Search(needed, grant);
    }

    /**
     * The search of freelist.c:47-84 on an initialised list: walk from the
     * cursor's successor, take the first block that fits, or ask for more
     * memory when the walk is back at the cursor.
     */
    method Search(needed: nat, grant: Option<nat>) returns (p: Option<nat>)
      requires Valid() && freeBlock.Some? && needed >= 1
      modifies this
      ensures Valid()
      ensures p == Allocate(old(Model()), needed, grant).payload
      ensures Model() == Allocate(old(Model()), needed, grant).after
    {
      ghost var h := Model();
      ghost var k := IndexOf(ring, freeBlock.value);
      var previous, current, t, i, pi := Walk(needed, k);
      if size[current] >= needed {
        assert i != 0 && pi == i - 1;
        var payload := TakeBlock(needed, previous, current, i);
        AllocateNextFit(h, needed, grant, t);
        return Some(payload);
      }
      assert t == |h.ring| && !Fits(h, needed, k, t);
      AllocateNoFit(h, needed, grant, k);
      p := Refill(needed, grant, k);
    }

    /**
     * The growth call at freelist.c:78-83 and, when it succeeds, the loop's
     * next iteration, which meets the fresh block right after the cursor
     * at list position `k` and takes it.
     */
    method Refill(needed: nat, grant: Option<nat>, ghost k: nat) returns (p: Option<nat>)
      requires Valid() && freeBlock.Some? && k < |ring| && ring[k] == freeBlock.value && needed >= 1
      modifies this
      ensures Valid()
      ensures grant.None? ==> p.None? && Model() == old(Model())
      ensures grant.Some? ==> p == Extend(old(Model()), needed, k, Max(needed, grant.value)).payload
      ensures grant.Some? ==> Model() == Extend(old(Model()), needed, k, Max(needed, grant.value)).after
    {
      var r := RequestMemory(needed, grant, k);
      if r.None? {
        return None;
      }
      var previous := r.value;
      var current := next[previous];
      var payload := TakeBlock(needed, previous, current, k + 1);
      return Some(payload);
    }
  }
}
