# Two small C allocators, modelled and verified in Dafny

The repository has two memory allocators written in C. This project models both of them and proves what they promise.

- **`memalloc` (freelist.c)** is a next-fit allocator over a circular, singly linked free list of headers. Each header holds `next_block` and `size`, where `size` counts header-sized units and includes the header itself.
  - The list is anchored by a static zero-sized sentinel, `base`.
  - The search starts from the cursor `free_block`, which the previous call left behind.
  - An exact fit is unlinked from the list.
  - A larger block is shrunk in place, and the request is carved from its tail.
  - When the walk gets back to the cursor without a fit, `request_memory` is asked for more memory.
- **`alloc`/`afree` (linear.c)** are a bump allocator over a 10000-byte buffer. The offset `allocp` advances on `alloc` and is reset by `afree`, so blocks are released in LIFO order.

Files:

- `wrappers.dfy`: the `Option` type. It stands for a pointer that may be NULL.
- `freelist.dfy`, module `FreeList`: the free-list allocator.
  - Addresses are unit indices into one arena. A header is one unit, and `block + n` is index arithmetic.
  - The sentinel sits at index `Base` (0). Every block lies at indices `1 .. brk - 1`, below the program break `brk`.
  - The header fields are two maps, `next` and `size`.
  - A ghost sequence `ring` records the order of the free list, starting at the sentinel.
  - The invariant has two parts:
    - `WellFormed`: every listed block lies in the arena, and no two listed blocks overlap.
    - `Circular`: the `next` fields close the list order into a circle.
  - `MemallocSpec` and the functions it is built from define one call of `memalloc` on a value `Heap`. The class `Allocator` holds the same state in fields. Its methods walk and rewrite the list in place, and each method is proved to do what the matching function says.
- `linear.dfy`, module `Linear`: the bump allocator.
  - `AllocSpec` defines one `alloc`.
  - `Run` defines a sequence of `alloc` calls.
  - The class `LinearAllocator` holds `allocp` and implements `alloc` and `afree`.

`request_memory` is declared in freelist.c but not defined there. It is modelled as an abstract step: the parameter `grant` stands for its answer.

- `None`: it refused, returns NULL and changes nothing.
- `Some(g)`: a fresh block of `max(needed, g)` units is placed at the program break and linked in right after the cursor. The cursor is returned.

## Model

| member | source | states |
|---|---|---|
| FreeList.NeededUnits | freelist.c:29 | The unit count is at least 1. The payload units after the header hold at least `bytes`, and one unit fewer would not: `(n-1)*U >= bytes` and `(n-1)*U < bytes + U`, for the header size `U`. |
| FreeList.InitSentinel | freelist.c:31-40 | On the first call (cursor NULL), the list becomes the sentinel alone, linked to itself, with the cursor on it. On a later call nothing changes. Either way the invariant holds afterwards, and circularity is kept. |
| FreeList.Scan | freelist.c:47-59 | Returns the first step of the walk from the cursor's successor at which the block is big enough, and no earlier step has one. None means no step of the full circle, which ends back at the cursor, has one. |
| FreeList.Unlink | freelist.c:52-57 | Exact fit. The invariant is kept. The predecessor's `next` becomes the block's `next`, and no other link or any size changes. The block leaves the list and nothing else does. The predecessor becomes the cursor. The payload is block + 1. The handed-out block is off the list, inside the arena and apart from every free block. |
| FreeList.Split | freelist.c:59-75 | Split. The invariant is kept. The links and the list order are untouched. The block's size drops by exactly `needed`. A header of size `needed` is written at block + new size, which is the tail of the old span. The predecessor becomes the cursor. The payload is just past that header, and the handed-out block overlaps no free block. |
| FreeList.Carve | freelist.c:67-69 | The two size writes of a split. The old block keeps `size - needed` units, and the header at its new end records `needed`. That header is the only new key, and every other header keeps its size. |
| FreeList.Take | freelist.c:52-76 | Both success branches. The invariant is kept and the break does not move. The predecessor becomes the cursor. The header just before the returned payload has size `needed` and is the last `needed` units of the chosen block. It is never the sentinel (payload >= 2). |
| FreeList.Grow | freelist.c:78-83 | A successful growth step. A fresh block of `units` units at the break is linked right after the cursor. The break moves up by `units`, the cursor stays, and the invariant is kept. |
| FreeList.Extend | freelist.c:78-83 | Growth followed by the loop's next step. The request is served from the top of the fresh block, the break moves up, the cursor stays, and the delivered block is handed out. |
| FreeList.Allocate | freelist.c:47-84 | The search on an initialised list keeps the invariant. Any payload returned is a block of exactly `needed` units, off the list and apart from it. |
| FreeList.MemallocSpec | freelist.c:23-86 | A whole `memalloc` call keeps the invariant. A returned payload has a header of `needed` units whose payload area holds at least `bytes` bytes. |
| FreeList.UnlinkKeepsLive | freelist.c:52-57 | An exact fit leaves every block handed out earlier live: still in the arena, off the list and apart from every free block. The block it hands out does not overlap that earlier block. |
| FreeList.SplitKeepsLive | freelist.c:59-75 | A split also leaves every earlier block live. The new header lies inside the free block, so it cannot clobber the earlier block's size, and the tail it hands out does not overlap the earlier block. |
| FreeList.TakeKeepsLive | freelist.c:52-76 | Both success branches leave earlier blocks live, and the new block does not overlap them. |
| FreeList.GrowKeepsLive | freelist.c:78-83 | The growth step leaves earlier blocks live. The fresh block starts at the break, beyond all of them. |
| FreeList.AllocateKeepsLive | freelist.c:47-84 | Live allocations do not overlap. Every block handed out before the search stays live, and the block the search hands out overlaps none of them. |
| FreeList.MemallocKeepsLive | freelist.c:23-86 | The same for a whole `memalloc` call, including the first call, which sets up the sentinel. |
| FreeList.HandedIsLive | freelist.c:52-76 | The block a call hands out is live in the state the call leaves. With `MemallocKeepsLive`, this gives the base and step of the argument that all blocks handed out so far stay live and pairwise apart. The induction over a whole sequence of calls is not written out as a lemma. |
| FreeList.OccursOnce | freelist.c:47-51 | On a well-formed list no node occurs twice. This is why the walk meets the cursor again only after a full circle. |
| FreeList.TakeCircular | freelist.c:52-76 | Taking a block keeps the `next` fields a circle through the list. |
| FreeList.UnlinkCircular | freelist.c:55 | Unlinking the block keeps the list a circle, one node shorter. |
| FreeList.GrowCircular | freelist.c:79 | Linking the fresh block after the cursor keeps the list a circle, one node longer. |
| FreeList.MemallocCircular | freelist.c:23-86 | Every `memalloc` call keeps the free list circular. |
| FreeList.AllocateNull | freelist.c:78-83 | NULL is returned exactly when the sentinel and every block are too small and the growth step fails. In that case no link, size or cursor has changed. |
| FreeList.AllocateNextFit | freelist.c:47-76 | Next fit. When the first big-enough block is `t` steps after the cursor, that block (never the sentinel) is taken. Its predecessor becomes the cursor and the break stays. |
| FreeList.AllocateGrows | freelist.c:78-83 | When nothing fits and `g` units are granted, the break moves up by max(needed, g). The payload comes from the top of the fresh block, and the cursor stays. |
| FreeList.AllocateNoFit | freelist.c:78-83 | After a walk that found no fit, the outcome is decided by the growth step alone. Refused, nothing changes. Granted, the fresh block is linked and then taken. |
| FreeList.MemallocNull | freelist.c:23-86 | `memalloc` returns NULL exactly when, after the sentinel is set up, no listed block fits and the growth step fails. The only change then is the sentinel set-up. |
| FreeList.FirstCall | freelist.c:31-40 | On the very first call, a refusal leaves a self-linked sentinel of size 0 under the cursor. A grant of `g` units serves the request from the top of a block starting at unit 1. |
| FreeList.RingWalk | freelist.c:48-50 | Following `m` links from a listed node reaches the node `m` positions further round the list. |
| FreeList.RingReturns | freelist.c:78 | A walk of as many links as the list has nodes gets back to where it started. |
| FreeList.Allocator.constructor | freelist.c:19-21 | The initial state (`free_block` NULL, no memory yet) satisfies the invariant. |
| FreeList.Allocator.RequestMemory | freelist.c:79-82 | Refused: returns NULL, and the state is unchanged. Granted: returns the cursor, and the state is exactly `Grow` of the old state. |
| FreeList.Allocator.SetUpBase | freelist.c:31-40 | Updates the fields in place to `InitSentinel` of the old state. |
| FreeList.Allocator.UnlinkBlock | freelist.c:52-57 | Updates the fields in place to exactly `Unlink` of the old state, and returns its payload. |
| FreeList.Allocator.SplitBlock | freelist.c:59-75 | Updates the fields in place to exactly `Split` of the old state, and returns its payload. |
| FreeList.Allocator.TakeBlock | freelist.c:52-76 | Unlinks on an exact fit and splits otherwise. The new state and the payload are `Take` of the old state. |
| FreeList.Allocator.Walk | freelist.c:47-51 | The loop stops at the first block from the cursor's successor that fits, or back at the cursor. It returns that block and its predecessor. The returned block is big enough or is the cursor, and no block passed on the way fitted. |
| FreeList.Allocator.Search | freelist.c:47-84 | The walk, then take or grow. The result and the new state are `Allocate` of the old state. |
| FreeList.Allocator.Refill | freelist.c:78-83 | Refused: NULL, and the state is unchanged. Granted: the result and the new state are `Extend` of the old state. |
| FreeList.Allocator.Memalloc | freelist.c:23-86 | The in-place `memalloc` returns exactly what `MemallocSpec` returns and leaves its state. |
| Linear.AllocSpec | linear.c:20-26 | Fails, with `allocp` unchanged, exactly when `size` exceeds the free bytes. Otherwise it returns the old offset and advances `allocp` by exactly `size`. `allocp` stays within `[0, ALLOCSIZE]`. |
| Linear.AllocInBuffer | linear.c:21-25 | A request that fits is served. Its block `[allocp, allocp + size)` lies inside the buffer, and the free space shrinks by exactly `size`. |
| Linear.AllocAdjacent | linear.c:24-25 | Two successful allocations in a row are adjacent and do not overlap: the second starts at first + size. |
| Linear.AllocZero | linear.c:21-25 | `alloc(0)` always succeeds, returns the current offset and changes nothing. |
| Linear.Run | linear.c:20-26 | A sequence of requests gives one result per request and keeps `allocp` within the buffer. |
| Linear.RunContiguous | linear.c:24-25 | Requests that fit together are all served, back to back. The `j`-th block starts after the bytes of the earlier ones, and `allocp` ends past all of them. |
| Linear.RunRelease | linear.c:28-30 | LIFO release. Freeing the block of the `j`-th request puts `allocp` back where it was just before that request. |
| Linear.LinearAllocator.constructor | linear.c:13-14 | `allocp` starts at the beginning of the buffer. |
| Linear.LinearAllocator.Alloc | linear.c:20-26 | The in-place `alloc` returns what `AllocSpec` returns and leaves `allocp` where it says. |
| Linear.LinearAllocator.Afree | linear.c:28-30 | `afree(p)` sets `allocp` to `p`, and the bound invariant is kept. |

## Left out

- `request_memory` and the operating system's growth primitive (freelist.c:26) are not defined in the source. They are the parameter `grant`. The model fixes two things the source does not show: where the fresh block goes (at the break, linked right after the cursor) and which node is returned (the cursor). It does not fix how much memory is granted beyond `max(needed, g)`.
- FreeList.Allocator.Memalloc: the model assumes a granted block is always big enough. So after a successful growth step, the loop's next iteration is written out once as `Refill` instead of looping again. A `request_memory` that hands back a block smaller than the request, after which the source would keep walking and asking, is not modelled. The termination of the source's `for(;;)` does not follow from the code shown.
- FreeList.NeededUnits: the unit count is computed on unbounded integers. The model does not capture the unsigned wrap-around of `bytes_required + sizeof(Header) - 1` (freelist.c:29) for requests within `sizeof(Header)` of the largest unsigned value. On such a target the count would come out too small.
- The `Align` union and the byte size of a header (freelist.c:7-17) are machine alignment details. The header size is the abstract positive constant `unit`. A payload is returned as the unit index just past its header, not as a byte address.
- Headers that have been handed out keep their old `next` field in the model, just as the C memory does. Nothing states what those links hold.
- Freeing memory back into the free list: freelist.c has no free function, so no insertion or coalescing is modelled.
- Linear.LinearAllocator.Alloc: `size` is a natural number, so negative sizes are not modelled. In the source, a negative `int size` (linear.c:20) passes the test at linear.c:21, moves `allocp` back by its magnitude and returns the old offset. That is defined C while the magnitude is at most the current offset, and undefined pointer arithmetic below the buffer beyond it.
- Linear.LinearAllocator.Afree: it requires `pointer` to be an offset inside the buffer. The source accepts any pointer.
- The buffer contents `allocbuf` are not modelled, because neither function reads or writes them. Pointers are offsets from the start of the buffer.
- `main` and its `printf` calls (linear.c:32-39) are demonstration I/O.
- Thread safety: neither file has any concurrency logic.
