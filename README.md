# Physical page-frame allocator

A Dafny model of the kernel's physical page-frame allocator
(`os/src/mm/frame_allocator.rs`): the `StackFrameAllocator` that hands out and
reclaims physical page numbers (PPNs), and the `FrameTracker` handle whose
creation clears a page and whose drop gives the page back.

The allocator keeps a frontier `current`, a bound `end` and a stack
`recycled` of freed pages. `alloc` pops the most recently freed page if there
is one, answers `None` when the frontier has reached `end`, and otherwise
hands out `current` and moves the frontier by one. `dealloc` refuses (the
source panics) a page at or past the frontier or one already recycled, and
otherwise pushes the page onto `recycled`.

Files:

- `wrappers.dfy` — `Option`, `Result` and `Outcome`.
- `frame_allocator.dfy` — module `FrameAllocator`: the allocator as a value
  (`Allocator`), its operations `New`, `Init`, `Alloc`, `Dealloc` as
  functions, the invariant `Valid` (frontier within the bound, no page twice
  on the stack, every recycled page below the frontier), the free pages
  `Free`, and the ownership invariant `Tracks` (pages handed out and not yet
  returned are below the frontier and not recycled). Module
  `FrameAllocatorImpl`: the class `StackFrameAllocator` whose fields
  `current`, `end` and `recycled` its methods update in place. `Init`,
  `Alloc` and `Dealloc` are proved against the functions of the same name,
  and `IsRecycled` against membership in `recycled`. `Alloc` and `Dealloc`
  keep `Tracks` over a ghost set `held` of pages given out and not returned.
  `Init` re-establishes the invariant only on an empty allocator with
  `l <= r`: re-binding an allocator that has pages out lets `alloc` hand
  them out again, in the source as in the model.
- `frame_tracker.dfy` — module `FrameTracking`: the class `FrameTracker`
  (the constructor zero-fills the page with a loop; `Release` is the drop,
  which goes through `frame_dealloc` and reports its refusal) and `FrameAlloc` (`frame_alloc`).
- `frame_allocator_test.dfy` — module `FrameAllocatorTest`: the run of
  `frame_allocator_test`, as lemmas over any number of pages on the
  allocator's value and as methods on the allocator object with trackers.

The process-wide allocator sits behind `UPSafeCell`, so one owner at a time
mutates it. The model passes the single `StackFrameAllocator` object to every
operation, and `frame_dealloc` becomes a call of its `Dealloc` method. The
bytes of page `p` are `memory[p]`, a sequence of byte arrays that stands for
the address translation of `get_bytes_array`.

Behaviour of the code worth noting:

- `alloc` reuses the most recently freed page first (LIFO).
- `dealloc` checks only the frontier and the stack. A page below the range
  that `init` bound was never handed out, yet it is accepted
  (`DeallocBelowRangeAccepted`).
- `init` does not check `l <= r`. `InitValid` shows that the invariant holds
  after `init` exactly when `l <= r`. With `l > r`, the frontier starts past
  `end`; in the model the `current == end` test then never fires, and `alloc`
  keeps handing out pages past `end`.

## Model

| member | source | states |
|---|---|---|
| FrameAllocator.New | os/src/mm/frame_allocator.rs:73-79 | a new allocator satisfies the invariant and has no free page |
| FrameAllocator.Init | os/src/mm/frame_allocator.rs:57-68 | sets the frontier to `l` and the bound to `r` and keeps the recycled stack; the definition that `InitValid` and the `Init` method are stated against |
| FrameAllocator.InitValid | os/src/mm/frame_allocator.rs:57-68 | `init(l, r)` on a new allocator gives a valid state exactly when `l <= r`, and its free pages are exactly `[l, r)` |
| FrameAllocatorImpl.StackFrameAllocator.constructor | os/src/mm/frame_allocator.rs:73-79 | `current == end == 0`, nothing recycled, nothing held, invariant holds |
| FrameAllocatorImpl.StackFrameAllocator.Init | os/src/mm/frame_allocator.rs:57-68 | sets `current := l` and `end := r` and leaves `recycled` unchanged; on an empty allocator the invariant holds afterwards exactly when `l <= r` |
| FrameAllocator.Alloc | os/src/mm/frame_allocator.rs:80-94 | pops the last recycled page with the frontier untouched; with nothing recycled and `current == end` answers `None` and changes nothing; otherwise returns the old `current` and moves it by one; the page handed out is below the new frontier and not recycled; the invariant is preserved |
| FrameAllocator.AllocTakesFromPool | os/src/mm/frame_allocator.rs:80-94 | `alloc` answers `None` exactly when no page is free; otherwise the page returned was free and the free pages afterwards are the old ones minus exactly that page |
| FrameAllocator.AllocNeverReissues | os/src/mm/frame_allocator.rs:80-94 | a page handed out is not one currently held, and the ownership invariant holds with it added to the held pages |
| FrameAllocatorImpl.StackFrameAllocator.Alloc | os/src/mm/frame_allocator.rs:80-94 | the new state and the result are those of `FrameAllocator.Alloc` on the old state; the page returned was not held and is held afterwards; the ownership invariant is kept |
| FrameAllocator.Dealloc | os/src/mm/frame_allocator.rs:95-104 | refuses exactly when `ppn >= current` or `ppn` is already recycled; otherwise appends `ppn` to `recycled` with `current` and `end` unchanged, preserving the invariant |
| FrameAllocator.DeallocReturnsToPool | os/src/mm/frame_allocator.rs:95-104 | an accepted page was not free before, and the free pages afterwards are the old ones plus exactly that page |
| FrameAllocator.DeallocThenAlloc | os/src/mm/frame_allocator.rs:80-104 | `alloc` right after an accepted `dealloc(ppn)` returns `ppn` and restores the state before the `dealloc` |
| FrameAllocator.AllocThenDealloc | os/src/mm/frame_allocator.rs:80-104 | the page `alloc` just handed out is always accepted back, and the free pages are then those before the `alloc` |
| FrameAllocator.ReleaseHeldSucceeds | os/src/mm/frame_allocator.rs:95-104 | giving back a held page never panics, and the ownership invariant holds with that page no longer held |
| FrameAllocator.DeallocBelowRangeAccepted | os/src/mm/frame_allocator.rs:99-103 | after `init(l, r)`, a page below `l` that was never handed out is accepted by `dealloc` and handed out by the next `alloc` |
| FrameAllocatorImpl.StackFrameAllocator.IsRecycled | os/src/mm/frame_allocator.rs:99 | the scan answers true exactly when `ppn` is on the recycled stack |
| FrameAllocatorImpl.StackFrameAllocator.Dealloc | os/src/mm/frame_allocator.rs:95-104 | fails exactly when `FrameAllocator.Dealloc` refuses, and then nothing changes; otherwise the new state is the one it gives and the page is no longer held; a held page is never refused |
| FrameTracking.FrameTracker.constructor | os/src/mm/frame_allocator.rs:19-28 | the tracker holds the given page and every byte of that page is 0 |
| FrameTracking.FrameTracker.Release | os/src/mm/frame_allocator.rs:37-41 | dropping a live tracker gives its page to `dealloc`: the drop fails (the source panics) exactly when `FrameAllocator.Dealloc` refuses the page, and then the allocator is unchanged; otherwise the page is pushed onto `recycled` with `current` and `end` alone and is no longer held; a held page is never refused; the tracker is dead afterwards, so it is dropped once |
| FrameTracking.FrameAlloc | os/src/mm/frame_allocator.rs:130-135 | the allocator moves as `FrameAllocator.Alloc` says; a returned tracker is fresh and live, holds a page that was not held, and every byte of that page is 0; no other page is written, and nothing is written when no page is left (pages are distinct arrays) |
| FrameAllocatorTest.AllocN | os/src/mm/frame_allocator.rs:146-150 | `n` calls of `alloc`, each unwrapped, `None` as soon as one finds no page; when all succeed there are exactly `n` pages and the bound is unchanged; the definition that `AllocBatch`, `FrontierBatch`, `ExhaustRange`, `PopBatch`, `AllocNFacts` and `RecycleRoundTrip` are stated against |
| FrameAllocatorTest.DeallocAll | os/src/mm/frame_allocator.rs:151 | `dealloc` of each page in order, stopping at the first refusal; when every page is accepted the frontier and the bound are unchanged; the definition that `DropAll`, `DeallocBatch` and `RecycleRoundTrip` are stated against |
| FrameAllocatorTest.AllocNStep | os/src/mm/frame_allocator.rs:146-150 | when `n > 0` unwrapped allocations succeed, the first one succeeds and the remaining `n - 1` continue from its state |
| FrameAllocatorTest.FrontierBatch | os/src/mm/frame_allocator.rs:88-93 | with nothing recycled, `n` allocations inside the range return the next `n` frontier pages in order and move the frontier by `n` |
| FrameAllocatorTest.ExhaustRange | os/src/mm/frame_allocator.rs:85-93 | with nothing recycled, `end - current` allocations all succeed and the next one answers `None` |
| FrameAllocatorTest.DeallocBatch | os/src/mm/frame_allocator.rs:95-104 | dropping distinct allocated pages that are not recycled never panics and pushes them in drop order |
| FrameAllocatorTest.PopBatch | os/src/mm/frame_allocator.rs:82-84 | pages on top of the recycled stack come back out in reverse order, and the frontier does not move |
| FrameAllocatorTest.AllocNFacts | os/src/mm/frame_allocator.rs:146-150 | a batch of `n` allocations that all succeed hands out distinct pages, each free before the batch, below the frontier afterwards and not recycled; the invariant holds, the frontier only grows and the free pages only shrink |
| FrameAllocatorTest.DropPopDrop | os/src/mm/frame_allocator.rs:151-157 | dropping distinct allocated, unrecycled pages, allocating as many again and dropping those: no drop panics, the second batch is the pages in reverse, and the frontier does not move |
| FrameAllocatorTest.RecycleRoundTrip | os/src/mm/frame_allocator.rs:144-159 | from any valid state in which `n` allocations succeed: drop all, allocate `n` again, drop all; the second batch is exactly the first batch's pages in reverse, the frontier does not move after the first batch, and no drop panics |
| FrameAllocatorTest.FreshRoundTrip | os/src/mm/frame_allocator.rs:144-159 | the round trip from a fresh range, as just after `init`: the first batch is the next `n` frontier pages and the frontier stays at `current + n` |
| FrameAllocatorTest.AllocBatch | os/src/mm/frame_allocator.rs:146-150 | `n` calls of `frame_alloc().unwrap()` move the allocator as `AllocN` says and return live, fresh trackers for its pages, which are distinct and were not held before; no page outside the batch is written |
| FrameAllocatorTest.AllocUnwrap | os/src/mm/frame_allocator.rs:147-149 | one `frame_alloc().unwrap()` partway through a batch that `AllocN` says succeeds: it does not panic, the batch advances by the new page, the pushed trackers still hold distinct pages that are exactly the ones added to `held`, the tracker is fresh and live, and only its page is written |
| FrameAllocatorTest.PushTracker | os/src/mm/frame_allocator.rs:149 | pushing a tracker for a page not held onto trackers of held, distinct pages keeps their pages distinct and adds exactly that page |
| FrameAllocatorTest.DropAll | os/src/mm/frame_allocator.rs:151 | dropping a vector of live trackers front to back never panics and moves the allocator as `DeallocAll` says; none of the pages is held afterwards |
| FrameAllocatorTest.AllocAndDrop | os/src/mm/frame_allocator.rs:146-151 | one allocate-then-drop round: the allocator ends as `DeallocAll` after `AllocN` says, no drop panics, every page is given back, and only the pages of the batch are written |
| FrameAllocatorTest.FrameAllocatorTestRun | os/src/mm/frame_allocator.rs:144-159 | from any state in which the first five `unwrap`s succeed, every `unwrap` succeeds, the allocator ends with the first five pages pushed in reverse on top of the stack left by the first batch, every page is given back, and no page outside those five is written; just after `init` with at least five pages, the frontier ends five pages further and the stack is those five pages in reverse |

## Left out

- `os/src/sbi.rs`, `os/src/console.rs`, `os/src/lang_items.rs`: platform calls, console output and the panic handler. A panic of `dealloc` is an error result here.
- `os/src/sync/up.rs` (`UPSafeCell`): the `RefCell` borrow check and its panic on a second borrow. The model has one owning object that is passed explicitly.
- The `lazy_static!` singleton and `init_frame_allocator`. They depend on the linker symbol `ekernel`, on `MEMORY_END` and on `PhysAddr::ceil`/`floor`, and none of those are part of this model.
- `PhysPageNum::get_bytes_array`: replaced by the `memory` sequence of byte arrays; the page size (from the configuration, not part of this model) is left open.
- The `Debug` formatting of `FrameTracker` and the `println!` calls of the test.
- `usize` width: PPNs are unbounded naturals. The source's `current += 1` runs whenever `current != end`, which under the invariant means `current < end`, so it cannot overflow there.
- `init(l, r)` with `l > r`: in the source the `usize` frontier keeps growing until it overflows at `usize::MAX` (a panic in a debug build; a wrap-around in a release build, after which `current == end` can eventually fire). The model's frontier is a natural number and does not overflow, so it keeps handing out pages instead.
- Rust's move semantics for trackers: a ghost `live` flag stands in for them, so a tracker is released at most once.
- FrameAllocatorTest.FrameAllocatorTestRun: requires that the first five `unwrap`s succeed (at least five free pages); the panic of a failing `unwrap` is not modelled.
