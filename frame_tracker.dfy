/**
 * `FrameTracker`: the owned handle of one allocated page. Creating it clears
 * the page; dropping it gives the page back to the allocator. Rust runs the
 * drop at the end of the owner's scope; here the owner calls `Release`.
 *
 * The bytes of page `p` are `memory[p]`: the address translation behind
 * `PhysPageNum::get_bytes_array` is not part of this model.
 */
module FrameTracking {
  import opened Wrappers
  import S = FrameAllocator
  import opened FrameAllocatorImpl

  class FrameTracker {
    const ppn: nat
    /** The page's bytes, as `get_bytes_array` gives them. */
    const bytes: array<bv8>
    /** The handle has not been dropped yet (Rust's move semantics allow one drop). */
    ghost var live: bool

    /** `FrameTracker::new`: every byte of the page is 0 afterwards. */
    constructor (ppn: nat, bytes: array<bv8>)
      modifies bytes
      ensures this.ppn == ppn && this.bytes == bytes && live
      ensures forall i :: 0 <= i < bytes.Length ==> bytes[i] == 0
    {
      this.ppn := ppn;
      this.bytes := bytes;
      live := true;
      new;
      for i := 0 to bytes.Length
        modifies bytes
        invariant forall k :: 0 <= k < i ==> bytes[k] == 0
      {
        bytes[i] := 0;
      }
    }

    /**
     * `Drop::drop`, through `frame_dealloc`: gives the page back. A refusal
     * (the source panics) leaves the allocator as it was; the page of a
     * tracker that is held is never refused.
     */
    method Release(a: StackFrameAllocator) returns (r: Outcome<S.DeallocError>)
      requires live && a.Valid()
      modifies this, a
      ensures !live && a.Valid()
      ensures r.Fail? <==> S.Dealloc(old(a.State()), ppn).Err?
      ensures r.Fail? ==> a.State() == old(a.State()) && a.held == old(a.held)
      ensures r.Pass? ==>
        && a.current == old(a.current) && a.end == old(a.end)
        && a.recycled == old(a.recycled) + [ppn]
        && a.held == old(a.held) - {ppn}
      ensures ppn in old(a.held) ==> r.Pass?
    {
      r := a.Dealloc(ppn);
      live := false;
    }
  }

  /** Distinct physical pages do not share bytes. */
  predicate DistinctPages(memory: seq<array<bv8>>) {
    forall i, j :: 0 <= i < j < |memory| ==> memory[i] != memory[j]
  }

  /**
   * `frame_alloc`: takes a page from the allocator and wraps it in a fresh
   * tracker, which clears the page. No other page is written, and nothing
   * is written when no page is left.
   */
  method FrameAlloc(a: StackFrameAllocator, memory: seq<array<bv8>>) returns (t: Option<FrameTracker>)
    requires a.Valid() && a.end <= |memory| && DistinctPages(memory)
    modifies a, memory
    ensures a.Valid()
    ensures S.AllocOutcome(a.State(), if t.Some? then Some(t.value.ppn) else None) == S.Alloc(old(a.State()))
    ensures t.Some? ==>
      && fresh(t.value) && t.value.live
      && t.value.ppn < |memory| && t.value.bytes == memory[t.value.ppn]
      && (forall i :: 0 <= i < t.value.bytes.Length ==> t.value.bytes[i] == 0)
    ensures t.Some? ==> t.value.ppn !in old(a.held) && a.held == old(a.held) + {t.value.ppn}
    ensures t.None? ==> a.held == old(a.held)
    ensures forall q :: 0 <= q < |memory| && (t.None? || q != t.value.ppn) ==> memory[q][..] == old(memory[q][..])
  {
    var ppn := a.Alloc();
    match ppn
    case None =>
      t := None;
    case Some(p) =>
      var tracker := new FrameTracker(p, memory[p]);
      t := Some(tracker);
  }
}
