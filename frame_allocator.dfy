/**
 * The stack-based physical page-frame allocator (`StackFrameAllocator`).
 *
 * The allocator hands out physical page numbers (PPNs). It keeps a frontier
 * `current`: every page from `current` up to the fixed bound `end` has never
 * been handed out. Freed pages are pushed onto the `recycled` stack and are
 * reused, most recently freed first, before the frontier moves.
 *
 * This module specifies the allocator on values; the class
 * `StackFrameAllocator` in `FrameAllocatorImpl` is the state updated in place.
 */
module FrameAllocator {
  import opened Wrappers

  /** Abstract value of a `StackFrameAllocator`. */
  datatype Allocator = Allocator(current: nat, end: nat, recycled: seq<nat>)

  /** What `alloc` leaves behind and what it returns. */
  datatype AllocOutcome = AllocOutcome(next: Allocator, ppn: Option<nat>)

  /** The panic of `dealloc`: the page is not currently allocated. */
  datatype DeallocError = NotAllocated(ppn: nat)

  predicate NoDuplicates(xs: seq<nat>) {
    forall i, j :: 0 <= i < j < |xs| ==> xs[i] != xs[j]
  }

  /** Every element of `xs` lies below `bound`. */
  predicate AllBelow(xs: seq<nat>, bound: nat) {
    forall i :: 0 <= i < |xs| ==> xs[i] < bound
  }

  /**
   * The allocator invariant: the frontier does not pass the bound, the
   * recycled stack holds no page twice, and every recycled page lies below
   * the frontier (it was handed out once).
   */
  predicate Valid(s: Allocator) {
    && s.current <= s.end
    && NoDuplicates(s.recycled)
    && AllBelow(s.recycled, s.current)
  }

  /** Page `p` is one `alloc` can still hand out: a recycled one or one in `[current, end)`. */
  predicate Free(s: Allocator, p: nat) {
    p in s.recycled || s.current <= p < s.end
  }

  /** Pages handed out and not yet returned, as seen by their owners. */
  predicate Tracks(s: Allocator, held: set<nat>) {
    && Valid(s)
    && forall p :: p in held ==> p < s.current && p !in s.recycled
  }

  /** `StackFrameAllocator::new`: an empty range and nothing recycled. */
  function New(): (s: Allocator)
    ensures Valid(s) && forall p: nat :: !Free(s, p)
  {
    Allocator(0, 0, [])
  }

  /** `StackFrameAllocator::init(l, r)`: bind the range `[l, r)`. */
  function Init(s: Allocator, l: nat, r: nat): (t: Allocator)
    ensures t.current == l && t.end == r && t.recycled == s.recycled
  {
    s.(current := l, end := r)
  }

  /** `StackFrameAllocator::alloc`. */
  function Alloc(s: Allocator): (r: AllocOutcome)
    ensures r.next.end == s.end
    // most recently recycled page first, frontier untouched
    ensures s.recycled != [] ==>
      && r.ppn == Some(s.recycled[|s.recycled| - 1])
      && r.next.recycled == s.recycled[..|s.recycled| - 1]
      && r.next.current == s.current
    // exhaustion is an ordinary answer and changes nothing
    ensures s.recycled == [] && s.current == s.end ==> r.ppn == None && r.next == s
    // otherwise the frontier page is handed out and the frontier moves by one
    ensures s.recycled == [] && s.current != s.end ==>
      r.ppn == Some(s.current) && r.next.current == s.current + 1 && r.next.recycled == []
    // every page handed out lies below the new frontier and is no longer recycled
    ensures Valid(s) && r.ppn.Some? ==> r.ppn.value < r.next.current && r.ppn.value !in r.next.recycled
    ensures Valid(s) ==> Valid(r.next)
  {
    if |s.recycled| > 0 then
      AllocOutcome(s.(recycled := s.recycled[..|s.recycled| - 1]), Some(s.recycled[|s.recycled| - 1]))
    else if s.current == s.end then
      AllocOutcome(s, None)
    else
      AllocOutcome(s.(current := s.current + 1), Some(s.current))
  }

  /** `StackFrameAllocator::dealloc(ppn)`; the panic becomes `Err`. */
  function Dealloc(s: Allocator, ppn: nat): (r: Result<Allocator, DeallocError>)
    ensures r.Err? <==> ppn >= s.current || ppn in s.recycled
    ensures r.Err? ==> r.error == NotAllocated(ppn)
    ensures r.Ok? ==> r.value == s.(recycled := s.recycled + [ppn])
    ensures Valid(s) && r.Ok? ==> Valid(r.value)
  {
    if ppn >= s.current || ppn in s.recycled then Err(NotAllocated(ppn))
    else Ok(s.(recycled := s.recycled + [ppn]))
  }

  /** A freshly created allocator bound by `init(l, r)` satisfies the invariant exactly when `l <= r`. */
  lemma InitValid(l: nat, r: nat)
    ensures Valid(Init(New(), l, r)) <==> l <= r
    ensures forall p: nat :: Free(Init(New(), l, r), p) <==> l <= p < r
  {
  }

  /** `alloc` answers `None` exactly when the free pool is empty, and otherwise takes one page out of it. */
  lemma AllocTakesFromPool(s: Allocator)
    requires Valid(s)
    ensures Alloc(s).ppn.None? <==> forall q: nat :: !Free(s, q)
    ensures Alloc(s).ppn.Some? ==>
      var p := Alloc(s).ppn.value;
      Free(s, p) && forall q: nat :: Free(Alloc(s).next, q) <==> Free(s, q) && q != p
  {
    var r := Alloc(s);
    if s.recycled != [] {
      assert Free(s, s.recycled[|s.recycled| - 1]);
    } else if s.current != s.end {
      assert Free(s, s.current);
    }
    if r.ppn.Some? {
      var p := r.ppn.value;
      if s.recycled != [] {
        var n := |s.recycled| - 1;
        assert s.recycled == r.next.recycled + [p];
        forall q | q in r.next.recycled ensures q != p {
          var i :| 0 <= i < n && r.next.recycled[i] == q;
          assert s.recycled[i] == q;
        }
      }
    }
  }

  /** A valid `dealloc` returns exactly its page to the free pool, and that page was not in it. */
  lemma DeallocReturnsToPool(s: Allocator, ppn: nat)
    requires Valid(s) && Dealloc(s, ppn).Ok?
    ensures !Free(s, ppn)
    ensures forall q: nat :: Free(Dealloc(s, ppn).value, q) <==> Free(s, q) || q == ppn
  {
  }

  /**
   * `dealloc` checks only the frontier and the recycled stack: a page below
   * the range bound by `init`, which was never handed out, is accepted, and
   * the next `alloc` hands it out.
   */
  lemma DeallocBelowRangeAccepted(l: nat, r: nat, ppn: nat)
    requires ppn < l <= r
    ensures Dealloc(Init(New(), l, r), ppn).Ok?
    ensures Alloc(Dealloc(Init(New(), l, r), ppn).value).ppn == Some(ppn)
  {
  }

  /** Freeing a page and allocating again gives the same page back and restores the state. */
  lemma DeallocThenAlloc(s: Allocator, ppn: nat)
    requires Dealloc(s, ppn).Ok?
    ensures Alloc(Dealloc(s, ppn).value) == AllocOutcome(s, Some(ppn))
  {
  }

  /** A page that `alloc` just handed out can always be given back without a panic. */
  lemma AllocThenDealloc(s: Allocator)
    requires Valid(s) && Alloc(s).ppn.Some?
    ensures Dealloc(Alloc(s).next, Alloc(s).ppn.value).Ok?
    ensures forall q: nat :: Free(Dealloc(Alloc(s).next, Alloc(s).ppn.value).value, q) <==> Free(s, q)
  {
  }

  /** No page is handed out while it is still held by an owner. */
  lemma AllocNeverReissues(s: Allocator, held: set<nat>)
    requires Tracks(s, held) && Alloc(s).ppn.Some?
    ensures Alloc(s).ppn.value !in held
    ensures Tracks(Alloc(s).next, held + {Alloc(s).ppn.value})
  {
  }

  /** Giving back a held page never panics and keeps the ownership invariant. */
  lemma ReleaseHeldSucceeds(s: Allocator, held: set<nat>, ppn: nat)
    requires Tracks(s, held) && ppn in held
    ensures Dealloc(s, ppn).Ok?
    ensures Tracks(Dealloc(s, ppn).value, held - {ppn})
  {
  }
}

/**
 * The allocator state updated in place, as the kernel's single owner of it
 * sees it. `Init`, `Alloc` and `Dealloc` are proved against the functions of
 * the same name in `FrameAllocator`, and `IsRecycled` against membership in
 * the recycled stack. `Alloc` and `Dealloc` keep the ownership invariant;
 * `Init` re-establishes it only on an empty allocator with `l <= r`.
 */
module FrameAllocatorImpl {
  import opened Wrappers
  import S = FrameAllocator

  class StackFrameAllocator {
    var current: nat
    var end: nat
    var recycled: seq<nat>
    /** Pages handed out by `Alloc` and not given back yet; the source keeps no such record. */
    ghost var held: set<nat>

    /** The abstract value of the allocator. */
    function State(): S.Allocator
      reads this
    {
      S.Allocator(current, end, recycled)
    }

    ghost predicate Valid()
      reads this
    {
      S.Tracks(State(), held)
    }

    /** `StackFrameAllocator::new`. */
    constructor ()
      ensures State() == S.New() && held == {}
      ensures Valid()
    {
      current := 0;
      end := 0;
      recycled := [];
      held := {};
    }

    /** `StackFrameAllocator::init(l, r)`: binds `[l, r)`, keeps the recycled pages. */
    method Init(l: nat, r: nat)
      modifies this
      ensures State() == S.Init(old(State()), l, r) && held == old(held)
      ensures old(recycled) == [] && held == {} ==> (Valid() <==> l <= r)
    {
      current := l;
      end := r;
    }

    /** `StackFrameAllocator::alloc`: never hands out a page that is still held. */
    method Alloc() returns (ppn: Option<nat>)
      requires Valid()
      modifies this
      ensures Valid()
      ensures S.AllocOutcome(State(), ppn) == S.Alloc(old(State()))
      ensures ppn.Some? ==> ppn.value !in old(held) && held == old(held) + {ppn.value}
      ensures ppn.None? ==> held == old(held)
    {
      if |recycled| > 0 {
        var p := recycled[|recycled| - 1];
        recycled := recycled[..|recycled| - 1];
        ppn := Some(p);
      } else if current == end {
        ppn := None;
      } else {
        current := current + 1;
        ppn := Some(current - 1);
      }
      if ppn.Some? {
        held := held + {ppn.value};
      }
    }

    /** The duplicate scan of `dealloc`: whether `ppn` is on the recycled stack. */
    method IsRecycled(ppn: nat) returns (found: bool)
      ensures found <==> ppn in recycled
    {
      var i := 0;
      while i < |recycled|
        invariant i <= |recycled|
        invariant forall k :: 0 <= k < i ==> recycled[k] != ppn
      {
        if recycled[i] == ppn {
          return true;
        }
        i := i + 1;
      }
      return false;
    }

    /**
     * `StackFrameAllocator::dealloc(ppn)`. A page at or past the frontier, or
     * one already recycled, is refused (the source panics) and nothing
     * changes; any other page is pushed onto the recycled stack. A held page
     * is never refused.
     */
    method Dealloc(ppn: nat) returns (r: Outcome<S.DeallocError>)
      requires Valid()
      modifies this
      ensures Valid()
      ensures r.Fail? <==> S.Dealloc(old(State()), ppn).Err?
      ensures r.Fail? ==> r.error == S.NotAllocated(ppn) && State() == old(State()) && held == old(held)
      ensures r.Pass? ==> State() == S.Dealloc(old(State()), ppn).value && held == old(held) - {ppn}
      ensures ppn in old(held) ==> r.Pass?
    {
      if ppn >= current {
        return Fail(S.NotAllocated(ppn));
      }
      var found := IsRecycled(ppn);
      if found {
        return Fail(S.NotAllocated(ppn));
      }
      recycled := recycled + [ppn];
      held := held - {ppn};
      r := Pass;
    }
  }
}
