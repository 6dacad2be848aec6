/**
 The bump allocator as one caller sees it.  The concurrent behaviour is in
 `HeapProtocol`.
 */
module BumpHeap {
  import opened Words
  import opened Bits
  import opened HeapProtocol

  class BumpAllocator {
    var heapStart: U64
    var heapEnd: U64
    var next: U64

    constructor ()
      ensures heapStart == heapEnd == next == 0
    {
      heapStart, heapEnd, next := 0, 0, 0;
    }

    /** Untouched, or published with `next` inside the heap. */
    ghost predicate Valid()
      reads this
    {
      next == 0 || 0 < heapStart <= next <= heapEnd
    }

    method Initialize(start: U64, size: U64)
      requires 0 < start && start + size < TWO_64
      modifies this
      ensures Valid() && heapStart == next == start && heapEnd == start + size
    {
      heapStart := start;
      heapEnd := start + size;
      next := start;
    }

    /** Rounding up to this alignment from `next` passes 2^64. */
    ghost predicate Wraps(layout: Layout)
      reads this
    {
      next != 0 && next + layout.Align() > TWO_64
    }

    /** Takes the least aligned address at or above `next` that leaves room for
        the request, or returns null (0) and changes nothing when there is none.
        If rounding up wraps it returns null, and `next` is set to the size asked
        for whenever that is no more than the heap's end. */
    method Alloc(layout: Layout) returns (ptr: U64)
      modifies this`next
      ensures old(Valid()) && !old(Wraps(layout)) ==> Valid()
      ensures ptr != 0 <==>
        && old(next) != 0 && !old(Wraps(layout))
        && exists a: int :: LeastMultiple(a, old(next), layout.Align()) && a + layout.size <= heapEnd
      ensures ptr != 0 ==> LeastMultiple(ptr, old(next), layout.Align()) && next == ptr + layout.size
      ensures ptr == 0 ==> next == if old(Wraps(layout)) && layout.size <= heapEnd then layout.size else old(next)
    {
      LayoutFits(layout);
      var current := next;
      if current == 0 {
        return 0;
      }
      MaskAlignExact(current, layout.alignBits);
      LeastMultipleUnique(current, layout.Align());
      var aligned := MaskAlign(current, layout.alignBits);
      if aligned + layout.size >= TWO_64 || aligned + layout.size > heapEnd {
        return 0;
      }
      next := aligned + layout.size;  // with one caller the exchange cannot fail
      ptr := aligned;
    }

    method HeapUsed() returns (used: nat)
      ensures used == UsedAnswer(heapStart, next)
      ensures Valid() ==> used == if next == 0 then 0 else next - heapStart
    {
      var start := heapStart;
      if start == 0 || next < start {
        used := 0;
      } else {
        used := next - start;
      }
    }
  }
}
