/**
 The frame allocator as one caller sees it: an object that hands out the frames
 of its ranges in order.  The concurrent behaviour is in `FrameProtocol`.
 */
module FrameAllocator {
  import opened Words
  import opened FrameRanges

  /** `from` is a frame boundary of `r`, its end included. */
  predicate InOrAtEnd(r: Range, from: int) {
    from % FRAME_SIZE == 0 && r.start <= from <= r.end
  }

  /** The frames of `r` from address `from` upward. */
  function FramesFrom(r: Range, from: int): seq<int>
    requires WellFormed(r) && InOrAtEnd(r, from)
  {
    seq((r.end - from) / FRAME_SIZE, i => from + i * FRAME_SIZE)
  }

  /** A position in a list of ranges: an index, and a boundary of the range there. */
  predicate Position(ranges: seq<Range>, index: nat, frame: int) {
    && AllWellFormed(ranges)
    && index <= |ranges|
    && (index < |ranges| ==> InOrAtEnd(ranges[index], frame))
  }

  /** The frames from a position onward. */
  function FramesAfter(ranges: seq<Range>, index: nat, frame: int): seq<int>
    requires Position(ranges, index, frame)
  {
    if index == |ranges| then []
    else FramesFrom(ranges[index], frame) + AllFrames(ranges[index + 1..])
  }

  lemma FramesAfterStart(ranges: seq<Range>)
    requires AllWellFormed(ranges) && ranges != []
    ensures FramesAfter(ranges, 0, ranges[0].start) == AllFrames(ranges)
  {
    assert FramesFrom(ranges[0], ranges[0].start) == Frames(ranges[0]);
  }

  lemma FramesFromStep(r: Range, from: int)
    requires WellFormed(r) && InOrAtEnd(r, from) && from < r.end
    ensures InOrAtEnd(r, from + FRAME_SIZE)
    ensures FramesFrom(r, from) == [from] + FramesFrom(r, from + FRAME_SIZE)
  {
    BoundariesApart(from, r.end);
    var count := (r.end - (from + FRAME_SIZE)) / FRAME_SIZE;
    assert (r.end - from) / FRAME_SIZE == count + 1;
    assert |FramesFrom(r, from)| == 1 + count;
  }

  /** Inside a range the current frame comes first. */
  lemma FramesAfterInside(ranges: seq<Range>, index: nat, frame: int)
    requires Position(ranges, index, frame) && index < |ranges| && frame < ranges[index].end
    ensures frame + FRAME_SIZE <= ranges[index].end && Position(ranges, index, frame + FRAME_SIZE)
    ensures FramesAfter(ranges, index, frame) == [frame] + FramesAfter(ranges, index, frame + FRAME_SIZE)
  {
    FramesFromStep(ranges[index], frame);
    var first, rest := FramesFrom(ranges[index], frame + FRAME_SIZE), AllFrames(ranges[index + 1..]);
    assert ([frame] + first) + rest == [frame] + (first + rest);
  }

  /** At the end of a range nothing is lost by moving to the start of the next. */
  lemma FramesAfterEnd(ranges: seq<Range>, index: nat)
    requires AllWellFormed(ranges) && index < |ranges|
    ensures FramesAfter(ranges, index, ranges[index].end)
      == if index + 1 < |ranges| then FramesAfter(ranges, index + 1, ranges[index + 1].start) else []
  {
    assert FramesFrom(ranges[index], ranges[index].end) == [];
    if index + 1 < |ranges| {
      var rest := ranges[index + 1..];
      assert rest[1..] == ranges[index + 2..];
      assert FramesFrom(rest[0], rest[0].start) == Frames(rest[0]);
    }
  }

  class Allocator {
    const ranges: seq<Range>  // fixed when the allocator is built
    const rangeCount: nat
    var currentRange: nat
    var currentFrame: U64

    ghost predicate Valid()
      reads this
    {
      rangeCount <= |ranges| && Position(ranges[..rangeCount], currentRange, currentFrame)
    }

    /** The frames not handed out yet, in the order they will be. */
    ghost function Remaining(): seq<int>
      requires Valid()
      reads this
    {
      FramesAfter(ranges[..rangeCount], currentRange, currentFrame)
    }

    constructor (ranges: seq<Range>, rangeCount: nat)
      requires rangeCount <= |ranges| && AllWellFormed(ranges[..rangeCount])
      ensures Valid() && this.ranges == ranges && this.rangeCount == rangeCount
      ensures Remaining() == AllFrames(ranges[..rangeCount])
    {
      this.ranges := ranges;
      this.rangeCount := rangeCount;
      currentRange := 0;
      currentFrame := if rangeCount > 0 then ranges[0].start else 0;
      if rangeCount > 0 { FramesAfterStart(ranges[..rangeCount]); }
    }

    /** Leaves an exhausted range; false when it was the last one. */
    method AdvanceRange(rangeIndex: nat) returns (more: bool)
      requires Valid() && rangeIndex == currentRange < rangeCount
      requires currentFrame == ranges[rangeIndex].end
      modifies this`currentRange, this`currentFrame
      ensures Valid() && Remaining() == old(Remaining())
      ensures currentRange == rangeIndex + 1
      ensures more <==> currentRange < rangeCount
    {
      FramesAfterEnd(ranges[..rangeCount], rangeIndex);
      var nextRange := rangeIndex + 1;
      if nextRange >= rangeCount {
        currentRange := rangeCount;
        return false;
      }
      if currentRange == rangeIndex {
        currentRange := nextRange;
        currentFrame := ranges[nextRange].start;
      }
      return true;
    }

    /** The next frame in order, or `None` once all have been handed out.
        The type of `next` records that the addition stays within 64 bits. */
    method AllocateFrame() returns (r: Option<U64>)
      requires Valid()
      modifies this`currentRange, this`currentFrame
      ensures Valid()
      ensures old(Remaining()) == [] ==> r == None && Remaining() == []
      ensures old(Remaining()) != [] ==> r == Some(old(Remaining())[0]) && Remaining() == old(Remaining())[1..]
    {
      while true
        invariant Valid() && Remaining() == old(Remaining())
        decreases rangeCount - currentRange
      {
        var rangeIndex := currentRange;
        if rangeIndex >= rangeCount {
          return None;
        }
        var range := ranges[rangeIndex];
        var current := currentFrame;
        if current < range.start || current >= range.end {
          var more := AdvanceRange(rangeIndex);
          if !more {
            return None;
          }
          continue;
        }
        FramesAfterInside(ranges[..rangeCount], rangeIndex, current);
        assert Remaining() == [current] + FramesAfter(ranges[..rangeCount], rangeIndex, current + FRAME_SIZE);
        var next: U64 := current + FRAME_SIZE;
        if next > range.end {
          assert false;  // both ends are aligned, so a whole frame is left
        }
        currentFrame := next;
        return Some(current);
      }
    }

    /** The k-th request on a list of frames. */
    method AllocateNth(ghost frames: seq<int>, ghost k: nat) returns (r: Option<int>)
      requires Valid() && Remaining() == Drop(frames, k)
      modifies this`currentRange, this`currentFrame
      ensures Valid() && Remaining() == Drop(frames, k + 1)
      ensures r == Answer(frames, k)
    {
      DropStep(frames, k);
      var frame := AllocateFrame();
      r := if frame.Some? then Some(frame.value as int) else None;
    }

    /** A single caller asking `n` times from its k-th request on gets every
        frame once, in order, and then `None` for ever. */
    method AllocateMany(n: nat, ghost frames: seq<int>, ghost k: nat) returns (results: seq<Option<int>>)
      requires Valid() && Remaining() == Drop(frames, k)
      modifies this`currentRange, this`currentFrame
      ensures Valid() && Remaining() == Drop(frames, k + n)
      ensures results == Answers(frames, k, n)
      decreases n
    {
      if n == 0 {
        return [];
      }
      var first := AllocateNth(frames, k);
      var rest := AllocateMany(n - 1, frames, k + 1);
      results := [first] + rest;
    }
  }

  /** What the k-th request on a list of frames is answered. */
  function Answer(frames: seq<int>, k: nat): Option<int> {
    if k < |frames| then Some(frames[k]) else None
  }

  /** The answers to `n` requests from the k-th on. */
  function Answers(frames: seq<int>, k: nat, n: nat): seq<Option<int>>
    decreases n
  {
    if n == 0 then [] else [Answer(frames, k)] + Answers(frames, k + 1, n - 1)
  }

  function Drop(frames: seq<int>, n: nat): seq<int> {
    frames[Min(n, |frames|)..]
  }

  lemma DropStep(frames: seq<int>, n: nat)
    ensures Drop(frames, n) == [] ==> Answer(frames, n) == None && Drop(frames, n + 1) == []
    ensures Drop(frames, n) != [] ==>
      Answer(frames, n) == Some(Drop(frames, n)[0]) && Drop(frames, n + 1) == Drop(frames, n)[1..]
  {
  }
}
