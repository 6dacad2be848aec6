/**
 Exactly when the lock-free allocator is safe: no interleaving returns a frame
 twice if and only if no two recorded ranges overlap or touch.  For every list
 of ranges that fails the condition a run that returns a frame twice is built.
 */
module FrameExactness {
  import opened Words
  import opened FrameRanges
  import opened FrameAllocator
  import opened FrameProtocol

  // ---- running one thread alone ----

  lemma RunOne(ranges: seq<Range>, s: State, t: nat)
    requires Sane(ranges, s) && t < |s.threads|
    ensures Run(ranges, s, [t]) == Next(ranges, s, t)
  {
  }

  lemma RunFour(ranges: seq<Range>, s: State, t: nat)
    requires Sane(ranges, s) && t < |s.threads|
    ensures
      var s1 := Next(ranges, s, t);
      var s2 := Next(ranges, s1, t);
      var s3 := Next(ranges, s2, t);
      Run(ranges, s, [t, t, t, t]) == Next(ranges, s3, t)
  {
    var s1 := Next(ranges, s, t);
    var s2 := Next(ranges, s1, t);
    var s3 := Next(ranges, s2, t);
    RunOne(ranges, s, t);
    RunOne(ranges, s1, t);
    RunOne(ranges, s2, t);
    RunOne(ranges, s3, t);
    RunConcat(ranges, s2, [t], [t]);
    RunConcat(ranges, s1, [t], [t, t]);
    RunConcat(ranges, s, [t], [t, t, t]);
  }

  /** Only thread `t` moved between the two states. */
  predicate OnlyMoved(s: State, s': State, t: nat) {
    && |s'.threads| == |s.threads|
    && forall u :: 0 <= u < |s.threads| && u != t ==> s'.threads[u] == s.threads[u]
  }

  /** Thread `t` is about to load current_range. */
  predicate Ready(s: State, t: nat) {
    t < |s.threads| && s.threads[t].pc == LoadRange
  }

  /** Undisturbed, a thread claims the current frame and starts its next call. */
  lemma SoloIssue(ranges: seq<Range>, s: State, t: nat)
    requires Sane(ranges, s) && Ready(s, t) && s.range < |ranges|
    requires ranges[s.range].start <= s.frame && s.frame + FRAME_SIZE <= ranges[s.range].end
    ensures
      var s' := Run(ranges, s, [t, t, t, t]);
      && s'.range == s.range && s'.frame == s.frame + FRAME_SIZE
      && s'.issued == s.issued + [s.frame]
      && Ready(s', t) && OnlyMoved(s, s', t)
  {
    RunFour(ranges, s, t);
  }

  /** Undisturbed, a thread that finds the range exhausted moves to the next one. */
  lemma SoloAdvance(ranges: seq<Range>, s: State, t: nat)
    requires Sane(ranges, s) && Ready(s, t) && s.range + 1 < |ranges| && !ranges[s.range].Contains(s.frame)
    ensures
      var s' := Run(ranges, s, [t, t, t, t]);
      && s'.range == s.range + 1 && s'.frame == ranges[s.range + 1].start
      && s'.issued == s.issued
      && Ready(s', t) && OnlyMoved(s, s', t)
  {
    RunFour(ranges, s, t);
  }

  /** What has been issued, followed by what a lone caller will still get from ranges 0 to `i`. */
  function Promise(ranges: seq<Range>, s: State, i: nat): seq<int>
    requires i < |ranges| && Position(ranges[..i + 1], s.range, s.frame)
  {
    s.issued + FramesAfter(ranges[..i + 1], s.range, s.frame)
  }

  /** A frame moves from what is promised to what has been issued. */
  lemma PromiseStep(ranges: seq<Range>, s: State, s': State, i: nat)
    requires s.range <= i < |ranges| && Position(ranges[..i + 1], s.range, s.frame) && s.frame < ranges[s.range].end
    requires s'.range == s.range && s'.frame == s.frame + FRAME_SIZE && s'.issued == s.issued + [s.frame]
    ensures s'.frame <= ranges[s.range].end && Position(ranges[..i + 1], s'.range, s'.frame)
    ensures Promise(ranges, s', i) == Promise(ranges, s, i)
  {
    FramesAfterInside(ranges[..i + 1], s.range, s.frame);
    var rest := FramesAfter(ranges[..i + 1], s.range, s.frame + FRAME_SIZE);
    assert (s.issued + [s.frame]) + rest == s.issued + ([s.frame] + rest);
  }

  lemma SoloIssueKeepsPromise(ranges: seq<Range>, s: State, t: nat, i: nat)
    requires Sane(ranges, s) && Ready(s, t) && s.range <= i < |ranges| && Position(ranges[..i + 1], s.range, s.frame)
    requires s.frame < ranges[s.range].end
    ensures
      var s' := Run(ranges, s, [t, t, t, t]);
      && s'.range == s.range && s.frame < s'.frame <= ranges[s.range].end
      && Position(ranges[..i + 1], s'.range, s'.frame) && Promise(ranges, s', i) == Promise(ranges, s, i)
      && Ready(s', t) && OnlyMoved(s, s', t)
  {
    var r := ranges[..i + 1][s.range];
    assert r == ranges[s.range] && WellFormed(r);
    BoundariesApart(s.frame, r.end);
    SoloIssue(ranges, s, t);
    PromiseStep(ranges, s, Run(ranges, s, [t, t, t, t]), i);
  }

  lemma SoloAdvanceKeepsPromise(ranges: seq<Range>, s: State, t: nat, i: nat)
    requires Sane(ranges, s) && Ready(s, t) && s.range < i < |ranges| && Position(ranges[..i + 1], s.range, s.frame)
    requires s.frame == ranges[s.range].end
    ensures
      var s' := Run(ranges, s, [t, t, t, t]);
      && s'.range == s.range + 1
      && Position(ranges[..i + 1], s'.range, s'.frame) && Promise(ranges, s', i) == Promise(ranges, s, i)
      && Ready(s', t) && OnlyMoved(s, s', t)
  {
    FramesAfterEnd(ranges[..i + 1], s.range);
    SoloAdvance(ranges, s, t);
    assert WellFormed(ranges[..i + 1][s.range + 1]);
  }

  /** Undisturbed, a thread issues every frame up to the end of range `i`, in order. */
  lemma {:induction false} SoloTo(ranges: seq<Range>, s: State, t: nat, i: nat) returns (schedule: seq<nat>)
    requires AllWellFormed(ranges) && Sane(ranges, s) && Ready(s, t)
    requires s.range <= i < |ranges| && Position(ranges[..i + 1], s.range, s.frame)
    ensures Legal(|s.threads|, schedule)
    ensures
      var s' := Run(ranges, s, schedule);
      && s'.range == i && s'.frame == ranges[i].end
      && s'.issued == Promise(ranges, s, i)
      && Ready(s', t) && OnlyMoved(s, s', t)
    decreases i - s.range, ranges[s.range].end - s.frame
  {
    var go := [t, t, t, t];
    if s.frame < ranges[s.range].end {
      SoloIssueKeepsPromise(ranges, s, t, i);
      var rest := SoloTo(ranges, Run(ranges, s, go), t, i);
      schedule := go + rest;
      RunConcat(ranges, s, go, rest);
    } else if s.range < i {
      SoloAdvanceKeepsPromise(ranges, s, t, i);
      var rest := SoloTo(ranges, Run(ranges, s, go), t, i);
      schedule := go + rest;
      RunConcat(ranges, s, go, rest);
    } else {
      FramesAfterEnd(ranges[..i + 1], s.range);
      schedule := [];
    }
  }

  /** Thread 0 alone, from the start, issues all frames of ranges 0 to `i`. */
  lemma SoloFromStart(ranges: seq<Range>, n: nat, i: nat) returns (schedule: seq<nat>)
    requires AllWellFormed(ranges) && 0 < n && i < |ranges|
    ensures Legal(n, schedule)
    ensures
      var s' := Run(ranges, Initial(ranges, n), schedule);
      && s'.range == i && s'.frame == ranges[i].end
      && s'.issued == AllFrames(ranges[..i + 1])
      && Ready(s', 0)
      && forall u :: 0 < u < n ==> s'.threads[u].pc == Idle
  {
    var s := Initial(ranges, n);
    RunOne(ranges, s, 0);
    var s1 := Next(ranges, s, 0);
    var rest := SoloTo(ranges, s1, 0, i);
    schedule := [0] + rest;
    RunConcat(ranges, s, [0], rest);
    FramesAfterStart(ranges[..i + 1]);
  }

  // ---- the exact condition ----

  ghost predicate AlwaysUnique(ranges: seq<Range>) {
    forall n: nat, schedule: seq<nat> | Legal(n, schedule) ::
      NoDuplicates(Run(ranges, Initial(ranges, n), schedule).issued)
  }

  predicate Overlap(a: Range, b: Range) {
    a.start < b.end && b.start < a.end
  }

  predicate NoOverlap(ranges: seq<Range>) {
    forall i, j :: 0 <= i < j < |ranges| ==> !Overlap(ranges[i], ranges[j])
  }

  lemma AllFramesAppend(ranges: seq<Range>, r: Range)
    requires AllWellFormed(ranges) && WellFormed(r)
    ensures AllFrames(ranges + [r]) == AllFrames(ranges) + Frames(r)
  {
    if ranges == [] {
      assert [r][1..] == [];
    } else {
      assert (ranges + [r])[1..] == ranges[1..] + [r];
      AllFramesAppend(ranges[1..], r);
    }
  }

  lemma RepeatedElement(a: seq<int>, b: seq<int>, f: int)
    requires f in a && f in b
    ensures !NoDuplicates(a + b)
  {
    var i :| 0 <= i < |a| && a[i] == f;
    var j :| 0 <= j < |b| && b[j] == f;
    assert (a + b)[i] == (a + b)[|a| + j];
  }

  lemma SharedFrame(a: Range, b: Range) returns (f: int)
    requires WellFormed(a) && WellFormed(b) && Overlap(a, b)
    ensures f in Frames(a) && f in Frames(b)
  {
    f := if a.start < b.start then b.start else a.start;
    BoundariesApart(f, a.end);
    BoundariesApart(f, b.end);
    FrameOf(a, f);
    FrameOf(b, f);
  }

  lemma SharedFrameRepeats(ranges: seq<Range>, i: nat, j: nat, f: int)
    requires AllWellFormed(ranges) && i < j < |ranges| && f in Frames(ranges[i]) && f in Frames(ranges[j])
    ensures !NoDuplicates(AllFrames(ranges[..j + 1]))
  {
    AllFramesMember(ranges[..j], f);
    assert f in Frames(ranges[..j][i]);
    assert ranges[..j + 1] == ranges[..j] + [ranges[j]];
    AllFramesAppend(ranges[..j], ranges[j]);
    RepeatedElement(AllFrames(ranges[..j]), Frames(ranges[j]), f);
  }

  /** Overlapping ranges share a frame, which even a lone caller gets twice. */
  lemma OverlapRepeats(ranges: seq<Range>, i: nat, j: nat)
    requires AllWellFormed(ranges) && i < j < |ranges| && Overlap(ranges[i], ranges[j])
    ensures !AlwaysUnique(ranges)
  {
    var f := SharedFrame(ranges[i], ranges[j]);
    SharedFrameRepeats(ranges, i, j, f);
    var schedule := SoloFromStart(ranges, 1, j);
    assert Legal(1, schedule);
  }

  /** Thread `u` finds the current range exhausted and wins the exchange, but
      has not stored the new range's start yet. */
  lemma AdvanceWithoutStore(ranges: seq<Range>, s: State, u: nat)
    requires Sane(ranges, s) && u < |s.threads| && s.threads[u].pc == Idle
    requires s.range + 1 < |ranges| && !ranges[s.range].Contains(s.frame)
    ensures
      var s' := Run(ranges, s, [u, u, u, u]);
      && s'.range == s.range + 1 && s'.frame == s.frame && s'.issued == s.issued
      && s'.threads[u].pc == StoreFrame(s.range + 1) && OnlyMoved(s, s', u)
  {
    RunFour(ranges, s, u);
  }

  /** Threads 1 to m each advance the range by one and stall before their store. */
  lemma {:induction false} Pile(ranges: seq<Range>, s: State, m: nat) returns (schedule: seq<nat>)
    requires Sane(ranges, s) && 0 < m < |s.threads| && s.range + m < |ranges|
    requires forall u :: 0 < u <= m ==> s.threads[u].pc == Idle
    requires forall j :: s.range <= j < s.range + m ==> !ranges[j].Contains(s.frame)
    ensures Legal(|s.threads|, schedule)
    ensures
      var s' := Run(ranges, s, schedule);
      && s'.range == s.range + m && s'.frame == s.frame && s'.issued == s.issued
      && |s'.threads| == |s.threads|
      && s'.threads[m].pc == StoreFrame(s.range + m)
      && (forall u :: 0 < u <= m ==> s'.threads[u].pc.StoreFrame?)
      && s'.threads[0] == s.threads[0]
      && forall u :: m < u < |s.threads| ==> s'.threads[u] == s.threads[u]
    decreases m
  {
    var go := [m, m, m, m];
    if m == 1 {
      AdvanceWithoutStore(ranges, s, 1);
      schedule := go;
    } else {
      var first := Pile(ranges, s, m - 1);
      var s1 := Run(ranges, s, first);
      AdvanceWithoutStore(ranges, s1, m);
      schedule := first + go;
      RunConcat(ranges, s, first, go);
    }
  }

  /** The delayed store takes current_frame back to a frame already claimed. */
  lemma LateStoreRepeats(ranges: seq<Range>, s: State, u: nat) returns (schedule: seq<nat>)
    requires AllWellFormed(ranges) && Sane(ranges, s) && Ready(s, 0) && 0 < u < |s.threads|
    requires s.range < |ranges| && s.threads[u].pc == StoreFrame(s.range) && s.frame == ranges[s.range].start
    ensures Legal(|s.threads|, schedule)
    ensures !NoDuplicates(Run(ranges, s, schedule).issued)
  {
    var go := [0, 0, 0, 0];
    SoloIssue(ranges, s, 0);
    var s1 := Run(ranges, s, go);
    RunOne(ranges, s1, u);
    var s2 := Run(ranges, s1, [u]);
    SoloIssue(ranges, s2, 0);
    var s3 := Run(ranges, s2, go);
    RunConcat(ranges, s1, [u], go);
    RunConcat(ranges, s, go, [u] + go);
    schedule := go + ([u] + go);
    RepeatedElement(s.issued + [s.frame], [s.frame], s.frame);
    assert s3.issued == s.issued + [s.frame] + [s.frame];
  }

  /** A range that starts where an earlier one ends: its start is returned twice. */
  lemma TouchForwardRepeats(ranges: seq<Range>, i: nat, k: nat)
    requires AllWellFormed(ranges) && NoOverlap(ranges) && i < k < |ranges|
    requires ranges[i].end == ranges[k].start
    ensures !AlwaysUnique(ranges)
  {
    var n := k - i + 1;
    var s := Initial(ranges, n);
    var a := SoloFromStart(ranges, n, i);
    var s1 := Run(ranges, s, a);
    forall j | i <= j < k ensures !ranges[j].Contains(s1.frame) {
      assert !Overlap(ranges[j], ranges[k]);
    }
    var b := Pile(ranges, s1, k - i);
    var s2 := Run(ranges, s1, b);
    var c := LateStoreRepeats(ranges, s2, k - i);
    RunConcat(ranges, s1, b, c);
    RunConcat(ranges, s, a, b + c);
    assert Legal(n, a + (b + c));
  }

  /** Thread `u` has loaded range `k` and nothing else since. */
  lemma LoadsRange(ranges: seq<Range>, s: State, u: nat)
    requires Sane(ranges, s) && u < |s.threads| && s.threads[u].pc == Idle && s.range < |ranges|
    ensures
      var s' := Run(ranges, s, [u, u]);
      && s'.range == s.range && s'.frame == s.frame && s'.issued == s.issued
      && s'.threads[u].pc == LoadFrame(s.range) && OnlyMoved(s, s', u)
  {
    RunOne(ranges, s, u);
    RunOne(ranges, Next(ranges, s, u), u);
    RunConcat(ranges, s, [u], [u]);
  }

  /** A thread holding an old range index claims the current frame if it lies in that range. */
  lemma StaleClaim(ranges: seq<Range>, s: State, u: nat, k: nat)
    requires AllWellFormed(ranges) && Sane(ranges, s) && u < |s.threads| && k < |ranges|
    requires s.threads[u].pc == LoadFrame(k) && s.frame == ranges[k].start
    ensures Run(ranges, s, [u, u]).issued == s.issued + [s.frame]
  {
    RunOne(ranges, s, u);
    RunOne(ranges, Next(ranges, s, u), u);
    RunConcat(ranges, s, [u], [u]);
  }

  lemma StartIsIssued(ranges: seq<Range>, k: nat)
    requires AllWellFormed(ranges) && k < |ranges|
    ensures ranges[k].start in AllFrames(ranges[..k + 1])
  {
    assert ranges[..k + 1] == ranges[..k] + [ranges[k]];
    AllFramesAppend(ranges[..k], ranges[k]);
    FrameOf(ranges[k], ranges[k].start);
  }

  /** Thread 1 loads range `k` and sleeps until thread 0 has issued everything up to range `i`. */
  lemma SleepThrough(ranges: seq<Range>, i: nat, k: nat) returns (schedule: seq<nat>)
    requires AllWellFormed(ranges) && k < i < |ranges|
    ensures Legal(2, schedule)
    ensures
      var s := Run(ranges, Initial(ranges, 2), schedule);
      && s.frame == ranges[i].end && s.threads[1].pc == LoadFrame(k)
      && AllFrames(ranges[..k + 1]) <= s.issued
  {
    var s := Initial(ranges, 2);
    var a := SoloFromStart(ranges, 2, k);
    var s1 := Run(ranges, s, a);
    LoadsRange(ranges, s1, 1);
    var s2 := Run(ranges, s1, [1, 1]);
    var b := SoloTo(ranges, s2, 0, i);
    RunConcat(ranges, s1, [1, 1], b);
    RunConcat(ranges, s, a, [1, 1] + b);
    schedule := a + ([1, 1] + b);
  }

  lemma StaleRun(ranges: seq<Range>, i: nat, k: nat) returns (schedule: seq<nat>)
    requires AllWellFormed(ranges) && k < i < |ranges| && ranges[i].end == ranges[k].start
    ensures Legal(2, schedule)
    ensures !NoDuplicates(Run(ranges, Initial(ranges, 2), schedule).issued)
  {
    var a := SleepThrough(ranges, i, k);
    var s := Run(ranges, Initial(ranges, 2), a);
    StaleClaim(ranges, s, 1, k);
    StartIsIssued(ranges, k);
    assert s.frame in s.issued;
    RepeatedElement(s.issued, [s.frame], s.frame);
    RunConcat(ranges, Initial(ranges, 2), a, [1, 1]);
    schedule := a + [1, 1];
  }

  /** A thread that loaded an earlier range long ago claims its start again when
      current_frame reaches it as the end of a later range. */
  lemma TouchBackwardRepeats(ranges: seq<Range>, i: nat, k: nat)
    requires AllWellFormed(ranges) && k < i < |ranges|
    requires ranges[i].end == ranges[k].start
    ensures !AlwaysUnique(ranges)
  {
    var schedule := StaleRun(ranges, i, k);
    assert Legal(2, schedule);
  }

  /** Every interleaving of every number of threads returns each frame at most
      once if and only if no two ranges overlap or touch. */
  lemma UniqueExactlyWhenSeparated(ranges: seq<Range>)
    requires AllWellFormed(ranges)
    ensures AlwaysUnique(ranges) <==> Separated(ranges)
  {
    if Separated(ranges) {
      forall n: nat, schedule: seq<nat> | Legal(n, schedule)
        ensures NoDuplicates(Run(ranges, Initial(ranges, n), schedule).issued)
      {
        Safety(ranges, n, schedule);
      }
    } else if !NoOverlap(ranges) {
      var i, j :| 0 <= i < j < |ranges| && Overlap(ranges[i], ranges[j]);
      OverlapRepeats(ranges, i, j);
    } else {
      var i, j :| 0 <= i < |ranges| && 0 <= j < |ranges| && i != j
        && !(ranges[i].end < ranges[j].start || ranges[j].end < ranges[i].start);
      assert !Overlap(ranges[i], ranges[j]) by {
        assert i < j ==> !Overlap(ranges[i], ranges[j]);
        assert j < i ==> !Overlap(ranges[j], ranges[i]);
      }
      var first, second := if ranges[i].end == ranges[j].start then i else j,
                           if ranges[i].end == ranges[j].start then j else i;
      if first < second {
        TouchForwardRepeats(ranges, first, second);
      } else {
        TouchBackwardRepeats(ranges, first, second);
      }
    }
  }

  /** The boot map decides: for page-aligned usable regions, frames are unique in
      every interleaving exactly when no two of the regions behind the recorded
      ranges overlap or touch. */
  lemma UniqueExactlyWithGaps(regions: seq<Region>)
    requires PageAligned(regions)
    ensures AlwaysUnique(Recorded(regions)) <==> RecordedGaps(regions)
    ensures |Qualifying(regions)| <= MAX_USABLE_RANGES ==> (RecordedGaps(regions) <==> GapsBetween(regions))
  {
    UniqueExactlyWhenSeparated(Recorded(regions));
    SeparatedExactlyWithGaps(regions);
  }
}
