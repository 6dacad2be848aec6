/**
 Exactly when the allocator hands out everything before it answers None, for
 every list of well-formed ranges.  A lone caller always gets every frame.  With
 several callers a store delayed past its range can take current_frame out of a
 later range, which is then given up; what is issued all the same are the ranges
 that no delayed store leads out of.
 */
module FrameCompleteness {
  import opened Words
  import opened FrameRanges
  import opened FrameAllocator
  import opened FrameProtocol
  import opened FrameExactness
  import opened FrameMoves

  /** Once current_range has passed the last range every later call returns None. */
  predicate Exhausted(ranges: seq<Range>, s: State) {
    s.range == |ranges|
  }

  /** Every run that exhausts the allocator has issued all frames by then. */
  ghost predicate HandsOutEverything(ranges: seq<Range>)
    requires AllWellFormed(ranges)
  {
    forall n: nat, schedule: seq<nat> | Legal(n, schedule) ::
      var s := Run(ranges, Initial(ranges, n), schedule);
      Exhausted(ranges, s) ==> forall f :: f in AllFrames(ranges) ==> f in s.issued
  }

  /** However the run goes on, frame `f` is never issued. */
  ghost predicate LostForGood(ranges: seq<Range>, s: State, f: int)
    requires AllWellFormed(ranges) && Sane(ranges, s)
  {
    && Exhausted(ranges, s) && f in AllFrames(ranges)
    && forall more: seq<nat> | Legal(|s.threads|, more) :: f !in Run(ranges, s, more).issued
  }

  /** Some run ends with a frame that no continuation issues. */
  ghost predicate LosesFrames(ranges: seq<Range>)
    requires AllWellFormed(ranges)
  {
    exists n: nat, schedule: seq<nat> :: Legal(n, schedule)
      && exists f :: LostForGood(ranges, Run(ranges, Initial(ranges, n), schedule), f)
  }

  // ---- what every run issues ----

  /** The lowest start among ranges 1 to `r`: a delayed store can take current_frame back to it. */
  function LowestStart(ranges: seq<Range>, r: nat): nat
    requires 1 <= r < |ranges|
  {
    if r == 1 then ranges[1].start else Min(LowestStart(ranges, r - 1), ranges[r].start)
  }

  /** No delayed store takes current_frame below range `r`, and so none out of it. */
  predicate Anchored(ranges: seq<Range>, r: nat)
    requires r < |ranges|
  {
    r >= 2 ==> ranges[r].start <= LowestStart(ranges, r - 1)
  }

  /** All frames from the first start up to here are issued before range `r` is left. */
  function Secured(ranges: seq<Range>, r: nat): nat
    requires r < |ranges|
  {
    if r == 0 then ranges[0].end
    else if Anchored(ranges, r) then Max(Secured(ranges, r - 1), ranges[r].end)
    else Secured(ranges, r - 1)
  }

  /** Range `j` starts neither below the first one nor above what is secured when it is entered. */
  predicate StartCovered(ranges: seq<Range>, j: nat)
    requires 1 <= j < |ranges|
  {
    ranges[0].start <= ranges[j].start <= Secured(ranges, j - 1)
  }

  /** Range `j` does not end above what is secured in the end. */
  predicate EndCovered(ranges: seq<Range>, j: nat)
    requires j < |ranges|
  {
    ranges[j].end <= Secured(ranges, |ranges| - 1)
  }

  predicate Covered(ranges: seq<Range>) {
    && (forall j :: 1 <= j < |ranges| ==> StartCovered(ranges, j))
    && (forall j :: 0 <= j < |ranges| ==> EndCovered(ranges, j))
  }

  lemma {:induction false} SecuredGrows(ranges: seq<Range>, i: nat, j: nat)
    requires i <= j < |ranges|
    ensures Secured(ranges, i) <= Secured(ranges, j)
    ensures Anchored(ranges, i) ==> ranges[i].end <= Secured(ranges, j)
    decreases j
  {
    if i < j { SecuredGrows(ranges, i, j - 1); }
  }

  lemma {:induction false} SecuredIsBoundary(ranges: seq<Range>, r: nat)
    requires AllWellFormed(ranges) && r < |ranges|
    ensures Secured(ranges, r) % FRAME_SIZE == 0
  {
    assert WellFormed(ranges[r]);
    if r > 0 { SecuredIsBoundary(ranges, r - 1); }
  }

  lemma {:induction false} LowestStartIsLow(ranges: seq<Range>, i: nat, r: nat)
    requires 1 <= i <= r < |ranges|
    ensures LowestStart(ranges, r) <= ranges[i].start
    decreases r
  {
    if i < r { LowestStartIsLow(ranges, i, r - 1); }
  }

  // ---- covered ranges: nothing is lost ----

  /** All frames from the first range's start up to `hi` have been issued. */
  ghost predicate IssuedUpTo(ranges: seq<Range>, issued: seq<int>, hi: int)
    requires ranges != []
  {
    forall g :: FrameBetween(g, ranges[0].start, hi) ==> g in issued
  }

  /** What a thread about to leave range `ri`, or all ranges, knows. */
  ghost predicate LeavingInv(ranges: seq<Range>, s: State, pc: Pc)
    requires ranges != []
  {
    match pc
    case CasRange(ri) =>
      && ri < |ranges| && IssuedUpTo(ranges, s.issued, Secured(ranges, ri))
      && (s.range == 0 ==> ranges[0].end <= s.frame)
    case StoreRange => IssuedUpTo(ranges, s.issued, Secured(ranges, |ranges| - 1))
    case _ => true
  }

  /** Everything below current_frame is issued, and so is what the ranges left
      behind secure; current_frame is not below the lowest start won. */
  ghost predicate FrameCover(ranges: seq<Range>, s: State) {
    && ranges != []
    && ranges[0].start <= s.frame && IssuedUpTo(ranges, s.issued, s.frame)
    && (0 < s.range <= |ranges| ==> IssuedUpTo(ranges, s.issued, Secured(ranges, s.range - 1)))
    && (0 < s.range < |ranges| ==> LowestStart(ranges, s.range) <= s.frame)
  }

  ghost predicate CoverInv(ranges: seq<Range>, s: State) {
    FrameCover(ranges, s) && forall t :: 0 <= t < |s.threads| ==> LeavingInv(ranges, s, s.threads[t].pc)
  }

  lemma {:induction false} NarrowIssued(ranges: seq<Range>, issued: seq<int>, hi: int, lower: int)
    requires ranges != [] && IssuedUpTo(ranges, issued, hi) && lower <= hi
    ensures IssuedUpTo(ranges, issued, lower)
  {
    forall g | FrameBetween(g, ranges[0].start, lower) ensures g in issued {
      assert FrameBetween(g, ranges[0].start, hi);
    }
  }

  lemma {:induction false} IssuedGrows(ranges: seq<Range>, s: State, t: nat)
    requires Sane(ranges, s) && t < |s.threads| && ranges != []
    ensures forall hi :: IssuedUpTo(ranges, s.issued, hi) ==> IssuedUpTo(ranges, Next(ranges, s, t).issued, hi)
  {
  }

  /** A thread that loaded range `ri` and finds current_frame elsewhere: all that is
      secured by `ri` has been issued. */
  lemma {:induction false} LeavesSecured(ranges: seq<Range>, s: State, t: nat)
    requires AllWellFormed(ranges) && ranges != [] && CoreInv(ranges, s) && CoverInv(ranges, s)
    requires t < |s.threads| && s.threads[t].pc.LoadFrame? && s.threads[t].pc.ri < |ranges|
    requires !DecidePc(ranges, s.threads[t].pc.ri, s.frame).CasFrame?
    ensures IssuedUpTo(ranges, s.issued, Secured(ranges, s.threads[t].pc.ri))
    ensures s.range == 0 ==> ranges[0].end <= s.frame
  {
    var ri := s.threads[t].pc.ri;
    assert PcInv(ranges, s.range, s.stored, s.threads[t].pc);
    if ri < s.range {
      SecuredGrows(ranges, ri, s.range - 1);
      NarrowIssued(ranges, s.issued, Secured(ranges, s.range - 1), Secured(ranges, ri));
    } else if Anchored(ranges, ri) {
      assert WellFormed(ranges[ri]);
      if s.frame < ranges[ri].end { BoundariesApart(s.frame, ranges[ri].end); }
      NarrowIssued(ranges, s.issued, s.frame, ranges[ri].end);
    }
  }

  /** A store takes current_frame to a start below what is secured. */
  lemma {:induction false} StoreCovered(ranges: seq<Range>, s: State, ri: nat)
    requires Covered(ranges) && FrameCover(ranges, s) && 0 < ri <= s.range <= |ranges| && ri < |ranges|
    ensures ranges[0].start <= ranges[ri].start && IssuedUpTo(ranges, s.issued, ranges[ri].start)
    ensures s.range < |ranges| ==> LowestStart(ranges, s.range) <= ranges[ri].start
  {
    assert StartCovered(ranges, ri);
    SecuredGrows(ranges, ri - 1, s.range - 1);
    NarrowIssued(ranges, s.issued, Secured(ranges, s.range - 1), ranges[ri].start);
    if s.range < |ranges| { LowestStartIsLow(ranges, ri, s.range); }
  }

  /** A claim issues the one frame that current_frame passes. */
  lemma {:induction false} ClaimCovered(ranges: seq<Range>, issued: seq<int>, frame: int)
    requires ranges != [] && frame % FRAME_SIZE == 0 && IssuedUpTo(ranges, issued, frame)
    ensures IssuedUpTo(ranges, issued + [frame], frame + FRAME_SIZE)
  {
    forall g | FrameBetween(g, ranges[0].start, frame + FRAME_SIZE) ensures g in issued + [frame] {
      if g < frame {
        BoundariesApart(g, frame);
        assert FrameBetween(g, ranges[0].start, frame);
      } else if frame < g {
        BoundariesApart(frame, g);
      }
    }
  }

  /** Winning a range: what the range left behind secures is issued, and current_frame is above the new floor. */
  lemma {:induction false} WinCovered(ranges: seq<Range>, s: State, ri: nat)
    requires Covered(ranges) && FrameCover(ranges, s) && LeavingInv(ranges, s, CasRange(ri))
    requires s.range == ri && ri + 1 < |ranges|
    ensures LowestStart(ranges, ri + 1) <= s.frame && IssuedUpTo(ranges, s.issued, Secured(ranges, ri))
  {
    if ri == 0 { assert StartCovered(ranges, 1); }
  }

  lemma {:induction false} NextFrameCover(ranges: seq<Range>, s: State, t: nat)
    requires Covered(ranges) && Sane(ranges, s) && t < |s.threads| && CoreInv(ranges, s) && CoverInv(ranges, s)
    ensures FrameCover(ranges, Next(ranges, s, t))
  {
    var pc := s.threads[t].pc;
    assert PcInv(ranges, s.range, s.stored, pc) && LeavingInv(ranges, s, pc);
    if pc.StoreFrame? {
      StoreCovered(ranges, s, pc.ri);
    } else if pc.CasFrame? && s.frame == pc.current {
      ClaimCovered(ranges, s.issued, s.frame);
      IssuedGrows(ranges, s, t);
    } else if pc.CasRange? && s.range == pc.ri {
      WinCovered(ranges, s, pc.ri);
    }
  }

  lemma {:induction false} NextLeaving(ranges: seq<Range>, s: State, t: nat, u: nat)
    requires AllWellFormed(ranges) && Sane(ranges, s) && t < |s.threads| && u < |s.threads|
    requires CoreInv(ranges, s) && CoverInv(ranges, s)
    ensures LeavingInv(ranges, Next(ranges, s, t), Next(ranges, s, t).threads[u].pc)
  {
    var s' := Next(ranges, s, t);
    var pc := s.threads[t].pc;
    assert PcInv(ranges, s.range, s.stored, pc) && LeavingInv(ranges, s, s.threads[u].pc);
    IssuedGrows(ranges, s, t);
    if u != t {
      assert s'.threads[u] == s.threads[u];
    } else if pc.LoadFrame? && !DecidePc(ranges, pc.ri, s.frame).CasFrame? {
      LeavesSecured(ranges, s, t);
    }
  }

  lemma {:induction false} NextCover(ranges: seq<Range>, s: State, t: nat)
    requires AllWellFormed(ranges) && Covered(ranges) && Sane(ranges, s) && t < |s.threads|
    requires CoreInv(ranges, s) && CoverInv(ranges, s)
    ensures CoverInv(ranges, Next(ranges, s, t))
  {
    NextFrameCover(ranges, s, t);
    forall u | 0 <= u < |s.threads| ensures LeavingInv(ranges, Next(ranges, s, t), Next(ranges, s, t).threads[u].pc) {
      NextLeaving(ranges, s, t, u);
    }
  }

  lemma {:induction false} RunCover(ranges: seq<Range>, s: State, schedule: seq<nat>)
    requires AllWellFormed(ranges) && ranges != [] && Covered(ranges) && Sane(ranges, s)
    requires CoreInv(ranges, s) && CoverInv(ranges, s) && Legal(|s.threads|, schedule)
    ensures CoverInv(ranges, Run(ranges, s, schedule))
    decreases |schedule|
  {
    if schedule != [] {
      NextCore(ranges, s, schedule[0]);
      NextCover(ranges, s, schedule[0]);
      RunCover(ranges, Next(ranges, s, schedule[0]), schedule[1..]);
    }
  }

  /** With covered ranges, exhaustion means every frame was issued, in every interleaving. */
  lemma {:induction false} CoveredIsComplete(ranges: seq<Range>, n: nat, schedule: seq<nat>, f: int)
    requires AllWellFormed(ranges) && Covered(ranges) && Legal(n, schedule)
    requires Exhausted(ranges, Run(ranges, Initial(ranges, n), schedule)) && f in AllFrames(ranges)
    ensures f in Run(ranges, Initial(ranges, n), schedule).issued
  {
    InitialCore(ranges, n);
    RunCover(ranges, Initial(ranges, n), schedule);
    AllFramesMember(ranges, f);
    var i :| 0 <= i < |ranges| && f in Frames(ranges[i]);
    FrameOf(ranges[i], f);
    assert EndCovered(ranges, i) && (i > 0 ==> StartCovered(ranges, i));
    assert FrameBetween(f, ranges[0].start, Secured(ranges, |ranges| - 1));
  }

  // ---- after exhaustion ----

  /** No thread is in the middle of a claim. */
  predicate Quiet(s: State) {
    forall t :: 0 <= t < |s.threads| ==> !s.threads[t].pc.LoadFrame? && !s.threads[t].pc.CasFrame?
  }

  /** After exhaustion nothing more is ever issued, if no claim is in flight. */
  lemma {:induction false} ExhaustedForGood(ranges: seq<Range>, s: State, schedule: seq<nat>)
    requires Sane(ranges, s) && Legal(|s.threads|, schedule) && Exhausted(ranges, s) && Quiet(s)
    ensures Run(ranges, s, schedule).issued == s.issued
    decreases |schedule|
  {
    if schedule != [] {
      ExhaustedForGood(ranges, Next(ranges, s, schedule[0]), schedule[1..]);
    }
  }

  /** The same by counting threads. */
  ghost predicate Calm(s: State) {
    forall pc: Pc :: pc.LoadFrame? || pc.CasFrame? ==> Waiting(s, pc) == 0
  }

  lemma {:induction false} CalmIsQuiet(s: State)
    requires Calm(s)
    ensures Quiet(s)
  {
    forall t | 0 <= t < |s.threads| ensures !s.threads[t].pc.LoadFrame? && !s.threads[t].pc.CasFrame? {
      assert PcList(s.threads)[t] in multiset(PcList(s.threads));
      assert Waiting(s, s.threads[t].pc) > 0;
    }
  }

  lemma {:induction false} LosesWhatIsLeft(ranges: seq<Range>, n: nat, s: State, f: int)
    requires AllWellFormed(ranges) && Leads(ranges, Initial(ranges, n), s) && Sane(ranges, s)
    requires Exhausted(ranges, s) && Calm(s) && f in AllFrames(ranges) && f !in s.issued
    ensures LosesFrames(ranges)
  {
    var schedule :| Legal(|Initial(ranges, n).threads|, schedule) && Run(ranges, Initial(ranges, n), schedule) == s;
    CalmIsQuiet(s);
    forall more: seq<nat> | Legal(|s.threads|, more) ensures f !in Run(ranges, s, more).issued {
      ExhaustedForGood(ranges, s, more);
    }
    assert LostForGood(ranges, s, f);
    assert Legal(n, schedule);
  }

  // ---- moves by idle threads ----

  /** The same number of threads waits at every point. */
  ghost predicate Same(s: State, s': State) {
    forall pc :: Waiting(s', pc) == Waiting(s, pc)
  }

  /** A whole call that claims the current frame. */
  lemma {:induction false} ClaimFresh(ranges: seq<Range>, s: State) returns (s': State)
    requires Sane(ranges, s) && Waiting(s, Idle) > 0 && s.range < |ranges|
    requires ranges[s.range].Contains(s.frame) && s.frame + FRAME_SIZE <= ranges[s.range].end
    ensures Leads(ranges, s, s') && Sane(ranges, s') && Same(s, s')
    ensures s'.range == s.range && s'.frame == s.frame + FRAME_SIZE && s'.issued == s.issued + [s.frame]
  {
    var s1 := MoveLoad(ranges, s);
    s' := MoveClaim(ranges, s1, s.range);
    LeadsTo(ranges, s, s1, s');
  }

  /** An idle thread wins the next range and sleeps before its store. */
  lemma {:induction false} WinFresh(ranges: seq<Range>, s: State) returns (s': State)
    requires Sane(ranges, s) && Waiting(s, Idle) > 0 && s.range + 1 < |ranges| && !ranges[s.range].Contains(s.frame)
    ensures Leads(ranges, s, s') && Sane(ranges, s') && Moved(s, s', Idle, StoreFrame(s.range + 1))
    ensures s'.range == s.range + 1 && s'.frame == s.frame && s'.issued == s.issued
  {
    var s1 := MoveLoad(ranges, s);
    s' := MoveAdvance(ranges, s1);
    LeadsTo(ranges, s, s1, s');
  }

  /** An idle thread gives the allocator up. */
  lemma {:induction false} GiveUpFresh(ranges: seq<Range>, s: State) returns (s': State)
    requires Sane(ranges, s) && Waiting(s, Idle) > 0 && s.range + 1 == |ranges| && !ranges[s.range].Contains(s.frame)
    ensures Leads(ranges, s, s') && Sane(ranges, s') && Same(s, s')
    ensures s'.range == |ranges| && s'.issued == s.issued
  {
    var s1 := MoveLoad(ranges, s);
    s' := MoveGiveUp(ranges, s1);
    LeadsTo(ranges, s, s1, s');
  }

  /** Nothing at or below `lo` and nothing at or above `hi` has been added to the log. */
  ghost predicate AddedBetween(log: seq<int>, more: seq<int>, lo: int, hi: int) {
    forall f :: f in more ==> f in log || lo <= f < hi
  }

  /** The current range is claimed from current_frame to its end. */
  lemma {:induction false} ClaimToEnd(ranges: seq<Range>, s: State) returns (s': State)
    requires AllWellFormed(ranges) && Sane(ranges, s) && Waiting(s, Idle) > 0 && s.range < |ranges|
    requires s.frame % FRAME_SIZE == 0 && ranges[s.range].start <= s.frame <= ranges[s.range].end
    ensures Leads(ranges, s, s') && Sane(ranges, s') && Same(s, s')
    ensures s'.range == s.range && s'.frame == ranges[s.range].end
    ensures AddedBetween(s.issued, s'.issued, s.frame, s'.frame)
    decreases ranges[s.range].end - s.frame
  {
    assert WellFormed(ranges[s.range]);
    if s.frame == ranges[s.range].end {
      s' := s;
      LeadsNowhere(ranges, s);
    } else {
      BoundariesApart(s.frame, ranges[s.range].end);
      var s1 := ClaimFresh(ranges, s);
      s' := ClaimToEnd(ranges, s1);
      LeadsTo(ranges, s, s1, s');
    }
  }

  /** The current range is claimed to its end if current_frame lies in it. */
  lemma {:induction false} ClimbPast(ranges: seq<Range>, s: State) returns (s': State)
    requires AllWellFormed(ranges) && Sane(ranges, s) && Waiting(s, Idle) > 0 && s.range < |ranges|
    requires s.frame % FRAME_SIZE == 0
    ensures Leads(ranges, s, s') && Sane(ranges, s') && Same(s, s') && s'.range == s.range
    ensures s'.frame == if ranges[s.range].Contains(s.frame) then ranges[s.range].end else s.frame
    ensures s'.frame % FRAME_SIZE == 0 && !ranges[s.range].Contains(s'.frame)
    ensures AddedBetween(s.issued, s'.issued, s.frame, s'.frame)
  {
    assert WellFormed(ranges[s.range]);
    if ranges[s.range].Contains(s.frame) {
      s' := ClaimToEnd(ranges, s);
    } else {
      s' := s;
      LeadsNowhere(ranges, s);
    }
  }

  // ---- staying above a frame ----

  /** From above frame `g` all ranges left are passed, and `g` is not issued. */
  lemma {:induction false} PassAbove(ranges: seq<Range>, s: State, g: int) returns (s': State)
    requires AllWellFormed(ranges) && Sane(ranges, s) && s.range < |ranges| && Calm(s)
    requires Waiting(s, Idle) >= |ranges| - s.range && s.frame % FRAME_SIZE == 0 && g < s.frame && g !in s.issued
    ensures Leads(ranges, s, s') && Sane(ranges, s') && Exhausted(ranges, s') && Calm(s') && g !in s'.issued
    decreases |ranges| - s.range
  {
    var s1 := ClimbPast(ranges, s);
    if s.range + 1 == |ranges| {
      s' := GiveUpFresh(ranges, s1);
      LeadsTo(ranges, s, s1, s');
    } else {
      var s2 := WinFresh(ranges, s1);
      LeadsTo(ranges, s, s1, s2);
      s' := PassAbove(ranges, s2, g);
      LeadsTo(ranges, s, s2, s');
    }
  }

  // ---- staying below a boundary ----

  /** current_frame is at the lowest start so far or below it, or a pending store can take it there. */
  ghost predicate CanDrop(ranges: seq<Range>, s: State)
    requires 1 <= s.range < |ranges|
  {
    || s.frame <= LowestStart(ranges, s.range)
    || exists j: nat ::
      1 <= j <= s.range && Waiting(s, StoreFrame(j)) > 0 && ranges[j].start == LowestStart(ranges, s.range)
  }

  lemma {:induction false} PendingLowest(ranges: seq<Range>, s: State) returns (j: nat)
    requires 1 <= s.range < |ranges| && CanDrop(ranges, s) && LowestStart(ranges, s.range) < s.frame
    ensures 1 <= j <= s.range && Waiting(s, StoreFrame(j)) > 0 && ranges[j].start == LowestStart(ranges, s.range)
  {
    j :| 1 <= j <= s.range && Waiting(s, StoreFrame(j)) > 0 && ranges[j].start == LowestStart(ranges, s.range);
  }

  /** Nothing at or above `h` is issued, and the last range won is not stored yet. */
  ghost predicate StaysBelow(ranges: seq<Range>, s: State, h: int) {
    && 1 <= s.range < |ranges| && s.frame % FRAME_SIZE == 0 && s.frame <= h && Calm(s)
    && (forall f :: f in s.issued ==> f < h)
    && Waiting(s, StoreFrame(s.range)) > 0 && CanDrop(ranges, s)
  }

  /** `h` lies in no anchored range before `r`. */
  predicate Avoidable(ranges: seq<Range>, h: int, r: nat) {
    forall i :: 0 <= i < |ranges| && i < r && ranges[i].Contains(h) ==> !Anchored(ranges, i)
  }

  /** A pending store takes current_frame out of a range that contains `h`. */
  lemma {:induction false} DropOut(ranges: seq<Range>, s: State, h: int) returns (s': State)
    requires AllWellFormed(ranges) && Sane(ranges, s) && StaysBelow(ranges, s, h)
    requires ranges[s.range].Contains(s.frame) && !Anchored(ranges, s.range)
    ensures Leads(ranges, s, s') && Sane(ranges, s') && s'.range == s.range && s'.issued == s.issued
    ensures s'.frame % FRAME_SIZE == 0 && s'.frame <= h && !ranges[s.range].Contains(s'.frame)
    ensures Calm(s') && CanDrop(ranges, s') && Waiting(s', Idle) == Waiting(s, Idle)
  {
    var r := s.range;
    assert LowestStart(ranges, r) == LowestStart(ranges, r - 1) < ranges[r].start;
    var j := PendingLowest(ranges, s);
    assert WellFormed(ranges[j]);
    s' := MoveStore(ranges, s, j);
  }

  /** Below `h`, current_frame leaves the current range without reaching `h`. */
  lemma {:induction false} SlipOut(ranges: seq<Range>, s: State, h: int) returns (s': State)
    requires AllWellFormed(ranges) && Sane(ranges, s) && StaysBelow(ranges, s, h) && Waiting(s, Idle) > 0
    requires ranges[s.range].Contains(h) ==> !Anchored(ranges, s.range)
    ensures Leads(ranges, s, s') && Sane(ranges, s') && s'.range == s.range
    ensures s'.frame % FRAME_SIZE == 0 && s'.frame <= h && !ranges[s.range].Contains(s'.frame)
    ensures Calm(s') && CanDrop(ranges, s') && Waiting(s', Idle) == Waiting(s, Idle)
    ensures forall f :: f in s'.issued ==> f < h
  {
    if ranges[s.range].Contains(s.frame) && ranges[s.range].Contains(h) {
      s' := DropOut(ranges, s, h);
    } else {
      s' := ClimbPast(ranges, s);
      if ranges[s.range].Contains(s.frame) { CanStillDrop(ranges, s, s'); }
    }
  }

  /** After a climb through the current range its own pending store, or an older one, goes as low. */
  lemma {:induction false} CanStillDrop(ranges: seq<Range>, s: State, s': State)
    requires 1 <= s.range < |ranges| && s'.range == s.range && Same(s, s')
    requires CanDrop(ranges, s) && Waiting(s, StoreFrame(s.range)) > 0 && ranges[s.range].Contains(s.frame)
    ensures CanDrop(ranges, s')
  {
    LowestStartIsLow(ranges, s.range, s.range);
    if s.frame <= LowestStart(ranges, s.range) {
      assert ranges[s.range].start == LowestStart(ranges, s.range) && Waiting(s', StoreFrame(s.range)) > 0;
    } else {
      var j := PendingLowest(ranges, s);
      assert Waiting(s', StoreFrame(j)) > 0;
    }
  }

  /** The next range is won from below `h`. */
  lemma {:induction false} WinBelow(ranges: seq<Range>, s: State, h: int) returns (s': State)
    requires Sane(ranges, s) && 1 <= s.range && s.range + 1 < |ranges| && Waiting(s, Idle) > 0
    requires s.frame % FRAME_SIZE == 0 && s.frame <= h && !ranges[s.range].Contains(s.frame)
    requires Calm(s) && CanDrop(ranges, s) && forall f :: f in s.issued ==> f < h
    ensures Leads(ranges, s, s') && Sane(ranges, s') && s'.range == s.range + 1
    ensures StaysBelow(ranges, s', h) && Waiting(s', Idle) == Waiting(s, Idle) - 1
  {
    s' := WinFresh(ranges, s);
    assert Waiting(s', StoreFrame(s'.range)) > 0;
    if ranges[s'.range].start > LowestStart(ranges, s.range) && s.frame > LowestStart(ranges, s.range) {
      var j := PendingLowest(ranges, s);
      assert Waiting(s', StoreFrame(j)) > 0 && ranges[j].start == LowestStart(ranges, s'.range);
    }
  }

  /** The first range is claimed whole; the second is won. */
  lemma {:induction false} EnterSecond(ranges: seq<Range>, n: nat, h: int) returns (s': State)
    requires AllWellFormed(ranges) && |ranges| >= 2 && n >= 2 && ranges[0].end <= h
    ensures Leads(ranges, Initial(ranges, n), s') && Sane(ranges, s') && s'.range == 1
    ensures StaysBelow(ranges, s', h) && Waiting(s', Idle) == n - 1
  {
    var s := Initial(ranges, n);
    AllIdle(s.threads);
    AllIdleIsCalm(s);
    assert WellFormed(ranges[0]);
    var s1 := ClimbPast(ranges, s);
    s' := WinFresh(ranges, s1);
    LeadsTo(ranges, s, s1, s');
    assert Waiting(s', StoreFrame(1)) > 0 && ranges[1].start == LowestStart(ranges, 1);
  }

  lemma {:induction false} AllIdleIsCalm(s: State)
    requires forall t :: 0 <= t < |s.threads| ==> s.threads[t].pc == Idle
    ensures Calm(s)
  {
    forall pc: Pc | pc.LoadFrame? || pc.CasFrame? ensures Waiting(s, pc) == 0 {
      if Waiting(s, pc) > 0 { var t := PickThread(s, pc); }
    }
  }

  /** Any range can be entered from below `h`, if no anchored range before it contains `h`. */
  lemma {:induction false} ReachBelow(ranges: seq<Range>, n: nat, h: int, r: nat) returns (s: State)
    requires AllWellFormed(ranges) && 1 <= r < |ranges| && n >= |ranges| && ranges[0].end <= h && Avoidable(ranges, h, r)
    ensures Leads(ranges, Initial(ranges, n), s) && Sane(ranges, s) && s.range == r
    ensures StaysBelow(ranges, s, h) && Waiting(s, Idle) == n - r
    decreases r
  {
    if r == 1 {
      s := EnterSecond(ranges, n, h);
    } else {
      var s1 := ReachBelow(ranges, n, h, r - 1);
      var s2 := SlipOut(ranges, s1, h);
      LeadsTo(ranges, Initial(ranges, n), s1, s2);
      s := WinBelow(ranges, s2, h);
      LeadsTo(ranges, Initial(ranges, n), s2, s);
    }
  }

  /** The allocator can be exhausted from below `h`. */
  lemma {:induction false} ExhaustBelow(ranges: seq<Range>, n: nat, h: int) returns (s: State)
    requires AllWellFormed(ranges) && |ranges| >= 2 && n >= |ranges| && ranges[0].end <= h
    requires Avoidable(ranges, h, |ranges|)
    ensures Leads(ranges, Initial(ranges, n), s) && Sane(ranges, s) && Exhausted(ranges, s) && Calm(s)
    ensures forall f :: f in s.issued ==> f < h
  {
    var s1 := ReachBelow(ranges, n, h, |ranges| - 1);
    var s2 := SlipOut(ranges, s1, h);
    LeadsTo(ranges, Initial(ranges, n), s1, s2);
    s := GiveUpFresh(ranges, s2);
    LeadsTo(ranges, Initial(ranges, n), s2, s);
  }

  // ---- uncovered ranges: frames are lost ----

  lemma {:induction false} SecuredIsAvoidable(ranges: seq<Range>, r: nat)
    requires 0 < r <= |ranges|
    ensures Avoidable(ranges, Secured(ranges, r - 1), r) && ranges[0].end <= Secured(ranges, r - 1)
  {
    forall i | 0 <= i < r && ranges[i].Contains(Secured(ranges, r - 1)) ensures !Anchored(ranges, i) {
      SecuredGrows(ranges, i, r - 1);
    }
    SecuredGrows(ranges, 0, r - 1);
  }

  lemma {:induction false} StartIsFrame(ranges: seq<Range>, f: int, j: nat)
    requires AllWellFormed(ranges) && j < |ranges| && f % FRAME_SIZE == 0 && ranges[j].Contains(f)
    ensures f in AllFrames(ranges)
  {
    assert WellFormed(ranges[j]);
    BoundariesApart(f, ranges[j].end);
    FrameOf(ranges[j], f);
    AllFramesMember(ranges, f);
  }

  /** A start below the first one is lost: current_frame never gets there. */
  lemma {:induction false} StartBelowIsLost(ranges: seq<Range>, j: nat)
    requires AllWellFormed(ranges) && 1 <= j < |ranges| && ranges[j].start < ranges[0].start
    ensures LosesFrames(ranges)
  {
    var n := |ranges|;
    var s := Initial(ranges, n);
    AllIdle(s.threads);
    AllIdleIsCalm(s);
    assert WellFormed(ranges[0]) && WellFormed(ranges[j]);
    var s' := PassAbove(ranges, s, ranges[j].start);
    StartIsFrame(ranges, ranges[j].start, j);
    LosesWhatIsLeft(ranges, n, s', ranges[j].start);
  }

  /** A frame at or above a boundary that can be avoided to the end is lost. */
  lemma {:induction false} AvoidedIsLost(ranges: seq<Range>, h: int, f: int)
    requires AllWellFormed(ranges) && |ranges| >= 2 && ranges[0].end <= h && Avoidable(ranges, h, |ranges|)
    requires h <= f && f in AllFrames(ranges)
    ensures LosesFrames(ranges)
  {
    var s := ExhaustBelow(ranges, |ranges|, h);
    LosesWhatIsLeft(ranges, |ranges|, s, f);
  }

  /** A range that starts above what is secured before it: its store skips a frame. */
  lemma {:induction false} SkippedIsLost(ranges: seq<Range>, j: nat)
    requires AllWellFormed(ranges) && 1 <= j < |ranges| && Secured(ranges, j - 1) < ranges[j].start
    requires Secured(ranges, j - 1) in AllFrames(ranges)
    ensures LosesFrames(ranges)
  {
    var h, n := Secured(ranges, j - 1), |ranges| + 1;
    SecuredIsAvoidable(ranges, j);
    var s := ReachBelow(ranges, n, h, j);
    assert WellFormed(ranges[j]);
    var s1 := MoveStore(ranges, s, j);
    LeadsTo(ranges, Initial(ranges, n), s, s1);
    var s2 := PassAbove(ranges, s1, h);
    LeadsTo(ranges, Initial(ranges, n), s1, s2);
    LosesWhatIsLeft(ranges, n, s2, h);
  }

  lemma {:induction false} StartAboveIsLost(ranges: seq<Range>, j: nat)
    requires AllWellFormed(ranges) && 1 <= j < |ranges| && Secured(ranges, j - 1) < ranges[j].start
    ensures LosesFrames(ranges)
  {
    var h := Secured(ranges, j - 1);
    SecuredIsBoundary(ranges, j - 1);
    assert WellFormed(ranges[j]);
    StartIsFrame(ranges, ranges[j].start, j);
    if i :| 0 <= i < |ranges| && ranges[i].Contains(h) {
      StartIsFrame(ranges, h, i);
      SkippedIsLost(ranges, j);
    } else {
      SecuredIsAvoidable(ranges, j);
      AvoidedIsLost(ranges, h, ranges[j].start);
    }
  }

  /** A range that ends above all that is secured. */
  lemma {:induction false} EndAboveIsLost(ranges: seq<Range>, j: nat)
    requires AllWellFormed(ranges) && j < |ranges| && Secured(ranges, |ranges| - 1) < ranges[j].end
    ensures LosesFrames(ranges)
  {
    var h := Secured(ranges, |ranges| - 1);
    SecuredIsAvoidable(ranges, |ranges|);
    if j > 0 && Secured(ranges, j - 1) < ranges[j].start {
      StartAboveIsLost(ranges, j);
    } else {
      assert j > 0;
      SecuredGrows(ranges, j - 1, |ranges| - 1);
      SecuredIsBoundary(ranges, |ranges| - 1);
      StartIsFrame(ranges, h, j);
      AvoidedIsLost(ranges, h, h);
    }
  }

  lemma {:induction false} UncoveredLoses(ranges: seq<Range>)
    requires AllWellFormed(ranges) && !Covered(ranges)
    ensures LosesFrames(ranges)
  {
    if j: nat :| 1 <= j < |ranges| && !StartCovered(ranges, j) {
      if ranges[j].start < ranges[0].start { StartBelowIsLost(ranges, j); } else { StartAboveIsLost(ranges, j); }
    } else {
      var j: nat :| j < |ranges| && !EndCovered(ranges, j);
      EndAboveIsLost(ranges, j);
    }
  }

  // ---- the exact condition ----

  lemma {:induction false} CoveredLosesNothing(ranges: seq<Range>)
    requires AllWellFormed(ranges) && Covered(ranges)
    ensures HandsOutEverything(ranges)
  {
    forall n: nat, schedule: seq<nat> | Legal(n, schedule)
      ensures
        var s := Run(ranges, Initial(ranges, n), schedule);
        Exhausted(ranges, s) ==> forall f :: f in AllFrames(ranges) ==> f in s.issued
    {
      var s := Run(ranges, Initial(ranges, n), schedule);
      if Exhausted(ranges, s) {
        forall f | f in AllFrames(ranges) ensures f in s.issued {
          CoveredIsComplete(ranges, n, schedule, f);
        }
      }
    }
  }

  /** A frame lost for good is one not issued at exhaustion. */
  lemma {:induction false} LosingIsIncomplete(ranges: seq<Range>)
    requires AllWellFormed(ranges) && LosesFrames(ranges)
    ensures !HandsOutEverything(ranges)
  {
    var n: nat, schedule: seq<nat> :| Legal(n, schedule)
      && exists f :: LostForGood(ranges, Run(ranges, Initial(ranges, n), schedule), f);
    var s := Run(ranges, Initial(ranges, n), schedule);
    var f :| LostForGood(ranges, s, f);
    assert Legal(|s.threads|, []);
    assert f !in Run(ranges, s, []).issued;
  }

  /** Every interleaving hands out all frames before it is exhausted if and only
      if the ranges are covered, and if they are not, some interleaving loses
      frames for good. */
  lemma {:induction false} CompleteExactlyWhenCovered(ranges: seq<Range>)
    requires AllWellFormed(ranges)
    ensures HandsOutEverything(ranges) <==> Covered(ranges)
    ensures LosesFrames(ranges) <==> !Covered(ranges)
  {
    if Covered(ranges) {
      CoveredLosesNothing(ranges);
      if LosesFrames(ranges) { LosingIsIncomplete(ranges); }
    } else {
      UncoveredLoses(ranges);
      LosingIsIncomplete(ranges);
    }
  }

  /** Two ranges are covered exactly when the second starts inside the first or at its end. */
  lemma {:induction false} CoveredPair(ranges: seq<Range>)
    requires AllWellFormed(ranges) && |ranges| == 2
    ensures Covered(ranges) <==> ranges[0].start <= ranges[1].start <= ranges[0].end
  {
    assert Secured(ranges, 0) == ranges[0].end;
    assert Secured(ranges, 1) == Max(ranges[0].end, ranges[1].end);
    assert Covered(ranges) <==> StartCovered(ranges, 1) && EndCovered(ranges, 0) && EndCovered(ranges, 1);
  }

  /** Ranges that do not overlap are covered exactly when there is at most one, or
      two of which the second starts where the first ends. */
  lemma {:induction false} CoveredWithoutOverlap(ranges: seq<Range>)
    requires AllWellFormed(ranges) && NoOverlap(ranges)
    ensures Covered(ranges) <==> |ranges| <= 1 || (|ranges| == 2 && ranges[0].end == ranges[1].start)
  {
    if |ranges| >= 2 {
      assert WellFormed(ranges[0]) && WellFormed(ranges[1]) && !Overlap(ranges[0], ranges[1]);
    }
    if |ranges| == 1 {
      assert Secured(ranges, 0) == ranges[0].end;
      assert EndCovered(ranges, 0);
    } else if |ranges| == 2 {
      CoveredPair(ranges);
    } else if |ranges| > 2 {
      ThirdIsNotCovered(ranges);
    }
  }

  lemma {:induction false} ThirdIsNotCovered(ranges: seq<Range>)
    requires AllWellFormed(ranges) && NoOverlap(ranges) && |ranges| > 2
    ensures !Covered(ranges)
  {
    var a, b, c := ranges[0], ranges[1], ranges[2];
    if Covered(ranges) {
      assert WellFormed(a) && WellFormed(b) && WellFormed(c);
      assert !Overlap(a, b) && !Overlap(a, c) && !Overlap(b, c);
      assert Secured(ranges, 0) == a.end;
      assert Secured(ranges, 1) == Max(a.end, b.end);
      assert StartCovered(ranges, 1) && StartCovered(ranges, 2) && EndCovered(ranges, 2);
      ChainIsNotAnchored(ranges, |ranges| - 1);
    }
  }

  /** Behind a chain of two, no range that does not overlap them is anchored or secures more. */
  lemma {:induction false} ChainIsNotAnchored(ranges: seq<Range>, r: nat)
    requires AllWellFormed(ranges) && NoOverlap(ranges) && 1 <= r < |ranges| && Covered(ranges)
    requires ranges[0].end == ranges[1].start
    ensures Secured(ranges, r) == ranges[1].end && LowestStart(ranges, r) == ranges[1].start
  {
    assert WellFormed(ranges[0]) && WellFormed(ranges[1]) && WellFormed(ranges[r]);
    if r == 1 {
      assert Secured(ranges, 0) == ranges[0].end;
    } else {
      ChainIsNotAnchored(ranges, r - 1);
      assert !Overlap(ranges[0], ranges[r]) && !Overlap(ranges[1], ranges[r]);
      assert StartCovered(ranges, r);
    }
  }
}
