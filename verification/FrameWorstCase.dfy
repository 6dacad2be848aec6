/**
 The bound on changes of the two atomics is the least one: for every list of
 well-formed ranges a run is built that attains it.  All range exchanges are won
 before any start is stored, then each start is stored in turn and claimed from,
 by threads that loaded their range index long ago, for as far as it reaches.
 */
module FrameWorstCase {
  import opened Words
  import opened FrameRanges
  import opened FrameProtocol
  import opened FrameProgress
  import opened FrameExactness
  import opened FrameMoves

  // ---- phases ----

  /** At least `k` threads have loaded each range up to the current one. */
  ghost predicate Stocked(s: State, k: nat) {
    forall j: nat :: j <= s.range ==> Waiting(s, LoadFrame(j)) >= k
  }

  /** No range up to the current one contains current_frame. */
  predicate Outside(ranges: seq<Range>, s: State) {
    forall j :: 0 <= j < |ranges| && j <= s.range ==> !ranges[j].Contains(s.frame)
  }

  /** Idle threads and pending stores are still there. */
  ghost predicate Keeps(s: State, s': State) {
    Waiting(s', Idle) >= Waiting(s, Idle) && forall j: nat :: Waiting(s', StoreFrame(j)) == Waiting(s, StoreFrame(j))
  }

  /** One more claim: one frame less is reached, one thread less is in stock. */
  lemma ClimbOne(ranges: seq<Range>, s: State, j: nat, spare: nat) returns (s': State)
    requires AllWellFormed(ranges) && Sane(ranges, s) && j <= s.range < |ranges| && s.frame % FRAME_SIZE == 0
    requires Stocked(s, Reach(ranges, s.frame) + spare) && ranges[j].Contains(s.frame)
    ensures Leads(ranges, s, s') && Sane(ranges, s') && s'.range == s.range && s'.frame % FRAME_SIZE == 0
    ensures s'.changes == s.changes + 1 && Reach(ranges, s'.frame) + 1 == Reach(ranges, s.frame)
    ensures Stocked(s', Reach(ranges, s'.frame) + spare) && Keeps(s, s')
  {
    assert WellFormed(ranges[j]);
    assert InSomeRange(ranges, s.frame);
    s' := MoveClaim(ranges, s, j);
  }

  /** Threads that loaded earlier ranges claim upward until none of them can. */
  lemma {:induction false} ClimbOut(ranges: seq<Range>, s: State, spare: nat) returns (s': State)
    requires AllWellFormed(ranges) && Sane(ranges, s) && s.range < |ranges| && s.frame % FRAME_SIZE == 0
    requires Stocked(s, Reach(ranges, s.frame) + spare)
    ensures Leads(ranges, s, s') && Sane(ranges, s') && s'.range == s.range && s'.frame % FRAME_SIZE == 0
    ensures s'.changes + Reach(ranges, s'.frame) == s.changes + Reach(ranges, s.frame)
    ensures Reach(ranges, s'.frame) <= Reach(ranges, s.frame)
    ensures Stocked(s', Reach(ranges, s'.frame) + spare) && Outside(ranges, s') && Keeps(s, s')
    decreases Reach(ranges, s.frame)
  {
    if j: nat :| j <= s.range && ranges[j].Contains(s.frame) {
      var s1 := ClimbOne(ranges, s, j, spare);
      s' := ClimbOut(ranges, s1, spare);
      LeadsTo(ranges, s, s1, s');
    } else {
      s' := s;
      LeadsNowhere(ranges, s);
    }
  }

  /** `k` idle threads load the current range. */
  lemma {:induction false} LoadMany(ranges: seq<Range>, s: State, k: nat) returns (s': State)
    requires Sane(ranges, s) && Waiting(s, Idle) >= k && s.range < |ranges|
    ensures Leads(ranges, s, s') && Sane(ranges, s')
    ensures s'.range == s.range && s'.frame == s.frame && s'.changes == s.changes
    ensures Waiting(s', Idle) == Waiting(s, Idle) - k && Waiting(s', LoadFrame(s.range)) >= k
    ensures forall j: nat :: Waiting(s', LoadFrame(j)) >= Waiting(s, LoadFrame(j))
    ensures forall j: nat :: Waiting(s', StoreFrame(j)) == Waiting(s, StoreFrame(j))
    decreases k
  {
    if k == 0 {
      s' := s;
      LeadsNowhere(ranges, s);
    } else {
      var s1 := LoadMany(ranges, s, k - 1);
      s' := MoveLoad(ranges, s1);
      LeadsTo(ranges, s, s1, s');
    }
  }

  /** Idle threads needed to stock `m` more ranges with `k` threads each. */
  function Need(m: nat, k: nat): nat {
    if m == 0 then 0 else k + Need(m - 1, k)
  }

  /** The pending stores of ranges 1 to `k`. */
  ghost predicate Pending(s: State, k: nat) {
    forall j: nat :: 1 <= j <= k ==> Waiting(s, StoreFrame(j)) > 0
  }

  /** Won but not stored: one more range becomes current. */
  lemma Win(ranges: seq<Range>, s: State, k: nat) returns (s': State)
    requires Sane(ranges, s) && s.range + 1 < |ranges| && Outside(ranges, s)
    requires Stocked(s, k + 1) && Pending(s, s.range)
    ensures Leads(ranges, s, s') && Sane(ranges, s')
    ensures s'.range == s.range + 1 && s'.frame == s.frame && s'.changes == s.changes + 1
    ensures Waiting(s', Idle) == Waiting(s, Idle) && Pending(s', s'.range)
    ensures forall j: nat :: j <= s.range ==> Waiting(s', LoadFrame(j)) >= k
  {
    s' := MoveAdvance(ranges, s);
    assert Waiting(s', StoreFrame(s'.range)) > 0;
    forall j: nat | 1 <= j <= s.range ensures Waiting(s', StoreFrame(j)) > 0 {
      assert Waiting(s, StoreFrame(j)) > 0;
    }
  }

  /** The range just won is stocked like the others. */
  lemma Advance(ranges: seq<Range>, s: State, k: nat) returns (s': State)
    requires Sane(ranges, s) && s.range + 1 < |ranges| && Outside(ranges, s)
    requires Stocked(s, k + 1) && Waiting(s, Idle) >= k && Pending(s, s.range)
    ensures Leads(ranges, s, s') && Sane(ranges, s')
    ensures s'.range == s.range + 1 && s'.frame == s.frame && s'.changes == s.changes + 1
    ensures Stocked(s', k) && Waiting(s', Idle) == Waiting(s, Idle) - k && Pending(s', s'.range)
  {
    var s1 := Win(ranges, s, k);
    s' := LoadMany(ranges, s1, k);
    LeadsTo(ranges, s, s1, s');
  }

  /** Claims as far as the ranges won so far allow, then the next range. */
  lemma ClimbAndAdvance(ranges: seq<Range>, s: State, k: nat) returns (s': State)
    requires AllWellFormed(ranges) && Sane(ranges, s) && s.range + 1 < |ranges| && s.frame % FRAME_SIZE == 0
    requires Stocked(s, Reach(ranges, s.frame) + k + 1) && Pending(s, s.range)
    requires Waiting(s, Idle) >= Reach(ranges, s.frame) + k
    ensures Leads(ranges, s, s') && Sane(ranges, s') && s'.range == s.range + 1 && s'.frame % FRAME_SIZE == 0
    ensures s'.changes + Reach(ranges, s'.frame) == s.changes + 1 + Reach(ranges, s.frame)
    ensures Reach(ranges, s'.frame) <= Reach(ranges, s.frame)
    ensures Stocked(s', Reach(ranges, s'.frame) + k) && Pending(s', s'.range)
    ensures Waiting(s', Idle) >= Waiting(s, Idle) - (Reach(ranges, s.frame) + k)
  {
    var s1 := ClimbOut(ranges, s, k + 1);
    s' := Advance(ranges, s1, Reach(ranges, s1.frame) + k);
    LeadsTo(ranges, s, s1, s');
  }

  /** All exchanges are won before any start is stored; claims are made on the way
      only as far as the first start reaches. */
  lemma {:induction false} PileUp(ranges: seq<Range>, s: State, spare: nat, k: nat) returns (s': State)
    requires AllWellFormed(ranges) && Sane(ranges, s) && s.range < |ranges| && s.frame % FRAME_SIZE == 0
    requires
      var more := |ranges| - 1 - s.range;
      && Stocked(s, Reach(ranges, s.frame) + spare + more) && Reach(ranges, s.frame) + spare + more <= k
      && Waiting(s, Idle) >= Need(more, k) && Pending(s, s.range)
    ensures Leads(ranges, s, s') && Sane(ranges, s') && s'.range == |ranges| - 1
    ensures s'.changes == s.changes + Reach(ranges, s.frame) + (|ranges| - 1 - s.range)
    ensures Outside(ranges, s') && Stocked(s', spare) && Pending(s', |ranges| - 1)
    decreases |ranges| - s.range
  {
    var more := |ranges| - 1 - s.range;
    if more == 0 {
      s' := ClimbOut(ranges, s, spare);
    } else {
      var s1 := ClimbAndAdvance(ranges, s, spare + more - 1);
      s' := PileUp(ranges, s1, spare, k);
      LeadsTo(ranges, s, s1, s');
    }
  }

  /** One pending store, followed by all the claims it makes possible. */
  lemma StoreAndClimb(ranges: seq<Range>, s: State, j: nat, spare: nat) returns (s': State)
    requires AllWellFormed(ranges) && Sane(ranges, s) && s.range + 1 == |ranges| && 1 <= j < |ranges|
    requires Outside(ranges, s) && Pending(s, j) && Stocked(s, Reach(ranges, ranges[j].start) + spare)
    ensures Leads(ranges, s, s') && Sane(ranges, s') && s'.range == s.range
    ensures s'.changes == s.changes + 1 + Reach(ranges, ranges[j].start)
    ensures Outside(ranges, s') && Pending(s', j - 1) && Stocked(s', spare)
  {
    assert WellFormed(ranges[j]);
    var s1 := MoveStore(ranges, s, j);
    s' := ClimbOut(ranges, s1, spare);
    LeadsTo(ranges, s, s1, s');
    forall i: nat | 1 <= i <= j - 1 ensures Waiting(s', StoreFrame(i)) > 0 {
      assert Waiting(s, StoreFrame(i)) > 0;
    }
  }

  /** The pending stores of ranges 1 to `k - 1`, the last first. */
  lemma {:induction false} StoreAll(ranges: seq<Range>, s: State, k: nat) returns (s': State)
    requires AllWellFormed(ranges) && Sane(ranges, s) && s.range + 1 == |ranges| && 1 <= k <= |ranges|
    requires Outside(ranges, s) && Pending(s, k - 1) && Stocked(s, ReachSum(ranges, k) + 1)
    ensures Leads(ranges, s, s') && Sane(ranges, s') && s'.range == s.range
    ensures s'.changes + ReachSum(ranges, 1) + 1 == s.changes + ReachSum(ranges, k) + k
    ensures Outside(ranges, s') && Stocked(s', 1)
    decreases k
  {
    if k == 1 {
      s' := s;
      LeadsNowhere(ranges, s);
    } else {
      var s1 := StoreAndClimb(ranges, s, k - 1, ReachSum(ranges, k - 1) + 1);
      s' := StoreAll(ranges, s1, k - 1);
      LeadsTo(ranges, s, s1, s');
    }
  }

  /** From the start: range 0 stocked, everything else idle. */
  lemma Prepare(ranges: seq<Range>, n: nat, k: nat) returns (s': State)
    requires AllWellFormed(ranges) && ranges != [] && k <= n
    ensures Leads(ranges, Initial(ranges, n), s') && Sane(ranges, s')
    ensures s'.range == 0 && s'.frame == ranges[0].start && s'.changes == 0
    ensures Stocked(s', k) && Waiting(s', Idle) == n - k
  {
    AllIdle(Initial(ranges, n).threads);
    s' := LoadMany(ranges, Initial(ranges, n), k);
  }

  /** Prepared for every claim that is possible, all exchanges are won. */
  lemma AllWon(ranges: seq<Range>, spare: nat) returns (n: nat, s: State)
    requires AllWellFormed(ranges) && ranges != []
    ensures Leads(ranges, Initial(ranges, n), s) && Sane(ranges, s) && s.range == |ranges| - 1
    ensures s.changes == Reach(ranges, ranges[0].start) + |ranges| - 1
    ensures Outside(ranges, s) && Stocked(s, spare) && Pending(s, |ranges| - 1)
  {
    var more := |ranges| - 1;
    var k := Reach(ranges, ranges[0].start) + spare + more;
    n := k + Need(more, k);
    var s1 := Prepare(ranges, n, k);
    assert WellFormed(ranges[0]);
    s := PileUp(ranges, s1, spare, k);
    LeadsTo(ranges, Initial(ranges, n), s1, s);
  }

  lemma WorstRun(ranges: seq<Range>) returns (n: nat, s: State)
    requires AllWellFormed(ranges) && ranges != []
    ensures Leads(ranges, Initial(ranges, n), s)
    ensures s.changes == ReachSum(ranges, |ranges|) + 2 * |ranges| - 1
  {
    var s1, s2;
    n, s1 := AllWon(ranges, ReachSum(ranges, |ranges|) + 1);
    s2 := StoreAll(ranges, s1, |ranges|);
    LeadsTo(ranges, Initial(ranges, n), s1, s2);
    s := MoveGiveUp(ranges, s2);
    LeadsTo(ranges, Initial(ranges, n), s2, s);
    assert ReachSum(ranges, 1) == ReachSum(ranges, 0) + Reach(ranges, ranges[0].start);
  }

  /** The bound is attained. */
  lemma MaxChangesAttained(ranges: seq<Range>) returns (n: nat, schedule: seq<nat>)
    requires AllWellFormed(ranges)
    ensures Legal(n, schedule) && Run(ranges, Initial(ranges, n), schedule).changes == MaxChanges(ranges)
  {
    n, schedule := 0, [];
    if ranges != [] {
      var s;
      n, s := WorstRun(ranges);
      schedule :| Legal(|Initial(ranges, n).threads|, schedule) && Run(ranges, Initial(ranges, n), schedule) == s;
      ReachSumIsOverrun(ranges, |ranges|);
      assert ranges[..|ranges|] == ranges;
    }
  }

  // ---- the exact condition ----

  ghost predicate AlwaysWithin(ranges: seq<Range>, bound: nat) {
    forall n: nat, schedule: seq<nat> | Legal(n, schedule) ::
      Run(ranges, Initial(ranges, n), schedule).changes <= bound
  }

  /** What bounds the changes in every interleaving, and what does not. */
  lemma LeastBound(ranges: seq<Range>, bound: nat)
    requires AllWellFormed(ranges)
    ensures AlwaysWithin(ranges, bound) <==> MaxChanges(ranges) <= bound
  {
    if MaxChanges(ranges) <= bound {
      forall n: nat, schedule: seq<nat> | Legal(n, schedule)
        ensures Run(ranges, Initial(ranges, n), schedule).changes <= bound
      {
        ChangesBounded(ranges, n, schedule);
      }
    } else {
      var n, schedule := MaxChangesAttained(ranges);
      assert Legal(n, schedule);
    }
  }

  /** One change per frame and two per range. */
  function SharpBound(ranges: seq<Range>): nat
    requires AllWellFormed(ranges)
  {
    TotalFrames(ranges) + 2 * |ranges|
  }

  lemma SharpBoundIsMax(ranges: seq<Range>)
    requires AllWellFormed(ranges)
    ensures MaxChanges(ranges) <= SharpBound(ranges) <==> Overrun(ranges, |ranges|) <= 1
  {
  }

  /** The changes stay within frames plus twice ranges in every interleaving if and
      only if at most one frame in all is reached past the ends of ranges. */
  lemma SharpBoundExactly(ranges: seq<Range>)
    requires AllWellFormed(ranges)
    ensures AlwaysWithin(ranges, SharpBound(ranges)) <==> Overrun(ranges, |ranges|) <= 1
  {
    SharpBoundIsMax(ranges);
    LeastBound(ranges, SharpBound(ranges));
  }

  lemma {:induction false} NotOverrun(ranges: seq<Range>, j: nat, k: nat)
    requires j < k <= |ranges| && Overrun(ranges, k) == 0
    ensures !InSomeRange(ranges, ranges[j].end)
  {
    if j < k - 1 { NotOverrun(ranges, j, k - 1); }
  }

  /** Ranges that do not overlap are not overrun at all exactly when no two of them touch. */
  lemma {:induction false} NoOverrunExactly(ranges: seq<Range>)
    requires AllWellFormed(ranges) && NoOverlap(ranges)
    ensures Overrun(ranges, |ranges|) == 0 <==> Separated(ranges)
  {
    if Separated(ranges) {
      SeparatedOverrun(ranges, |ranges|);
    } else if Overrun(ranges, |ranges|) == 0 {
      var i, j :| 0 <= i < |ranges| && 0 <= j < |ranges| && i != j
        && !(ranges[i].end < ranges[j].start || ranges[j].end < ranges[i].start);
      assert WellFormed(ranges[i]) && WellFormed(ranges[j]);
      assert (i < j ==> !Overlap(ranges[i], ranges[j])) && (j < i ==> !Overlap(ranges[j], ranges[i]));
      if ranges[j].Contains(ranges[i].end) {
        NotOverrun(ranges, i, |ranges|);
      } else {
        NotOverrun(ranges, j, |ranges|);
      }
    }
  }
}
