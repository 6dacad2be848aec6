/**
 Building runs of the lock-free allocator: states are compared by how many threads
 wait at each program point, and each move takes some thread that waits where it
 is needed.
 */
module FrameMoves {
  import opened Words
  import opened FrameRanges
  import opened FrameProtocol

  // ---- runs, seen through how many threads wait where ----

  function PcList(threads: seq<Thread>): seq<Pc> {
    seq(|threads|, i requires 0 <= i < |threads| => threads[i].pc)
  }

  /** How many threads are at program point `pc`. */
  function Waiting(s: State, pc: Pc): nat {
    multiset(PcList(s.threads))[pc]
  }

  /** One thread went from point `a` to point `b`, and no other moved. */
  ghost predicate Moved(s: State, s': State, a: Pc, b: Pc) {
    forall pc :: Waiting(s', pc) == Waiting(s, pc) - Count(pc == a) + Count(pc == b)
  }

  ghost predicate Leads(ranges: seq<Range>, s: State, s': State)
    requires Sane(ranges, s)
  {
    exists schedule :: Legal(|s.threads|, schedule) && Run(ranges, s, schedule) == s'
  }

  lemma LeadsTo(ranges: seq<Range>, s: State, s1: State, s2: State)
    requires Sane(ranges, s) && Leads(ranges, s, s1) && Sane(ranges, s1) && Leads(ranges, s1, s2)
    ensures Leads(ranges, s, s2)
  {
    var a :| Legal(|s.threads|, a) && Run(ranges, s, a) == s1;
    var b :| Legal(|s1.threads|, b) && Run(ranges, s1, b) == s2;
    RunConcat(ranges, s, a, b);
    assert Legal(|s.threads|, a + b);
  }

  lemma LeadsNowhere(ranges: seq<Range>, s: State)
    requires Sane(ranges, s)
    ensures Leads(ranges, s, s)
  {
    assert Legal(|s.threads|, []) && Run(ranges, s, []) == s;
  }

  lemma StepMoves(ranges: seq<Range>, s: State, t: nat)
    requires Sane(ranges, s) && t < |s.threads|
    ensures Moved(s, Next(ranges, s, t), s.threads[t].pc, Next(ranges, s, t).threads[t].pc)
  {
    var s' := Next(ranges, s, t);
    var list := PcList(s.threads);
    assert list[t] in multiset(list);
    assert PcList(s'.threads) == list[t := s'.threads[t].pc];
  }

  lemma LeadsOne(ranges: seq<Range>, s: State, t: nat)
    requires Sane(ranges, s) && t < |s.threads|
    ensures
      var s' := Next(ranges, s, t);
      Leads(ranges, s, s') && Moved(s, s', s.threads[t].pc, s'.threads[t].pc)
  {
    StepMoves(ranges, s, t);
    assert Run(ranges, s, [t]) == Next(ranges, s, t) && Legal(|s.threads|, [t]);
  }

  lemma LeadsTwo(ranges: seq<Range>, s: State, t: nat)
    requires Sane(ranges, s) && t < |s.threads|
    ensures
      var s' := Next(ranges, Next(ranges, s, t), t);
      Leads(ranges, s, s') && Moved(s, s', s.threads[t].pc, s'.threads[t].pc)
  {
    var s1 := Next(ranges, s, t);
    LeadsOne(ranges, s, t);
    LeadsOne(ranges, s1, t);
    LeadsTo(ranges, s, s1, Next(ranges, s1, t));
  }

  lemma PickThread(s: State, pc: Pc) returns (t: nat)
    requires Waiting(s, pc) > 0
    ensures t < |s.threads| && s.threads[t].pc == pc
  {
    assert pc in PcList(s.threads);
    t :| t < |s.threads| && PcList(s.threads)[t] == pc;
  }

  lemma {:induction false} AllIdle(threads: seq<Thread>)
    requires forall t :: 0 <= t < |threads| ==> threads[t].pc == Idle
    ensures multiset(PcList(threads))[Idle] == |threads|
  {
    if threads != [] {
      var n := |threads| - 1;
      AllIdle(threads[..n]);
      assert PcList(threads) == PcList(threads[..n]) + [Idle];
    }
  }

  // ---- moves ----

  /** An idle thread loads the current range index and sleeps. */
  lemma MoveLoad(ranges: seq<Range>, s: State) returns (s': State)
    requires Sane(ranges, s) && Waiting(s, Idle) > 0 && s.range < |ranges|
    ensures Leads(ranges, s, s') && Sane(ranges, s')
    ensures s'.range == s.range && s'.frame == s.frame && s'.changes == s.changes && s'.issued == s.issued
    ensures Moved(s, s', Idle, LoadFrame(s.range))
  {
    var t := PickThread(s, Idle);
    s' := Next(ranges, Next(ranges, s, t), t);
    LeadsTwo(ranges, s, t);
  }

  /** A thread that loaded range `j` claims the current frame. */
  lemma MoveClaim(ranges: seq<Range>, s: State, j: nat) returns (s': State)
    requires Sane(ranges, s) && Waiting(s, LoadFrame(j)) > 0 && j < |ranges|
    requires ranges[j].Contains(s.frame) && s.frame + FRAME_SIZE <= ranges[j].end
    ensures Leads(ranges, s, s') && Sane(ranges, s')
    ensures s'.range == s.range && s'.frame == s.frame + FRAME_SIZE && s'.changes == s.changes + 1
    ensures s'.issued == s.issued + [s.frame]
    ensures Moved(s, s', LoadFrame(j), Idle)
  {
    var t := PickThread(s, LoadFrame(j));
    s' := Next(ranges, Next(ranges, s, t), t);
    LeadsTwo(ranges, s, t);
  }

  /** A thread that loaded the current range finds current_frame elsewhere, wins
      the exchange and sleeps before its store. */
  lemma MoveAdvance(ranges: seq<Range>, s: State) returns (s': State)
    requires Sane(ranges, s) && Waiting(s, LoadFrame(s.range)) > 0 && s.range + 1 < |ranges|
    requires !ranges[s.range].Contains(s.frame)
    ensures Leads(ranges, s, s') && Sane(ranges, s')
    ensures s'.range == s.range + 1 && s'.frame == s.frame && s'.changes == s.changes + 1 && s'.issued == s.issued
    ensures Moved(s, s', LoadFrame(s.range), StoreFrame(s.range + 1))
  {
    var t := PickThread(s, LoadFrame(s.range));
    s' := Next(ranges, Next(ranges, s, t), t);
    LeadsTwo(ranges, s, t);
  }

  /** A thread that won range `j` stores its start. */
  lemma MoveStore(ranges: seq<Range>, s: State, j: nat) returns (s': State)
    requires Sane(ranges, s) && Waiting(s, StoreFrame(j)) > 0 && j < |ranges| && s.frame != ranges[j].start
    ensures Leads(ranges, s, s') && Sane(ranges, s')
    ensures s'.range == s.range && s'.frame == ranges[j].start && s'.changes == s.changes + 1 && s'.issued == s.issued
    ensures Moved(s, s', StoreFrame(j), LoadRange)
  {
    var t := PickThread(s, StoreFrame(j));
    s' := Next(ranges, s, t);
    LeadsOne(ranges, s, t);
  }

  /** A thread that loaded the last range finds current_frame elsewhere and gives up. */
  lemma MoveGiveUp(ranges: seq<Range>, s: State) returns (s': State)
    requires Sane(ranges, s) && Waiting(s, LoadFrame(s.range)) > 0 && s.range + 1 == |ranges|
    requires !ranges[s.range].Contains(s.frame)
    ensures Leads(ranges, s, s') && Sane(ranges, s')
    ensures s'.range == |ranges| && s'.changes == s.changes + 1 && s'.issued == s.issued
    ensures Moved(s, s', LoadFrame(s.range), Idle)
  {
    var t := PickThread(s, LoadFrame(s.range));
    s' := Next(ranges, Next(ranges, s, t), t);
    LeadsTwo(ranges, s, t);
  }
}
