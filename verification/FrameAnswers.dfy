/**
 What a call of the lock-free allocator answers: a frame, or None when the
 allocator is exhausted and never before.
 */
module FrameAnswers {
  import opened Words
  import opened FrameRanges
  import opened FrameProtocol

  /** A step either ends no call and issues nothing, or ends exactly one call of
      its own thread, which got one whole frame of a range or leaves the allocator exhausted. */
  lemma {:induction false} StepAnswers(ranges: seq<Range>, s: State, t: nat, u: nat)
    requires Sane(ranges, s) && CoreInv(ranges, s) && t < |s.threads| && u < |s.threads|
    ensures
      var s' := Next(ranges, s, t);
      var before, after := s.threads[u], s'.threads[u];
      && (u != t ==> after == before)
      && (u == t && after.calls == before.calls ==> s'.issued == s.issued)
      && (u == t && after.calls != before.calls ==>
          && after.calls == before.calls + 1 && after.pc == Idle
          && ((s'.issued == s.issued && s'.range >= |ranges|)
              || (s'.issued == s.issued + [s.frame] && s'.frame == s.frame + FRAME_SIZE && WholeFrame(ranges, s.frame))))
  {
    assert PcInv(ranges, s.range, s.stored, s.threads[t].pc);
    if s.threads[t].pc.CasFrame? && s.frame == s.threads[t].pc.current {
      assert FrameIn(ranges, s.threads[t].pc.ri, s.frame);
    }
  }

  predicate FrameIn(ranges: seq<Range>, j: nat, f: int) {
    j < |ranges| && FrameBetween(f, ranges[j].start, ranges[j].end)
  }

  /** `f` is a whole aligned frame of some range. */
  predicate WholeFrame(ranges: seq<Range>, f: int) {
    exists j: nat :: j < |ranges| && FrameIn(ranges, j, f)
  }

  /** Calls returned so far, over all threads. */
  function Returned(threads: seq<Thread>): nat {
    if threads == [] then 0 else Returned(threads[..|threads| - 1]) + threads[|threads| - 1].calls
  }

  lemma {:induction false} ReturnedUpdate(threads: seq<Thread>, t: nat, th: Thread)
    requires t < |threads| && th.calls >= threads[t].calls
    ensures Returned(threads[t := th]) == Returned(threads) + (th.calls - threads[t].calls)
  {
    var n := |threads| - 1;
    if t == n {
      assert threads[t := th][..n] == threads[..n];
    } else {
      assert threads[t := th][..n] == threads[..n][t := th];
      ReturnedUpdate(threads[..n], t, th);
    }
  }

  lemma {:induction false} NoneReturned(n: nat)
    ensures Returned(seq(n, _ => Thread(Idle, 0, 0, 0, 0))) == 0
  {
    if n > 0 {
      assert seq(n, _ => Thread(Idle, 0, 0, 0, 0))[..n - 1] == seq(n - 1, _ => Thread(Idle, 0, 0, 0, 0));
      NoneReturned(n - 1);
    }
  }

  /** Every returned call has its own frame, except None answers given once exhausted. */
  predicate Answered(ranges: seq<Range>, s: State) {
    && |s.issued| <= Returned(s.threads)
    && (s.range < |ranges| ==> |s.issued| == Returned(s.threads))
  }

  lemma {:induction false} NextAnswered(ranges: seq<Range>, s: State, t: nat)
    requires Sane(ranges, s) && CoreInv(ranges, s) && Answered(ranges, s) && t < |s.threads|
    ensures Answered(ranges, Next(ranges, s, t))
  {
    var s' := Next(ranges, s, t);
    StepAnswers(ranges, s, t, t);
    assert PcInv(ranges, s.range, s.stored, s.threads[t].pc);
    ReturnedUpdate(s.threads, t, s'.threads[t]);
    assert s'.threads == s.threads[t := s'.threads[t]];
  }

  lemma {:induction false} RunAnswered(ranges: seq<Range>, s: State, schedule: seq<nat>)
    requires AllWellFormed(ranges) && Sane(ranges, s) && Legal(|s.threads|, schedule)
    requires CoreInv(ranges, s) && Answered(ranges, s)
    ensures CoreInv(ranges, Run(ranges, s, schedule)) && Answered(ranges, Run(ranges, s, schedule))
    decreases |schedule|
  {
    if schedule != [] {
      NextCore(ranges, s, schedule[0]);
      NextAnswered(ranges, s, schedule[0]);
      RunAnswered(ranges, Next(ranges, s, schedule[0]), schedule[1..]);
    }
  }

  /** In every run, as long as the allocator is not exhausted, as many calls have
      returned as frames were issued: no call has answered None. */
  lemma {:induction false} NoneOnlyWhenExhausted(ranges: seq<Range>, n: nat, schedule: seq<nat>)
    requires AllWellFormed(ranges) && Legal(n, schedule)
    ensures
      var s := Run(ranges, Initial(ranges, n), schedule);
      && |s.issued| <= Returned(s.threads)
      && (s.range < |ranges| ==> |s.issued| == Returned(s.threads))
  {
    InitialCore(ranges, n);
    NoneReturned(n);
    RunAnswered(ranges, Initial(ranges, n), schedule);
  }
}
