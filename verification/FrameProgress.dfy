/**
 Progress of the lock-free frame allocator, for every list of well-formed ranges:
 the total number of changes to the two atomics is bounded, every loop iteration
 that does not return can be charged to a change made during it, and so every
 call returns after a bounded number of its own steps whatever the other threads
 do.  `FrameWorstCase` shows that the bound on changes is attained.
 */
module FrameProgress {
  import opened Words
  import opened FrameRanges
  import opened FrameProtocol

  // ---- changes are bounded ----

  lemma BelowTop(ranges: seq<Range>, f: int)
    requires InSomeRange(ranges, f)
    ensures f < Top(ranges)
  {
    var j :| 0 <= j < |ranges| && ranges[j].Contains(f);
    TopIsHighest(ranges, j);
  }

  /** Frames that can be claimed one after the other from `f` upward: as long as
      the next one lies in some range. */
  function Reach(ranges: seq<Range>, f: int): nat
    decreases Top(ranges) - f
  {
    if InSomeRange(ranges, f) then
      BelowTop(ranges, f);
      1 + Reach(ranges, f + FRAME_SIZE)
    else 0
  }

  /** What the starts of the first `k` ranges reach. */
  function ReachSum(ranges: seq<Range>, k: nat): nat
    requires k <= |ranges|
  {
    if k == 0 then 0 else ReachSum(ranges, k - 1) + Reach(ranges, ranges[k - 1].start)
  }

  /** Frames reached past the ends of the first `k` ranges. */
  function Overrun(ranges: seq<Range>, k: nat): nat
    requires k <= |ranges|
  {
    if k == 0 then 0 else Overrun(ranges, k - 1) + Reach(ranges, ranges[k - 1].end)
  }

  /** From inside a range every frame of it is reached, and then what follows its end. */
  lemma {:induction false} ReachThrough(ranges: seq<Range>, j: nat, f: int)
    requires AllWellFormed(ranges) && j < |ranges|
    requires f % FRAME_SIZE == 0 && ranges[j].start <= f <= ranges[j].end
    ensures Reach(ranges, f) == (ranges[j].end - f) / FRAME_SIZE + Reach(ranges, ranges[j].end)
    decreases ranges[j].end - f
  {
    if f < ranges[j].end {
      assert WellFormed(ranges[j]);
      ReachThrough(ranges, j, f + FRAME_SIZE);
      assert ranges[j].Contains(f);
    }
  }

  lemma {:induction false} ReachSumIsOverrun(ranges: seq<Range>, k: nat)
    requires AllWellFormed(ranges) && k <= |ranges|
    ensures ReachSum(ranges, k) == TotalFrames(ranges[..k]) + Overrun(ranges, k)
  {
    if k > 0 {
      ReachSumIsOverrun(ranges, k - 1);
      assert WellFormed(ranges[k - 1]);
      ReachThrough(ranges, k - 1, ranges[k - 1].start);
      assert ranges[..k] == ranges[..k - 1] + [ranges[k - 1]];
      TotalFramesAppend(ranges[..k - 1], ranges[k - 1]);
    }
  }

  /** The most often the atomics can change: one claim per frame of every range and
      per frame reached past its end, one store per range but the first, one
      advance per range. */
  function MaxChanges(ranges: seq<Range>): nat
    requires AllWellFormed(ranges)
  {
    if ranges == [] then 0 else TotalFrames(ranges) + Overrun(ranges, |ranges|) + 2 * |ranges| - 1
  }

  /** A range that no other overlaps or touches is not overrun. */
  lemma {:induction false} SeparatedOverrun(ranges: seq<Range>, k: nat)
    requires AllWellFormed(ranges) && Separated(ranges) && k <= |ranges|
    ensures Overrun(ranges, k) == 0
  {
    if k > 0 { SeparatedOverrun(ranges, k - 1); }
  }

  /** What the stored starts among the first `k` pay for: the store and the claims it makes possible. */
  function Paid(ranges: seq<Range>, stored: set<nat>, k: nat): nat
    requires k <= |ranges|
  {
    if k == 0 then 0
    else Paid(ranges, stored, k - 1) + (if k - 1 in stored then 1 + Reach(ranges, ranges[k - 1].start) else 0)
  }

  lemma {:induction false} PaidGrows(ranges: seq<Range>, stored: set<nat>, ri: nat, k: nat)
    requires ri < |ranges| && ri !in stored && k <= |ranges|
    ensures Paid(ranges, stored + {ri}, k)
      == Paid(ranges, stored, k) + (if ri < k then 1 + Reach(ranges, ranges[ri].start) else 0)
  {
    if k > 0 { PaidGrows(ranges, stored, ri, k - 1); }
  }

  lemma {:induction false} PaidBound(ranges: seq<Range>, stored: set<nat>, k: nat)
    requires k <= |ranges|
    ensures Paid(ranges, stored, k) <= k + ReachSum(ranges, k)
  {
    if k > 0 { PaidBound(ranges, stored, k - 1); }
  }

  /** Changes so far, and the claims still possible from current_frame, are paid
      for by the stored starts and the advances. */
  predicate PaidInv(ranges: seq<Range>, s: State) {
    s.changes + Count(ranges != []) + Reach(ranges, s.frame) <= Paid(ranges, s.stored, |ranges|) + s.range
  }

  lemma InitialPaid(ranges: seq<Range>, n: nat)
    requires AllWellFormed(ranges)
    ensures PaidInv(ranges, Initial(ranges, n))
  {
    if ranges != [] {
      PaidGrows(ranges, {}, 0, |ranges|);
      assert {} + {0} == Initial(ranges, n).stored;
    }
  }

  lemma NextPaid(ranges: seq<Range>, s: State, t: nat)
    requires Sane(ranges, s) && CoreInv(ranges, s) && PaidInv(ranges, s) && t < |s.threads|
    ensures PaidInv(ranges, Next(ranges, s, t))
  {
    var pc := s.threads[t].pc;
    assert PcInv(ranges, s.range, s.stored, pc);
    if pc.StoreFrame? {
      PaidGrows(ranges, s.stored, pc.ri, |ranges|);
    } else if pc.CasFrame? && s.frame == pc.current {
      assert ranges[pc.ri].Contains(s.frame);
    }
  }

  lemma ChangesBound(ranges: seq<Range>, s: State)
    requires AllWellFormed(ranges) && CoreInv(ranges, s) && PaidInv(ranges, s)
    ensures s.changes <= MaxChanges(ranges)
  {
    PaidBound(ranges, s.stored, |ranges|);
    ReachSumIsOverrun(ranges, |ranges|);
    assert ranges[..|ranges|] == ranges;
  }

  // ---- retries are charged to changes ----

  /** Retries so far are covered by the changes before the current iteration
      began; the values loaded in it are current unless something changed since. */
  predicate Charged(s: State, th: Thread) {
    match th.pc
    case Idle => th.retries <= s.changes
    case LoadRange => th.retries <= s.changes
    case LoadFrame(ri) => th.retries <= th.mark <= s.changes && (th.mark == s.changes ==> s.range == ri)
    case StoreRange => th.retries <= s.changes
    case CasRange(ri) => th.retries <= th.mark <= s.changes && (th.mark == s.changes ==> s.range == ri)
    case StoreFrame(ri) => th.retries <= th.mark < s.changes
    case CasFrame(ri, current) =>
      th.retries <= th.mark <= s.changes && (th.mark == s.changes ==> s.frame == current)
  }

  predicate ChargedInv(s: State) {
    forall t :: 0 <= t < |s.threads| ==> Charged(s, s.threads[t])
  }

  /** A step that leaves the change counter alone leaves both atomics alone. */
  lemma CounterSeesChanges(ranges: seq<Range>, s: State, t: nat)
    requires Sane(ranges, s) && t < |s.threads|
    ensures
      var s' := Next(ranges, s, t);
      s.changes <= s'.changes && (s'.changes == s.changes ==> s'.range == s.range && s'.frame == s.frame)
  {
  }

  lemma StepperCharged(ranges: seq<Range>, s: State, t: nat)
    requires Sane(ranges, s) && t < |s.threads| && Charged(s, s.threads[t])
    ensures Charged(Next(ranges, s, t), Next(ranges, s, t).threads[t])
  {
  }

  lemma NextCharged(ranges: seq<Range>, s: State, t: nat)
    requires Sane(ranges, s) && ChargedInv(s) && t < |s.threads|
    ensures ChargedInv(Next(ranges, s, t))
  {
    var s' := Next(ranges, s, t);
    CounterSeesChanges(ranges, s, t);
    forall u | 0 <= u < |s'.threads| ensures Charged(s', s'.threads[u]) {
      assert Charged(s, s.threads[u]);
      if u == t {
        StepperCharged(ranges, s, t);
      } else {
        assert s'.threads[u] == s.threads[u];
      }
    }
  }

  // ---- steps are paid for by retries and returns ----

  function Phase(pc: Pc): nat {
    match pc
    case Idle => 0
    case LoadRange => 1
    case LoadFrame(_) => 2
    case StoreRange => 3
    case CasRange(_) => 3
    case StoreFrame(_) => 4
    case CasFrame(_, _) => 3
  }

  /** Four steps are allowed for each retry and each return; what is left never shrinks. */
  function Budget(th: Thread): int {
    4 * (th.retries + th.calls) + Phase(th.pc) - th.steps
  }

  function Occurrences(schedule: seq<nat>, t: nat): nat {
    if schedule == [] then 0 else Count(schedule[0] == t) + Occurrences(schedule[1..], t)
  }

  /** A budget that does not shrink buys a return once retries alone cannot pay. */
  lemma BudgetBuysReturn(before: Thread, after: Thread, steps: nat, bound: nat)
    requires Budget(before) <= Budget(after) && after.steps == before.steps + steps && before.calls <= after.calls
    requires after.retries <= bound && steps > 4 * bound + 4
    ensures after.calls > before.calls
  {
  }

  lemma NextBudget(ranges: seq<Range>, s: State, t: nat, u: nat)
    requires Sane(ranges, s) && t < |s.threads| && u < |s.threads|
    ensures
      var before, after := s.threads[t], Next(ranges, s, u).threads[t];
      && Budget(before) <= Budget(after)
      && after.steps == before.steps + Count(u == t)
      && before.calls <= after.calls
  {
  }

  lemma {:induction false} RunBudget(ranges: seq<Range>, s: State, schedule: seq<nat>, t: nat)
    requires Sane(ranges, s) && Legal(|s.threads|, schedule) && t < |s.threads|
    ensures
      var before, after := s.threads[t], Run(ranges, s, schedule).threads[t];
      && Budget(before) <= Budget(after)
      && after.steps == before.steps + Occurrences(schedule, t)
      && before.calls <= after.calls
    decreases |schedule|
  {
    if schedule != [] {
      NextBudget(ranges, s, t, schedule[0]);
      RunBudget(ranges, Next(ranges, s, schedule[0]), schedule[1..], t);
    }
  }

  // ---- the theorems ----

  ghost predicate ProgressInv(ranges: seq<Range>, s: State) {
    CoreInv(ranges, s) && PaidInv(ranges, s) && ChargedInv(s)
  }

  lemma {:induction false} RunProgress(ranges: seq<Range>, s: State, schedule: seq<nat>)
    requires AllWellFormed(ranges) && Sane(ranges, s) && ProgressInv(ranges, s) && Legal(|s.threads|, schedule)
    ensures ProgressInv(ranges, Run(ranges, s, schedule))
    decreases |schedule|
  {
    if schedule != [] {
      NextCore(ranges, s, schedule[0]);
      NextPaid(ranges, s, schedule[0]);
      NextCharged(ranges, s, schedule[0]);
      RunProgress(ranges, Next(ranges, s, schedule[0]), schedule[1..]);
    }
  }

  /** In every run the atomics change at most `MaxChanges` times, which is frames
      plus twice ranges less one if the ranges are separated. */
  lemma ChangesBounded(ranges: seq<Range>, n: nat, schedule: seq<nat>)
    requires AllWellFormed(ranges) && Legal(n, schedule)
    ensures Run(ranges, Initial(ranges, n), schedule).changes <= MaxChanges(ranges)
    ensures ranges != [] && Separated(ranges) ==> MaxChanges(ranges) == TotalFrames(ranges) + 2 * |ranges| - 1
  {
    InitialCore(ranges, n);
    InitialPaid(ranges, n);
    RunProgress(ranges, Initial(ranges, n), schedule);
    ChangesBound(ranges, Run(ranges, Initial(ranges, n), schedule));
    if Separated(ranges) { SeparatedOverrun(ranges, |ranges|); }
  }

  /** In every run, all the calls a thread has made took together no more
      retries than the atomics changed. */
  lemma RetriesBounded(ranges: seq<Range>, n: nat, schedule: seq<nat>, t: nat)
    requires AllWellFormed(ranges) && Legal(n, schedule) && t < n
    ensures
      var s := Run(ranges, Initial(ranges, n), schedule);
      s.threads[t].retries <= s.changes <= MaxChanges(ranges)
  {
    InitialCore(ranges, n);
    InitialPaid(ranges, n);
    RunProgress(ranges, Initial(ranges, n), schedule);
    var s := Run(ranges, Initial(ranges, n), schedule);
    ChangesBound(ranges, s);
    assert Charged(s, s.threads[t]);
  }

  /** Every call finishes: from any reachable point, a thread that is scheduled
      more than four times that bound plus four returns from a call. */
  lemma EveryCallReturns(ranges: seq<Range>, n: nat, before: seq<nat>, after: seq<nat>, t: nat)
    requires AllWellFormed(ranges) && Legal(n, before) && Legal(n, after) && t < n
    requires Occurrences(after, t) > 4 * MaxChanges(ranges) + 4
    ensures
      var s := Run(ranges, Initial(ranges, n), before);
      Run(ranges, s, after).threads[t].calls > s.threads[t].calls
  {
    var s := Run(ranges, Initial(ranges, n), before);
    RunConcat(ranges, Initial(ranges, n), before, after);
    RetriesBounded(ranges, n, before + after, t);
    RunBudget(ranges, s, after, t);
    BudgetBuysReturn(s.threads[t], Run(ranges, s, after).threads[t], Occurrences(after, t), MaxChanges(ranges));
  }
}
