/**
 The lock-free frame allocator as a step machine.

 Any number of threads call `allocate_frame` over and over.  One step of one
 thread is one atomic load, store or compare-exchange together with the local
 computation that follows it; atomics are sequentially consistent.  A thread's
 step is determined by the state, so an interleaving is a list of thread
 numbers and a run is `Run(ranges, Initial(ranges, n), schedule)`.
 */
module FrameProtocol {
  import opened Words
  import opened FrameRanges

  /** Where a thread is, with the values it has loaded. */
  datatype Pc =
    | Idle                               // between calls
    | LoadRange                          // about to load current_range
    | LoadFrame(ri: nat)                 // about to load current_frame
    | StoreRange                         // about to store range_count: no range is left
    | CasRange(ri: nat)                  // about to move current_range from ri to ri + 1
    | StoreFrame(ri: nat)                // won that exchange, about to store the start of range ri
    | CasFrame(ri: nat, current: int)    // about to claim frame `current` of range ri

  /** `mark`, `retries`, `calls` and `steps` only record history: the value of
      the change counter when the current loop iteration began, the iterations
      that ended without returning, the calls that returned and the steps taken. */
  datatype Thread = Thread(pc: Pc, mark: nat, retries: nat, calls: nat, steps: nat)

  /** `issued`, `stored` and `changes` only record history: the frames returned,
      the ranges whose start has been stored, and how often an atomic changed. */
  datatype State = State(
    range: nat, frame: int, threads: seq<Thread>,
    issued: seq<int>, stored: set<nat>, changes: nat)

  predicate InBounds(ranges: seq<Range>, pc: Pc) {
    match pc
    case LoadFrame(ri) => ri < |ranges|
    case CasRange(ri) => ri + 1 < |ranges|
    case StoreFrame(ri) => ri < |ranges|
    case _ => true
  }

  predicate Sane(ranges: seq<Range>, s: State) {
    forall t :: 0 <= t < |s.threads| ==> InBounds(ranges, s.threads[t].pc)
  }

  function Initial(ranges: seq<Range>, n: nat): (s: State)
    ensures Sane(ranges, s)
  {
    State(
      0, if ranges == [] then 0 else ranges[0].start, seq(n, _ => Thread(Idle, 0, 0, 0, 0)),
      [], if ranges == [] then {} else {0}, 0)
  }

  // ---- one step ----

  function Count(changed: bool): nat { if changed then 1 else 0 }

  function Goto(th: Thread, pc: Pc): Thread {
    th.(pc := pc, steps := th.steps + 1)
  }

  function Return(th: Thread): Thread {
    th.(pc := Idle, calls := th.calls + 1, steps := th.steps + 1)
  }

  function Retry(th: Thread): Thread {
    th.(pc := LoadRange, retries := th.retries + 1, steps := th.steps + 1)
  }

  /** The first action of `advance_range`.  Both callers return None after the
      final store: the second one's guard repeats the test that just failed. */
  function AdvancePc(ranges: seq<Range>, ri: nat): Pc {
    if ri + 1 >= |ranges| then StoreRange else CasRange(ri)
  }

  /** What a thread that loaded range `ri` and frame `f` does next. */
  function DecidePc(ranges: seq<Range>, ri: nat, f: int): Pc
    requires ri < |ranges|
  {
    if f < ranges[ri].start || f >= ranges[ri].end then AdvancePc(ranges, ri)
    else if f + FRAME_SIZE > ranges[ri].end then AdvancePc(ranges, ri)
    else CasFrame(ri, f)
  }

  function Next(ranges: seq<Range>, s: State, t: nat): (s': State)
    requires Sane(ranges, s) && t < |s.threads|
    ensures Sane(ranges, s') && |s'.threads| == |s.threads|
  {
    var th := s.threads[t];
    match th.pc
    case Idle =>
      s.(threads := s.threads[t := Goto(th, LoadRange)])
    case LoadRange =>
      if s.range >= |ranges| then s.(threads := s.threads[t := Return(th)])
      else s.(threads := s.threads[t := Goto(th, LoadFrame(s.range)).(mark := s.changes)])
    case LoadFrame(ri) =>
      s.(threads := s.threads[t := Goto(th, DecidePc(ranges, ri, s.frame))])
    case StoreRange =>
      s.(threads := s.threads[t := Return(th)],
         range := |ranges|, changes := s.changes + Count(s.range != |ranges|))
    case CasRange(ri) =>
      if s.range != ri then s.(threads := s.threads[t := Retry(th)])
      else s.(threads := s.threads[t := Goto(th, StoreFrame(ri + 1))],
              range := ri + 1, changes := s.changes + 1)
    case StoreFrame(ri) =>
      s.(threads := s.threads[t := Retry(th)],
         frame := ranges[ri].start, stored := s.stored + {ri},
         changes := s.changes + Count(s.frame != ranges[ri].start))
    case CasFrame(ri, current) =>
      if s.frame != current then s.(threads := s.threads[t := Retry(th)])
      else s.(threads := s.threads[t := Return(th)],
              frame := current + FRAME_SIZE, issued := s.issued + [current], changes := s.changes + 1)
  }

  /** A schedule names threads that exist. */
  predicate Legal(n: nat, schedule: seq<nat>) {
    forall i :: 0 <= i < |schedule| ==> schedule[i] < n
  }

  function Run(ranges: seq<Range>, s: State, schedule: seq<nat>): (s': State)
    requires Sane(ranges, s) && Legal(|s.threads|, schedule)
    ensures Sane(ranges, s') && |s'.threads| == |s.threads|
    decreases |schedule|
  {
    if schedule == [] then s
    else Run(ranges, Next(ranges, s, schedule[0]), schedule[1..])
  }

  lemma {:induction false} RunConcat(ranges: seq<Range>, s: State, a: seq<nat>, b: seq<nat>)
    requires Sane(ranges, s) && Legal(|s.threads|, a) && Legal(|s.threads|, b)
    ensures Run(ranges, s, a + b) == Run(ranges, Run(ranges, s, a), b)
    decreases |a|
  {
    if a == [] {
      assert a + b == b;
    } else {
      assert (a + b)[1..] == a[1..] + b;
      RunConcat(ranges, Next(ranges, s, a[0]), a[1..], b);
    }
  }

  // ---- the log, seen from one range ----

  /** The logged frames that lie in `r`, in the order they were returned. */
  function FromRange(log: seq<int>, r: Range): seq<int> {
    if log == [] then []
    else
      var f := log[|log| - 1];
      FromRange(log[..|log| - 1], r) + (if r.Contains(f) then [f] else [])
  }

  lemma {:induction false} FromRangeAppend(log: seq<int>, f: int, r: Range)
    ensures FromRange(log + [f], r) == FromRange(log, r) + (if r.Contains(f) then [f] else [])
  {
    assert (log + [f])[..|log|] == log;
  }

  lemma {:induction false} FromRangeKeeps(log: seq<int>, f: int, r: Range)
    requires f in log && r.Contains(f)
    ensures f in FromRange(log, r)
  {
    var n := |log| - 1;
    assert log == log[..n] + [log[n]];
    if f != log[n] {
      FromRangeKeeps(log[..n], f, r);
    }
  }

  predicate NoDuplicates(log: seq<int>) {
    forall i, j :: 0 <= i < j < |log| ==> log[i] != log[j]
  }

  // ---- the invariant ----

  /** What each program point knows. */
  predicate PcInv(ranges: seq<Range>, range: nat, stored: set<nat>, pc: Pc) {
    match pc
    case Idle => true
    case LoadRange => true
    case LoadFrame(ri) => ri < |ranges| && ri <= range
    case StoreRange => ranges != [] && |ranges| <= range + 1
    case CasRange(ri) => ri + 1 < |ranges| && ri <= range
    case StoreFrame(ri) => 0 < ri < |ranges| && ri <= range && ri !in stored
    case CasFrame(ri, current) =>
      ri < |ranges| && ranges[ri].start <= current && current + FRAME_SIZE <= ranges[ri].end
  }

  predicate ThreadsInv(ranges: seq<Range>, range: nat, stored: set<nat>, threads: seq<Thread>) {
    forall t :: 0 <= t < |threads| ==> PcInv(ranges, range, stored, threads[t].pc)
  }

  predicate Holds(th: Thread, ri: nat) {
    th.pc.StoreFrame? && th.pc.ri == ri
  }

  /** Two threads never hold the same pending store. */
  ghost predicate OneStorer(threads: seq<Thread>) {
    forall t, u, ri ::
      (0 <= t < |threads| && 0 <= u < |threads| && Holds(threads[t], ri) && Holds(threads[u], ri)) ==> t == u
  }

  predicate StoredInv(ranges: seq<Range>, s: State) {
    forall j :: j in s.stored ==> j < |ranges| && j <= s.range
  }

  /** What has been issued from range `j`: a prefix of it, and nothing before its start is stored. */
  predicate IssuedInv(ranges: seq<Range>, issued: seq<int>, stored: set<nat>, j: nat)
    requires AllWellFormed(ranges) && j < |ranges|
  {
    && FromRange(issued, ranges[j]) <= Frames(ranges[j])
    && (j !in stored ==> FromRange(issued, ranges[j]) == [])
  }

  predicate InSomeRange(ranges: seq<Range>, f: int) {
    exists j :: 0 <= j < |ranges| && ranges[j].Contains(f)
  }

  predicate LogInv(ranges: seq<Range>, issued: seq<int>, stored: set<nat>)
    requires AllWellFormed(ranges)
  {
    && (forall j :: 0 <= j < |ranges| ==> IssuedInv(ranges, issued, stored, j))
    && (forall k :: 0 <= k < |issued| ==> InSomeRange(ranges, issued[k]))
    && NoDuplicates(issued)
  }

  /** `frame` is the next frame of range `o`. */
  predicate Live(ranges: seq<Range>, frame: int, issued: seq<int>, stored: set<nat>, o: nat) {
    && o < |ranges| && o in stored
    && frame == ranges[o].start + |FromRange(issued, ranges[o])| * FRAME_SIZE
  }

  ghost predicate FrameInv(ranges: seq<Range>, frame: int, issued: seq<int>, stored: set<nat>) {
    ranges != [] ==> exists o :: Live(ranges, frame, issued, stored, o)
  }

  /** The highest end of any range. */
  function Top(ranges: seq<Range>): nat {
    if ranges == [] then 0 else Max(ranges[0].end, Top(ranges[1..]))
  }

  lemma {:induction false} TopIsHighest(ranges: seq<Range>, i: nat)
    requires i < |ranges|
    ensures ranges[i].end <= Top(ranges)
  {
    if i > 0 { TopIsHighest(ranges[1..], i - 1); }
  }

  /** What holds of any well-formed ranges, overlapping or touching ones included. */
  ghost predicate CoreInv(ranges: seq<Range>, s: State) {
    && s.range <= |ranges|
    && ThreadsInv(ranges, s.range, s.stored, s.threads)
    && OneStorer(s.threads)
    && StoredInv(ranges, s)
    && s.frame % FRAME_SIZE == 0 && 0 <= s.frame <= Top(ranges)
  }

  ghost predicate Inv(ranges: seq<Range>, s: State)
    requires AllWellFormed(ranges)
  {
    && CoreInv(ranges, s)
    && LogInv(ranges, s.issued, s.stored)
    && FrameInv(ranges, s.frame, s.issued, s.stored)
  }

  lemma {:induction false} InitialCore(ranges: seq<Range>, n: nat)
    requires AllWellFormed(ranges)
    ensures CoreInv(ranges, Initial(ranges, n))
  {
    if ranges != [] { TopIsHighest(ranges, 0); }
  }

  lemma {:induction false} InitialInv(ranges: seq<Range>, n: nat)
    requires AllWellFormed(ranges)
    ensures Inv(ranges, Initial(ranges, n))
  {
    InitialCore(ranges, n);
    var s := Initial(ranges, n);
    if ranges != [] { assert Live(ranges, s.frame, s.issued, s.stored, 0); }
  }

  /** A range is issued frame by frame: the live position is in the range or at its end. */
  lemma {:induction false} LivePosition(ranges: seq<Range>, s: State, o: nat)
    requires AllWellFormed(ranges) && Inv(ranges, s) && Live(ranges, s.frame, s.issued, s.stored, o)
    ensures ranges[o].start <= s.frame <= ranges[o].end
  {
    assert IssuedInv(ranges, s.issued, s.stored, o);
  }

  /** current_range only grows, so what the other threads know stays true. */
  lemma {:induction false} UpdateThread(ranges: seq<Range>, range: nat, range': nat, stored: set<nat>,
                     threads: seq<Thread>, t: nat, th: Thread)
    requires ThreadsInv(ranges, range, stored, threads) && range <= range' && t < |threads|
    requires PcInv(ranges, range', stored, th.pc)
    ensures ThreadsInv(ranges, range', stored, threads[t := th])
  {
    var threads' := threads[t := th];
    forall u | 0 <= u < |threads| ensures PcInv(ranges, range', stored, threads'[u].pc) {
      assert PcInv(ranges, range, stored, threads[u].pc);
    }
  }

  /** Storing a range's start uses up the only pending store for it. */
  lemma {:induction false} StoreKeepsCore(ranges: seq<Range>, s: State, t: nat)
    requires AllWellFormed(ranges) && Sane(ranges, s) && CoreInv(ranges, s)
    requires t < |s.threads| && s.threads[t].pc.StoreFrame?
    ensures CoreInv(ranges, Next(ranges, s, t))
  {
    var ri := s.threads[t].pc.ri;
    var s' := Next(ranges, s, t);
    assert PcInv(ranges, s.range, s.stored, s.threads[t].pc);
    assert WellFormed(ranges[ri]);
    TopIsHighest(ranges, ri);
    forall u | 0 <= u < |s'.threads| ensures PcInv(ranges, s'.range, s'.stored, s'.threads[u].pc) {
      assert PcInv(ranges, s.range, s.stored, s.threads[u].pc);
      assert Holds(s.threads[t], ri);
      assert Holds(s.threads[u], ri) ==> u == t;
    }
  }

  /** Winning the range exchange creates the only pending store for the new range. */
  lemma {:induction false} WinKeepsCore(ranges: seq<Range>, s: State, t: nat)
    requires Sane(ranges, s) && CoreInv(ranges, s) && t < |s.threads|
    requires s.threads[t].pc.CasRange? && s.range == s.threads[t].pc.ri
    ensures CoreInv(ranges, Next(ranges, s, t))
  {
    var th := s.threads[t];
    assert PcInv(ranges, s.range, s.stored, th.pc);
    UpdateThread(ranges, s.range, s.range + 1, s.stored, s.threads, t, Goto(th, StoreFrame(s.range + 1)));
    forall u | 0 <= u < |s.threads| ensures !Holds(s.threads[u], s.range + 1) {
      assert PcInv(ranges, s.range, s.stored, s.threads[u].pc);
    }
  }

  /** A claim moves current_frame to the next boundary of the range it was checked against. */
  lemma {:induction false} ClaimKeepsCore(ranges: seq<Range>, s: State, t: nat)
    requires AllWellFormed(ranges) && Sane(ranges, s) && CoreInv(ranges, s) && t < |s.threads|
    requires s.threads[t].pc.CasFrame? && s.frame == s.threads[t].pc.current
    ensures CoreInv(ranges, Next(ranges, s, t))
  {
    var th := s.threads[t];
    assert PcInv(ranges, s.range, s.stored, th.pc);
    TopIsHighest(ranges, th.pc.ri);
    UpdateThread(ranges, s.range, s.range, s.stored, s.threads, t, Return(th));
  }

  /** The remaining steps leave current_frame alone, create no pending store and
      move current_range at most upward. */
  lemma {:induction false} OtherStepKeepsCore(ranges: seq<Range>, s: State, t: nat)
    requires Sane(ranges, s) && CoreInv(ranges, s) && t < |s.threads|
    requires !s.threads[t].pc.StoreFrame?
    requires s.threads[t].pc.CasFrame? ==> s.frame != s.threads[t].pc.current
    requires s.threads[t].pc.CasRange? ==> s.range != s.threads[t].pc.ri
    ensures CoreInv(ranges, Next(ranges, s, t)) && s.range <= Next(ranges, s, t).range
  {
    var s' := Next(ranges, s, t);
    assert PcInv(ranges, s.range, s.stored, s.threads[t].pc);
    UpdateThread(ranges, s.range, s'.range, s.stored, s.threads, t, s'.threads[t]);
    assert s'.threads == s.threads[t := s'.threads[t]];
  }

  lemma {:induction false} NextCore(ranges: seq<Range>, s: State, t: nat)
    requires AllWellFormed(ranges) && Sane(ranges, s) && CoreInv(ranges, s) && t < |s.threads|
    ensures CoreInv(ranges, Next(ranges, s, t))
  {
    var pc := s.threads[t].pc;
    if pc.StoreFrame? {
      StoreKeepsCore(ranges, s, t);
    } else if pc.CasFrame? && s.frame == pc.current {
      ClaimKeepsCore(ranges, s, t);
    } else if pc.CasRange? && s.range == pc.ri {
      WinKeepsCore(ranges, s, t);
    } else {
      OtherStepKeepsCore(ranges, s, t);
    }
  }

  lemma {:induction false} RunCore(ranges: seq<Range>, s: State, schedule: seq<nat>)
    requires AllWellFormed(ranges) && Sane(ranges, s) && CoreInv(ranges, s) && Legal(|s.threads|, schedule)
    ensures CoreInv(ranges, Run(ranges, s, schedule))
    decreases |schedule|
  {
    if schedule != [] {
      NextCore(ranges, s, schedule[0]);
      RunCore(ranges, Next(ranges, s, schedule[0]), schedule[1..]);
    }
  }

  /** Whenever current_frame lies in a range, a whole frame of that range is left:
      the second out-of-range test never fires and the addition before it stays
      within 64 bits, whichever range a thread loaded and however long ago. */
  lemma {:induction false} WholeFrameLeft(ranges: seq<Range>, n: nat, schedule: seq<nat>, ri: nat)
    requires AllWellFormed(ranges) && Legal(n, schedule) && ri < |ranges|
    ensures
      var s := Run(ranges, Initial(ranges, n), schedule);
      ranges[ri].Contains(s.frame) ==>
        s.frame + FRAME_SIZE <= ranges[ri].end < TWO_64 && DecidePc(ranges, ri, s.frame) == CasFrame(ri, s.frame)
  {
    InitialCore(ranges, n);
    RunCore(ranges, Initial(ranges, n), schedule);
    assert WellFormed(ranges[ri]);
  }

  /** Claiming the current frame extends the issued prefix of exactly one range. */
  lemma {:induction false} ClaimKeepsInv(ranges: seq<Range>, s: State, t: nat)
    requires AllWellFormed(ranges) && Separated(ranges) && Sane(ranges, s) && Inv(ranges, s)
    requires t < |s.threads| && s.threads[t].pc.CasFrame? && s.frame == s.threads[t].pc.current
    ensures Inv(ranges, Next(ranges, s, t))
  {
    ClaimKeepsCore(ranges, s, t);
    var th := s.threads[t];
    assert PcInv(ranges, s.range, s.stored, th.pc);
    var f, ri := th.pc.current, th.pc.ri;
    var o :| Live(ranges, s.frame, s.issued, s.stored, o);
    LivePosition(ranges, s, o);
    assert o == ri;
    ClaimKeepsLog(ranges, f, s.issued, s.stored, ri);
  }

  lemma {:induction false} ClaimKeepsLog(ranges: seq<Range>, f: int, issued: seq<int>, stored: set<nat>, ri: nat)
    requires AllWellFormed(ranges) && Separated(ranges) && LogInv(ranges, issued, stored)
    requires Live(ranges, f, issued, stored, ri) && f + FRAME_SIZE <= ranges[ri].end
    ensures LogInv(ranges, issued + [f], stored)
    ensures Live(ranges, f + FRAME_SIZE, issued + [f], stored, ri)
  {
    assert IssuedInv(ranges, issued, stored, ri);
    assert ranges[ri].Contains(f);
    forall j | 0 <= j < |ranges| ensures IssuedInv(ranges, issued + [f], stored, j) {
      assert IssuedInv(ranges, issued, stored, j);
      FromRangeAppend(issued, f, ranges[j]);
      if j == ri { PrefixExtends(ranges[ri], FromRange(issued, ranges[ri]), f); }
    }
    if f in issued { FromRangeKeeps(issued, f, ranges[ri]); }
    assert InSomeRange(ranges, f);
    FromRangeAppend(issued, f, ranges[ri]);
  }

  lemma {:induction false} PrefixExtends(r: Range, prefix: seq<int>, f: int)
    requires WellFormed(r) && prefix <= Frames(r)
    requires f == r.start + |prefix| * FRAME_SIZE && f + FRAME_SIZE <= r.end
    ensures prefix + [f] <= Frames(r)
  {
  }

  /** Storing a range's start makes that range live; it has issued nothing yet. */
  lemma {:induction false} StoreKeepsInv(ranges: seq<Range>, s: State, t: nat)
    requires AllWellFormed(ranges) && Sane(ranges, s) && Inv(ranges, s)
    requires t < |s.threads| && s.threads[t].pc.StoreFrame?
    ensures Inv(ranges, Next(ranges, s, t))
  {
    StoreKeepsCore(ranges, s, t);
    var ri := s.threads[t].pc.ri;
    var s' := Next(ranges, s, t);
    assert PcInv(ranges, s.range, s.stored, s.threads[t].pc);
    assert IssuedInv(ranges, s.issued, s.stored, ri);
    assert Live(ranges, s'.frame, s'.issued, s'.stored, ri);
    forall j | 0 <= j < |ranges| ensures IssuedInv(ranges, s'.issued, s'.stored, j) {
      assert IssuedInv(ranges, s.issued, s.stored, j);
    }
  }

  lemma {:induction false} NextInv(ranges: seq<Range>, s: State, t: nat)
    requires AllWellFormed(ranges) && Separated(ranges) && Sane(ranges, s) && Inv(ranges, s) && t < |s.threads|
    ensures Inv(ranges, Next(ranges, s, t))
  {
    var pc := s.threads[t].pc;
    if pc.StoreFrame? {
      StoreKeepsInv(ranges, s, t);
    } else if pc.CasFrame? && s.frame == pc.current {
      ClaimKeepsInv(ranges, s, t);
    } else {
      NextCore(ranges, s, t);
    }
  }

  lemma {:induction false} RunInv(ranges: seq<Range>, s: State, schedule: seq<nat>)
    requires AllWellFormed(ranges) && Separated(ranges) && Sane(ranges, s) && Inv(ranges, s)
    requires Legal(|s.threads|, schedule)
    ensures Inv(ranges, Run(ranges, s, schedule))
    decreases |schedule|
  {
    if schedule != [] {
      NextInv(ranges, s, schedule[0]);
      RunInv(ranges, Next(ranges, s, schedule[0]), schedule[1..]);
    }
  }

  /** Safety of every interleaving: no frame is returned twice, every returned
      frame is a whole aligned frame of a recorded range, and each range is
      issued front to back. */
  lemma {:induction false} Safety(ranges: seq<Range>, n: nat, schedule: seq<nat>)
    requires AllWellFormed(ranges) && Separated(ranges) && Legal(n, schedule)
    ensures
      var log := Run(ranges, Initial(ranges, n), schedule).issued;
      && NoDuplicates(log)
      && (forall k :: 0 <= k < |log| ==> log[k] in AllFrames(ranges))
      && (forall j :: 0 <= j < |ranges| ==> FromRange(log, ranges[j]) <= Frames(ranges[j]))
  {
    InitialInv(ranges, n);
    RunInv(ranges, Initial(ranges, n), schedule);
    var s := Run(ranges, Initial(ranges, n), schedule);
    forall j | 0 <= j < |ranges| ensures FromRange(s.issued, ranges[j]) <= Frames(ranges[j]) {
      assert IssuedInv(ranges, s.issued, s.stored, j);
    }
    forall k | 0 <= k < |s.issued| ensures s.issued[k] in AllFrames(ranges) {
      var f := s.issued[k];
      assert InSomeRange(ranges, f);
      var j :| 0 <= j < |ranges| && ranges[j].Contains(f);
      FromRangeKeeps(s.issued, f, ranges[j]);
      assert f in Frames(ranges[j]);
      AllFramesMember(ranges, f);
    }
  }
}
