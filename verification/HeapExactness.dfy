/**
 Exactly which alignments the bump heap is sound for.  Rounding up wraps to
 address 0 when an alignment is too large for where the heap lies.  The call then
 returns null and still sets `next` to the size asked for, far below the heap:
 later calls hand out addresses outside the heap, `heap_used` falls back to 0, and
 `next` can be driven round and round so that a thread retries without limit.
 */
module HeapExactness {
  import opened Words
  import opened Bits
  import opened HeapProtocol
  import opened HeapSafety

  // ---- one call ----

  /** A call returns null after moving `next` exactly when rounding up wraps and
      the size alone passes the bounds test; `next` then becomes that size. */
  lemma {:induction false} NullMovesNextExactly(layout: Layout, current: U64, heapEnd: U64)
    ensures
      var pc := DecidePc(layout, current, heapEnd);
      && (pc.CasNext? && pc.aligned == 0 <==>
          current > 0 && current + layout.Align() > TWO_64 && layout.size <= heapEnd)
      && (pc.CasNext? && pc.aligned == 0 ==> pc.next == layout.size < current)
  {
    if current > 0 { MaskAlignExact(current, layout.alignBits); }
  }

  /** Thread `t`'s next step makes its alloc return null. */
  predicate ReturnsNull(s: State, t: nat)
    requires t < |s.threads|
  {
    var pc := s.threads[t].pc;
    || (pc.LoadEnd? && DecidePc(pc.layout, pc.current, s.end).Idle?)
    || (pc.CasNext? && pc.current == s.next && pc.aligned == 0)
  }

  // ---- what is promised of all runs with alignments up to a limit ----

  /** A request has at least one byte, which leaves alignments up to this power of two. */
  const MAX_ALIGN_BITS: nat := 62

  predicate Bounded(actions: seq<Action>, k: nat) {
    forall i :: 0 <= i < |actions| && actions[i].Alloc? ==> actions[i].layout.alignBits <= k
  }

  /** Blocks are sound. */
  ghost predicate AlwaysSound(base: int, k: nat)
    requires HeapAt(base)
  {
    forall n: nat, actions: seq<Action> | Bounded(actions, k) :: BlocksSound(base, Run(base, Initial(n), actions).blocks)
  }

  /** A null return leaves `next` alone. */
  ghost predicate NullChangesNothing(base: int, k: nat)
    requires HeapAt(base)
  {
    forall n: nat, actions: seq<Action>, t: nat | Bounded(actions, k) && t < n ::
      var s := Run(base, Initial(n), actions);
      ReturnsNull(s, t) ==> Next(base, s, Step(t)).next == s.next
  }

  /** What `heap_used` computes between steps is the sum of all blocks and their padding. */
  ghost predicate AlwaysAccounted(base: int, k: nat)
    requires HeapAt(base)
  {
    forall n: nat, actions: seq<Action> | Bounded(actions, k) ::
      var s := Run(base, Initial(n), actions);
      UsedAnswer(s.start, s.next) == Consumed(s.blocks)
  }

  /** No answer of `heap_used` falls below one that was finished before it began. */
  ghost predicate AlwaysMonotone(base: int, k: nat)
    requires HeapAt(base)
  {
    forall n: nat, actions: seq<Action> | Bounded(actions, k) ::
      var readings := Run(base, Initial(n), actions).readings;
      forall i :: 0 <= i < |readings| ==> readings[i].floor <= readings[i].value
  }

  /** No thread retries more than `bound` times over its whole life. */
  ghost predicate RetriesWithin(base: int, k: nat, bound: nat)
    requires HeapAt(base)
  {
    forall n: nat, actions: seq<Action>, t: nat | Bounded(actions, k) && t < n ::
      Run(base, Initial(n), actions).threads[t].retries <= bound
  }

  // ---- building runs ----

  lemma {:induction false} RunConcat(base: int, s: State, a: seq<Action>, b: seq<Action>)
    requires HeapAt(base) && Words64(s)
    ensures Run(base, s, a + b) == Run(base, Run(base, s, a), b)
    decreases |a|
  {
    if a == [] {
      assert a + b == b;
    } else {
      assert (a + b)[1..] == a[1..] + b;
      RunConcat(base, Next(base, s, a[0]), a[1..], b);
    }
  }

  lemma {:induction false} RunOne(base: int, s: State, a: Action)
    requires HeapAt(base) && Words64(s)
    ensures Run(base, s, [a]) == Next(base, s, a)
  {
    assert Run(base, Next(base, s, a), []) == Next(base, s, a);
  }

  lemma {:induction false} RunThree(base: int, s: State, a: Action, b: Action, c: Action)
    requires HeapAt(base) && Words64(s)
    ensures Run(base, s, [a, b, c]) == Next(base, Next(base, Next(base, s, a), b), c)
  {
    var s1 := Next(base, s, a);
    var s2 := Next(base, s1, b);
    assert [a, b, c][1..] == [b, c];
    assert [b, c][1..] == [c];
    RunOne(base, s2, c);
    assert Run(base, s1, [b, c]) == Run(base, s2, [c]);
  }

  const PUBLISHING: seq<Action> := [Publish, Publish, Publish]

  lemma {:induction false} Published(base: int, n: nat)
    requires HeapAt(base)
    ensures
      var s := Run(base, Initial(n), PUBLISHING);
      s == Initial(n).(start := base, end := base + HEAP_SIZE, next := base, phase := 3)
  {
    RunThree(base, Initial(n), Publish, Publish, Publish);
  }

  /** Thread 0 is between calls. */
  predicate Free(s: State) {
    |s.threads| > 0 && s.threads[0].pc == Idle
  }

  function LoadBoth(layout: Layout): seq<Action> {
    [Alloc(0, layout), Step(0), Step(0)]
  }

  function OneCall(layout: Layout): seq<Action> {
    LoadBoth(layout) + [Step(0)]
  }

  /** Undisturbed, thread 0 decides on what it loads, and nothing else changes. */
  lemma {:induction false} SoloDecide(base: int, s: State, layout: Layout)
    requires HeapAt(base) && Words64(s) && Free(s)
    ensures
      Run(base, s, LoadBoth(layout))
        == Put(s, 0, s.threads[0].(pc := DecidePc(layout, s.next, s.end), request := layout))
  {
    RunThree(base, s, Alloc(0, layout), Step(0), Step(0));
  }

  /** The same state but for the record of what thread 0 asked for. */
  function Asked(s: State, layout: Layout): State
    requires |s.threads| > 0
  {
    s.(threads := s.threads[0 := s.threads[0].(request := layout)])
  }

  /** One undisturbed call by thread 0 takes the block its loads decide on. */
  lemma {:induction false} SoloAlloc(base: int, s: State, layout: Layout)
    requires HeapAt(base) && Words64(s) && Free(s)
    requires DecidePc(layout, s.next, s.end).CasNext?
    ensures
      var pc := DecidePc(layout, s.next, s.end);
      Run(base, s, OneCall(layout))
        == Asked(s, layout).(next := pc.next, blocks := s.blocks + Handed(layout, s.next, pc.aligned))
  {
    SoloDecide(base, s, layout);
    RunConcat(base, s, LoadBoth(layout), [Step(0)]);
    var s1 := Run(base, s, LoadBoth(layout));
    RunOne(base, s1, Step(0));
  }

  /** `size` bytes without alignment. */
  function Plain(size: nat): Layout
    requires 0 < size < 0x8000_0000_0000_0000
  {
    Layout(size, 0)
  }

  /** A request without alignment takes the bytes at `next`. */
  lemma {:induction false} PlainAlloc(base: int, s: State, size: nat)
    requires HeapAt(base) && Words64(s) && Free(s) && 0 < size < 0x8000_0000_0000_0000
    requires 0 < s.next && s.next + size <= s.end
    ensures Run(base, s, OneCall(Plain(size)))
      == Asked(s, Plain(size)).(next := s.next + size, blocks := s.blocks + [Block(s.next, size, 1, 0)])
  {
    MaskAlignFits(s.next, 0);
    SoloAlloc(base, s, Plain(size));
  }

  /** One allocation of the whole heap right after publication. */
  lemma {:induction false} FillHeap(base: int, n: nat) returns (actions: seq<Action>)
    requires HeapAt(base) && n > 0
    ensures Bounded(actions, 0)
    ensures Run(base, Initial(n), actions) ==
      Asked(Initial(n), Plain(HEAP_SIZE)).(start := base, end := base + HEAP_SIZE, next := base + HEAP_SIZE, phase := 3,
                                           blocks := [Block(base, HEAP_SIZE, 1, 0)])
  {
    Published(base, n);
    PlainAlloc(base, Run(base, Initial(n), PUBLISHING), HEAP_SIZE);
    RunConcat(base, Initial(n), PUBLISHING, OneCall(Plain(HEAP_SIZE)));
    actions := PUBLISHING + OneCall(Plain(HEAP_SIZE));
  }

  lemma {:induction false} TopPower()
    ensures 4 * Pow2(MAX_ALIGN_BITS) == TWO_64
  {
    Pow2At64();
    assert Pow2(64) == 2 * Pow2(63);
    assert Pow2(63) == 2 * Pow2(62);
  }

  /** One byte at alignment `2^k`. */
  function OneByte(k: nat): Layout
    requires k <= MAX_ALIGN_BITS
  {
    TopPower();
    Pow2Mono(k, MAX_ALIGN_BITS);
    Layout(1, k)
  }

  /** Rounding up to `2^k` passes 2^64 from the end of the heap. */
  predicate Wraps(base: int, k: nat) {
    base + HEAP_SIZE + Pow2(k) > TWO_64
  }

  lemma {:induction false} WrapsHigh(base: int, k: nat)
    requires k <= MAX_ALIGN_BITS && Wraps(base, k)
    ensures base > 1
  {
    TopPower();
    Pow2Mono(k, MAX_ALIGN_BITS);
  }

  /** From a full heap, one byte at an alignment that wraps. */
  lemma {:induction false} WrappedDecision(base: int, k: nat)
    requires HeapAt(base) && k <= MAX_ALIGN_BITS && Wraps(base, k)
    ensures
      var pc := DecidePc(OneByte(k), base + HEAP_SIZE, base + HEAP_SIZE);
      pc.CasNext? && pc.current == base + HEAP_SIZE && pc.aligned == 0 && pc.next == 1
  {
    NullMovesNextExactly(OneByte(k), base + HEAP_SIZE, base + HEAP_SIZE);
  }

  /** The call returns null and leaves 1 in `next`. */
  lemma {:induction false} WrappedRequest(base: int, s: State, k: nat)
    requires HeapAt(base) && Words64(s) && Free(s) && s.next == s.end == base + HEAP_SIZE
    requires k <= MAX_ALIGN_BITS && Wraps(base, k)
    ensures Run(base, s, OneCall(OneByte(k))) == Asked(s, OneByte(k)).(next := 1)
  {
    WrappedDecision(base, k);
    SoloAlloc(base, s, OneByte(k));
    assert s.blocks + [] == s.blocks;
  }

  /** The heap filled, then the wrapped request. */
  lemma {:induction false} WrappedHeap(base: int, n: nat, k: nat) returns (actions: seq<Action>)
    requires HeapAt(base) && n > 0 && k <= MAX_ALIGN_BITS && Wraps(base, k)
    ensures Bounded(actions, k)
    ensures Run(base, Initial(n), actions) ==
      Asked(Initial(n), OneByte(k)).(start := base, end := base + HEAP_SIZE, next := 1, phase := 3,
                                     blocks := [Block(base, HEAP_SIZE, 1, 0)])
  {
    var fill := FillHeap(base, n);
    WrappedRequest(base, Run(base, Initial(n), fill), k);
    RunConcat(base, Initial(n), fill, OneCall(OneByte(k)));
    actions := fill + OneCall(OneByte(k));
  }

  // ---- failing runs ----

  /** After it one plain byte is handed out at address 1. */
  lemma {:induction false} AddressOne(base: int, k: nat) returns (actions: seq<Action>)
    requires HeapAt(base) && k <= MAX_ALIGN_BITS && Wraps(base, k)
    ensures Bounded(actions, k)
    ensures Block(1, 1, 1, 0) in Run(base, Initial(1), actions).blocks
  {
    var a := WrappedHeap(base, 1, k);
    PlainAlloc(base, Run(base, Initial(1), a), 1);
    RunConcat(base, Initial(1), a, OneCall(Plain(1)));
    actions := a + OneCall(Plain(1));
  }

  lemma {:induction false} WrapIsUnsound(base: int, k: nat)
    requires HeapAt(base) && k <= MAX_ALIGN_BITS && Wraps(base, k)
    ensures !AlwaysSound(base, k)
  {
    var actions := AddressOne(base, k);
    var blocks := Run(base, Initial(1), actions).blocks;
    var i :| 0 <= i < |blocks| && blocks[i] == Block(1, 1, 1, 0);
    WrapsHigh(base, k);
    assert blocks[i].addr < base;
  }

  lemma {:induction false} WrapMovesNext(base: int, k: nat)
    requires HeapAt(base) && k <= MAX_ALIGN_BITS && Wraps(base, k)
    ensures !NullChangesNothing(base, k)
  {
    var fill := FillHeap(base, 1);
    var s := Run(base, Initial(1), fill);
    WrappedDecision(base, k);
    SoloDecide(base, s, OneByte(k));
    RunConcat(base, Initial(1), fill, LoadBoth(OneByte(k)));
    var actions := fill + LoadBoth(OneByte(k));
    var s1 := Run(base, Initial(1), actions);
    assert Bounded(actions, k) && ReturnsNull(s1, 0);
    assert Next(base, s1, Step(0)).next == 1;
  }

  /** A full heap is then reported as unused. */
  lemma {:induction false} WrapLosesCount(base: int, k: nat)
    requires HeapAt(base) && k <= MAX_ALIGN_BITS && Wraps(base, k)
    ensures !AlwaysAccounted(base, k)
  {
    var actions := WrappedHeap(base, 1, k);
    WrapsHigh(base, k);
    ConsumedAppend([], Block(base, HEAP_SIZE, 1, 0));
    assert [] + [Block(base, HEAP_SIZE, 1, 0)] == [Block(base, HEAP_SIZE, 1, 0)];
    assert Bounded(actions, k);
  }

  const ONE_READ: seq<Action> := [Used(0), Step(0), Step(0)]

  lemma {:induction false} SoloRead(base: int, s: State)
    requires HeapAt(base) && Words64(s) && Free(s)
    ensures
      var value := UsedAnswer(s.start, s.next);
      var s' := Run(base, s, ONE_READ);
      && s'.readings == s.readings + [Reading(s.seen, value)] && s'.seen == Max(s.seen, value)
      && s'.start == s.start && s'.end == s.end && s'.next == s.next && Free(s')
  {
    RunThree(base, s, Used(0), Step(0), Step(0));
  }

  /** A full heap is read, the wrapped request made, and the heap read again. */
  lemma {:induction false} WrapBreaksReadings(base: int, k: nat)
    requires HeapAt(base) && k <= MAX_ALIGN_BITS && Wraps(base, k)
    ensures !AlwaysMonotone(base, k)
  {
    var fill := FillHeap(base, 1);
    var s := Run(base, Initial(1), fill);
    SoloRead(base, s);
    var s1 := Run(base, s, ONE_READ);
    WrappedRequest(base, s1, k);
    var s2 := Run(base, s1, OneCall(OneByte(k)));
    SoloRead(base, s2);
    WrapsHigh(base, k);
    var rest := OneCall(OneByte(k)) + ONE_READ;
    RunConcat(base, s1, OneCall(OneByte(k)), ONE_READ);
    RunConcat(base, s, ONE_READ, rest);
    RunConcat(base, Initial(1), fill, ONE_READ + rest);
    var actions := fill + (ONE_READ + rest);
    assert Bounded(actions, k);
    assert Run(base, Initial(1), actions).readings[1] == Reading(HEAP_SIZE, 0);
  }

  // ---- retries without limit ----

  /** Thread 1 is about to load `next`, which is 1. */
  predicate Trapped(base: int, s: State) {
    && Words64(s) && |s.threads| == 2 && s.threads[0].pc == Idle && s.threads[1].pc == LoadNext(Plain(1))
    && s.end == base + HEAP_SIZE && s.next == 1
  }

  /** Thread 1 loads, thread 0 moves `next` before the exchange. */
  lemma {:induction false} Interrupt(base: int, s: State, size: nat) returns (actions: seq<Action>)
    requires HeapAt(base) && Trapped(base, s) && 0 < size < 0x8000_0000_0000_0000 && 1 + size <= s.end
    ensures Bounded(actions, 0)
    ensures
      var s' := Run(base, s, actions);
      && Words64(s') && s'.next == 1 + size && s'.end == s.end && |s'.threads| == 2 && s'.threads[0].pc == Idle
      && s'.threads[1].pc == LoadNext(Plain(1)) && s'.threads[1].retries == s.threads[1].retries + 1
  {
    var s1 := Next(base, s, Step(1));
    var s2 := Next(base, s1, Step(1));
    MaskAlignFits(1, 0);
    RunOne(base, s1, Step(1));
    assert [Step(1), Step(1)][1..] == [Step(1)];
    assert Run(base, s, [Step(1), Step(1)]) == s2;
    PlainAlloc(base, s2, size);
    var s3 := Run(base, s2, OneCall(Plain(size)));
    RunOne(base, s3, Step(1));
    RunConcat(base, s2, OneCall(Plain(size)), [Step(1)]);
    RunConcat(base, s, [Step(1), Step(1)], OneCall(Plain(size)) + [Step(1)]);
    actions := [Step(1), Step(1)] + (OneCall(Plain(size)) + [Step(1)]);
  }

  /** Once round: `next` is taken up to the end of the heap and wraps to 1 again. */
  lemma {:induction false} OnceRound(base: int, s: State, k: nat) returns (actions: seq<Action>)
    requires HeapAt(base) && Trapped(base, s) && k <= MAX_ALIGN_BITS && Wraps(base, k)
    ensures Bounded(actions, k)
    ensures
      var s' := Run(base, s, actions);
      Trapped(base, s') && s'.threads[1].retries == s.threads[1].retries + 1
  {
    WrapsHigh(base, k);
    var half := (s.end - 1) / 2;
    var a := Interrupt(base, s, half);
    var s1 := Run(base, s, a);
    var b := OneCall(Plain(s.end - 1 - half));
    PlainAlloc(base, s1, s.end - 1 - half);
    var s2 := Run(base, s1, b);
    var c := OneCall(OneByte(k));
    WrappedRequest(base, s2, k);
    RunConcat(base, s1, b, c);
    RunConcat(base, s, a, b + c);
    actions := a + (b + c);
  }

  lemma {:induction false} ManyRounds(base: int, s: State, k: nat, m: nat) returns (actions: seq<Action>)
    requires HeapAt(base) && Trapped(base, s) && k <= MAX_ALIGN_BITS && Wraps(base, k)
    ensures Bounded(actions, k)
    ensures
      var s' := Run(base, s, actions);
      Trapped(base, s') && s'.threads[1].retries == s.threads[1].retries + m
    decreases m
  {
    if m == 0 {
      actions := [];
    } else {
      var a := ManyRounds(base, s, k, m - 1);
      var b := OnceRound(base, Run(base, s, a), k);
      RunConcat(base, s, a, b);
      actions := a + b;
    }
  }

  lemma {:induction false} WrapRetriesForEver(base: int, k: nat, bound: nat)
    requires HeapAt(base) && k <= MAX_ALIGN_BITS && Wraps(base, k)
    ensures !RetriesWithin(base, k, bound)
  {
    var a := WrappedHeap(base, 2, k);
    var s := Run(base, Initial(2), a);
    var call := Alloc(1, Plain(1));
    RunOne(base, s, call);
    var b := ManyRounds(base, Next(base, s, call), k, bound + 1);
    RunConcat(base, s, [call], b);
    RunConcat(base, Initial(2), a, [call] + b);
    assert Bounded(a + ([call] + b), k);
  }

  // ---- the exact condition ----

  lemma {:induction false} BoundedIsGentle(base: int, k: nat, actions: seq<Action>)
    requires Bounded(actions, k) && !Wraps(base, k)
    ensures Gentle(base, actions)
  {
    forall i | 0 <= i < |actions| && actions[i].Alloc? ensures NoWrap(base, actions[i].layout) {
      Pow2Mono(actions[i].layout.alignBits, k);
    }
  }

  /** Blocks are sound in every run with alignments up to `2^k` if and only if
      rounding up to `2^k` cannot wrap anywhere in the heap. */
  lemma {:induction false} SoundExactlyWithoutWrap(base: int, k: nat)
    requires HeapAt(base) && k <= MAX_ALIGN_BITS
    ensures AlwaysSound(base, k) <==> !Wraps(base, k)
  {
    if Wraps(base, k) {
      WrapIsUnsound(base, k);
    } else {
      forall n: nat, actions: seq<Action> | Bounded(actions, k)
        ensures BlocksSound(base, Run(base, Initial(n), actions).blocks)
      {
        BoundedIsGentle(base, k, actions);
        Safety(base, n, actions);
      }
    }
  }

  /** The same condition decides whether `heap_used` accounts for every block. */
  lemma {:induction false} AccountedExactlyWithoutWrap(base: int, k: nat)
    requires HeapAt(base) && k <= MAX_ALIGN_BITS
    ensures AlwaysAccounted(base, k) <==> !Wraps(base, k)
  {
    if Wraps(base, k) {
      WrapLosesCount(base, k);
    } else {
      forall n: nat, actions: seq<Action> | Bounded(actions, k)
        ensures var s := Run(base, Initial(n), actions); UsedAnswer(s.start, s.next) == Consumed(s.blocks)
      {
        BoundedIsGentle(base, k, actions);
        Safety(base, n, actions);
      }
    }
  }

  /** It decides whether a null return leaves `next` alone. */
  lemma {:induction false} NullHarmlessExactlyWithoutWrap(base: int, k: nat)
    requires HeapAt(base) && k <= MAX_ALIGN_BITS
    ensures NullChangesNothing(base, k) <==> !Wraps(base, k)
  {
    if Wraps(base, k) {
      WrapMovesNext(base, k);
    } else {
      forall n: nat, actions: seq<Action>, t: nat | Bounded(actions, k) && t < n
        ensures
          var s := Run(base, Initial(n), actions);
          ReturnsNull(s, t) ==> Next(base, s, Step(t)).next == s.next
      {
        BoundedIsGentle(base, k, actions);
        InitialInv(base, n);
        RunInv(base, Initial(n), actions);
        assert ThreadInv(base, Run(base, Initial(n), actions), Run(base, Initial(n), actions).threads[t]);
      }
    }
  }

  /** It decides whether answers of `heap_used` never fall. */
  lemma {:induction false} MonotoneExactlyWithoutWrap(base: int, k: nat)
    requires HeapAt(base) && k <= MAX_ALIGN_BITS
    ensures AlwaysMonotone(base, k) <==> !Wraps(base, k)
  {
    if Wraps(base, k) {
      WrapBreaksReadings(base, k);
    } else {
      forall n: nat, actions: seq<Action> | Bounded(actions, k)
        ensures
          var readings := Run(base, Initial(n), actions).readings;
          forall i :: 0 <= i < |readings| ==> readings[i].floor <= readings[i].value
      {
        BoundedIsGentle(base, k, actions);
        var readings := Run(base, Initial(n), actions).readings;
        forall i | 0 <= i < |readings| ensures readings[i].floor <= readings[i].value {
          UsedIsMonotone(base, n, actions, i);
        }
      }
    }
  }

  /** And it decides whether retries have a limit at all; then the heap's size is one. */
  lemma {:induction false} RetriesLimitedExactlyWithoutWrap(base: int, k: nat)
    requires HeapAt(base) && k <= MAX_ALIGN_BITS
    ensures (exists bound: nat :: RetriesWithin(base, k, bound)) <==> !Wraps(base, k)
    ensures !Wraps(base, k) ==> RetriesWithin(base, k, HEAP_SIZE)
  {
    if Wraps(base, k) {
      if bound: nat :| RetriesWithin(base, k, bound) { WrapRetriesForEver(base, k, bound); }
    } else {
      forall n: nat, actions: seq<Action>, t: nat | Bounded(actions, k) && t < n
        ensures Run(base, Initial(n), actions).threads[t].retries <= HEAP_SIZE
      {
        BoundedIsGentle(base, k, actions);
        RetriesBounded(base, n, actions, t);
      }
      assert RetriesWithin(base, k, HEAP_SIZE);
    }
  }
}
