/**
 The lock-free bump heap as a step machine.

 One initializer performs three stores; any number of threads call `alloc` and
 `heap_used` in any order.  One action is one atomic load, store or
 compare-exchange with the local computation that follows it; atomics are
 sequentially consistent.  Additions wrap at 64 bits exactly where the code's do.
 */
module HeapProtocol {
  import opened Words
  import opened Bits

  const HEAP_SIZE: nat := 131072

  /** A request: `size` bytes aligned to `2^alignBits`.  Rounded up to the
      alignment, the size of a layout does not exceed 2^63 - 1, and the caller of
      alloc asks for at least one byte. */
  datatype RawLayout = Layout(size: nat, alignBits: nat) {
    function Align(): nat { Pow2(alignBits) }
  }
  type Layout = l: RawLayout | 0 < l.size && l.alignBits < 64 && l.size + l.Align() <= 0x8000_0000_0000_0000
    witness Layout(1, 0)

  datatype Pc =
    | Idle
    | LoadNext(layout: Layout)                                        // alloc: about to load next
    | LoadEnd(layout: Layout, current: U64)                           // about to load heap_end
    | CasNext(layout: Layout, current: U64, aligned: nat, next: nat)  // about to exchange next
    | ReadStart                                                       // heap_used: about to load heap_start
    | ReadNext(start: U64)                                            // about to load next

  /** History only: `retries` counts failed exchanges; `floor` is the largest
      answer of any `heap_used` that finished before this one began; `request` is
      what the last call of alloc asked for. */
  datatype Thread = Thread(pc: Pc, retries: nat, floor: nat, request: Layout)

  /** A block handed out at a non-null address, with the size and alignment its
      caller asked for and the padding skipped in front of it. */
  datatype Block = Block(addr: int, size: nat, align: nat, pad: int)

  /** An answer of `heap_used` with the floor recorded when it began. */
  datatype Reading = Reading(floor: nat, value: nat)

  /** `phase` counts the initializer's stores; `blocks`, `readings` and `seen` only record history. */
  datatype State = State(
    start: U64, end: U64, next: nat, phase: nat, threads: seq<Thread>,
    blocks: seq<Block>, readings: seq<Reading>, seen: nat)

  datatype Action =
    | Publish                       // the initializer's next store
    | Alloc(t: nat, layout: Layout) // an idle thread calls alloc
    | Used(t: nat)                  // an idle thread calls heap_used
    | Step(t: nat)                  // a thread in a call takes its next step

  /** The heap's own bounds. */
  predicate HeapAt(base: int) {
    0 < base && base + HEAP_SIZE < TWO_64
  }

  function Initial(n: nat): State {
    State(0, 0, 0, 0, seq(n, _ => Thread(Idle, 0, 0, Layout(1, 0))), [], [], 0)
  }

  // ---- one action ----

  function Put(s: State, t: nat, th: Thread): State
    requires t < |s.threads|
  {
    s.(threads := s.threads[t := th])
  }

  function PublishStep(base: int, s: State): State
    requires HeapAt(base)
  {
    if s.phase == 0 then s.(start := base, phase := 1)
    else if s.phase == 1 then s.(end := base + HEAP_SIZE, phase := 2)
    else if s.phase == 2 then s.(next := base, phase := 3)
    else s
  }

  lemma LayoutFits(layout: Layout)
    ensures layout.Align() <= TWO_64
  {
    Pow2Fits(layout.alignBits);
  }

  /** What alloc does after loading `next` and `heap_end`; Idle means it returned null. */
  function DecidePc(layout: Layout, current: U64, heapEnd: U64): Pc {
    if current == 0 then Idle
    else
      LayoutFits(layout);
      var aligned := MaskAlign(current, layout.alignBits);
      if aligned + layout.size >= TWO_64 then Idle
      else if aligned + layout.size > heapEnd then Idle
      else CasNext(layout, current, aligned, aligned + layout.size)
  }

  function UsedAnswer(start: U64, next: nat): nat {
    if start == 0 || next < start then 0 else next - start
  }

  /** What the caller gets for address `aligned`: address 0 is the null pointer. */
  function Handed(request: Layout, current: U64, aligned: nat): seq<Block> {
    if aligned == 0 then [] else [Block(aligned, request.size, request.Align(), aligned - current)]
  }

  function ThreadStep(s: State, t: nat): State
    requires t < |s.threads| && s.next < TWO_64
  {
    var th := s.threads[t];
    match th.pc
    case Idle => s
    case LoadNext(layout) =>
      Put(s, t, th.(pc := LoadEnd(layout, s.next)))
    case LoadEnd(layout, current) =>
      Put(s, t, th.(pc := DecidePc(layout, current, s.end)))
    case CasNext(layout, current, aligned, next) =>
      if s.next != current then
        Put(s, t, th.(pc := LoadNext(layout), retries := th.retries + 1))
      else
        Put(s, t, th.(pc := Idle)).(next := next, blocks := s.blocks + Handed(th.request, current, aligned))
    case ReadStart =>
      Put(s, t, th.(pc := ReadNext(s.start)))
    case ReadNext(start) =>
      var value := UsedAnswer(start, s.next);
      Put(s, t, th.(pc := Idle)).(
        readings := s.readings + [Reading(th.floor, value)], seen := Max(s.seen, value))
  }

  predicate Possible(s: State, a: Action) {
    match a
    case Publish => true
    case Alloc(t, _) => t < |s.threads| && s.threads[t].pc == Idle
    case Used(t) => t < |s.threads| && s.threads[t].pc == Idle
    case Step(t) => t < |s.threads|
  }

  /** `next` holds a 64-bit word, and so do the words a thread is about to write. */
  predicate Words64(s: State) {
    && s.next < TWO_64
    && forall t :: 0 <= t < |s.threads| && s.threads[t].pc.CasNext? ==> s.threads[t].pc.next < TWO_64
  }

  /** An action that cannot happen leaves the state alone. */
  function Next(base: int, s: State, a: Action): (s': State)
    requires HeapAt(base) && Words64(s)
    ensures Words64(s') && |s'.threads| == |s.threads|
  {
    if !Possible(s, a) then s
    else
      match a
      case Publish => PublishStep(base, s)
      case Alloc(t, layout) => Put(s, t, s.threads[t].(pc := LoadNext(layout), request := layout))
      case Used(t) => Put(s, t, s.threads[t].(pc := ReadStart, floor := s.seen))
      case Step(t) => ThreadStep(s, t)
  }

  function Run(base: int, s: State, actions: seq<Action>): (s': State)
    requires HeapAt(base) && Words64(s)
    ensures Words64(s') && |s'.threads| == |s.threads|
    decreases |actions|
  {
    if actions == [] then s else Run(base, Next(base, s, actions[0]), actions[1..])
  }

  // ---- the invariant ----

  /** Rounding up to this alignment cannot wrap anywhere in the heap. */
  predicate NoWrap(base: int, layout: Layout) {
    base + HEAP_SIZE + layout.Align() <= TWO_64
  }

  predicate Gentle(base: int, actions: seq<Action>) {
    forall i :: 0 <= i < |actions| && actions[i].Alloc? ==> NoWrap(base, actions[i].layout)
  }

  /** Bytes consumed: every block with its padding. */
  function Consumed(blocks: seq<Block>): int {
    if blocks == [] then 0
    else
      var b := blocks[|blocks| - 1];
      Consumed(blocks[..|blocks| - 1]) + b.pad + b.size
  }

  /** Block `k` starts, after its padding, where the blocks before it stop. */
  predicate BlockOk(base: int, blocks: seq<Block>, k: nat)
    requires k < |blocks|
  {
    var b := blocks[k];
    && b.align > 0 && b.addr % b.align == 0
    && 0 <= b.pad < b.align
    && b.addr == base + Consumed(blocks[..k]) + b.pad
  }

  predicate Tiled(base: int, blocks: seq<Block>) {
    forall k :: 0 <= k < |blocks| ==> BlockOk(base, blocks, k)
  }

  /** Bytes in use as the heap itself knows it. */
  function InUse(base: int, s: State): int {
    if s.phase == 3 then s.next - base else 0
  }

  predicate MemoryInv(base: int, s: State) {
    && s.phase <= 3
    && s.start == (if s.phase >= 1 then base else 0)
    && s.end == (if s.phase >= 2 then base + HEAP_SIZE else 0)
    && (s.phase < 3 ==> s.next == 0 && s.blocks == [])
    && (s.phase == 3 ==> s.next == base + Consumed(s.blocks) && base <= s.next <= base + HEAP_SIZE)
    && Tiled(base, s.blocks)
  }

  /** `current` is zero or a value `next` has held since publication, and the retries so far are paid for by growth up to it. */
  predicate Loaded(base: int, s: State, th: Thread, current: U64) {
    if current == 0 then th.retries <= InUse(base, s)
    else s.phase == 3 && base <= current <= s.next && th.retries <= current - base
  }

  predicate ThreadInv(base: int, s: State, th: Thread) {
    match th.pc
    case Idle => th.retries <= InUse(base, s)
    case LoadNext(layout) => layout == th.request && NoWrap(base, layout) && th.retries <= InUse(base, s)
    case LoadEnd(layout, current) => layout == th.request && NoWrap(base, layout) && Loaded(base, s, th, current)
    case CasNext(layout, current, aligned, next) =>
      && layout == th.request && NoWrap(base, layout) && current != 0 && Loaded(base, s, th, current)
      && LeastMultiple(aligned, current, layout.Align())
      && next == aligned + layout.size <= base + HEAP_SIZE
    case ReadStart => th.retries <= InUse(base, s) && th.floor <= InUse(base, s)
    case ReadNext(start) =>
      && th.retries <= InUse(base, s) && th.floor <= InUse(base, s)
      && (start == 0 || start == base) && (th.floor > 0 ==> start == base)
  }

  predicate ReadingOk(r: Reading) {
    r.floor <= r.value <= HEAP_SIZE
  }

  ghost predicate Inv(base: int, s: State) {
    && MemoryInv(base, s)
    && (forall t :: 0 <= t < |s.threads| ==> ThreadInv(base, s, s.threads[t]))
    && (forall i :: 0 <= i < |s.readings| ==> ReadingOk(s.readings[i]))
    && s.seen <= InUse(base, s)
  }

  lemma InitialInv(base: int, n: nat)
    requires HeapAt(base)
    ensures Words64(Initial(n)) && Inv(base, Initial(n))
  {
  }

  lemma ConsumedAppend(blocks: seq<Block>, b: Block)
    ensures Consumed(blocks + [b]) == Consumed(blocks) + b.pad + b.size
  {
    assert (blocks + [b])[..|blocks|] == blocks;
  }

  lemma TiledAppend(base: int, blocks: seq<Block>, b: Block)
    requires Tiled(base, blocks)
    requires b.align > 0 && b.addr % b.align == 0 && 0 <= b.pad < b.align
    requires b.addr == base + Consumed(blocks) + b.pad
    ensures Tiled(base, blocks + [b])
  {
    var more := blocks + [b];
    forall k | 0 <= k < |more| ensures BlockOk(base, more, k) {
      if k < |blocks| {
        assert BlockOk(base, blocks, k);
        assert more[..k] == blocks[..k];
      } else {
        assert more[..k] == blocks;
      }
    }
  }

  /** What a thread knows survives anything that only lets memory in use grow. */
  lemma ThreadStable(base: int, s: State, s': State, th: Thread)
    requires HeapAt(base) && ThreadInv(base, s, th)
    requires InUse(base, s) <= InUse(base, s') && (s.phase == 3 ==> s'.phase == 3)
    ensures ThreadInv(base, s', th)
  {
  }

  /** Null or a candidate block: what alloc computes from consistent loads. */
  lemma DecideInv(base: int, s: State, th: Thread)
    requires HeapAt(base) && MemoryInv(base, s) && ThreadInv(base, s, th) && th.pc.LoadEnd?
    ensures ThreadInv(base, s, th.(pc := DecidePc(th.pc.layout, th.pc.current, s.end)))
  {
    if th.pc.current != 0 {
      MaskAlignFits(th.pc.current, th.pc.layout.alignBits);
    }
  }

  /** A block at the least aligned address after the others continues the tiling. */
  lemma HandedTiles(base: int, blocks: seq<Block>, layout: Layout, current: U64, aligned: nat)
    requires Tiled(base, blocks) && 0 < current == base + Consumed(blocks)
    requires LeastMultiple(aligned, current, layout.Align())
    ensures
      var more := blocks + Handed(layout, current, aligned);
      Tiled(base, more) && base + Consumed(more) == aligned + layout.size
  {
    var b := Block(aligned, layout.size, layout.Align(), aligned - current);
    TiledAppend(base, blocks, b);
    ConsumedAppend(blocks, b);
  }

  /** A successful exchange appends a block exactly at the old value of `next`. */
  lemma CasInv(base: int, s: State, t: nat)
    requires HeapAt(base) && Words64(s) && Inv(base, s) && t < |s.threads|
    requires s.threads[t].pc.CasNext? && s.threads[t].pc.current == s.next
    ensures MemoryInv(base, ThreadStep(s, t)) && InUse(base, s) <= InUse(base, ThreadStep(s, t))
  {
    var pc := s.threads[t].pc;
    assert ThreadInv(base, s, s.threads[t]);
    HandedTiles(base, s.blocks, pc.layout, pc.current, pc.aligned);
  }

  /** Each action lets memory in use only grow and keeps the memory invariant. */
  lemma NextMemory(base: int, s: State, a: Action)
    requires HeapAt(base) && Words64(s) && Inv(base, s)
    ensures
      var s' := Next(base, s, a);
      && MemoryInv(base, s')
      && InUse(base, s) <= InUse(base, s') && (s.phase == 3 ==> s'.phase == 3)
  {
    if Possible(s, a) && a.Step? && s.threads[a.t].pc.CasNext? && s.threads[a.t].pc.current == s.next {
      CasInv(base, s, a.t);
    }
  }

  /** A thread that took a step is in order again. */
  lemma StepperInv(base: int, s: State, t: nat)
    requires HeapAt(base) && Words64(s) && Inv(base, s) && t < |s.threads|
    ensures ThreadInv(base, ThreadStep(s, t), ThreadStep(s, t).threads[t])
  {
    var th := s.threads[t];
    assert ThreadInv(base, s, th);
    if th.pc.LoadEnd? {
      DecideInv(base, s, th);
      ThreadStable(base, s, ThreadStep(s, t), ThreadStep(s, t).threads[t]);
    } else if th.pc.CasNext? && th.pc.current == s.next {
      CasInv(base, s, t);
    }
  }

  lemma MoverInv(base: int, s: State, a: Action)
    requires HeapAt(base) && Words64(s) && Inv(base, s) && Possible(s, a) && !a.Publish?
    requires a.Alloc? ==> NoWrap(base, a.layout)
    ensures ThreadInv(base, Next(base, s, a), Next(base, s, a).threads[a.t])
  {
    assert ThreadInv(base, s, s.threads[a.t]);
    if a.Step? { StepperInv(base, s, a.t); }
  }

  lemma NextReadings(base: int, s: State, a: Action)
    requires HeapAt(base) && Words64(s) && Inv(base, s)
    ensures
      var s' := Next(base, s, a);
      && (forall i :: 0 <= i < |s'.readings| ==> ReadingOk(s'.readings[i]))
      && s'.seen <= InUse(base, s')
  {
    NextMemory(base, s, a);
    if Possible(s, a) && a.Step? { assert ThreadInv(base, s, s.threads[a.t]); }
  }

  lemma NextInv(base: int, s: State, a: Action)
    requires HeapAt(base) && Words64(s) && Inv(base, s)
    requires a.Alloc? ==> NoWrap(base, a.layout)
    ensures Inv(base, Next(base, s, a))
  {
    var s' := Next(base, s, a);
    NextMemory(base, s, a);
    NextReadings(base, s, a);
    forall t | 0 <= t < |s'.threads| ensures ThreadInv(base, s', s'.threads[t]) {
      if Possible(s, a) && !a.Publish? && a.t == t {
        MoverInv(base, s, a);
      } else {
        assert s'.threads[t] == s.threads[t];
        ThreadStable(base, s, s', s.threads[t]);
      }
    }
  }

  lemma {:induction false} RunInv(base: int, s: State, actions: seq<Action>)
    requires HeapAt(base) && Words64(s) && Inv(base, s) && Gentle(base, actions)
    ensures Inv(base, Run(base, s, actions))
    decreases |actions|
  {
    if actions != [] {
      assert actions[0].Alloc? ==> NoWrap(base, actions[0].layout);
      NextInv(base, s, actions[0]);
      RunInv(base, Next(base, s, actions[0]), actions[1..]);
    }
  }
}
