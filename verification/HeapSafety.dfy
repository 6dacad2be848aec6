/**
 What every interleaving of heap initialization, allocations and usage reads
 guarantees while no alignment wraps.
 */
module HeapSafety {
  import opened Words
  import opened Bits
  import opened HeapProtocol

  // ---- blocks ----

  /** Blocks are aligned, lie inside the heap and follow one another without overlap. */
  predicate BlocksSound(base: int, blocks: seq<Block>) {
    && (forall k :: 0 <= k < |blocks| ==>
      && blocks[k].align > 0 && blocks[k].addr % blocks[k].align == 0
      && base <= blocks[k].addr && blocks[k].addr + blocks[k].size <= base + HEAP_SIZE)
    && (forall i, j :: 0 <= i < j < |blocks| ==> blocks[i].addr + blocks[i].size <= blocks[j].addr)
  }

  lemma {:induction false} ConsumedMono(base: int, blocks: seq<Block>, i: nat, j: nat)
    requires Tiled(base, blocks) && i <= j <= |blocks|
    ensures Consumed(blocks[..i]) <= Consumed(blocks[..j])
    decreases j - i
  {
    if i < j {
      ConsumedMono(base, blocks, i, j - 1);
      assert BlockOk(base, blocks, j - 1);
      assert blocks[..j] == blocks[..j - 1] + [blocks[j - 1]];
      ConsumedAppend(blocks[..j - 1], blocks[j - 1]);
    }
  }

  /** A block ends where the bytes consumed up to and including it end. */
  lemma BlockEnd(base: int, blocks: seq<Block>, k: nat)
    requires Tiled(base, blocks) && k < |blocks|
    ensures blocks[k].addr + blocks[k].size == base + Consumed(blocks[..k + 1])
    ensures blocks[k].addr >= base + Consumed(blocks[..k])
  {
    assert BlockOk(base, blocks, k);
    assert blocks[..k + 1] == blocks[..k] + [blocks[k]];
    ConsumedAppend(blocks[..k], blocks[k]);
  }

  lemma TiledIsSound(base: int, blocks: seq<Block>)
    requires Tiled(base, blocks) && Consumed(blocks) <= HEAP_SIZE
    ensures BlocksSound(base, blocks)
  {
    forall k | 0 <= k < |blocks|
      ensures base <= blocks[k].addr && blocks[k].addr + blocks[k].size <= base + HEAP_SIZE
    {
      BlockEnd(base, blocks, k);
      ConsumedMono(base, blocks, 0, k);
      ConsumedMono(base, blocks, k + 1, |blocks|);
      assert blocks[..|blocks|] == blocks;
    }
    forall k | 0 <= k < |blocks| ensures blocks[k].align > 0 && blocks[k].addr % blocks[k].align == 0 {
      assert BlockOk(base, blocks, k);
    }
    forall i, j | 0 <= i < j < |blocks| ensures blocks[i].addr + blocks[i].size <= blocks[j].addr {
      BlockEnd(base, blocks, i);
      BlockEnd(base, blocks, j);
      ConsumedMono(base, blocks, i + 1, j);
    }
  }

  // ---- every interleaving ----

  /** Every run hands out sound blocks, and what `heap_used` computes between
      steps is the sum of all blocks and their padding. */
  lemma Safety(base: int, n: nat, actions: seq<Action>)
    requires HeapAt(base) && Gentle(base, actions)
    ensures
      var s := Run(base, Initial(n), actions);
      && BlocksSound(base, s.blocks)
      && UsedAnswer(s.start, s.next) == Consumed(s.blocks) <= HEAP_SIZE
  {
    InitialInv(base, n);
    RunInv(base, Initial(n), actions);
    TiledIsSound(base, Run(base, Initial(n), actions).blocks);
  }

  /** Whatever is asked for: nothing is loaded from `next` before all three stores. */
  predicate PublishedPc(base: int, phase: nat, pc: Pc) {
    match pc
    case LoadEnd(_, current) => current != 0 ==> phase == 3
    case CasNext(_, _, _, next) => phase == 3 && next <= base + HEAP_SIZE
    case _ => true
  }

  ghost predicate PublishedInv(base: int, s: State) {
    && s.phase <= 3
    && s.start == (if s.phase >= 1 then base else 0)
    && s.end == (if s.phase >= 2 then base + HEAP_SIZE else 0)
    && (s.phase < 3 ==> s.next == 0)
    && forall t :: 0 <= t < |s.threads| ==> PublishedPc(base, s.phase, s.threads[t].pc)
  }

  lemma NextPublished(base: int, s: State, a: Action)
    requires HeapAt(base) && Words64(s) && PublishedInv(base, s)
    ensures PublishedInv(base, Next(base, s, a))
  {
    if Possible(s, a) && !a.Publish? { assert PublishedPc(base, s.phase, s.threads[a.t].pc); }
  }

  lemma {:induction false} RunPublished(base: int, s: State, actions: seq<Action>)
    requires HeapAt(base) && Words64(s) && PublishedInv(base, s)
    ensures PublishedInv(base, Run(base, s, actions))
    decreases |actions|
  {
    if actions != [] {
      NextPublished(base, s, actions[0]);
      RunPublished(base, Next(base, s, actions[0]), actions[1..]);
    }
  }

  /** No allocator computes a block from a half-published heap, whatever alignments are asked for. */
  lemma NeverHalfPublished(base: int, n: nat, actions: seq<Action>, t: nat)
    requires HeapAt(base) && t < n
    requires Run(base, Initial(n), actions).threads[t].pc.CasNext?
    ensures
      var s := Run(base, Initial(n), actions);
      && s.start == base && s.end == base + 131072 && s.phase == 3
      && s.threads[t].pc.next <= s.end
      && (Gentle(base, actions) ==> base <= s.next)
  {
    RunPublished(base, Initial(n), actions);
    var s := Run(base, Initial(n), actions);
    assert PublishedPc(base, s.phase, s.threads[t].pc);
    if Gentle(base, actions) {
      InitialInv(base, n);
      RunInv(base, Initial(n), actions);
      assert ThreadInv(base, s, s.threads[t]);
    }
  }

  /** A failed exchange means `next` strictly grew since it was loaded, so a
      thread retries at most once per byte of heap over its whole life. */
  lemma RetriesBounded(base: int, n: nat, actions: seq<Action>, t: nat)
    requires HeapAt(base) && Gentle(base, actions) && t < n
    ensures
      var s := Run(base, Initial(n), actions);
      && s.threads[t].retries <= Consumed(s.blocks) <= HEAP_SIZE
      && (s.threads[t].pc.CasNext? && s.next != s.threads[t].pc.current ==> s.next > s.threads[t].pc.current)
  {
    InitialInv(base, n);
    RunInv(base, Initial(n), actions);
    var s := Run(base, Initial(n), actions);
    assert ThreadInv(base, s, s.threads[t]);
  }

  /** Answers of `heap_used` stay within the heap and never fall below the
      answer of a read that finished before this one began. */
  lemma UsedIsMonotone(base: int, n: nat, actions: seq<Action>, i: nat)
    requires HeapAt(base) && Gentle(base, actions)
    requires i < |Run(base, Initial(n), actions).readings|
    ensures
      var r := Run(base, Initial(n), actions).readings[i];
      r.floor <= r.value <= HEAP_SIZE
  {
    InitialInv(base, n);
    RunInv(base, Initial(n), actions);
    assert ReadingOk(Run(base, Initial(n), actions).readings[i]);
  }

  /** On consistent loads alloc returns null exactly when the least aligned
      address leaves no room for the request. */
  lemma NullExactlyWhenNoRoom(base: int, layout: Layout, current: U64)
    requires HeapAt(base) && NoWrap(base, layout) && base <= current <= base + HEAP_SIZE
    ensures DecidePc(layout, current, base + HEAP_SIZE).Idle? <==>
      forall a: int :: LeastMultiple(a, current, layout.Align()) ==> a + layout.size > base + HEAP_SIZE
  {
    MaskAlignFits(current, layout.alignBits);
    LeastMultipleUnique(current, layout.Align());
  }

  /** While no alignment wraps, `next` moves only up and only when a block is
      handed out: a call that returns null changes nothing. */
  lemma OnlyBlocksMoveNext(base: int, n: nat, actions: seq<Action>, a: Action)
    requires HeapAt(base) && Gentle(base, actions)
    requires Run(base, Initial(n), actions).phase == 3
    ensures
      var s := Run(base, Initial(n), actions);
      var s' := Next(base, s, a);
      && s'.start == s.start && s'.end == s.end && s.blocks <= s'.blocks && s.next <= s'.next
      && (s'.next != s.next ==> |s'.blocks| == |s.blocks| + 1)
  {
    InitialInv(base, n);
    RunInv(base, Initial(n), actions);
    var s := Run(base, Initial(n), actions);
    if Possible(s, a) && a.Step? { assert ThreadInv(base, s, s.threads[a.t]); }
  }
}
