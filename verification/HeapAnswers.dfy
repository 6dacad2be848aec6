/**
 What calls of the heap answer: a block is of the size and alignment its own call
 asked for, however often the call retried; null means there was no room; a
 usage reading is the bytes in use.
 */
module HeapAnswers {
  import opened Words
  import opened Bits
  import opened HeapProtocol
  import opened HeapSafety

  // ---- requests ----

  /** A call begins with its own request, and nothing else touches any thread's request. */
  lemma {:induction false} RequestsAreKept(base: int, s: State, a: Action, t: nat)
    requires HeapAt(base) && Words64(s) && t < |s.threads|
    ensures
      var s' := Next(base, s, a);
      if a.Alloc? && a.t == t && s.threads[t].pc == Idle
      then s'.threads[t].request == a.layout && s'.threads[t].pc == LoadNext(a.layout)
      else s'.threads[t].request == s.threads[t].request
  {
  }

  /** A thread that is inside alloc works on its request. */
  predicate OnRequest(th: Thread) {
    match th.pc
    case LoadNext(layout) => layout == th.request
    case LoadEnd(layout, _) => layout == th.request
    case CasNext(layout, _, _, _) => layout == th.request
    case _ => true
  }

  predicate AllOnRequest(s: State) {
    forall t :: 0 <= t < |s.threads| ==> OnRequest(s.threads[t])
  }

  lemma {:induction false} NextOnRequest(base: int, s: State, a: Action)
    requires HeapAt(base) && Words64(s) && AllOnRequest(s)
    ensures AllOnRequest(Next(base, s, a))
  {
    if Possible(s, a) && !a.Publish? { assert OnRequest(s.threads[a.t]); }
  }

  lemma {:induction false} RunOnRequest(base: int, s: State, actions: seq<Action>)
    requires HeapAt(base) && Words64(s) && AllOnRequest(s)
    ensures AllOnRequest(Run(base, s, actions))
    decreases |actions|
  {
    if actions != [] {
      NextOnRequest(base, s, actions[0]);
      RunOnRequest(base, Next(base, s, actions[0]), actions[1..]);
    }
  }

  /** Thread `t` begins no call in these actions. */
  predicate NoNewCall(actions: seq<Action>, t: nat) {
    forall i :: 0 <= i < |actions| && actions[i].Alloc? ==> actions[i].t != t
  }

  lemma {:induction false} RunKeepsRequest(base: int, s: State, actions: seq<Action>, t: nat)
    requires HeapAt(base) && Words64(s) && t < |s.threads| && NoNewCall(actions, t)
    ensures Run(base, s, actions).threads[t].request == s.threads[t].request
    decreases |actions|
  {
    if actions != [] {
      assert actions[0].Alloc? ==> actions[0].t != t;
      RequestsAreKept(base, s, actions[0], t);
      RunKeepsRequest(base, Next(base, s, actions[0]), actions[1..], t);
    }
  }

  /** Whatever the other threads do after `Alloc(t, layout)` and however often the
      call retries: while it lasts it works on `layout`, and the block its last
      step hands out has that size and alignment. */
  lemma {:induction false} BlockHasItsRequest(
      base: int, n: nat, before: seq<Action>, t: nat, layout: Layout, during: seq<Action>)
    requires HeapAt(base) && t < n && NoNewCall(during, t)
    requires Run(base, Initial(n), before).threads[t].pc == Idle
    ensures
      var called := Next(base, Run(base, Initial(n), before), Alloc(t, layout));
      var s := Run(base, called, during);
      var s' := Next(base, s, Step(t));
      && s.threads[t].request == layout && OnRequest(s.threads[t])
      && (s'.blocks != s.blocks ==>
          && |s'.blocks| == |s.blocks| + 1 && s.blocks <= s'.blocks
          && s'.blocks[|s.blocks|].size == layout.size && s'.blocks[|s.blocks|].align == layout.Align())
  {
    var s0 := Run(base, Initial(n), before);
    RunOnRequest(base, Initial(n), before);
    RequestsAreKept(base, s0, Alloc(t, layout), t);
    NextOnRequest(base, s0, Alloc(t, layout));
    var called := Next(base, s0, Alloc(t, layout));
    RunKeepsRequest(base, called, during, t);
    RunOnRequest(base, called, during);
    var s := Run(base, called, during);
    assert OnRequest(s.threads[t]);
    assert s.blocks + [] == s.blocks;
  }

  // ---- null ----

  predicate InAlloc(pc: Pc) {
    pc.LoadNext? || pc.LoadEnd? || pc.CasNext?
  }

  /** No address at or above `next` has room for the request. */
  ghost predicate NoRoom(base: int, next: int, request: Layout) {
    forall a: int :: LeastMultiple(a, next, request.Align()) ==> a + request.size > base + HEAP_SIZE
  }

  /** What does not fit from `current` does not fit from any later `next`. */
  lemma {:induction false} NoRoomLater(base: int, current: int, next: int, request: Layout, least: int)
    requires current <= next && LeastMultiple(least, current, request.Align()) && least + request.size > base + HEAP_SIZE
    ensures NoRoom(base, next, request)
  {
    forall a: int | LeastMultiple(a, next, request.Align()) ensures a + request.size > base + HEAP_SIZE {
      if a < least {
        var p, q := a / request.Align(), least / request.Align();
        assert a == p * request.Align() && least == q * request.Align();
        assert (q - p) * request.Align() == least - a;
        MulGap(q - p, request.Align());
      }
    }
  }

  /** While no alignment wraps: a step that ends a call without a block found the
      heap unpublished, or there is no room for that call's request. */
  lemma {:induction false} NullMeansNoRoom(base: int, n: nat, actions: seq<Action>, t: nat)
    requires HeapAt(base) && Gentle(base, actions) && t < n
    ensures
      var s := Run(base, Initial(n), actions);
      var s' := Next(base, s, Step(t));
      InAlloc(s.threads[t].pc) && s'.threads[t].pc == Idle && s'.blocks == s.blocks ==>
        s.threads[t].pc.current == 0 || (s.phase == 3 && NoRoom(base, s.next, s.threads[t].request))
  {
    InitialInv(base, n);
    RunInv(base, Initial(n), actions);
    var s := Run(base, Initial(n), actions);
    var th := s.threads[t];
    assert ThreadInv(base, s, th);
    if th.pc.LoadEnd? && th.pc.current > 0 && DecidePc(th.pc.layout, th.pc.current, s.end).Idle? {
      MaskAlignFits(th.pc.current, th.pc.layout.alignBits);
      NoRoomLater(base, th.pc.current, s.next, th.request, MaskAlign(th.pc.current, th.pc.layout.alignBits));
    }
  }

  /** A call that loses its exchange starts over with the same request, and does not return. */
  lemma {:induction false} LostExchangeRetries(base: int, s: State, t: nat)
    requires HeapAt(base) && Words64(s) && t < |s.threads| && OnRequest(s.threads[t])
    requires s.threads[t].pc.CasNext? && s.threads[t].pc.current != s.next
    ensures
      var s' := Next(base, s, Step(t));
      s'.threads[t].pc == LoadNext(s.threads[t].request) && s'.next == s.next && s'.blocks == s.blocks
  {
  }

  // ---- readings ----

  /** While no alignment wraps: a finished reading is the bytes in use at its last
      step, or 0 if its first step came before publication began. */
  lemma {:induction false} ReadingIsExact(base: int, n: nat, actions: seq<Action>, t: nat)
    requires HeapAt(base) && Gentle(base, actions) && t < n
    requires Run(base, Initial(n), actions).threads[t].pc.ReadNext?
    ensures
      var s := Run(base, Initial(n), actions);
      var th := s.threads[t];
      var readings := Next(base, s, Step(t)).readings;
      && |readings| == |s.readings| + 1 && s.readings <= readings
      && readings[|s.readings|].floor == th.floor
      && readings[|s.readings|].value == if th.pc.start == 0 then 0 else Consumed(s.blocks)
  {
    InitialInv(base, n);
    RunInv(base, Initial(n), actions);
    var s := Run(base, Initial(n), actions);
    assert ThreadInv(base, s, s.threads[t]);
  }
}
