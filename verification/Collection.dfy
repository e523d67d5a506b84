// A whole collection: evacuate from every root, then start the nursery afresh.
module Collection {
  import opened Heaps
  import opened Evacuation
  import opened EvacuatedHeaps

  lemma Start(o: Origin)
    requires WellFormed(o)
    ensures Moving(o, Heap(o.cells, o.blocks, map[], map[]), {})
  {
  }

  // Each root word denotes what it denoted before.
  ghost predicate SameMeaning(o: Origin, cells: map<Addr, Cell>, blocks: map<int, seq<Addr>>,
                              was: seq<int>, words: seq<int>, from: nat, to: nat) {
    |words| == |was| &&
    forall i, n: nat :: from <= i < to && i < |was| && IsPointer(o, was[i]) ==>
      Denote(cells, blocks, o.codes, n, words[i]) == Denote(o.cells, o.blocks, o.codes, n, was[i])
  }

  ghost predicate IsPointer(o: Origin, p: int) {
    p == NULL || p == NIL || p in o.cells
  }

  lemma SlotsMean(o: Origin, h: Heap, was: seq<int>, words: seq<int>, from: nat, to: nat)
    requires Collected(o, h) && SlotsDone(o, h, was, words, from, to)
    ensures SameMeaning(o, Tenured(o, h.cells), h.blocks, was, words, from, to)
  {
    forall i, n: nat | from <= i < to && i < |was| && IsPointer(o, was[i])
      ensures Denote(Tenured(o, h.cells), h.blocks, o.codes, n, words[i])
           == Denote(o.cells, o.blocks, o.codes, n, was[i])
    {
      DenotationPreserved(o, h, n, was[i]);
    }
  }

  // The environment, result and lambda stacks up to their indices, and the global registers.
  method CollectGen0(gc: Collector, envStack: array<int>, envIdx: nat, resultStack: array<int>, resultIdx: nat,
                     lambdaStack: array<int>, lambdaIdx: nat, registers: array<int>, ghost o: Origin)
    returns (ghost h: Heap)
    requires gc.Valid(o) && gc.cells == o.cells && gc.blocks == o.blocks
    requires gc.forwarded == map[] && gc.source == map[]
    requires envStack != resultStack && envStack != lambdaStack && envStack != registers
    requires resultStack != lambdaStack && resultStack != registers && lambdaStack != registers
    requires envIdx <= envStack.Length && resultIdx < resultStack.Length && lambdaIdx <= lambdaStack.Length
    requires RootWords(o, envStack[..], 0, envIdx) && RootWords(o, resultStack[..], 1, resultIdx + 1)
    requires RootWords(o, lambdaStack[..], 0, lambdaIdx) && RootWords(o, registers[..], 0, registers.Length)
    modifies gc, envStack, resultStack, lambdaStack, registers
    ensures Collected(o, h) && gc.cells == Tenured(o, h.cells) && gc.blocks == h.blocks
    ensures SlotsDone(o, h, old(envStack[..]), envStack[..], 0, envIdx)
    ensures SlotsDone(o, h, old(resultStack[..]), resultStack[..], 1, resultIdx + 1)
    ensures SlotsDone(o, h, old(lambdaStack[..]), lambdaStack[..], 0, lambdaIdx)
    ensures SlotsDone(o, h, old(registers[..]), registers[..], 0, registers.Length)
    ensures SameMeaning(o, gc.cells, gc.blocks, old(envStack[..]), envStack[..], 0, envIdx)
    ensures SameMeaning(o, gc.cells, gc.blocks, old(resultStack[..]), resultStack[..], 1, resultIdx + 1)
    ensures SameMeaning(o, gc.cells, gc.blocks, old(lambdaStack[..]), lambdaStack[..], 0, lambdaIdx)
    ensures SameMeaning(o, gc.cells, gc.blocks, old(registers[..]), registers[..], 0, registers.Length)
    ensures gc.Valid(Survivors(o, h)) && gc.cells == Survivors(o, h).cells && gc.blocks == Survivors(o, h).blocks
    ensures AllAuxRight(o) ==> AllAuxRight(Survivors(o, h))
    ensures gc.forwarded == map[] && gc.source == map[]
    ensures forall a :: a in o.cells && !Young(o, a) ==> a in gc.cells && gc.cells[a] == o.cells[a]
  {
    Start(o);
    gc.EvacuateSlots(envStack, 0, envIdx, o);
    ghost var h1 := gc.Now();
    gc.EvacuateSlots(resultStack, 1, resultIdx + 1, o);
    ghost var h2 := gc.Now();
    gc.EvacuateSlots(lambdaStack, 0, lambdaIdx, o);
    ghost var h3 := gc.Now();
    gc.EvacuateSlots(registers, 0, registers.Length, o);
    h := gc.Now();
    LaterTransitive(o, h2, h3, h);
    LaterTransitive(o, h1, h2, h);
    SlotsStay(o, h1, h, old(envStack[..]), envStack[..], 0, envIdx);
    SlotsStay(o, h2, h, old(resultStack[..]), resultStack[..], 1, resultIdx + 1);
    SlotsStay(o, h3, h, old(lambdaStack[..]), lambdaStack[..], 0, lambdaIdx);
    SlotsMean(o, h, old(envStack[..]), envStack[..], 0, envIdx);
    SlotsMean(o, h, old(resultStack[..]), resultStack[..], 1, resultIdx + 1);
    SlotsMean(o, h, old(lambdaStack[..]), lambdaStack[..], 0, lambdaIdx);
    SlotsMean(o, h, old(registers[..]), registers[..], 0, registers.Length);
    SurvivorsWellFormed(o, h);
    if AllAuxRight(o) { AuxPreserved(o, h); }
    gc.ResetGen0(o);
  }
}
