// Evacuating the nursery: live cells are copied to tenured space, chain by chain, and leave a
// forwarding mark behind.
module Evacuation {
  import opened Heaps

  // ---------- what each write does to the invariant ----------

  function Move(h: Heap, cell: Cell, c: Addr, n: Addr): Heap {
    Heap(h.cells[n := cell][c := Mark(cell, n)], h.blocks, h.forwarded[c := n], h.source[n := c])
  }

  ghost predicate Movable(o: Origin, h: Heap, c: Addr, n: Addr) {
    && c in o.cells && Young(o, c) && c !in h.forwarded
    && n > TRUE && !Young(o, n) && n !in h.cells && n !in o.cells && n !in o.codes && n !in h.source
  }

  lemma MoveOneToOne(o: Origin, h: Heap, c: Addr, n: Addr)
    requires OneToOne(o, h) && Movable(o, h, c, n)
    ensures OneToOne(o, Move(h, o.cells[c], c, n))
  {
  }

  lemma MoveMarked(o: Origin, h: Heap, c: Addr, n: Addr)
    requires Marked(o, h) && Movable(o, h, c, n)
    ensures Marked(o, Move(h, o.cells[c], c, n))
  {
  }

  lemma MoveLater(o: Origin, h: Heap, c: Addr, n: Addr)
    requires OneToOne(o, h) && Marked(o, h) && Movable(o, h, c, n)
    ensures Later(o, h, Move(h, o.cells[c], c, n)) && TenuredKept(o, h, Move(h, o.cells[c], c, n))
  {
  }

  lemma MoveBlocks(o: Origin, h: Heap, c: Addr, n: Addr)
    requires BlocksKept(o, h) && Marked(o, h) && Movable(o, h, c, n)
    ensures BlocksKept(o, Move(h, o.cells[c], c, n))
  {
    var h' := Move(h, o.cells[c], c, n);
    forall b, i | b in o.blocks && 0 <= i < |o.blocks[b]|
      ensures h'.blocks[b][i] == o.blocks[b][i] || h'.blocks[b][i] == Relocated(h', o.blocks[b][i])
    {
      assert h.blocks[b][i] == o.blocks[b][i] || h.blocks[b][i] == Relocated(h, o.blocks[b][i]);
    }
  }

  lemma MoveComplete(o: Origin, h: Heap, pending: set<Addr>, c: Addr, n: Addr)
    requires Moving(o, h, pending) && Movable(o, h, c, n)
    ensures Complete(o, Move(h, o.cells[c], c, n), pending + {c})
  {
    var h' := Move(h, o.cells[c], c, n);
    MoveOneToOne(o, h, c, n);
    MoveLater(o, h, c, n);
    forall d | d in h'.forwarded && d !in pending + {c} ensures Settled(o, h', d) {
      SettledStays(o, h, h', d);
    }
  }

  lemma MoveMoving(o: Origin, h: Heap, pending: set<Addr>, c: Addr, n: Addr)
    requires Moving(o, h, pending) && Movable(o, h, c, n)
    ensures Moving(o, Move(h, o.cells[c], c, n), pending + {c})
  {
    MoveOneToOne(o, h, c, n);
    MoveMarked(o, h, c, n);
    MoveBlocks(o, h, c, n);
    MoveComplete(o, h, pending, c, n);
  }

  // Writing to the copy of a pending cell.
  lemma WriteMoving(o: Origin, h: Heap, pending: set<Addr>, c: Addr, copy: Cell)
    requires Moving(o, h, pending) && c in h.forwarded && c in pending
    ensures Moving(o, h.(cells := h.cells[h.forwarded[c] := copy]), pending)
  {
    var h' := h.(cells := h.cells[h.forwarded[c] := copy]);
    forall d | d in h'.forwarded && d !in pending ensures Settled(o, h', d) {
      SettledStays(o, h, h', d);
    }
  }

  // A pending cell whose copy is complete is no longer pending.
  lemma NoLongerPending(o: Origin, h: Heap, pending: set<Addr>, c: Addr)
    requires Moving(o, h, pending + {c}) && Settled(o, h, c)
    ensures Moving(o, h, pending)
  {
  }

  // Writing one relocated element into a block.
  ghost function Patch(o: Origin, h: Heap, b: int, i: nat): Heap
    requires b in o.blocks && i < |o.blocks[b]| && b in h.blocks && i < |h.blocks[b]|
  {
    h.(blocks := h.blocks[b := h.blocks[b][i := Relocated(h, o.blocks[b][i])]])
  }

  lemma ElementLater(o: Origin, h: Heap, b: int, i: nat)
    requires OneToOne(o, h) && BlocksKept(o, h) && b in o.blocks && i < |o.blocks[b]|
    ensures Later(o, h, Patch(o, h, b, i)) && BlocksKept(o, Patch(o, h, b, i))
  {
    assert h.blocks[b][i] == o.blocks[b][i] || h.blocks[b][i] == Relocated(h, o.blocks[b][i]);
    assert !Young(o, h.blocks[b][i]) ==> h.blocks[b][i] == Relocated(h, o.blocks[b][i]);
  }

  lemma ElementMoving(o: Origin, h: Heap, pending: set<Addr>, b: int, i: nat)
    requires Moving(o, h, pending) && b in o.blocks && i < |o.blocks[b]|
    ensures Moving(o, Patch(o, h, b, i), pending)
  {
    var h' := Patch(o, h, b, i);
    ElementLater(o, h, b, i);
    forall d | d in h'.forwarded && d !in pending ensures Settled(o, h', d) {
      SettledStays(o, h, h', d);
    }
  }

  // ---------- one step along a chain ----------

  ghost predicate Above(o: Origin, pending: set<Addr>, p: Addr) {
    forall d :: d in pending ==> Rank(o, d) > Rank(o, p)
  }

  // prev is the copy of c, complete but for its link to the next cell of the chain.
  ghost predicate Open(o: Origin, h: Heap, c: Addr, prev: Addr, cell: Addr) {
    && c in h.forwarded && h.forwarded[c] == prev && prev in h.cells
    && c in o.cells && o.cells[c].next == cell
    && BodySettled(o, h, o.cells[c], h.cells[prev])
  }

  lemma LinkMoving(o: Origin, h: Heap, pending: set<Addr>, c: Addr, prev: Addr, cell: Addr)
    requires Moving(o, h, pending + {c}) && Open(o, h, c, prev, cell) && Arrived(o, h, cell)
    ensures Moving(o, h.(cells := h.cells[prev := h.cells[prev].(next := Relocated(h, cell))]), pending)
  {
    var h' := h.(cells := h.cells[prev := h.cells[prev].(next := Relocated(h, cell))]);
    WriteMoving(o, h, pending + {c}, c, h.cells[prev].(next := Relocated(h, cell)));
    BodyStays(o, h, h', o.cells[c], h'.cells[prev]);
    NoLongerPending(o, h', pending, c);
  }

  // ---------- the last cell of a chain ----------

  lemma {:induction false} LastInside(o: Origin, p: Addr)
    requires WellFormed(o) && p in o.cells
    ensures Last(o, p) in o.cells && o.cells[Last(o, p)].next == NIL
    ensures Rank(o, Last(o, p)) <= Rank(o, p)
    ensures Young(o, Last(o, p)) ==> Young(o, p)
    decreases Rank(o, p) + 1
  {
    assert GoodCell(o, p);
    if o.cells[p].next in o.cells { LastInside(o, o.cells[p].next); }
  }

  // Following one link of the new chain is following one link of the old one.
  lemma LinkFollowed(o: Origin, h: Heap, pending: set<Addr>, q: Addr)
    requires WellFormed(o) && Moving(o, h, pending) && q in o.cells && Arrived(o, h, q) && Above(o, pending, q)
    ensures Relocated(h, q) in h.cells && Arrived(o, h, o.cells[q].next)
    ensures h.cells[Relocated(h, q)].next == Relocated(h, o.cells[q].next)
    ensures Relocated(h, o.cells[q].next) == NIL <==> o.cells[q].next == NIL
    ensures o.cells[q].next != NIL ==>
      o.cells[q].next in o.cells && Rank(o, o.cells[q].next) < Rank(o, q) && Above(o, pending, o.cells[q].next)
  {
    assert GoodCell(o, q);
    if q in h.forwarded {
      assert q !in pending;
      assert Settled(o, h, q);
    }
  }

  ghost predicate TenuredKeptBut(o: Origin, h: Heap, h': Heap, n: Addr) {
    forall a :: a in h.cells && !Young(o, a) && a != n ==> a in h'.cells && h'.cells[a] == h.cells[a]
  }

  lemma KeptThenWritten(o: Origin, h: Heap, h1: Heap, h2: Heap, n: Addr)
    requires TenuredKept(o, h, h1) && n in h2.cells && h2.cells == h1.cells[n := h2.cells[n]]
    ensures TenuredKeptBut(o, h, h2, n)
  {
  }

  lemma KeptButTransitive(o: Origin, h: Heap, h1: Heap, h2: Heap, n: Addr)
    requires TenuredKept(o, h, h1) && TenuredKeptBut(o, h1, h2, n) && n !in h.cells
    ensures TenuredKept(o, h, h2)
  {
  }

  // An open cell whose link needs no patching is settled.
  lemma Closed(o: Origin, h: Heap, pending: set<Addr>, c: Addr, prev: Addr, cell: Addr)
    requires Moving(o, h, pending + {c}) && Open(o, h, c, prev, cell)
    requires Arrived(o, h, cell) && h.cells[prev].next == Relocated(h, cell)
    ensures Moving(o, h, pending)
  {
    NoLongerPending(o, h, pending, c);
  }

  lemma OpenStays(o: Origin, h: Heap, h': Heap, c: Addr, prev: Addr, cell: Addr)
    requires OneToOne(o, h) && OneToOne(o, h') && Later(o, h, h') && TenuredKept(o, h, h')
    requires Open(o, h, c, prev, cell)
    ensures Open(o, h', c, prev, cell)
  {
    BodyStays(o, h, h', o.cells[c], h.cells[prev]);
  }

  lemma LinkedFrame(o: Origin, h: Heap, h1: Heap, h2: Heap, h3: Heap, prev: Addr, n: Addr)
    requires TenuredKept(o, h, h1) && n !in h.cells
    requires prev in h1.cells && prev in h2.cells && h2.cells == h1.cells[prev := h2.cells[prev]]
    requires TenuredKeptBut(o, h2, h3, n)
    ensures TenuredKeptBut(o, h, h3, prev)
  {
  }

  ghost predicate CopyFrame(o: Origin, h: Heap, h': Heap, prev: Addr) {
    if prev == NULL then TenuredKept(o, h, h') else TenuredKeptBut(o, h, h', prev)
  }

  lemma FrameExtended(o: Origin, h: Heap, h1: Heap, h2: Heap, prev: Addr)
    requires Later(o, h, h1) && Later(o, h1, h2) && TenuredKept(o, h, h1) && CopyFrame(o, h1, h2, prev)
    requires prev != NULL ==> prev !in h.cells
    ensures Later(o, h, h2) && TenuredKept(o, h, h2)
  {
    LaterTransitive(o, h, h1, h2);
  }

  // Walking a chain from p: prev copies the cell before, all but its link.
  ghost predicate Walking(o: Origin, h: Heap, pending: set<Addr>, p: Addr, first: Addr, prev: Addr, c: Addr,
                          cell: Addr) {
    && (cell == NIL || cell in o.cells) && Above(o, pending, cell)
    && (prev == NULL ==> first == NULL && cell == p && p !in h.forwarded && Moving(o, h, pending))
    && (prev != NULL ==>
          && Moving(o, h, pending + {c}) && Open(o, h, c, prev, cell) && h.cells[prev].next == cell
          && p in h.forwarded && first == h.forwarded[p] && first != NULL)
  }

  lemma NextBelow(o: Origin, h: Heap, pending: set<Addr>, c: Addr)
    requires WellFormed(o) && c in o.cells && Above(o, pending, c)
    ensures o.cells[c].next == NIL || o.cells[c].next in o.cells
    ensures Above(o, pending, o.cells[c].next)
  {
    assert GoodCell(o, c);
  }

  lemma CopyAllocated(o: Origin, h: Heap, a: Addr)
    requires OneToOne(o, h)
    ensures a in h.source ==> a in h.cells
  {
    if a in h.source {
      var c := h.source[a];
      assert c in h.forwarded && h.forwarded[c] == a;
    }
  }

  // ---------- the elements of an array ----------

  ghost predicate PrefixSettled(o: Origin, h: Heap, b: int, k: int) {
    b in o.blocks && b in h.blocks && |h.blocks[b]| == |o.blocks[b]| &&
    forall i :: 0 <= i < k && i < |o.blocks[b]| ==>
      Arrived(o, h, o.blocks[b][i]) && h.blocks[b][i] == Relocated(h, o.blocks[b][i])
  }

  lemma PrefixStays(o: Origin, h: Heap, h': Heap, b: int, k: nat)
    requires OneToOne(o, h) && OneToOne(o, h') && Later(o, h, h') && PrefixSettled(o, h, b, k)
    ensures PrefixSettled(o, h', b, k)
  {
    forall i | 0 <= i < k && i < |o.blocks[b]|
      ensures Arrived(o, h', o.blocks[b][i]) && h'.blocks[b][i] == Relocated(h', o.blocks[b][i])
    {
      RelocatedOld(o, h, o.blocks[b][i]);
      RelocatedStays(o, h, h', o.blocks[b][i]);
    }
  }

  // An element is still the original one, or its evacuated copy (the block may be shared).
  lemma ElementReady(o: Origin, h: Heap, c: Addr, b: int, i: nat)
    requires WellFormed(o) && OneToOne(o, h) && BlocksKept(o, h)
    requires c in o.cells && o.cells[c].kind.Array? && o.cells[c].contents == b
    requires b in o.blocks && i < |o.blocks[b]|
    ensures b in h.blocks && i < |h.blocks[b]|
    ensures h.blocks[b][i] == o.blocks[b][i] || !Young(o, h.blocks[b][i])
    ensures o.blocks[b][i] == NULL || Below(o, o.blocks[b][i], c)
  {
    assert GoodCell(o, c);
    assert h.blocks[b][i] == o.blocks[b][i] || h.blocks[b][i] == Relocated(h, o.blocks[b][i]);
  }

  // Evacuating what is there evacuates the original element.
  lemma ElementArrived(o: Origin, h: Heap, h': Heap, b: int, i: nat)
    requires OneToOne(o, h) && OneToOne(o, h') && BlocksKept(o, h) && Later(o, h, h')
    requires b in o.blocks && i < |o.blocks[b]| && b in h.blocks && i < |h.blocks[b]|
    requires Arrived(o, h', h.blocks[b][i])
    ensures Arrived(o, h', o.blocks[b][i])
    ensures Relocated(h', h.blocks[b][i]) == Relocated(h', o.blocks[b][i])
  {
    assert h.blocks[b][i] == o.blocks[b][i] || h.blocks[b][i] == Relocated(h, o.blocks[b][i]);
  }

  lemma AboveContents(o: Origin, pending: set<Addr>, c: Addr, p: Addr)
    requires WellFormed(o) && c in o.cells && Above(o, pending - {c}, c) && (p == NULL || Below(o, p, c))
    ensures Above(o, pending, p)
  {
    assert GoodCell(o, c);
    if p in o.cells { assert GoodCell(o, p); }
  }

  lemma {:induction false} ChainArrived(o: Origin, h: Heap, pending: set<Addr>, p: Addr)
    requires WellFormed(o) && Moving(o, h, pending) && Above(o, pending, p) && Arrived(o, h, p)
    requires p == NIL || p in o.cells
    ensures Arrived(o, h, Last(o, p))
    ensures Relocated(h, p) == NIL <==> p == NIL
    decreases Rank(o, p) + 1
  {
    if p in o.cells {
      assert GoodCell(o, p);
      LinkFollowed(o, h, pending, p);
      ChainArrived(o, h, pending, o.cells[p].next);
    }
  }

  // ---------- roots ----------

  // A word that points into the nursery is the address of a cell.
  ghost predicate RootWords(o: Origin, words: seq<int>, from: nat, to: nat) {
    forall i :: from <= i < to && i < |words| ==> (Young(o, words[i]) ==> words[i] in o.cells)
  }

  ghost predicate SlotsDone(o: Origin, h: Heap, was: seq<int>, words: seq<int>, from: nat, to: nat) {
    && |words| == |was|
    && (forall i :: from <= i < to && i < |was| ==>
          Arrived(o, h, was[i]) && words[i] == Relocated(h, was[i]))
    && (forall i :: 0 <= i < |was| && !(from <= i < to) ==> words[i] == was[i])
  }

  lemma SlotsStay(o: Origin, h: Heap, h': Heap, was: seq<int>, words: seq<int>, from: nat, to: nat)
    requires OneToOne(o, h) && OneToOne(o, h') && Later(o, h, h') && SlotsDone(o, h, was, words, from, to)
    ensures SlotsDone(o, h', was, words, from, to)
  {
    forall i | from <= i < to && i < |was|
      ensures Arrived(o, h', was[i]) && words[i] == Relocated(h', was[i])
    {
      RelocatedStays(o, h, h', was[i]);
    }
  }

  class Collector {
    var cells: map<Addr, Cell>
    var blocks: map<int, seq<Addr>>
    var nextFree: Addr
    const codes: set<int>
    const lo: Addr
    const hi: Addr
    ghost var forwarded: map<Addr, Addr>
    ghost var source: map<Addr, Addr>

    ghost function Now(): Heap
      reads this
    {
      Heap(cells, blocks, forwarded, source)
    }

    ghost predicate Valid(o: Origin)
      reads this
    {
      && WellFormed(o) && o.lo == lo && o.hi == hi && o.codes == codes
      && nextFree > TRUE && nextFree >= hi
      && (forall a :: a in cells ==> a < nextFree)
      && (forall a :: a in codes ==> a < nextFree)
    }

    ghost predicate Ready(o: Origin, pending: set<Addr>)
      reads this
    {
      Valid(o) && Moving(o, Now(), pending)
    }

    ghost function Left(o: Origin): set<Addr>
      reads this
    {
      o.cells.Keys - forwarded.Keys
    }

    predicate InGen0(p: Addr) {
      lo <= p < hi
    }

    // Take a tenured cell.
    method AllocGen1Cell(kind: Kind) returns (n: Addr)
      modifies this`cells, this`nextFree
      ensures n == old(nextFree) && nextFree == n + 1
      ensures cells == old(cells)[n := Cell(kind, NIL, NIL, NIL)]
    {
      n := nextFree;
      nextFree := nextFree + 1;
      cells := cells[n := Cell(kind, NIL, NIL, NIL)];
    }

    // Copy the other three words of a cell.
    method CopyWords(n: Addr, c: Addr)
      requires n in cells && c in cells && n != c
      modifies this`cells
      ensures cells == old(cells)[n := old(cells)[c].(kind := old(cells)[n].kind)]
    {
      cells := cells[n := cells[n].(aux := cells[c].aux)];
      cells := cells[n := cells[n].(contents := cells[c].contents)];
      cells := cells[n := cells[n].(next := cells[c].next)];
    }

    method LeaveMark(c: Addr, n: Addr)
      requires c in cells
      modifies this`cells
      ensures cells == old(cells)[c := Mark(old(cells)[c], n)]
    {
      cells := cells[c := cells[c].(kind := Forward)];
      cells := cells[c := cells[c].(contents := n)];
    }

    // Copy one cell out of the nursery and leave a forwarding mark.
    method CopyOut(c: Addr, ghost o: Origin) returns (n: Addr)
      requires c in cells && c in o.cells && cells[c] == o.cells[c]
      requires nextFree !in cells
      modifies this
      ensures n == old(nextFree) && nextFree == n + 1
      ensures Now() == Move(old(Now()), o.cells[c], c, n)
    {
      n := AllocGen1Cell(cells[c].kind);
      CopyWords(n, c);
      LeaveMark(c, n);
      forwarded := forwarded[c := n];
      source := source[n := c];
    }

    lemma FreeIsMovable(o: Origin, pending: set<Addr>, c: Addr)
      requires Ready(o, pending) && c in o.cells && Young(o, c) && c !in forwarded
      ensures Movable(o, Now(), c, nextFree) && c in cells && cells[c] == o.cells[c]
    {
      CopyAllocated(o, Now(), nextFree);
    }

    method Evict(c: Addr, ghost o: Origin, ghost pending: set<Addr>) returns (n: Addr)
      requires Ready(o, pending) && c in o.cells && Young(o, c) && c !in forwarded
      modifies this
      ensures n !in old(cells) && n > TRUE && Now() == Move(old(Now()), o.cells[c], c, n)
      ensures Ready(o, pending + {c})
      ensures Later(o, old(Now()), Now()) && TenuredKept(o, old(Now()), Now())
    {
      ghost var before := Now();
      FreeIsMovable(o, pending, c);
      MoveMoving(o, before, pending, c, nextFree);
      MoveLater(o, before, c, nextFree);
      n := CopyOut(c, o);
    }

    // Patch the link of the cell copied before.
    method Link(prev: Addr, target: Addr, ghost c: Addr, ghost cell: Addr, ghost o: Origin, ghost pending: set<Addr>)
      requires Ready(o, pending + {c}) && Open(o, Now(), c, prev, cell)
      requires Arrived(o, Now(), cell) && target == Relocated(Now(), cell)
      modifies this`cells
      ensures Ready(o, pending)
      ensures cells == old(cells)[prev := old(cells)[prev].(next := target)]
    {
      LinkMoving(o, Now(), pending, c, prev, cell);
      cells := cells[prev := cells[prev].(next := target)];
    }

    // Walk to the end of a chain that has been evacuated.
    method FindLast(p: Addr, ghost c: Addr, ghost o: Origin, ghost pending: set<Addr>) returns (last: Addr)
      requires Ready(o, pending) && c in o.cells && Above(o, pending, c) && Arrived(o, Now(), c)
      requires p == Relocated(Now(), c)
      ensures last == Relocated(Now(), Last(o, c)) && Arrived(o, Now(), Last(o, c))
    {
      last := p;
      ghost var q := c;
      LinkFollowed(o, Now(), pending, q);
      while cells[last].next != NIL
        invariant q in o.cells && Arrived(o, Now(), q) && Above(o, pending, q)
        invariant last == Relocated(Now(), q) && Last(o, q) == Last(o, c) && last in cells
        decreases Rank(o, q) + 1
      {
        LinkFollowed(o, Now(), pending, q);
        last := cells[last].next;
        q := o.cells[q].next;
        LinkFollowed(o, Now(), pending, q);
      }
      LinkFollowed(o, Now(), pending, q);
    }

    // Overwrite the copy of a pending cell.
    method Write(n: Addr, copy: Cell, ghost c: Addr, ghost o: Origin, ghost pending: set<Addr>)
      requires Ready(o, pending) && c in forwarded && forwarded[c] == n && c in pending
      modifies this`cells
      ensures cells == old(cells)[n := copy] && Ready(o, pending) && Later(o, old(Now()), Now())
    {
      WriteMoving(o, Now(), pending, c, copy);
      cells := cells[n := copy];
    }

    method WriteElement(b: int, i: nat, r: Addr, ghost o: Origin, ghost pending: set<Addr>)
      requires Ready(o, pending) && PrefixSettled(o, Now(), b, i) && i < |o.blocks[b]|
      requires Arrived(o, Now(), o.blocks[b][i]) && r == Relocated(Now(), o.blocks[b][i])
      modifies this`blocks
      ensures Ready(o, pending) && Later(o, old(Now()), Now())
      ensures PrefixSettled(o, Now(), b, i + 1)
    {
      ghost var before := Now();
      ElementLater(o, before, b, i);
      ElementMoving(o, before, pending, b, i);
      PrefixStays(o, before, Patch(o, before, b, i), b, i);
      blocks := blocks[b := blocks[b][i := r]];
      assert Now() == Patch(o, before, b, i);
    }

    method EvacuateElement(b: int, i: nat, ghost c: Addr, ghost o: Origin, ghost pending: set<Addr>)
      requires Ready(o, pending) && c in o.cells && Above(o, pending - {c}, c)
      requires o.cells[c].kind.Array? && o.cells[c].contents == b && b in o.blocks && i < |o.blocks[b]|
      requires PrefixSettled(o, Now(), b, i)
      modifies this
      ensures Ready(o, pending) && PrefixSettled(o, Now(), b, i + 1)
      ensures Later(o, old(Now()), Now()) && TenuredKept(o, old(Now()), Now())
      decreases Left(o), 4
    {
      ghost var before := Now();
      ElementReady(o, before, c, b, i);
      AboveContents(o, pending, c, o.blocks[b][i]);
      var r := Evacuate(blocks[b][i], o, pending);
      ghost var between := Now();
      ElementArrived(o, before, between, b, i);
      PrefixStays(o, before, between, b, i);
      WriteElement(b, i, r, o, pending);
      LaterTransitive(o, before, between, Now());
    }

    // Array elements are evacuated and written back one by one.
    method EvacuateBlock(b: int, aux: int, ghost c: Addr, ghost o: Origin, ghost pending: set<Addr>)
      requires Ready(o, pending) && c in o.cells && Above(o, pending - {c}, c)
      requires o.cells[c].kind.Array? && o.cells[c].contents == b && o.cells[c].aux == aux
      modifies this
      ensures Ready(o, pending) && BlockSettled(o, Now(), b)
      ensures Later(o, old(Now()), Now()) && TenuredKept(o, old(Now()), Now())
      decreases Left(o), 5
    {
      assert GoodCell(o, c);
      var size := (aux - 1) / WORD;
      var addr := 0;
      while size > 0
        invariant size + addr == |o.blocks[b]| && addr >= 0
        invariant Ready(o, pending) && Later(o, old(Now()), Now()) && TenuredKept(o, old(Now()), Now())
        invariant PrefixSettled(o, Now(), b, addr)
        invariant Left(o) <= old(Left(o))
        decreases size
      {
        ghost var before := Now();
        EvacuateElement(b, addr, c, o, pending);
        LaterTransitive(o, old(Now()), before, Now());
        addr := addr + 1;
        size := size - 1;
      }
    }

    // What the copy n of c holds besides its link is evacuated, and aux is recomputed.
    method EvacuateBody(c: Addr, n: Addr, ghost o: Origin, ghost pending: set<Addr>)
      requires Ready(o, pending) && c in pending && c in o.cells && Young(o, c) && Above(o, pending - {c}, c)
      requires c in forwarded && forwarded[c] == n && cells[n] == o.cells[c]
      modifies this
      ensures Ready(o, pending) && Later(o, old(Now()), Now())
      ensures TenuredKeptBut(o, old(Now()), Now(), n)
      ensures n in cells && cells[n].next == o.cells[c].next && BodySettled(o, Now(), o.cells[c], cells[n])
      decreases Left(o), 7
    {
      if IsEnvelope(cells[n].kind) {
        if cells[n].kind.Array? {
          EvacuateBlock(cells[n].contents, cells[n].aux, c, o, pending);
        } else {
          EvacuateContents(c, n, o, pending);
        }
      }
    }

    // The first element of a list is evacuated; then aux is set to the last one, unless it
    // holds the bytecode of a lambda.
    method EvacuateContents(c: Addr, n: Addr, ghost o: Origin, ghost pending: set<Addr>)
      requires Ready(o, pending) && c in pending && c in o.cells && Young(o, c) && Above(o, pending - {c}, c)
      requires c in forwarded && forwarded[c] == n && cells[n] == o.cells[c] && IsChain(o.cells[c].kind)
      modifies this
      ensures Ready(o, pending) && Later(o, old(Now()), Now())
      ensures TenuredKeptBut(o, old(Now()), Now(), n)
      ensures n in cells && cells[n].next == o.cells[c].next && BodySettled(o, Now(), o.cells[c], cells[n])
      decreases Left(o), 6
    {
      assert GoodCell(o, c);
      AboveContents(o, pending, c, o.cells[c].contents);
      ghost var before := Now();
      var r := Evacuate(cells[n].contents, o, pending);
      ghost var between := Now();
      SetContents(c, n, r, o, pending);
      KeptThenWritten(o, before, between, Now(), n);
    }

    method SetContents(c: Addr, n: Addr, r: Addr, ghost o: Origin, ghost pending: set<Addr>)
      requires Ready(o, pending) && c in pending && c in o.cells && Young(o, c) && Above(o, pending - {c}, c)
      requires c in forwarded && forwarded[c] == n && n in cells && IsChain(o.cells[c].kind)
      requires cells[n] == o.cells[c]
      requires Arrived(o, Now(), o.cells[c].contents) && r == Relocated(Now(), o.cells[c].contents)
      modifies this`cells
      ensures Ready(o, pending) && n in cells && cells == old(cells)[n := cells[n]]
      ensures cells[n].next == o.cells[c].next && BodySettled(o, Now(), o.cells[c], cells[n])
    {
      Write(n, cells[n].(contents := r), c, o, pending);
      SetLast(c, n, o, pending);
    }

    method SetLast(c: Addr, n: Addr, ghost o: Origin, ghost pending: set<Addr>)
      requires Ready(o, pending) && c in pending && c in o.cells && Young(o, c) && Above(o, pending - {c}, c)
      requires c in forwarded && forwarded[c] == n && n in cells && IsChain(o.cells[c].kind)
      requires cells[n] == o.cells[c].(contents := cells[n].contents)
      requires Arrived(o, Now(), o.cells[c].contents) && cells[n].contents == Relocated(Now(), o.cells[c].contents)
      modifies this`cells
      ensures Ready(o, pending) && n in cells && cells == old(cells)[n := cells[n]]
      ensures cells[n].next == o.cells[c].next && BodySettled(o, Now(), o.cells[c], cells[n])
    {
      var aux := LastHint(c, n, o, pending);
      Write(n, cells[n].(aux := aux), c, o, pending);
    }

    method LastHint(c: Addr, n: Addr, ghost o: Origin, ghost pending: set<Addr>) returns (aux: int)
      requires Ready(o, pending) && c in pending && c in o.cells && Young(o, c) && Above(o, pending - {c}, c)
      requires c in forwarded && forwarded[c] == n && n in cells && IsChain(o.cells[c].kind)
      requires cells[n] == o.cells[c].(contents := cells[n].contents)
      requires Arrived(o, Now(), o.cells[c].contents) && cells[n].contents == Relocated(Now(), o.cells[c].contents)
      ensures aux == NewAux(o, Now(), o.cells[c]) && Arrived(o, Now(), Last(o, o.cells[c].contents))
    {
      assert GoodCell(o, c);
      ghost var p := o.cells[c].contents;
      AboveContents(o, pending, c, p);
      ChainArrived(o, Now(), pending, p);
      aux := cells[n].aux;
      if cells[n].kind.Lambda? {
        if HasCode(codes, cells[c].aux) {
          aux := cells[c].aux;
        } else if cells[n].contents != NIL {
          aux := FindLast(cells[n].contents, p, o, pending);
        } else {
          aux := NIL;
        }
      } else if cells[n].contents != NIL {
        aux := FindLast(cells[n].contents, p, o, pending);
      }
    }

    // Copy the first cell of a chain.
    method CopyFirst(c: Addr, ghost o: Origin, ghost pending: set<Addr>) returns (n: Addr)
      requires Ready(o, pending) && c in o.cells && Young(o, c) && c !in forwarded && Above(o, pending, c)
      modifies this
      ensures Ready(o, pending + {c}) && c in forwarded && n == forwarded[c] && n > TRUE
      ensures Later(o, old(Now()), Now()) && TenuredKept(o, old(Now()), Now()) && n !in old(cells)
      ensures n in cells && cells[n].next == o.cells[c].next && Open(o, Now(), c, n, o.cells[c].next)
      decreases Left(o), 0
    {
      n := Evict(c, o, pending);
      ghost var between := Now();
      EvacuateBody(c, n, o, pending + {c});
      LaterTransitive(o, old(Now()), between, Now());
      KeptButTransitive(o, old(Now()), between, Now(), n);
    }

    // Copy the next cell of a chain and link the cell before to it.
    method CopyNext(c: Addr, prev: Addr, ghost b: Addr, ghost o: Origin, ghost pending: set<Addr>) returns (n: Addr)
      requires Ready(o, pending + {b}) && c in o.cells && Young(o, c) && c !in forwarded && Above(o, pending, c)
      requires Open(o, Now(), b, prev, c)
      modifies this
      ensures Ready(o, pending + {c}) && c in forwarded && n == forwarded[c] && n > TRUE && n != prev
      ensures Later(o, old(Now()), Now()) && TenuredKeptBut(o, old(Now()), Now(), prev) && n !in old(cells)
      ensures n in cells && cells[n].next == o.cells[c].next && Open(o, Now(), c, n, o.cells[c].next)
      decreases Left(o), 0
    {
      ghost var before := Now();
      n := Evict(c, o, pending + {b});
      assert pending + {b} + {c} == pending + {c} + {b};
      ghost var moved := Now();
      OpenStays(o, before, moved, b, prev, c);
      Link(prev, n, b, c, o, pending + {c});
      ghost var linked := Now();
      EvacuateBody(c, n, o, pending + {c});
      LaterTransitive(o, before, linked, Now());
      LinkedFrame(o, before, moved, linked, Now(), prev, n);
    }

    method Evacuate(p: Addr, ghost o: Origin, ghost pending: set<Addr>) returns (r: Addr)
      requires Ready(o, pending)
      requires Young(o, p) ==> p in o.cells && Above(o, pending, p)
      modifies this
      ensures Ready(o, pending)
      ensures Later(o, old(Now()), Now()) && TenuredKept(o, old(Now()), Now())
      ensures Arrived(o, Now(), p) && r == Relocated(Now(), p)
      decreases Left(o), 3
    {
      if p == NULL || p == NIL || p == TRUE {
        return p;
      }
      if !InGen0(p) {
        return p;
      }
      if cells[p].kind.Forward? {
        return cells[p].contents;
      }
      r := EvacuateChain(p, o, pending);
    }

    method CopyCell(c: Addr, prev: Addr, ghost first: Addr, ghost b: Addr, ghost p: Addr, ghost o: Origin,
                    ghost pending: set<Addr>)
      returns (n: Addr)
      requires Valid(o) && Walking(o, Now(), pending, p, first, prev, b, c) && Young(o, c) && c !in forwarded
      requires c != NIL
      modifies this
      ensures Valid(o)
      ensures Walking(o, Now(), pending, p, if prev == NULL then n else first, n, c, o.cells[c].next)
      ensures Left(o) < old(Left(o)) && Later(o, old(Now()), Now())
      ensures CopyFrame(o, old(Now()), Now(), prev) && n !in old(cells)
      decreases Left(o), 1
    {
      NextBelow(o, Now(), pending, c);
      if prev == NULL {
        n := CopyFirst(c, o, pending);
      } else {
        n := CopyNext(c, prev, b, o, pending);
      }
    }

    // Walk a chain until it ends, leaves the nursery or meets a cell already evacuated.
    method EvacuateChain(p: Addr, ghost o: Origin, ghost pending: set<Addr>) returns (r: Addr)
      requires Ready(o, pending)
      requires Young(o, p) && p in o.cells && Above(o, pending, p) && p !in forwarded
      modifies this
      ensures Ready(o, pending)
      ensures Later(o, old(Now()), Now()) && TenuredKept(o, old(Now()), Now())
      ensures Arrived(o, Now(), p) && r == Relocated(Now(), p)
      decreases Left(o), 2
    {
      var first, prev, cell := NULL, NULL, p;
      ghost var c := p;
      while cell != NIL && InGen0(cell)
        invariant Valid(o) && Walking(o, Now(), pending, p, first, prev, c, cell)
        invariant Later(o, old(Now()), Now()) && TenuredKept(o, old(Now()), Now())
        invariant prev != NULL ==> prev !in old(cells)
        decreases Left(o)
      {
        if cells[cell].kind.Forward? {
          var copy := cells[cell].contents;
          if prev != NULL {
            Link(prev, copy, c, cell, o, pending);
          }
          return if first != NULL then first else copy;
        }
        ghost var before := Now();
        var origNext := cells[cell].next;
        var newCell := CopyCell(cell, prev, first, c, p, o, pending);
        if prev == NULL {
          first := newCell;
        }
        FrameExtended(o, old(Now()), before, Now(), prev);
        prev := newCell;
        c := cell;
        cell := origNext;
      }
      FinishChain(prev, cell, c, o, pending);
      r := first;
    }

    // The last cell copied is linked to the tenured rest of the chain.
    method FinishChain(prev: Addr, cell: Addr, ghost c: Addr, ghost o: Origin, ghost pending: set<Addr>)
      requires Ready(o, pending + {c}) && Open(o, Now(), c, prev, cell) && cells[prev].next == cell
      requires cell == NIL || !Young(o, cell)
      modifies this`cells
      ensures Ready(o, pending) && cells == old(cells)
    {
      if prev != NULL && cell != NIL {
        Link(prev, cell, c, cell, o, pending);
      } else {
        Closed(o, Now(), pending, c, prev, cell);
      }
    }

    // The words of a stack that point into the nursery are evacuated; other words, such as
    // symbols, are left alone.
    method EvacuateSlots(stack: array<int>, from: nat, to: nat, ghost o: Origin)
      requires Ready(o, {}) && from <= to <= stack.Length
      requires RootWords(o, stack[..], from, to)
      modifies this, stack
      ensures Ready(o, {}) && Later(o, old(Now()), Now())
      ensures SlotsDone(o, Now(), old(stack[..]), stack[..], from, to)
    {
      ghost var was := stack[..];
      var sPtr := from;
      while sPtr < to
        invariant from <= sPtr <= to && Ready(o, {}) && Later(o, old(Now()), Now())
        invariant SlotsDone(o, Now(), was, stack[..], from, sPtr)
      {
        ghost var before := Now();
        EvacuateSlot(stack, from, sPtr, was, o);
        LaterTransitive(o, old(Now()), before, Now());
        sPtr := sPtr + 1;
      }
    }

    method EvacuateSlot(stack: array<int>, ghost from: nat, i: nat, ghost was: seq<int>, ghost o: Origin)
      requires Ready(o, {}) && from <= i < stack.Length == |was| && (Young(o, was[i]) ==> was[i] in o.cells)
      requires SlotsDone(o, Now(), was, stack[..], from, i)
      modifies this, stack
      ensures Ready(o, {}) && Later(o, old(Now()), Now())
      ensures SlotsDone(o, Now(), was, stack[..], from, i + 1)
    {
      assert stack[..][i] == was[i];
      ghost var before := Now();
      if InGen0(stack[i]) {
        var r := Evacuate(stack[i], o, {});
        SlotsStay(o, before, Now(), was, stack[..], from, i);
        stack[i] := r;
      }
    }

    // Start allocating at the beginning of the nursery again.
    method ResetGen0(ghost o: Origin)
      requires o.lo == lo && o.hi == hi
      modifies this
      ensures cells == map a | a in old(cells) && !Young(o, a) :: old(cells)[a]
      ensures blocks == old(blocks) && forwarded == map[] && source == map[] && nextFree == old(nextFree)
    {
      cells := map a | a in cells && !InGen0(a) :: cells[a];
      forwarded, source := map[], map[];
    }
  }
}
