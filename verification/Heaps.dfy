// Cells, the nursery they are born in, and what it means to move them out of it.
module Heaps {

  type Addr = int

  const NULL := 0
  const NIL := 1
  const TRUE := 2
  const WORD := 8

  datatype Kind = Plain(tag: int) | Quote | Expression | Lambda | Fexpr | Array | Forward

  // Four words. What aux and contents hold depends on the kind: a list-like cell holds its
  // first element and (a hint to) its last one, an array its block and the block's size.
  datatype Cell = Cell(kind: Kind, next: Addr, aux: int, contents: int)

  predicate IsEnvelope(kind: Kind) {
    kind.Quote? || kind.Expression? || kind.Lambda? || kind.Fexpr? || kind.Array?
  }

  predicate IsChain(kind: Kind) {
    IsEnvelope(kind) && !kind.Array?
  }

  // The heap when a collection starts. lo and hi bound the nursery, codes are the addresses
  // of bytecode objects, and rank decreases along every pointer.
  datatype Origin = Origin(cells: map<Addr, Cell>, blocks: map<int, seq<Addr>>, codes: set<int>,
                           lo: Addr, hi: Addr, rank: map<Addr, nat>)

  // The heap in the middle of a collection; forwarded maps every cell that has left the
  // nursery to its copy, and source maps the copies back.
  datatype Heap = Heap(cells: map<Addr, Cell>, blocks: map<int, seq<Addr>>,
                       forwarded: map<Addr, Addr>, source: map<Addr, Addr>)

  predicate Young(o: Origin, p: Addr) {
    o.lo <= p < o.hi
  }

  predicate HasCode(codes: set<int>, aux: int) {
    aux != NULL && aux != NIL && aux in codes
  }

  function Rank(o: Origin, p: Addr): (r: int)
    ensures r >= -1
  {
    if p in o.cells && p in o.rank then o.rank[p] else -1
  }

  // ---------- well-formed heaps ----------

  // c may point to p: to the end marker or to a cell of smaller rank, and from a tenured cell
  // never into the nursery.
  ghost predicate Below(o: Origin, p: Addr, c: Addr) {
    p == NIL || (p in o.cells && Rank(o, p) < Rank(o, c) && (Young(o, p) ==> Young(o, c)))
  }

  ghost predicate GoodBlock(o: Origin, cell: Cell, c: Addr) {
    && cell.contents in o.blocks
    && cell.aux == WORD * |o.blocks[cell.contents]| + 1
    && forall i :: 0 <= i < |o.blocks[cell.contents]| ==>
         o.blocks[cell.contents][i] == NULL || Below(o, o.blocks[cell.contents][i], c)
  }

  ghost predicate GoodCell(o: Origin, c: Addr)
    requires c in o.cells
  {
    var cell := o.cells[c];
    && !cell.kind.Forward?
    && c in o.rank && c > TRUE - 1
    && Below(o, cell.next, c)
    && (IsChain(cell.kind) ==> Below(o, cell.contents, c))
    && (IsChain(cell.kind) && cell.contents == NIL ==> !Young(o, cell.aux))
    && (cell.kind.Array? ==> GoodBlock(o, cell, c))
  }

  ghost predicate WellFormed(o: Origin) {
    && o.lo > TRUE
    && (forall c :: c in o.cells ==> GoodCell(o, c))
    && (forall a :: a in o.codes ==> !Young(o, a) && a !in o.cells)
  }

  // The last cell of a chain.
  function Last(o: Origin, p: Addr): (q: Addr)
    decreases Rank(o, p) + 1
  {
    if p in o.cells && o.cells[p].next in o.cells && Rank(o, o.cells[p].next) < Rank(o, p)
    then Last(o, o.cells[p].next)
    else p
  }

  // ---------- a heap on its way ----------

  function Relocated(h: Heap, p: Addr): Addr {
    if p in h.forwarded then h.forwarded[p] else p
  }

  ghost predicate Arrived(o: Origin, h: Heap, p: Addr) {
    Young(o, p) ==> p in h.forwarded
  }

  // Copies and originals match up one to one, and copies live outside the nursery.
  ghost predicate OneToOne(o: Origin, h: Heap) {
    && (forall c :: c in h.forwarded ==>
          && c in o.cells && Young(o, c)
          && h.forwarded[c] > TRUE && !Young(o, h.forwarded[c])
          && h.forwarded[c] !in o.cells && h.forwarded[c] !in o.codes
          && h.forwarded[c] in h.cells
          && h.forwarded[c] in h.source && h.source[h.forwarded[c]] == c)
    && (forall a :: a in h.source ==> h.source[a] in h.forwarded && h.forwarded[h.source[a]] == a)
    && (forall a :: a in h.cells ==> a in o.cells || a in h.source)
  }

  function Mark(cell: Cell, copy: Addr): Cell {
    cell.(kind := Forward, contents := copy)
  }

  // A cell that was there before is untouched, or marked with where its copy is.
  ghost predicate Marked(o: Origin, h: Heap) {
    forall c :: c in o.cells ==>
      c in h.cells && h.cells[c] == if c in h.forwarded then Mark(o.cells[c], h.forwarded[c]) else o.cells[c]
  }

  // Array blocks are updated in place, element by element.
  ghost predicate BlocksKept(o: Origin, h: Heap) {
    && h.blocks.Keys == o.blocks.Keys
    && (forall b :: b in o.blocks ==> |h.blocks[b]| == |o.blocks[b]|)
    && (forall b, i :: b in o.blocks && 0 <= i < |o.blocks[b]| ==>
          h.blocks[b][i] == o.blocks[b][i] || h.blocks[b][i] == Relocated(h, o.blocks[b][i]))
  }

  function NewAux(o: Origin, h: Heap, cell: Cell): int {
    if !IsChain(cell.kind) then cell.aux
    else if cell.kind.Lambda? && HasCode(o.codes, cell.aux) then cell.aux
    else if cell.contents != NIL then Relocated(h, Last(o, cell.contents))
    else if cell.kind.Lambda? then NIL
    else cell.aux
  }

  ghost predicate NextSettled(o: Origin, h: Heap, cell: Cell, copy: Cell) {
    Arrived(o, h, cell.next) && copy.next == Relocated(h, cell.next)
  }

  ghost predicate BlockSettled(o: Origin, h: Heap, b: int) {
    b in o.blocks && b in h.blocks && |h.blocks[b]| == |o.blocks[b]| &&
    forall i :: 0 <= i < |o.blocks[b]| ==>
      Arrived(o, h, o.blocks[b][i]) && h.blocks[b][i] == Relocated(h, o.blocks[b][i])
  }

  ghost predicate BodySettled(o: Origin, h: Heap, cell: Cell, copy: Cell) {
    && copy.kind == cell.kind
    && copy.aux == NewAux(o, h, cell)
    && (IsChain(cell.kind) ==>
          && Arrived(o, h, cell.contents) && copy.contents == Relocated(h, cell.contents)
          && Arrived(o, h, Last(o, cell.contents)))
    && (!IsChain(cell.kind) ==> copy.contents == cell.contents)
    && (cell.kind.Array? ==> BlockSettled(o, h, cell.contents))
  }

  ghost predicate Settled(o: Origin, h: Heap, c: Addr) {
    && c in o.cells && c in h.forwarded && h.forwarded[c] in h.cells
    && NextSettled(o, h, o.cells[c], h.cells[h.forwarded[c]])
    && BodySettled(o, h, o.cells[c], h.cells[h.forwarded[c]])
  }

  // Every copy is complete, except those of the pending cells.
  ghost predicate Complete(o: Origin, h: Heap, pending: set<Addr>) {
    forall c :: c in h.forwarded && c !in pending ==> Settled(o, h, c)
  }

  ghost predicate Moving(o: Origin, h: Heap, pending: set<Addr>) {
    OneToOne(o, h) && Marked(o, h) && BlocksKept(o, h) && Complete(o, h, pending)
  }

  // ---------- settled cells stay settled ----------

  // What every later state keeps of an earlier one.
  ghost predicate Later(o: Origin, h: Heap, h': Heap) {
    && h.forwarded.Keys <= h'.forwarded.Keys
    && (forall c :: c in h.forwarded ==> c in h'.forwarded && h'.forwarded[c] == h.forwarded[c])
    && h'.blocks.Keys == h.blocks.Keys
    && (forall b :: b in h.blocks ==> |h'.blocks[b]| == |h.blocks[b]|)
    && (forall b, i :: b in h.blocks && 0 <= i < |h.blocks[b]| && !Young(o, h.blocks[b][i]) ==>
          h'.blocks[b][i] == h.blocks[b][i])
  }

  // ... and tenured cells are untouched.
  ghost predicate TenuredKept(o: Origin, h: Heap, h': Heap) {
    forall a :: a in h.cells && !Young(o, a) ==> a in h'.cells && h'.cells[a] == h.cells[a]
  }

  lemma LaterTransitive(o: Origin, h: Heap, h1: Heap, h2: Heap)
    requires Later(o, h, h1) && Later(o, h1, h2)
    ensures Later(o, h, h2)
  {
    forall b, i | b in h.blocks && 0 <= i < |h.blocks[b]| && !Young(o, h.blocks[b][i])
      ensures h2.blocks[b][i] == h.blocks[b][i]
    {
      assert h1.blocks[b][i] == h.blocks[b][i];
    }
  }

  lemma RelocatedStays(o: Origin, h: Heap, h': Heap, p: Addr)
    requires OneToOne(o, h) && OneToOne(o, h') && Later(o, h, h') && Arrived(o, h, p)
    ensures Arrived(o, h', p) && Relocated(h', p) == Relocated(h, p)
  {
  }

  lemma RelocatedOld(o: Origin, h: Heap, p: Addr)
    requires OneToOne(o, h) && Arrived(o, h, p)
    ensures !Young(o, Relocated(h, p))
  {
  }

  lemma BlockStays(o: Origin, h: Heap, h': Heap, b: int)
    requires OneToOne(o, h) && OneToOne(o, h') && Later(o, h, h') && BlockSettled(o, h, b)
    ensures BlockSettled(o, h', b)
  {
    forall i | 0 <= i < |o.blocks[b]|
      ensures Arrived(o, h', o.blocks[b][i]) && h'.blocks[b][i] == Relocated(h', o.blocks[b][i])
    {
      RelocatedOld(o, h, o.blocks[b][i]);
      RelocatedStays(o, h, h', o.blocks[b][i]);
    }
  }

  lemma BodyStays(o: Origin, h: Heap, h': Heap, cell: Cell, copy: Cell)
    requires OneToOne(o, h) && OneToOne(o, h') && Later(o, h, h') && BodySettled(o, h, cell, copy)
    ensures BodySettled(o, h', cell, copy)
  {
    if IsChain(cell.kind) {
      RelocatedStays(o, h, h', cell.contents);
      RelocatedStays(o, h, h', Last(o, cell.contents));
    }
    if cell.kind.Array? { BlockStays(o, h, h', cell.contents); }
  }

  lemma SettledStays(o: Origin, h: Heap, h': Heap, c: Addr)
    requires OneToOne(o, h) && OneToOne(o, h') && Later(o, h, h') && Settled(o, h, c)
    requires h'.cells[h.forwarded[c]] == h.cells[h.forwarded[c]]
    ensures Settled(o, h', c)
  {
    RelocatedStays(o, h, h', o.cells[c].next);
    BodyStays(o, h, h', o.cells[c], h.cells[h.forwarded[c]]);
  }
}
