// What a collection preserves: the expression every pointer denotes, the sharing of cells and
// the shape of the heap, with nothing left in the nursery.
module EvacuatedHeaps {
  import opened Heaps

  // ---------- denotations ----------

  // The expression found at a pointer, followed to a given depth: a cell's data, what its
  // contents denote, and the rest of its chain.
  datatype Sexp =
    | Cut
    | NoCell
    | Dangling
    | End
    | Datum(tag: int, aux: int, contents: int, rest: Sexp)
    | Sublist(kind: Kind, code: int, first: Sexp, rest: Sexp)
    | Vector(elements: seq<Sexp>, rest: Sexp)

  function Code(codes: set<int>, cell: Cell): int {
    if cell.kind.Lambda? && HasCode(codes, cell.aux) then cell.aux else NIL
  }

  function Denote(cells: map<Addr, Cell>, blocks: map<int, seq<Addr>>, codes: set<int>, n: nat, p: Addr): Sexp
    decreases n, 0
  {
    if n == 0 then Cut
    else if p == NULL then NoCell
    else if p == NIL then End
    else if p !in cells || cells[p].kind.Forward? then Dangling
    else
      var cell := cells[p];
      var rest := Denote(cells, blocks, codes, n - 1, cell.next);
      if cell.kind.Plain? then Datum(cell.kind.tag, cell.aux, cell.contents, rest)
      else if cell.kind.Array? then
        if cell.contents in blocks
        then Vector(DenoteAll(cells, blocks, codes, n - 1, blocks[cell.contents], |blocks[cell.contents]|), rest)
        else Dangling
      else Sublist(cell.kind, Code(codes, cell), Denote(cells, blocks, codes, n - 1, cell.contents), rest)
  }

  // The first k elements of a block.
  function DenoteAll(cells: map<Addr, Cell>, blocks: map<int, seq<Addr>>, codes: set<int>, n: nat,
                     block: seq<Addr>, k: nat): seq<Sexp>
    requires k <= |block|
    decreases n, k + 1
  {
    if k == 0 then []
    else DenoteAll(cells, blocks, codes, n, block, k - 1) + [Denote(cells, blocks, codes, n, block[k - 1])]
  }

  // In a well-formed heap, following a pointer deeper than its rank finds nothing more: the
  // denotation is a finite expression.
  lemma {:induction false} DepthSuffices(o: Origin, m: nat, n: nat, p: Addr)
    requires WellFormed(o) && m > Rank(o, p) + 1 && n > Rank(o, p) + 1
    requires p == NULL || p == NIL || p in o.cells
    ensures Denote(o.cells, o.blocks, o.codes, m, p) == Denote(o.cells, o.blocks, o.codes, n, p)
    decreases Rank(o, p) + 1, 0
  {
    if p in o.cells {
      assert GoodCell(o, p);
      var cell := o.cells[p];
      RankBelow(o, cell.next, p);
      DepthSuffices(o, m - 1, n - 1, cell.next);
      if IsChain(cell.kind) {
        RankBelow(o, cell.contents, p);
        DepthSuffices(o, m - 1, n - 1, cell.contents);
      } else if cell.kind.Array? {
        DepthSufficesAll(o, m - 1, n - 1, p, |o.blocks[cell.contents]|);
      }
    }
  }

  lemma RankBelow(o: Origin, p: Addr, c: Addr)
    requires WellFormed(o) && c in o.cells && (p == NULL || Below(o, p, c))
    ensures Rank(o, p) < Rank(o, c)
  {
    assert GoodCell(o, c);
    if p in o.cells { assert GoodCell(o, p); }
  }

  lemma {:induction false} DepthSufficesAll(o: Origin, m: nat, n: nat, c: Addr, k: nat)
    requires WellFormed(o) && c in o.cells && m > Rank(o, c) && n > Rank(o, c)
    requires o.cells[c].kind.Array? && o.cells[c].contents in o.blocks && k <= |o.blocks[o.cells[c].contents]|
    ensures DenoteAll(o.cells, o.blocks, o.codes, m, o.blocks[o.cells[c].contents], k)
         == DenoteAll(o.cells, o.blocks, o.codes, n, o.blocks[o.cells[c].contents], k)
    decreases Rank(o, c) + 1, -1, k
  {
    if k > 0 {
      assert GoodCell(o, c);
      var block := o.blocks[o.cells[c].contents];
      DepthSufficesAll(o, m, n, c, k - 1);
      RankBelow(o, block[k - 1], c);
      DepthSuffices(o, m, n, block[k - 1]);
    }
  }

  // ---------- after the collection ----------

  // The nursery is empty again.
  function Tenured(o: Origin, cells: map<Addr, Cell>): map<Addr, Cell> {
    map a | a in cells && !Young(o, a) :: cells[a]
  }

  ghost predicate Collected(o: Origin, h: Heap) {
    WellFormed(o) && Moving(o, h, {})
  }

  // A pointer of the old heap all of whose cells are now in tenured space.
  ghost predicate Live(o: Origin, h: Heap, p: Addr) {
    (p == NULL || p == NIL || p in o.cells) && Arrived(o, h, p)
  }

  // The cell now at a live pointer: the same kind of cell, with relocated pointers.
  lemma CellAt(o: Origin, h: Heap, p: Addr)
    requires Collected(o, h) && Live(o, h, p) && p in o.cells
    ensures p > NIL && Relocated(h, p) > NIL && Relocated(h, p) in h.cells && !Young(o, Relocated(h, p))
    ensures NextSettled(o, h, o.cells[p], h.cells[Relocated(h, p)])
    ensures BodyMoved(o, h, o.cells[p], h.cells[Relocated(h, p)])
  {
    assert GoodCell(o, p);
    if p in h.forwarded {
      assert Settled(o, h, p);
      CodeKept(o, h, p);
    } else if o.cells[p].kind.Array? {
      TenuredBlock(o, h, p);
    }
  }

  ghost predicate BodyMoved(o: Origin, h: Heap, cell: Cell, copy: Cell) {
    && copy.kind == cell.kind
    && Code(o.codes, copy) == Code(o.codes, cell)
    && (cell.kind.Plain? ==> copy.contents == cell.contents && copy.aux == cell.aux)
    && (IsChain(cell.kind) ==> Arrived(o, h, cell.contents) && copy.contents == Relocated(h, cell.contents))
    && (cell.kind.Array? ==> copy.contents == cell.contents && BlockSettled(o, h, cell.contents))
  }

  // Bytecode objects are no cells, so a recomputed aux is never mistaken for one.
  lemma CodeKept(o: Origin, h: Heap, c: Addr)
    requires Collected(o, h) && c in o.cells
    ensures o.cells[c].kind.Lambda? ==>
      Code(o.codes, o.cells[c].(aux := NewAux(o, h, o.cells[c]))) == Code(o.codes, o.cells[c])
  {
    assert GoodCell(o, c);
    if IsChain(o.cells[c].kind) && o.cells[c].contents != NIL { LastIsCell(o, o.cells[c].contents); }
  }

  lemma {:induction false} LastIsCell(o: Origin, p: Addr)
    requires WellFormed(o) && p in o.cells
    ensures Last(o, p) in o.cells
    decreases Rank(o, p) + 1
  {
    assert GoodCell(o, p);
    if o.cells[p].next in o.cells { LastIsCell(o, o.cells[p].next); }
  }

  // The block of a tenured array has no elements in the nursery.
  lemma TenuredBlock(o: Origin, h: Heap, c: Addr)
    requires Collected(o, h) && c in o.cells && !Young(o, c) && o.cells[c].kind.Array?
    ensures BlockSettled(o, h, o.cells[c].contents)
  {
    assert GoodCell(o, c);
    var b := o.cells[c].contents;
    forall i | 0 <= i < |o.blocks[b]|
      ensures Arrived(o, h, o.blocks[b][i]) && h.blocks[b][i] == Relocated(h, o.blocks[b][i])
    {
      assert h.blocks[b][i] == o.blocks[b][i] || h.blocks[b][i] == Relocated(h, o.blocks[b][i]);
    }
  }

  // ---------- meaning ----------

  // What a live pointer denotes, to any depth, is what its relocated pointer denotes once the
  // nursery is gone.
  lemma {:induction false} DenotationPreserved(o: Origin, h: Heap, n: nat, p: Addr)
    requires Collected(o, h) && Live(o, h, p)
    ensures Denote(Tenured(o, h.cells), h.blocks, o.codes, n, Relocated(h, p))
         == Denote(o.cells, o.blocks, o.codes, n, p)
    decreases n, 0
  {
    if n > 0 && p in o.cells {
      CellAt(o, h, p);
      assert GoodCell(o, p);
      var cell := o.cells[p];
      DenotationPreserved(o, h, n - 1, cell.next);
      if IsChain(cell.kind) {
        DenotationPreserved(o, h, n - 1, cell.contents);
      } else if cell.kind.Array? {
        ElementsPreserved(o, h, n - 1, p, |o.blocks[cell.contents]|);
      }
    } else if n > 0 {
      NoCellAt(o, h, p);
    }
  }

  lemma NoCellAt(o: Origin, h: Heap, p: Addr)
    requires Collected(o, h) && Live(o, h, p) && p !in o.cells
    ensures Relocated(h, p) == p && (p == NULL || p == NIL)
  {
  }

  lemma {:induction false} ElementsPreserved(o: Origin, h: Heap, n: nat, c: Addr, k: nat)
    requires Collected(o, h) && c in o.cells && o.cells[c].kind.Array?
    requires BlockSettled(o, h, o.cells[c].contents) && k <= |o.blocks[o.cells[c].contents]|
    ensures DenoteAll(Tenured(o, h.cells), h.blocks, o.codes, n, h.blocks[o.cells[c].contents], k)
         == DenoteAll(o.cells, o.blocks, o.codes, n, o.blocks[o.cells[c].contents], k)
    decreases n, k + 1
  {
    if k > 0 {
      assert GoodCell(o, c);
      ElementsPreserved(o, h, n, c, k - 1);
      DenotationPreserved(o, h, n, o.blocks[o.cells[c].contents][k - 1]);
    }
  }

  // Two pointers lead to the same cell afterwards exactly when they did before.
  lemma SharingPreserved(o: Origin, h: Heap, p: Addr, q: Addr)
    requires Collected(o, h) && Live(o, h, p) && Live(o, h, q)
    ensures Relocated(h, p) == Relocated(h, q) <==> p == q
  {
    if p in h.forwarded && q in h.forwarded {
      assert h.source[h.forwarded[p]] == p && h.source[h.forwarded[q]] == q;
    }
    if p !in h.forwarded && p !in o.cells { NoCellAt(o, h, p); }
    if q !in h.forwarded && q !in o.cells { NoCellAt(o, h, q); }
  }

  // ---------- the next collection ----------

  function Before(h: Heap, a: Addr): Addr {
    if a in h.source then h.source[a] else a
  }

  // The heap as the next collection finds it, before anything new is allocated.
  function Survivors(o: Origin, h: Heap): Origin {
    Origin(Tenured(o, h.cells), h.blocks, o.codes, o.lo, o.hi,
           map a | a in h.cells && !Young(o, a) && Before(h, a) in o.rank :: o.rank[Before(h, a)])
  }

  lemma SurvivorOf(o: Origin, h: Heap, p: Addr)
    requires Collected(o, h) && Live(o, h, p) && p in o.cells
    ensures Relocated(h, p) in Survivors(o, h).cells && Before(h, Relocated(h, p)) == p
    ensures Survivors(o, h).cells[Relocated(h, p)] == h.cells[Relocated(h, p)]
    ensures Rank(Survivors(o, h), Relocated(h, p)) == Rank(o, p)
    ensures Relocated(h, p) in Survivors(o, h).rank
  {
    CellAt(o, h, p);
    assert GoodCell(o, p);
    if p !in h.forwarded && p in h.source {
      assert h.forwarded[h.source[p]] == p;
    }
  }

  lemma SurvivorFrom(o: Origin, h: Heap, a: Addr) returns (p: Addr)
    requires Collected(o, h) && a in Survivors(o, h).cells
    ensures p in o.cells && Live(o, h, p) && Relocated(h, p) == a
  {
    p := Before(h, a);
    if a in h.source {
      assert h.source[a] in h.forwarded;
    } else {
      assert a in o.cells;
    }
  }

  lemma SurvivorBelow(o: Origin, h: Heap, p: Addr, c: Addr)
    requires Collected(o, h) && Live(o, h, p) && Live(o, h, c) && c in o.cells && Below(o, p, c)
    ensures Below(Survivors(o, h), Relocated(h, p), Relocated(h, c))
  {
    SurvivorOf(o, h, c);
    if p in o.cells {
      SurvivorOf(o, h, p);
      CellAt(o, h, p);
    } else {
      NoCellAt(o, h, p);
    }
  }

  lemma SurvivorBlock(o: Origin, h: Heap, c: Addr)
    requires Collected(o, h) && c in o.cells && Live(o, h, c) && o.cells[c].kind.Array?
    ensures Relocated(h, c) in h.cells
    ensures GoodBlock(Survivors(o, h), h.cells[Relocated(h, c)], Relocated(h, c))
  {
    assert GoodCell(o, c);
    CellAt(o, h, c);
    ArrayAux(o, h, c);
    var block := o.blocks[o.cells[c].contents];
    forall i | 0 <= i < |block|
      ensures Relocated(h, block[i]) == NULL || Below(Survivors(o, h), Relocated(h, block[i]), Relocated(h, c))
    {
      assert Arrived(o, h, block[i]);
      if block[i] == NULL { NoCellAt(o, h, block[i]); } else { SurvivorBelow(o, h, block[i], c); }
    }
  }

  lemma ArrayAux(o: Origin, h: Heap, c: Addr)
    requires Collected(o, h) && c in o.cells && Live(o, h, c) && o.cells[c].kind.Array?
    ensures Relocated(h, c) in h.cells && h.cells[Relocated(h, c)].aux == o.cells[c].aux
  {
    if c in h.forwarded { assert Settled(o, h, c); }
  }

  // An empty list keeps an aux that does not point into the nursery.
  lemma EmptyAux(o: Origin, h: Heap, c: Addr)
    requires Collected(o, h) && c in o.cells && Live(o, h, c) && IsChain(o.cells[c].kind)
    requires o.cells[c].contents == NIL
    ensures Relocated(h, c) in h.cells && !Young(o, h.cells[Relocated(h, c)].aux)
  {
    assert GoodCell(o, c);
    if c in h.forwarded { assert Settled(o, h, c); }
  }

  lemma SurvivorContents(o: Origin, h: Heap, c: Addr)
    requires Collected(o, h) && c in o.cells && Live(o, h, c) && IsChain(o.cells[c].kind)
    ensures Relocated(h, c) in h.cells
    ensures Below(Survivors(o, h), h.cells[Relocated(h, c)].contents, Relocated(h, c))
    ensures h.cells[Relocated(h, c)].contents == NIL ==> !Young(o, h.cells[Relocated(h, c)].aux)
  {
    assert GoodCell(o, c);
    CellAt(o, h, c);
    var p := o.cells[c].contents;
    SurvivorBelow(o, h, p, c);
    if p == NIL { EmptyAux(o, h, c); } else { CellAt(o, h, p); }
  }

  lemma SurvivorGood(o: Origin, h: Heap, c: Addr)
    requires Collected(o, h) && c in o.cells && Live(o, h, c)
    ensures Relocated(h, c) in Survivors(o, h).cells && GoodCell(Survivors(o, h), Relocated(h, c))
  {
    assert GoodCell(o, c);
    CellAt(o, h, c);
    SurvivorOf(o, h, c);
    SurvivorBelow(o, h, o.cells[c].next, c);
    if IsChain(o.cells[c].kind) { SurvivorContents(o, h, c); }
    if o.cells[c].kind.Array? { SurvivorBlock(o, h, c); }
  }

  // The collected heap is well formed with an empty nursery: no cell, link, list or array
  // element points at anything that was left behind. So the next collection may rely on it.
  lemma SurvivorsWellFormed(o: Origin, h: Heap)
    requires Collected(o, h)
    ensures WellFormed(Survivors(o, h))
    ensures forall a :: a in Survivors(o, h).cells ==> !Young(o, a)
  {
    var o' := Survivors(o, h);
    forall a | a in o'.cells ensures GoodCell(o', a) && a !in o.codes {
      var c := SurvivorFrom(o, h, a);
      SurvivorGood(o, h, c);
      assert c in h.forwarded ==> h.forwarded[c] !in o.codes;
    }
  }

  // ---------- the cached last cell ----------

  lemma {:induction false} LastRelocated(o: Origin, h: Heap, p: Addr)
    requires Collected(o, h) && Live(o, h, p) && p in o.cells
    ensures Last(Survivors(o, h), Relocated(h, p)) == Relocated(h, Last(o, p))
    decreases Rank(o, p) + 1
  {
    assert GoodCell(o, p);
    var q := o.cells[p].next;
    CellAt(o, h, p);
    SurvivorOf(o, h, p);
    if q in o.cells {
      SurvivorOf(o, h, q);
      LastRelocated(o, h, q);
    } else {
      NoCellAt(o, h, q);
      SurvivorsWellFormed(o, h);
      assert GoodCell(Survivors(o, h), Relocated(h, p));
    }
  }

  // Every list copied out of the nursery has the true last cell in aux, unless aux holds the
  // bytecode of a lambda.
  lemma AuxIsLast(o: Origin, h: Heap, c: Addr)
    requires Collected(o, h) && c in h.forwarded && IsChain(o.cells[c].kind) && o.cells[c].contents != NIL
    requires !(o.cells[c].kind.Lambda? && HasCode(o.codes, o.cells[c].aux))
    ensures h.forwarded[c] in Survivors(o, h).cells
    ensures var copy := Survivors(o, h).cells[h.forwarded[c]];
            copy.aux == Last(Survivors(o, h), copy.contents)
  {
    assert GoodCell(o, c);
    assert Settled(o, h, c);
    SurvivorOf(o, h, c);
    LastRelocated(o, h, o.cells[c].contents);
  }

  // An empty list keeps its aux; a lambda without bytecode gets the end marker.
  lemma EmptyAuxKept(o: Origin, h: Heap, c: Addr)
    requires Collected(o, h) && c in h.forwarded && IsChain(o.cells[c].kind) && o.cells[c].contents == NIL
    ensures h.forwarded[c] in Survivors(o, h).cells
    ensures var copy := Survivors(o, h).cells[h.forwarded[c]];
            && copy.contents == NIL
            && copy.aux == (if o.cells[c].kind == Lambda && !HasCode(o.codes, o.cells[c].aux) then NIL
                            else o.cells[c].aux)
  {
    assert GoodCell(o, c);
    assert Settled(o, h, c);
    SurvivorOf(o, h, c);
  }

  // aux is the last cell of the list, or the end marker, if it does not hold bytecode.
  ghost predicate AuxRight(o: Origin, cell: Cell) {
    IsChain(cell.kind) && !(cell.kind == Lambda && HasCode(o.codes, cell.aux)) ==>
      cell.aux == NIL || (cell.contents != NIL && cell.aux == Last(o, cell.contents))
  }

  ghost predicate AllAuxRight(o: Origin) {
    forall c :: c in o.cells ==> AuxRight(o, o.cells[c])
  }

  lemma {:induction false} LastTenured(o: Origin, p: Addr)
    requires WellFormed(o) && p in o.cells && !Young(o, p)
    ensures !Young(o, Last(o, p))
    decreases Rank(o, p) + 1
  {
    assert GoodCell(o, p);
    if o.cells[p].next in o.cells { LastTenured(o, o.cells[p].next); }
  }

  lemma AuxStaysRight(o: Origin, h: Heap, c: Addr)
    requires Collected(o, h) && c in o.cells && Live(o, h, c) && AuxRight(o, o.cells[c])
    ensures Relocated(h, c) in Survivors(o, h).cells
    ensures AuxRight(Survivors(o, h), Survivors(o, h).cells[Relocated(h, c)])
  {
    assert GoodCell(o, c);
    SurvivorOf(o, h, c);
    CellAt(o, h, c);
    if IsChain(o.cells[c].kind) {
      if o.cells[c].contents == NIL {
        if c in h.forwarded { EmptyAuxKept(o, h, c); }
      } else {
        LastRelocated(o, h, o.cells[c].contents);
        if c in h.forwarded {
          if !(o.cells[c].kind == Lambda && HasCode(o.codes, o.cells[c].aux)) { AuxIsLast(o, h, c); }
        } else {
          LastTenured(o, o.cells[c].contents);
        }
      }
    }
  }

  // Where every cached last cell is right or unknown it is so after the collection.
  lemma AuxPreserved(o: Origin, h: Heap)
    requires Collected(o, h) && AllAuxRight(o)
    ensures AllAuxRight(Survivors(o, h))
  {
    var o' := Survivors(o, h);
    forall a | a in o'.cells ensures AuxRight(o', o'.cells[a]) {
      var c := SurvivorFrom(o, h, a);
      AuxStaysRight(o, h, c);
    }
  }
}
