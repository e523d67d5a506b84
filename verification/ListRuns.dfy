// Any run of list operations on two lists that share a heap computes what the same run on
// sequences computes, and never leaves a wrong last cell behind, up to the first operation whose
// test for the first cell misfires.
module ListRuns {
  import opened Chains
  import opened Lists

  datatype Op =
    | PushFirst(word: int) | PushLast(word: int) | PushAt(word: int, at: nat)
    | Pop | PopAt(index: int) | Last | Extend | ExtendSelf | Append | Exchange

  // The first list is the one that changes; an operation without a result answers NIL.
  function Apply(s: (seq<int>, seq<int>), op: Op): ((seq<int>, seq<int>), int) {
    var (a, b) := s;
    match op
    case PushFirst(w) => (([w] + a, b), NIL)
    case PushLast(w) => ((a + [w], b), NIL)
    case PushAt(w, index) => if index <= |a| then ((a[..index] + [w] + a[index..], b), NIL) else (s, NIL)
    case Pop => if a == [] then (s, NIL) else ((a[1..], b), a[0])
    case PopAt(index) =>
      var i := if index < 0 then |a| + index else index;
      if 0 <= i < |a| then ((Removed(a, i), b), a[i]) else (s, NIL)
    case Last => (s, if a == [] then NIL else a[|a| - 1])
    case Extend => ((a + b, b), NIL)
    case ExtendSelf => ((a + a, b), NIL)
    case Append => ((a + b, b), NIL)
    case Exchange => ((b, a), NIL)
  }

  function Replay(s: (seq<int>, seq<int>), ops: seq<Op>, n: nat): ((seq<int>, seq<int>), seq<int>)
    requires n <= |ops|
  {
    if n == 0 then (s, [])
    else
      var (s1, answers) := Replay(s, ops, n - 1);
      var (s2, answer) := Apply(s1, ops[n - 1]);
      (s2, answers + [answer])
  }

  // No word is NIL or could be the address of a cell.
  predicate Plain(low: Addr, ws: seq<int>) {
    forall i :: 0 <= i < |ws| ==> ws[i] != NIL && ws[i] < low
  }

  predicate PlainOp(low: Addr, op: Op) {
    op.PushFirst? || op.PushLast? || op.PushAt? ==> op.word != NIL && op.word < low
  }

  lemma PlainKept(low: Addr, s: (seq<int>, seq<int>), op: Op)
    requires Plain(low, s.0) && Plain(low, s.1) && PlainOp(low, op)
    ensures Plain(low, Apply(s, op).0.0) && Plain(low, Apply(s, op).0.1)
  {
  }

  ghost predicate Disjoint(a: seq<Addr>, b: seq<Addr>) {
    forall i, j :: 0 <= i < |a| && 0 <= j < |b| ==> a[i] != b[j]
  }

  // A list that does not share cells with the one that changed is as it was.
  lemma OtherKept(next: map<Addr, Addr>, next': map<Addr, Addr>, contents: map<Addr, int>, contents': map<Addr, int>,
                  head: Addr, a: seq<Addr>, b: seq<Addr>)
    requires Chain(next, head, b) && next.Keys == contents.Keys && Disjoint(a, b)
    requires GrownBut(next, next', a) && Grown(contents, contents')
    ensures Chain(next', head, b) && Words(contents', b) == Words(contents, b)
  {
    forall i | 0 <= i < |b| ensures b[i] in next' && next'[b[i]] == next[b[i]] {
      KeptAt(next, next', a, b[i]);
    }
    ChainFrame(next, next', head, b);
    SameKeyWords(next, head, contents, contents', b);
  }

  lemma KeptAt(next: map<Addr, Addr>, next': map<Addr, Addr>, a: seq<Addr>, x: Addr)
    requires GrownBut(next, next', a) && x in next && x !in a
    ensures x in next' && next'[x] == next[x]
  {
  }

  lemma FreshDisjoint(next: map<Addr, Addr>, a: seq<Addr>, b: seq<Addr>)
    requires Fresh(next, a) && forall i :: 0 <= i < |b| ==> b[i] in next
    ensures Disjoint(a, b)
  {
  }

  class Machine {
    const cells: Cells
    var a: ListCell
    var b: ListCell
    ghost var cellsA: seq<Addr>
    ghost var cellsB: seq<Addr>

    ghost predicate Valid()
      reads this, cells, a, b
    {
      a != b && cells.Valid(a, cellsA) && cells.Valid(b, cellsB) && Disjoint(cellsA, cellsB)
    }

    ghost function State(): (seq<int>, seq<int>)
      reads this, cells
    {
      (Words(cells.contents, cellsA), Words(cells.contents, cellsB))
    }

    constructor (low: Addr)
      requires low > NIL
      ensures Valid() && State() == ([], []) && fresh(cells) && fresh(a) && fresh(b) && cells.low == low
    {
      cells := new Cells(low);
      a := new ListCell();
      b := new ListCell();
      cellsA, cellsB := [], [];
    }

    // A changed list, as a new chain, beside the one that was left alone.
    lemma Settled(changed: seq<Addr>, kept: seq<Addr>, next: map<Addr, Addr>, contents: map<Addr, int>, head: Addr,
                  was: seq<Addr>, added: seq<Addr>)
      requires a != b && cells.Valid(a, changed) && b.contents == head
          && (b.aux == NIL || (b.aux == LastOf(kept) && kept != []))
      requires Chain(next, head, kept) && next.Keys == contents.Keys && Disjoint(was, kept) && Fresh(next, added)
      requires GrownBut(next, cells.next, was) && Grown(contents, cells.contents)
      requires forall i :: 0 <= i < |changed| ==> changed[i] in was || changed[i] in added
      ensures cells.Valid(b, kept) && Disjoint(changed, kept)
      ensures Words(cells.contents, kept) == Words(contents, kept)
    {
      OtherKept(next, cells.next, contents, cells.contents, head, was, kept);
      FreshDisjoint(next, added, kept);
    }

    // The words of the first and of the second list.
    ghost predicate Now(first: seq<int>, second: seq<int>)
      reads this, cells
    {
      Words(cells.contents, cellsA) == first && Words(cells.contents, cellsB) == second
    }

    method PushFirst(word: int)
      requires Valid()
      modifies this`cellsA, cells, a
      ensures Valid() && a == old(a) && b == old(b)
      ensures Now([word] + old(State()).0, old(State()).1)
    {
      ghost var next, contents, was, head := cells.next, cells.contents, cellsA, a.contents;
      var n := cells.PushFirst(a, word, cellsA);
      cellsA := [n] + was;
      Settled(cellsA, cellsB, next, contents, b.contents, was, [n]);
      SameKeyWords(next, head, contents, cells.contents, was);
      WordsConcat(cells.contents, [n], was);
      WordsOne(cells.contents, n, word);
    }

    method PushLast(word: int)
      requires Valid()
      modifies this`cellsA, cells, a
      ensures Valid() && a == old(a) && b == old(b)
      ensures Now(old(State()).0 + [word], old(State()).1)
    {
      ghost var next, contents, was, head := cells.next, cells.contents, cellsA, a.contents;
      var n := cells.PushLast(a, word, cellsA);
      cellsA := was + [n];
      Settled(cellsA, cellsB, next, contents, b.contents, was, [n]);
      SameKeyWords(next, head, contents, cells.contents, was);
      WordsConcat(cells.contents, was, [n]);
      WordsOne(cells.contents, n, word);
    }

    method PushAt(word: int, index: nat)
      requires Valid() && !Misplaced(cells.contents, cellsA, index)
      modifies this`cellsA, cells, a
      ensures Valid() && a == old(a) && b == old(b)
      ensures var s := old(State());
              Now(if index <= |s.0| then s.0[..index] + [word] + s.0[index..] else s.0, s.1)
    {
      ghost var next, contents, was, head := cells.next, cells.contents, cellsA, a.contents;
      var ok, n := cells.PushAt(a, word, index, cellsA);
      cellsA := if ok then was[..index] + [n] + was[index..] else was;
      Settled(cellsA, cellsB, next, contents, b.contents, was, if ok then [n] else []);
      SameKeyWords(next, head, contents, cells.contents, was);
      if ok { WordsInserted(cells.contents, was, index, n); }
    }

    // The test for the first cell misfires in this operation.
    ghost predicate Misfires(op: Op)
      reads this, cells
    {
      match op
      case PushAt(_, index) => Misplaced(cells.contents, cellsA, index)
      case PopAt(index) => Misread(cells.contents, cellsA, if index < 0 then |cellsA| + index else index)
      case _ => false
    }

    // Does the cell before an index hold what is at the index?
    method HoldsNext(index: nat) returns (holds: bool, cell: Addr)
      requires Valid()
      ensures holds <==> Misplaced(cells.contents, cellsA, index)
      ensures cell == At(cellsA, index)
    {
      holds := false;
      var before;
      before, cell := cells.Walk(index, a.contents, cellsA);
      if index > 0 {
        var inside := cells.Inside(index, a.contents, cellsA);
        holds := inside && cells.contents[before] == cell;
      }
    }

    method CheckTest(op: Op) returns (misfires: bool)
      requires Valid()
      ensures misfires <==> Misfires(op)
    {
      misfires := false;
      var index := 0;
      match op {
        case PushAt(_, i) =>
          var cell;
          misfires, cell := HoldsNext(i);
        case PopAt(i) =>
          index := i;
          if i < 0 {
            index := cells.FromFront(i, a.contents, cellsA);
          }
          if index > 0 {
            var holds, cell := HoldsNext(index);
            misfires := holds && cell != NIL;
          }
        case _ =>
      }
    }

    // Words that are neither NIL nor addresses never make the test misfire.
    lemma PlainWords(op: Op)
      requires Valid() && Plain(cells.low, State().0)
      ensures !Misfires(op)
    {
      forall i | 0 < i <= |cellsA| ensures cells.contents[cellsA[i - 1]] != At(cellsA, i) {
        assert State().0[i - 1] == cells.contents[cellsA[i - 1]];
      }
    }

    // The word of a cell taken out of a list.
    method Answer(cell: Addr) returns (answer: int)
      ensures answer == if cell == NIL then NIL else cells.Word(cell)
    {
      answer := if cell == NIL then NIL else cells.Word(cell);
    }

    method TakeFirst() returns (cell: Addr)
      requires Valid()
      modifies this`cellsA, cells, a
      ensures Valid() && a == old(a) && b == old(b) && cells.contents == old(cells.contents)
      ensures cell == At(old(cellsA), 0) && cellsB == old(cellsB)
      ensures cellsA == if old(cellsA) == [] then [] else old(cellsA)[1..]
    {
      ghost var next, contents, was := cells.next, cells.contents, cellsA;
      cell := cells.PopFirst(a, cellsA);
      cellsA := if was == [] then [] else was[1..];
      RestOf(contents, was, cellsA);
      Settled(cellsA, cellsB, next, contents, b.contents, was, []);
    }

    method Pop() returns (answer: int)
      requires Valid()
      modifies this`cellsA, cells, a
      ensures Valid() && a == old(a) && b == old(b)
      ensures var s := old(State());
              if s.0 == [] then Now(s.0, s.1) && answer == NIL else Now(s.0[1..], s.1) && answer == s.0[0]
    {
      RestOf(cells.contents, cellsA, if cellsA == [] then [] else cellsA[1..]);
      var cell := TakeFirst();
      answer := Answer(cell);
    }

    method TakeAt(index: int) returns (cell: Addr)
      requires Valid() && !Misfires(Op.PopAt(index))
      modifies this`cellsA, cells, a
      ensures Valid() && a == old(a) && b == old(b) && cells.contents == old(cells.contents) && cellsB == old(cellsB)
      ensures var was := old(cellsA); var i := if index < 0 then |was| + index else index;
              if 0 <= i < |was| then cell == was[i] && cellsA == Removed(was, i) else cell == NIL && cellsA == was
    {
      ghost var next, contents, was := cells.next, cells.contents, cellsA;
      ghost var rest;
      cell, rest := cells.PopAt(a, index, cellsA);
      cellsA := rest;
      RestFacts(contents, was, rest, if index < 0 then |was| + index else index);
      Settled(cellsA, cellsB, next, contents, b.contents, was, []);
    }

    method PopAt(index: int) returns (answer: int)
      requires Valid() && !Misfires(Op.PopAt(index))
      modifies this`cellsA, cells, a
      ensures Valid() && a == old(a) && b == old(b)
      ensures var s := old(State()); var i := if index < 0 then |s.0| + index else index;
              if 0 <= i < |s.0| then Now(Removed(s.0, i), s.1) && answer == s.0[i] else Now(s.0, s.1) && answer == NIL
    {
      ghost var i := if index < 0 then |cellsA| + index else index;
      if 0 <= i < |cellsA| { WordsSlices(cells.contents, cellsA, i); }
      var cell := TakeAt(index);
      answer := Answer(cell);
    }

    method Last() returns (answer: int)
      requires Valid()
      modifies a
      ensures Valid() && a == old(a) && b == old(b) && Now(old(State()).0, old(State()).1)
      ensures var s := old(State()).0; answer == if s == [] then NIL else s[|s| - 1]
    {
      answer := NIL;
      if a.contents != NIL {
        var last := cells.Last(a, cellsA);
        answer := cells.contents[last];
      }
    }

    method Extend(self: bool)
      requires Valid()
      modifies this`cellsA, cells, a
      ensures Valid() && a == old(a) && b == old(b)
      ensures Now(old(State()).0 + (if self then old(State()).0 else old(State()).1), old(State()).1)
    {
      ghost var next, contents, was, head := cells.next, cells.contents, cellsA, a.contents;
      var from := if self then a.contents else b.contents;
      ghost var copy := cells.Extend(a, from, cellsA, if self then cellsA else cellsB);
      cellsA := was + copy;
      Settled(cellsA, cellsB, next, contents, b.contents, was, copy);
      SameKeyWords(next, head, contents, cells.contents, was);
      WordsConcat(cells.contents, was, copy);
    }

    method Append()
      requires Valid()
      modifies this`cellsA, this`a, cells
      ensures Valid() && fresh(a) && b == old(b)
      ensures Now(old(State()).0 + old(State()).1, old(State()).1)
    {
      ghost var next, contents := cells.next, cells.contents;
      var list, copy1, copy2 := cells.Append(a.contents, b.contents, cellsA, cellsB);
      a := list;
      cellsA := copy1 + copy2;
      assert Fresh(next, copy1 + copy2);
      Settled(cellsA, cellsB, next, contents, b.contents, [], cellsA);
      WordsConcat(cells.contents, copy1, copy2);
    }

    method Exchange()
      requires Valid()
      modifies this
      ensures Valid() && a == old(b) && b == old(a) && Now(old(State()).1, old(State()).0)
    {
      a, b := b, a;
      cellsA, cellsB := cellsB, cellsA;
    }

    method Store(op: Op)
      requires Valid() && !Misfires(op) && (op.PushFirst? || op.PushLast? || op.PushAt?)
      modifies this, cells, a
      ensures Valid() && a == old(a) && b == old(b)
      ensures Now(Apply(old(State()), op).0.0, Apply(old(State()), op).0.1)
    {
      match op
      case PushFirst(word) => PushFirst(word);
      case PushLast(word) => PushLast(word);
      case PushAt(word, index) => PushAt(word, index);
    }

    method Join(op: Op)
      requires Valid() && (op.Extend? || op.ExtendSelf? || op.Append?)
      modifies this, cells, a
      ensures Valid() && (a == old(a) || fresh(a)) && b == old(b)
      ensures Now(Apply(old(State()), op).0.0, Apply(old(State()), op).0.1)
    {
      match op
      case Extend => Extend(false);
      case ExtendSelf => Extend(true);
      case Append => Append();
    }

    method Execute(op: Op) returns (answer: int)
      requires Valid() && !Misfires(op)
      modifies this, cells, a
      ensures Valid() && (a == old(a) || a == old(b) || fresh(a)) && (b == old(b) || b == old(a))
      ensures Now(Apply(old(State()), op).0.0, Apply(old(State()), op).0.1) && answer == Apply(old(State()), op).1
    {
      answer := NIL;
      match op
      case PushFirst(_) | PushLast(_) | PushAt(_, _) => Store(op);
      case Pop => answer := Pop();
      case PopAt(index) => answer := PopAt(index);
      case Last => answer := Last();
      case Extend | ExtendSelf | Append => Join(op);
      case Exchange => Exchange();
    }

    // Execute an operation unless its test misfires.
    method Attempt(op: Op) returns (misfires: bool, answer: int)
      requires Valid()
      modifies this, cells, a
      ensures Valid() && (a == old(a) || a == old(b) || fresh(a)) && (b == old(b) || b == old(a))
      ensures misfires ==> Misfires(op) && State() == old(State())
      ensures !misfires ==> (State(), answer) == Apply(old(State()), op)
    {
      answer := NIL;
      misfires := CheckTest(op);
      if !misfires {
        answer := Execute(op);
      }
    }

    // A run goes on to its end, or to the first operation whose test misfires.
    method Run(ops: seq<Op>) returns (answers: seq<int>)
      requires Valid()
      modifies this, cells, a, b
      ensures Valid() && |answers| <= |ops| && (State(), answers) == Replay(old(State()), ops, |answers|)
      ensures |answers| < |ops| ==> Misfires(ops[|answers|])
    {
      answers := [];
      ghost var start, now := State(), State();
      var misfires, k := false, 0;
      while k < |ops| && !misfires
        invariant Valid() && (a == old(a) || a == old(b) || fresh(a)) && (b == old(a) || b == old(b) || fresh(b))
        invariant 0 <= k <= |ops| && now == State() && (now, answers) == Replay(start, ops, k) && |answers| == k
        invariant misfires ==> k < |ops| && Misfires(ops[k])
        decreases |ops| - k, !misfires
      {
        var answer;
        misfires, answer := Attempt(ops[k]);
        if !misfires {
          now := State();
          answers := answers + [answer];
          k := k + 1;
        }
      }
    }

    // As long as no word is NIL or an address, runs go on to their end.
    method RunPlain(ops: seq<Op>) returns (answers: seq<int>)
      requires Valid() && Plain(cells.low, State().0) && Plain(cells.low, State().1)
      requires forall i :: 0 <= i < |ops| ==> PlainOp(cells.low, ops[i])
      modifies this, cells, a, b
      ensures Valid() && (State(), answers) == Replay(old(State()), ops, |ops|)
    {
      answers := Run(ops);
      ReplayPlain(cells.low, old(State()), ops, |answers|);
      if |answers| < |ops| { PlainWords(ops[|answers|]); }
    }
  }

  lemma {:induction false} ReplayPlain(low: Addr, s: (seq<int>, seq<int>), ops: seq<Op>, n: nat)
    requires n <= |ops| && Plain(low, s.0) && Plain(low, s.1) && forall i :: 0 <= i < |ops| ==> PlainOp(low, ops[i])
    ensures Plain(low, Replay(s, ops, n).0.0) && Plain(low, Replay(s, ops, n).0.1)
  {
    if n > 0 {
      ReplayPlain(low, s, ops, n - 1);
      PlainKept(low, Replay(s, ops, n - 1).0, ops[n - 1]);
    }
  }

  lemma WordsOne(contents: map<Addr, int>, n: Addr, word: int)
    requires n in contents && contents[n] == word
    ensures Words(contents, [n]) == [word]
  {
  }

  lemma WordsInserted(contents: map<Addr, int>, addrs: seq<Addr>, i: nat, n: Addr)
    requires i <= |addrs| && n in contents
    ensures Words(contents, addrs[..i] + [n] + addrs[i..])
        == Words(contents, addrs)[..i] + [contents[n]] + Words(contents, addrs)[i..]
  {
  }

  lemma WordsSlices(contents: map<Addr, int>, addrs: seq<Addr>, i: nat)
    requires i < |addrs|
    ensures Words(contents, Removed(addrs, i)) == Removed(Words(contents, addrs), i)
  {
  }

  lemma RestOf(contents: map<Addr, int>, was: seq<Addr>, rest: seq<Addr>)
    requires rest == if was == [] then [] else was[1..]
    ensures forall k :: 0 <= k < |rest| ==> rest[k] in was
    ensures was != [] ==> Words(contents, rest) == Words(contents, was)[1..]
  {
  }

  lemma RestFacts(contents: map<Addr, int>, was: seq<Addr>, rest: seq<Addr>, i: int)
    requires if 0 <= i < |was| then rest == Removed(was, i) else rest == was
    ensures forall k :: 0 <= k < |rest| ==> rest[k] in was
    ensures if 0 <= i < |was| then Words(contents, rest) == Removed(Words(contents, was), i) else rest == was
  {
    if 0 <= i < |was| {
      WordsSlices(contents, was, i);
      RestAt(was, i);
      RestInside(was, i, rest);
    }
  }

  lemma RestInside(addrs: seq<Addr>, i: nat, rest: seq<Addr>)
    requires Without(addrs, i, rest)
    ensures forall k :: 0 <= k < |rest| ==> rest[k] in addrs
  {
  }
}
