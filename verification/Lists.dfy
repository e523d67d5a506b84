// Lists as chains of cells with a cached last cell: push, pop, extend and append.
module Lists {
  import opened Chains

  lemma OnlyOnce(next: map<Addr, Addr>, head: Addr, addrs: seq<Addr>, i: nat)
    requires Chain(next, head, addrs) && i < |addrs|
    ensures forall k :: 0 <= k < |addrs| && k != i ==> addrs[k] != addrs[i]
  {
    forall k | 0 <= k < |addrs| && k != i ensures addrs[k] != addrs[i] {
      if k < i { NotTwice(next, head, addrs, k, i); } else { NotTwice(next, head, addrs, i, k); }
    }
  }

  // The word each cell holds: a number, or the first cell of a nested list. nil and the empty
  // list hold NIL.
  ghost function Words(contents: map<Addr, int>, addrs: seq<Addr>): (ws: seq<int>)
    ensures |ws| == |addrs|
    ensures forall i {:trigger ws[i]} :: 0 <= i < |addrs| ==>
      ws[i] == if addrs[i] in contents then contents[addrs[i]] else NIL
  {
    if addrs == [] then []
    else
      var a := addrs[|addrs| - 1];
      Words(contents, addrs[..|addrs| - 1]) + [if a in contents then contents[a] else NIL]
  }

  // The list cell itself: its first cell, and its last one or NIL when that is not known.
  class ListCell {
    var contents: Addr
    var aux: Addr

    constructor ()
      ensures contents == NIL && aux == NIL
    {
      contents, aux := NIL, NIL;
    }
  }

  // A chain after it was changed from one cell on.
  lemma ChainConcat(next: map<Addr, Addr>, next': map<Addr, Addr>, head: Addr, a: seq<Addr>, b: seq<Addr>)
    requires Chain(next, head, a) && a != []
    requires forall i :: 0 <= i < |a| - 1 ==> a[i] in next' && next'[a[i]] == next[a[i]]
    requires a[|a| - 1] in next' && next'[a[|a| - 1]] == At(b, 0)
    requires Chain(next', At(b, 0), b)
    ensures Chain(next', head, a + b)
  {
    var s := a + b;
    forall i | 0 <= i < |s| ensures s[i] != NIL && s[i] in next' && next'[s[i]] == At(s, i + 1) {
      if i >= |a| { assert s[i] == b[i - |a|]; }
    }
  }

  lemma ChainFrame(next: map<Addr, Addr>, next': map<Addr, Addr>, head: Addr, a: seq<Addr>)
    requires Chain(next, head, a) && forall i :: 0 <= i < |a| ==> a[i] in next' && next'[a[i]] == next[a[i]]
    ensures Chain(next', head, a)
  {
  }

  lemma ChainCons(next: map<Addr, Addr>, next': map<Addr, Addr>, head: Addr, addrs: seq<Addr>, n: Addr)
    requires Chain(next, head, addrs) && n !in addrs && n != NIL && n in next' && next'[n] == head
    requires forall i :: 0 <= i < |addrs| ==> addrs[i] in next' && next'[addrs[i]] == next[addrs[i]]
    ensures Chain(next', n, [n] + addrs)
  {
    var s := [n] + addrs;
    assert forall i :: 0 < i < |s| ==> s[i] == addrs[i - 1];
  }

  function Removed<T>(s: seq<T>, i: nat): seq<T>
    requires i < |s|
  {
    s[..i] + s[i + 1..]
  }

  // Where element k of a list without element i comes from.
  function Skip(i: nat, k: nat): nat { if k < i then k else k + 1 }

  // rest is addrs without element i.
  ghost predicate Without(addrs: seq<Addr>, i: nat, rest: seq<Addr>) {
    i < |addrs| && |rest| == |addrs| - 1 && forall k :: 0 <= k < |rest| ==> rest[k] == addrs[Skip(i, k)]
  }

  lemma RestAt(addrs: seq<Addr>, i: nat)
    requires i < |addrs|
    ensures Without(addrs, i, Removed(addrs, i))
  {
  }

  lemma ChainRemoved(next: map<Addr, Addr>, next': map<Addr, Addr>, head: Addr, head': Addr, addrs: seq<Addr>, i: nat,
                     rest: seq<Addr>)
    requires Chain(next, head, addrs) && Without(addrs, i, rest)
    requires head' == if i == 0 then At(addrs, 1) else head
    requires forall k :: 0 <= k < |addrs| && k != i ==>
      addrs[k] in next' && next'[addrs[k]] == if k + 1 == i then At(addrs, i + 1) else next[addrs[k]]
    ensures Chain(next', head', rest)
  {
    forall k | 0 <= k < |rest| ensures rest[k] != NIL && rest[k] in next' && next'[rest[k]] == At(rest, k + 1) {
      assert rest[k] == addrs[Skip(i, k)];
    }
  }

  // Taking cell i out of a chain.
  lemma Detached(next: map<Addr, Addr>, next': map<Addr, Addr>, head: Addr, addrs: seq<Addr>, i: nat, rest: seq<Addr>,
                 after: Addr)
    requires Chain(next, head, addrs) && Without(addrs, i, rest) && after == next[addrs[i]]
    requires next' == (if i > 0 then next[addrs[i - 1] := after] else next)[addrs[i] := NIL]
    ensures Chain(next', if i == 0 then after else head, rest) && next'.Keys == next.Keys
    ensures GrownBut(next, next', addrs) && forall k :: 0 <= k < |rest| ==> rest[k] in next'
  {
    OnlyOnce(next, head, addrs, i);
    if i > 0 { OnlyOnce(next, head, addrs, i - 1); }
    assert forall k :: 0 <= k < |addrs| && k != i ==>
      addrs[k] in next' && next'[addrs[k]] == if k + 1 == i then after else next[addrs[k]];
    ChainRemoved(next, next', head, if i == 0 then after else head, addrs, i, rest);
  }

  function LastOf(addrs: seq<Addr>): Addr {
    if addrs == [] then NIL else addrs[|addrs| - 1]
  }

  lemma SameKeyWords(next: map<Addr, Addr>, head: Addr, contents: map<Addr, int>, contents': map<Addr, int>,
                     addrs: seq<Addr>)
    requires Chain(next, head, addrs) && next.Keys == contents.Keys && Grown(contents, contents')
    ensures Words(contents', addrs) == Words(contents, addrs)
  {
    SameWords(contents, contents', addrs);
  }

  // Words only depend on the cells of the chain.
  lemma SameWords(contents: map<Addr, int>, contents': map<Addr, int>, addrs: seq<Addr>)
    requires forall i :: 0 <= i < |addrs| ==>
      addrs[i] in contents && addrs[i] in contents' && contents'[addrs[i]] == contents[addrs[i]]
    ensures Words(contents', addrs) == Words(contents, addrs)
  {
  }

  // All cells of the chain are new.
  ghost predicate Fresh(next: map<Addr, Addr>, addrs: seq<Addr>) {
    forall i :: 0 <= i < |addrs| ==> addrs[i] !in next
  }

  // Nothing that was there has changed.
  ghost predicate Grown<T>(m: map<Addr, T>, m': map<Addr, T>) {
    forall a :: a in m ==> a in m' && m'[a] == m[a]
  }

  ghost predicate GrownBut<T>(m: map<Addr, T>, m': map<Addr, T>, addrs: seq<Addr>) {
    forall a :: a in m && a !in addrs ==> a in m' && m'[a] == m[a]
  }

  // The cells of copy are new and hold the words of the first cells of addrs.
  ghost predicate Copied(next0: map<Addr, Addr>, next: map<Addr, Addr>, contents0: map<Addr, int>,
                         contents: map<Addr, int>, addrs: seq<Addr>, copy: seq<Addr>) {
    && Fresh(next0, copy) && Grown(next0, next) && Grown(contents0, contents) && |copy| <= |addrs|
    && forall i :: 0 <= i < |copy| ==>
         addrs[i] in contents0 && copy[i] in contents && contents[copy[i]] == contents0[addrs[i]]
  }

  lemma CopiedWords(next0: map<Addr, Addr>, next: map<Addr, Addr>, contents0: map<Addr, int>, contents: map<Addr, int>,
                    addrs: seq<Addr>, copy: seq<Addr>)
    requires Copied(next0, next, contents0, contents, addrs, copy) && |copy| == |addrs|
    ensures Words(contents, copy) == Words(contents0, addrs)
  {
  }

  lemma NotYet<T>(m: map<Addr, T>, m': map<Addr, T>, a: Addr)
    requires Grown(m, m') && a !in m'
    ensures a !in m
  {
  }

  lemma AppendFacts(next0: map<Addr, Addr>, next1: map<Addr, Addr>, next2: map<Addr, Addr>,
                    contents0: map<Addr, int>, contents1: map<Addr, int>, contents2: map<Addr, int>,
                    head: Addr, first: Addr, chain: seq<Addr>, copy1: seq<Addr>, copy: seq<Addr>)
    requires Chain(next0, head, chain) && next0.Keys == contents0.Keys
    requires Chain(next1, first, copy1) && next1.Keys == contents1.Keys
    requires Grown(next0, next1) && Grown(contents0, contents1) && Fresh(next0, copy1)
    requires GrownBut(next1, next2, copy1) && Grown(contents1, contents2) && Fresh(next1, copy)
    ensures Grown(next0, next2) && Grown(contents0, contents2) && Fresh(next0, copy)
    ensures Words(contents1, chain) == Words(contents0, chain) && Words(contents2, copy1) == Words(contents1, copy1)
  {
    SameKeyWords(next0, head, contents0, contents1, chain);
    SameKeyWords(next1, first, contents1, contents2, copy1);
    forall i | 0 <= i < |copy| ensures copy[i] !in next0 {
      NotYet(next0, next1, copy[i]);
    }
  }

  // The test for the first cell of a list compares words. Here the cell before the index holds
  // by chance the address of the cell at it, or at the end of the list NIL: push takes it for
  // the list itself.
  ghost predicate Misplaced(contents: map<Addr, int>, addrs: seq<Addr>, index: nat) {
    && 0 < index <= |addrs| && addrs[index - 1] in contents
    && contents[addrs[index - 1]] == At(addrs, index)
  }

  // The same mistake of pop.
  ghost predicate Misread(contents: map<Addr, int>, addrs: seq<Addr>, i: int) {
    && 0 < i < |addrs| && addrs[i - 1] in contents
    && contents[addrs[i - 1]] == addrs[i]
  }

  // Push behind a nil, which holds NIL.
  lemma MisplacedWitness()
    ensures Chain(map[2 := NIL], 2, [2]) && Misplaced(map[2 := NIL], [2], 1)
  {
  }

  // Pop of the second element behind the number 3 when the cell at address 3 is popped.
  lemma MisreadWitness()
    ensures Chain(map[2 := 3, 3 := NIL], 2, [2, 3]) && Misread(map[2 := 3, 3 := 7], [2, 3], 1)
  {
  }

  // A misplaced push never leaves the list with the word at the index.
  lemma MisplacedIsWrong(contents: map<Addr, int>, addrs: seq<Addr>, index: nat, n: Addr, word: int)
    requires Misplaced(contents, addrs, index)
    ensures var words := Words(contents, addrs);
            Words(contents[n := word][addrs[index - 1] := n], addrs) != words[..index] + [word] + words[index..]
  {
    assert |Words(contents[n := word][addrs[index - 1] := n], addrs)| == |addrs|;
  }

  // What a misread pop leaves is never the list without the element.
  lemma MisreadIsWrong(next: map<Addr, Addr>, head: Addr, contents: map<Addr, int>, addrs: seq<Addr>, i: nat)
    requires Chain(next, head, addrs) && Misread(contents, addrs, i)
    ensures Words(contents[addrs[i - 1] := At(addrs, i + 1)], addrs[..i + 1]) != Removed(Words(contents, addrs), i)
  {
    var contents' := contents[addrs[i - 1] := At(addrs, i + 1)];
    if |addrs| == i + 2 {
      NotTwice(next, head, addrs, i, i + 1);
      assert Words(contents', addrs[..i + 1])[i - 1] == addrs[i + 1];
      assert Removed(Words(contents, addrs), i)[i - 1] == addrs[i];
    } else {
      assert |Words(contents', addrs[..i + 1])| != |Removed(Words(contents, addrs), i)|;
    }
  }

  // A chain may end earlier.
  lemma ChainPrefix(next: map<Addr, Addr>, next': map<Addr, Addr>, head: Addr, addrs: seq<Addr>, i: nat)
    requires Chain(next, head, addrs) && i < |addrs|
    requires forall k :: 0 <= k < i ==> addrs[k] in next' && next'[addrs[k]] == next[addrs[k]]
    requires addrs[i] in next' && next'[addrs[i]] == NIL
    ensures Chain(next', head, addrs[..i + 1])
  {
    var s := addrs[..i + 1];
    forall k | 0 <= k < |s| ensures s[k] != NIL && s[k] in next' && next'[s[k]] == At(s, k + 1) {
      assert s[k] == addrs[k];
      if k < i { assert s[k + 1] == addrs[k + 1]; }
    }
  }

  // Element k of addrs with n at index i.
  function Inserted(addrs: seq<Addr>, i: nat, n: Addr, k: nat): Addr
    requires k <= |addrs| && i <= |addrs|
  {
    if k < i then addrs[k] else if k == i then n else addrs[k - 1]
  }

  ghost predicate With(addrs: seq<Addr>, i: nat, n: Addr, s: seq<Addr>) {
    i <= |addrs| && |s| == |addrs| + 1 && forall k :: 0 <= k < |s| ==> s[k] == Inserted(addrs, i, n, k)
  }

  lemma WithAt(addrs: seq<Addr>, i: nat, n: Addr)
    requires i <= |addrs|
    ensures With(addrs, i, n, addrs[..i] + [n] + addrs[i..])
  {
  }

  lemma ChainInserted(next: map<Addr, Addr>, next': map<Addr, Addr>, head: Addr, addrs: seq<Addr>, i: nat, n: Addr,
                      s: seq<Addr>)
    requires Chain(next, head, addrs) && 0 < i && With(addrs, i, n, s) && n !in addrs && n != NIL
    requires n in next' && next'[n] == At(addrs, i) && addrs[i - 1] in next' && next'[addrs[i - 1]] == n
    requires forall k :: 0 <= k < |addrs| && k != i - 1 ==> addrs[k] in next' && next'[addrs[k]] == next[addrs[k]]
    ensures Chain(next', head, s)
  {
    assert s[0] == Inserted(addrs, i, n, 0);
    forall k | 0 <= k < |s| ensures s[k] != NIL && s[k] in next' && next'[s[k]] == At(s, k + 1) {
      assert s[k] == Inserted(addrs, i, n, k);
      if k + 1 < |s| { assert s[k + 1] == Inserted(addrs, i, n, k + 1); }
    }
  }

  class Cells {
    var next: map<Addr, Addr>
    var contents: map<Addr, int>
    var nextFree: Addr
    var lastCellCopied: Addr
    const low: Addr

    // Cells get addresses from low on.
    constructor (low: Addr)
      requires low > NIL
      ensures Allocated([]) && next == map[] && this.low == low
    {
      this.low := low;
      next, contents, nextFree, lastCellCopied := map[], map[], low, NIL;
    }

    // The list is a chain of cells, and aux is NIL or its true last cell.
    ghost predicate Valid(list: ListCell, addrs: seq<Addr>)
      reads this, list
    {
      && Chain(next, list.contents, addrs)
      && (list.aux == NIL || (addrs != [] && list.aux == addrs[|addrs| - 1]))
      && Allocated(addrs)
    }

    ghost predicate Allocated(addrs: seq<Addr>)
      reads this
    {
      && nextFree >= low > NIL && next.Keys == contents.Keys && (forall a :: a in next ==> low <= a < nextFree)
      && forall i :: 0 <= i < |addrs| ==> addrs[i] in next
    }

    method CopyCell(word: int) returns (n: Addr)
      requires Allocated([])
      modifies this`next, this`contents, this`nextFree
      ensures n == old(nextFree) && nextFree == n + 1 && n > NIL && n !in old(next)
      ensures next == old(next)[n := NIL] && contents == old(contents)[n := word]
      ensures Allocated([])
    {
      n := nextFree;
      nextFree := nextFree + 1;
      next := next[n := NIL];
      contents := contents[n := word];
    }

    // push at index 0.
    method PushFirst(list: ListCell, word: int, ghost addrs: seq<Addr>) returns (n: Addr)
      requires Valid(list, addrs)
      modifies this, list
      ensures Valid(list, [n] + addrs) && n !in old(next) && contents == old(contents)[n := word]
      ensures Grown(old(next), next)
    {
      list.aux := NIL;
      n := CopyCell(word);
      next := next[n := list.contents];
      list.contents := n;
      ChainCons(old(next), next, old(list.contents), addrs, n);
    }

    // The last cell of a chain that is not empty.
    method FindLast(head: Addr, ghost addrs: seq<Addr>) returns (last: Addr)
      requires Chain(next, head, addrs) && addrs != []
      ensures last == addrs[|addrs| - 1]
    {
      last := head;
      ghost var i := 0;
      while next[last] != NIL
        invariant 0 <= i < |addrs| && last == addrs[i]
        decreases |addrs| - i
      {
        last := next[last];
        i := i + 1;
      }
    }

    // push at index -1: the cached last cell saves the walk.
    method PushLast(list: ListCell, word: int, ghost addrs: seq<Addr>) returns (n: Addr)
      requires Valid(list, addrs)
      modifies this, list
      ensures Valid(list, addrs + [n]) && list.aux == n && n !in old(next) && contents == old(contents)[n := word]
      ensures GrownBut(old(next), next, addrs)
    {
      ghost var next0 := next;
      if addrs != [] { OnlyOnce(next, list.contents, addrs, |addrs| - 1); }
      n := CopyCell(word);
      var cell := list.aux;
      list.aux := n;
      if cell != NIL {
        next := next[cell := n];
      } else if list.contents == NIL {
        list.contents := n;
      } else {
        ChainFrame(next0, next, list.contents, addrs);
        cell := FindLast(list.contents, addrs);
        next := next[cell := n];
      }
      if addrs != [] { ChainConcat(next0, next, list.contents, addrs, [n]); }
      assert addrs == [] ==> addrs + [n] == [n];
    }

    // pop without an index; a list without elements gives NIL.
    method PopFirst(list: ListCell, ghost addrs: seq<Addr>) returns (cell: Addr)
      requires Valid(list, addrs)
      modifies this, list
      ensures cell == At(addrs, 0) && Valid(list, if addrs == [] then [] else addrs[1..])
      ensures contents == old(contents)
      ensures GrownBut(old(next), next, addrs)
    {
      cell := list.contents;
      if cell == NIL {
        return;
      }
      OnlyOnce(next, list.contents, addrs, 0);
      ghost var rest := addrs[1..];
      assert forall i :: 0 <= i < |rest| ==> rest[i] == addrs[i + 1];
      list.contents := next[cell];
      if next[cell] == NIL {
        list.aux := NIL;
      }
      next := next[cell := NIL];
    }

    // The index counted from the front, or a negative number when it is out of range.
    method FromFront(index: int, head: Addr, ghost addrs: seq<Addr>) returns (i: int)
      requires Chain(next, head, addrs) && index < 0
      ensures i == |addrs| + index
    {
      var len := 0;
      var list := head;
      while list != NIL
        invariant 0 <= len <= |addrs| && list == At(addrs, len)
        decreases |addrs| - len
      {
        len := len + 1;
        list := next[list];
      }
      i := len + index;
    }

    // The cell at an index and the one before it; NIL past the end.
    method Walk(index: nat, head: Addr, ghost addrs: seq<Addr>) returns (before: Addr, cell: Addr)
      requires Chain(next, head, addrs)
      ensures cell == At(addrs, index)
      ensures 0 < index <= |addrs| ==> before == addrs[index - 1]
    {
      before, cell := NIL, head;
      var left := index;
      while left > 0
        invariant 0 <= left <= index && cell == At(addrs, index - left)
        invariant 0 < index - left <= |addrs| ==> before == addrs[index - left - 1]
      {
        before := cell;
        cell := if cell == NIL then NIL else next[cell];
        left := left - 1;
      }
    }

    // What pop makes of a list whose test it misreads: the list ends with the popped cell, the
    // cell before it is overwritten, and the cached last cell may be one that is no longer there.
    ghost predicate Spoiled(list: ListCell, aux: Addr, head: Addr, was: map<Addr, int>, addrs: seq<Addr>, i: nat)
      requires 0 < i < |addrs|
      reads this, list
    {
      && Chain(next, list.contents, addrs[..i + 1]) && list.contents == head
      && contents == was[addrs[i - 1] := At(addrs, i + 1)]
      && list.aux == if i + 1 == |addrs| then NIL else aux
    }

    // pop at an index from either end; out of range is an error and changes nothing.
    method PopAt(list: ListCell, index: int, ghost addrs: seq<Addr>) returns (cell: Addr, ghost rest: seq<Addr>)
      requires Valid(list, addrs)
      modifies this, list
      ensures var i := if index < 0 then |addrs| + index else index;
        if !(0 <= i < |addrs|) then
          && cell == NIL && rest == addrs && Valid(list, rest) && list.aux == old(list.aux)
          && list.contents == old(list.contents) && next == old(next) && contents == old(contents)
        else if Misread(old(contents), addrs, i) then
          cell == addrs[i] && Spoiled(list, old(list.aux), old(list.contents), old(contents), addrs, i)
        else
          cell == addrs[i] && rest == Removed(addrs, i) && Valid(list, rest) && contents == old(contents)
      ensures GrownBut(old(next), next, addrs)
    {
      rest := addrs;
      var i := index;
      if index < 0 {
        i := FromFront(index, list.contents, addrs);
        if i < 0 {
          return NIL, rest;
        }
      }
      var before;
      before, cell := Walk(i, list.contents, addrs);
      if cell == NIL {
        return;
      }
      rest := Removed(addrs, i);
      RestAt(addrs, i);
      Unlink(list, i, before, cell, addrs, rest);
    }

    // The cell before is the list itself for the first cell, and the test compares words.
    method Unlink(list: ListCell, i: nat, before: Addr, cell: Addr, ghost addrs: seq<Addr>, ghost rest: seq<Addr>)
      requires Valid(list, addrs) && i < |addrs| && cell == addrs[i] && (i > 0 ==> before == addrs[i - 1])
      requires Without(addrs, i, rest)
      modifies this`next, this`contents, list
      ensures !Misread(old(contents), addrs, i) ==> Valid(list, rest) && contents == old(contents)
      ensures Misread(old(contents), addrs, i) ==>
        Spoiled(list, old(list.aux), old(list.contents), old(contents), addrs, i)
      ensures GrownBut(old(next), next, addrs)
    {
      var first := cell == if i == 0 then list.contents else contents[before];
      if first && i > 0 {
        Overwrite(list, i, before, cell, addrs);
      } else {
        Detach(list, i, before, cell, addrs, rest);
      }
    }

    // The branch for the first cell, taken with a cell before.
    method Overwrite(list: ListCell, i: nat, before: Addr, cell: Addr, ghost addrs: seq<Addr>)
      requires Valid(list, addrs) && 0 < i < |addrs| && cell == addrs[i] && before == addrs[i - 1]
      modifies this`next, this`contents, list`aux
      ensures Spoiled(list, old(list.aux), old(list.contents), old(contents), addrs, i)
      ensures GrownBut(old(next), next, addrs)
    {
      OnlyOnce(next, list.contents, addrs, i);
      var after := next[cell];
      if after == NIL {
        list.aux := NIL;
      }
      contents := contents[before := after];
      next := next[cell := NIL];
      ChainPrefix(old(next), next, list.contents, addrs, i);
    }

    method Detach(list: ListCell, i: nat, before: Addr, cell: Addr, ghost addrs: seq<Addr>, ghost rest: seq<Addr>)
      requires Valid(list, addrs) && i < |addrs| && cell == addrs[i] && (i > 0 ==> before == addrs[i - 1])
      requires Without(addrs, i, rest)
      modifies this`next, list
      ensures Valid(list, rest) && contents == old(contents) && GrownBut(old(next), next, addrs)
    {
      var after := next[cell];
      if after == NIL {
        list.aux := if i == 0 then NIL else before;
      }
      if i == 0 {
        list.contents := after;
      } else {
        next := next[before := after];
      }
      next := next[cell := NIL];
      Detached(old(next), next, old(list.contents), addrs, i, rest, after);
    }

    // A copy of one more cell, linked behind the copies made so far.
    method CopyBehind(newCell: Addr, word: int, first: Addr, ghost copy: seq<Addr>) returns (c: Addr)
      requires Allocated(copy) && Chain(next, first, copy) && copy != [] && newCell == copy[|copy| - 1]
      modifies this`next, this`contents, this`nextFree
      ensures Allocated(copy + [c]) && Chain(next, first, copy + [c]) && c !in old(next)
      ensures GrownBut(old(next), next, copy) && contents == old(contents)[c := word]
      ensures old(next.Keys) <= next.Keys
    {
      OnlyOnce(next, first, copy, |copy| - 1);
      c := CopyCell(word);
      next := next[newCell := c];
      ChainConcat(old(next), next, first, copy, [c]);
    }

    method CopyMore(newCell: Addr, cell: Addr, first: Addr, ghost head: Addr, ghost next0: map<Addr, Addr>,
                    ghost contents0: map<Addr, int>, ghost addrs: seq<Addr>, ghost copy: seq<Addr>)
      returns (c: Addr, cell': Addr)
      requires Chain(next0, head, addrs) && next0.Keys == contents0.Keys
      requires 1 <= |copy| < |addrs| && cell == addrs[|copy|] && newCell == copy[|copy| - 1]
      requires Allocated(copy) && Chain(next, first, copy) && Copied(next0, next, contents0, contents, addrs, copy)
      modifies this`next, this`contents, this`nextFree
      ensures cell' == At(addrs, |copy| + 1) && Allocated(copy + [c]) && Chain(next, first, copy + [c])
      ensures Copied(next0, next, contents0, contents, addrs, copy + [c])
    {
      assert next0[addrs[|copy|]] == At(addrs, |copy| + 1);
      c := CopyBehind(newCell, contents[cell], first, copy);
      cell' := next[cell];
    }

    // Copies of the cells of a chain; lastCellCopied is the last one.
    method CopyList(head: Addr, ghost addrs: seq<Addr>) returns (first: Addr, ghost copy: seq<Addr>)
      requires Allocated(addrs) && Chain(next, head, addrs)
      modifies this
      ensures Allocated(copy) && Chain(next, first, copy) && Fresh(old(next), copy)
      ensures |copy| == |addrs| && Words(contents, copy) == Words(old(contents), addrs)
      ensures lastCellCopied == if addrs == [] then NIL else copy[|copy| - 1]
      ensures Grown(old(next), next) && Grown(old(contents), contents)
    {
      copy := [];
      if head == NIL {
        lastCellCopied := NIL;
        return NIL, copy;
      }
      ghost var next0, contents0 := next, contents;
      first := CopyCell(contents[head]);
      copy := [first];
      var newCell, cell := first, next[head];
      while cell != NIL
        invariant 1 <= |copy| <= |addrs| && cell == At(addrs, |copy|) && newCell == copy[|copy| - 1]
        invariant Allocated(copy) && Chain(next, first, copy)
        invariant Copied(next0, next, contents0, contents, addrs, copy)
        decreases |addrs| - |copy|
      {
        newCell, cell := CopyMore(newCell, cell, first, head, next0, contents0, addrs, copy);
        copy := copy + [newCell];
      }
      lastCellCopied := newCell;
      CopiedWords(next0, next, contents0, contents, addrs, copy);
    }

    // ---------- extend and append ----------

    // Link the chain first behind the last cell of a list.
    method Link(list: ListCell, tail: Addr, first: Addr, ghost addrs: seq<Addr>, ghost copy: seq<Addr>)
      requires Chain(next, list.contents, addrs) && Chain(next, first, copy)
      requires forall i :: 0 <= i < |copy| ==> copy[i] !in addrs
      requires tail == LastOf(addrs) && first != NIL
      modifies this`next, list`contents
      ensures Chain(next, list.contents, addrs + copy)
      ensures next.Keys == old(next).Keys && GrownBut(old(next), next, addrs)
    {
      if list.contents == NIL {
        list.contents := first;
        assert addrs + copy == copy;
      } else {
        OnlyOnce(next, list.contents, addrs, |addrs| - 1);
        next := next[tail := first];
        ChainFrame(old(next), next, first, copy);
        ChainConcat(old(next), next, list.contents, addrs, copy);
      }
    }

    // Put copies of the cells of a chain behind the last cell of a list.
    method LinkCopy(list: ListCell, tail0: Addr, head: Addr, ghost addrs: seq<Addr>, ghost chain: seq<Addr>)
      returns (tail: Addr, ghost copy: seq<Addr>)
      requires Chain(next, list.contents, addrs) && Allocated(addrs) && Allocated(chain) && Chain(next, head, chain)
      requires tail0 == LastOf(addrs)
      modifies this, list`contents
      ensures Chain(next, list.contents, addrs + copy) && Allocated(addrs + copy) && Fresh(old(next), copy)
      ensures Words(contents, copy) == Words(old(contents), chain) && |copy| == |chain|
      ensures tail == LastOf(addrs + copy) && lastCellCopied == LastOf(copy)
      ensures GrownBut(old(next), next, addrs) && Grown(old(contents), contents)
    {
      tail := tail0;
      var first;
      first, copy := CopyList(head, chain);
      ChainFrame(old(next), next, list.contents, addrs);
      if first == NIL {
        assert addrs + copy == addrs;
        return;
      }
      Link(list, tail, first, addrs, copy);
      tail := lastCellCopied;
    }

    // extend by one list, which may be the list itself.
    method Extend(list: ListCell, head: Addr, ghost addrs: seq<Addr>, ghost chain: seq<Addr>)
      returns (ghost copy: seq<Addr>)
      requires Valid(list, addrs) && Allocated(chain) && Chain(next, head, chain)
      modifies this, list
      ensures Valid(list, addrs + copy) && Fresh(old(next), copy)
      ensures Words(contents, copy) == Words(old(contents), chain)
      ensures GrownBut(old(next), next, addrs) && Grown(old(contents), contents)
    {
      var tail := list.aux;
      list.aux := NIL;
      if tail == NIL && list.contents != NIL {
        tail := FindLast(list.contents, addrs);
      }
      var wasEmpty := list.contents == NIL;
      tail, copy := LinkCopy(list, tail, head, addrs, chain);
      if head != NIL && !wasEmpty {
        list.aux := lastCellCopied;
      }
    }

    // append two lists: a new list of copies. Its last cell is the last one copied, which is
    // not known when the second list is empty.
    method Append(head1: Addr, head2: Addr, ghost chain1: seq<Addr>, ghost chain2: seq<Addr>)
      returns (list: ListCell, ghost copy1: seq<Addr>, ghost copy2: seq<Addr>)
      requires Allocated(chain1) && Chain(next, head1, chain1) && Allocated(chain2) && Chain(next, head2, chain2)
      modifies this
      ensures fresh(list) && Valid(list, copy1 + copy2) && Fresh(old(next), copy1) && Fresh(old(next), copy2)
      ensures Words(contents, copy1) == Words(old(contents), chain1)
      ensures Words(contents, copy2) == Words(old(contents), chain2)
      ensures Grown(old(next), next) && Grown(old(contents), contents)
    {
      list := new ListCell();
      var firstCell;
      firstCell, copy1 := LinkCopy(list, NIL, head1, [], chain1);
      assert [] + copy1 == copy1;
      copy2 := AppendNext(list, firstCell, head2, copy1, chain2, old(next), old(contents));
      list.aux := lastCellCopied;
    }

    // The second list, after copies of the first have been made.
    method AppendNext(list: ListCell, firstCell: Addr, head: Addr, ghost copy1: seq<Addr>, ghost chain: seq<Addr>,
                      ghost next0: map<Addr, Addr>, ghost contents0: map<Addr, int>)
      returns (ghost copy: seq<Addr>)
      requires Chain(next, list.contents, copy1) && Allocated(copy1) && firstCell == LastOf(copy1)
      requires Chain(next0, head, chain) && next0.Keys == contents0.Keys
      requires Grown(next0, next) && Grown(contents0, contents) && Fresh(next0, copy1)
      modifies this, list`contents
      ensures Chain(next, list.contents, copy1 + copy) && Allocated(copy1 + copy) && Fresh(next0, copy)
      ensures Words(contents, copy) == Words(contents0, chain) && Words(contents, copy1) == Words(old(contents), copy1)
      ensures lastCellCopied == LastOf(copy) && Grown(next0, next) && Grown(contents0, contents)
    {
      ghost var next1, contents1, first := next, contents, list.contents;
      assert Chain(next, head, chain) && Allocated(chain) by { ChainFrame(next0, next1, head, chain); }
      var tail;
      tail, copy := LinkCopy(list, firstCell, head, copy1, chain);
      AppendFacts(next0, next1, next, contents0, contents1, contents, head, first, chain, copy1, copy);
    }

    function Word(cell: Addr): int
      reads this
    {
      if cell in contents then contents[cell] else NIL
    }

    // The last cell of a list, which is remembered.
    method Last(list: ListCell, ghost addrs: seq<Addr>) returns (last: Addr)
      requires Valid(list, addrs) && addrs != []
      modifies list
      ensures last == addrs[|addrs| - 1] && list.aux == last && Valid(list, addrs)
    {
      if list.aux != NIL {
        return list.aux;
      }
      last := FindLast(list.contents, addrs);
      list.aux := last;
    }

    // push at an index counted from the front; past the end it is an error. When the test for
    // the first cell misfires, the new cell becomes the contents of the cell before.
    method PushAt(list: ListCell, word: int, index: nat, ghost addrs: seq<Addr>) returns (ok: bool, n: Addr)
      requires Valid(list, addrs)
      modifies this, list
      ensures ok <==> index <= |addrs|
      ensures !ok ==> Valid(list, addrs) && next == old(next) && contents == old(contents)
      ensures ok && Misplaced(old(contents), addrs, index) ==>
        n !in old(next) && contents == old(contents)[n := word][addrs[index - 1] := n] && Valid(list, addrs)
      ensures ok && !Misplaced(old(contents), addrs, index) ==>
        n !in old(next) && contents == old(contents)[n := word] && Valid(list, addrs[..index] + [n] + addrs[index..])
      ensures GrownBut(old(next), next, addrs)
    {
      list.aux := NIL;
      var before, cell := Walk(index, list.contents, addrs);
      if cell == NIL && index > 0 {
        var inside := Inside(index, list.contents, addrs);
        if !inside {
          return false, NIL;
        }
      }
      if index == 0 {
        assert addrs[..0] + [nextFree] + addrs[0..] == [nextFree] + addrs;
        n := PushFirst(list, word, addrs);
        return true, n;
      }
      OnlyOnce(next, list.contents, addrs, index - 1);
      n := CopyCell(word);
      if cell == contents[before] {
        contents := contents[before := n];
        next := next[n := cell];
        ChainFrame(old(next), next, list.contents, addrs);
      } else {
        next := next[before := n][n := cell];
        WithAt(addrs, index, n);
        ChainInserted(old(next), next, list.contents, addrs, index, n, addrs[..index] + [n] + addrs[index..]);
      }
      ok := true;
    }

    // Is there a cell before the index?
    method Inside(index: nat, head: Addr, ghost addrs: seq<Addr>) returns (inside: bool)
      requires Chain(next, head, addrs) && index > 0
      ensures inside <==> index <= |addrs|
    {
      var before, cell := Walk(index - 1, head, addrs);
      inside := cell != NIL;
    }
  }

  lemma WordsConcat(contents: map<Addr, int>, a: seq<Addr>, b: seq<Addr>)
    ensures Words(contents, a + b) == Words(contents, a) + Words(contents, b)
  {
  }
}
