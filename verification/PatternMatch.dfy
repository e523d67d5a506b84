// Wildcard matching of lists: ? takes one element, + one or more, * any number.
module PatternMatch {

  datatype Kind = Quote | Expression | Lambda | Fexpr

  datatype Expr = Atom(a: int) | Node(kind: Kind, items: Exprs)
  datatype Exprs = Nil | Cons(head: Expr, tail: Exprs)

  const QUESTION := Atom(0)
  const STAR := Atom(1)
  const PLUS := Atom(2)

  function Append(a: Exprs, b: Exprs): Exprs {
    if a.Nil? then b else Cons(a.head, Append(a.tail, b))
  }

  function Length(a: Exprs): nat {
    if a.Nil? then 0 else 1 + Length(a.tail)
  }

  lemma {:induction false} AppendNil(a: Exprs)
    ensures Append(a, Nil) == a
  {
    if a.Cons? { AppendNil(a.tail); }
  }

  lemma {:induction false} AppendAssociative(a: Exprs, b: Exprs, c: Exprs)
    ensures Append(Append(a, b), c) == Append(a, Append(b, c))
  {
    if a.Cons? { AppendAssociative(a.tail, b, c); }
  }

  lemma {:induction false} AppendLength(a: Exprs, b: Exprs)
    ensures Length(Append(a, b)) == Length(a) + Length(b)
  {
    if a.Cons? { AppendLength(a.tail, b); }
  }

  // ---------- putting captures back ----------

  // In the mode that returns every element, a pattern of nothing but empty lists returns nothing.
  predicate Silent(p: Exprs) {
    p.Nil? || (p.head.Node? && Silent(p.head.items) && Silent(p.tail))
  }

  datatype Filling = Bad | Filled(list: Exprs, rest: Exprs)

  // Replace the wildcards of a pattern, in order, by captures: a star or plus by the elements
  // of a captured list. With all, captures hold every element of the pattern.
  function Fill(all: bool, p: Exprs, caps: Exprs): Filling
    decreases p, 0
  {
    if p.Nil? then Filled(Nil, caps)
    else if p.head == STAR || p.head == PLUS then
      if caps.Nil? || !caps.head.Node? || caps.head.kind != Expression
          || (p.head == PLUS && caps.head.items.Nil?) then Bad
      else
        var f := Fill(all, p.tail, caps.tail);
        if f.Bad? then Bad else Filled(Append(caps.head.items, f.list), f.rest)
    else if p.head.Node? then
      var sub := FillNode(all, p.head.items, caps);
      if sub.Bad? then Bad
      else
        var f := Fill(all, p.tail, sub.rest);
        if f.Bad? then Bad else Filled(Cons(Node(p.head.kind, sub.list), f.list), f.rest)
    else if p.head == QUESTION || all then
      if caps.Nil? || (p.head != QUESTION && caps.head != p.head) then Bad
      else
        var f := Fill(all, p.tail, caps.tail);
        if f.Bad? then Bad else Filled(Cons(caps.head, f.list), f.rest)
    else
      var f := Fill(all, p.tail, caps);
      if f.Bad? then Bad else Filled(Cons(p.head, f.list), f.rest)
  }

  // The elements of a nested list: captured in line, or with all as a list of their own.
  function FillNode(all: bool, items: Exprs, caps: Exprs): Filling
    decreases items, 1
  {
    if !all || Silent(items) then Fill(all, items, caps)
    else if caps.Nil? || !caps.head.Node? || caps.head.kind != Expression then Bad
    else
      var f := Fill(all, items, caps.head.items);
      if f.Bad? || f.rest.Cons? then Bad else Filled(f.list, caps.tail)
  }

  ghost predicate Restores(all: bool, p: Exprs, caps: Exprs, list: Exprs) {
    Fill(all, p, caps) == Filled(list, Nil)
  }

  // What each kind of pattern element captures, and from which lists: a star or plus a list of
  // what it covers, ? its element; another element itself, if every element is returned.
  lemma ElementCaptures(all: bool, caps: Exprs, list: Exprs)
    ensures Restores(all, Cons(STAR, Nil), caps, list) <==> caps == Cons(Node(Expression, list), Nil)
    ensures Restores(all, Cons(PLUS, Nil), caps, list) <==> list.Cons? && caps == Cons(Node(Expression, list), Nil)
    ensures Restores(all, Cons(QUESTION, Nil), caps, list) <==> caps == list && list.Cons? && list.tail.Nil?
    ensures forall n :: Atom(n) != STAR && Atom(n) != PLUS && Atom(n) != QUESTION ==>
      (Restores(all, Cons(Atom(n), Nil), caps, list) <==>
        list == Cons(Atom(n), Nil) && caps == if all then list else Nil)
  {
    if caps.Cons? && caps.head.Node? { AppendNil(caps.head.items); }
    assert Fill(all, Nil, Nil) == Filled(Nil, Nil);
    if caps.Cons? { assert Fill(all, Nil, caps.tail) == Filled(Nil, caps.tail); }
    assert Fill(all, Nil, caps) == Filled(Nil, caps);
  }

  // A nested pattern covers a list of its own kind. Its captures stand in line; where every
  // element is returned they are in an expression of their own, unless there cannot be any.
  lemma NestedCaptures(all: bool, kind: Kind, items: Exprs, caps: Exprs, list: Exprs)
    ensures Restores(all, Cons(Node(kind, items), Nil), caps, list) <==>
      && list.Cons? && list.tail.Nil? && list.head.Node? && list.head.kind == kind
      && if all && !Silent(items)
         then caps.Cons? && caps.tail.Nil? && caps.head.Node? && caps.head.kind == Expression
              && Restores(all, items, caps.head.items, list.head.items)
         else Restores(all, items, caps, list.head.items)
  {
    assert Node(kind, items) != STAR && Node(kind, items) != PLUS;
    var sub := FillNode(all, items, caps);
    if sub.Filled? { assert Fill(all, Nil, sub.rest) == Filled(Nil, sub.rest); }
  }

  // ---------- what it means to match ----------

  function Drop(a: Exprs, k: nat): Exprs
    requires k <= Length(a)
  {
    if k == 0 then a else Drop(a.tail, k - 1)
  }

  // The pattern covers the list, element by element; a star or plus covers a stretch of it.
  ghost predicate Matches(p: Exprs, list: Exprs)
    decreases p
  {
    if p.Nil? then list.Nil?
    else if p.head == STAR then exists k :: 0 <= k <= Length(list) && Matches(p.tail, Drop(list, k))
    else if p.head == PLUS then exists k :: 1 <= k <= Length(list) && Matches(p.tail, Drop(list, k))
    else
      list.Cons? && Matches(p.tail, list.tail) &&
      if p.head.Node? then list.head.Node? && list.head.kind == p.head.kind && Matches(p.head.items, list.head.items)
      else p.head == QUESTION || list.head == p.head
  }

  lemma {:induction false} DropAppend(a: Exprs, b: Exprs)
    ensures Length(a) <= Length(Append(a, b)) && Drop(Append(a, b), Length(a)) == b
  {
    if a.Cons? { DropAppend(a.tail, b); }
  }

  // Whatever can be put together from the pattern and captures matches.
  lemma {:induction false} FilledMatches(all: bool, p: Exprs, caps: Exprs)
    requires Fill(all, p, caps).Filled?
    ensures Matches(p, Fill(all, p, caps).list)
    decreases p, 0
  {
    if p.Cons? {
      if p.head == STAR || p.head == PLUS {
        var f := Fill(all, p.tail, caps.tail);
        FilledMatches(all, p.tail, caps.tail);
        DropAppend(caps.head.items, f.list);
      } else if p.head.Node? {
        var sub := FillNode(all, p.head.items, caps);
        FilledNodeMatches(all, p.head.items, caps);
        FilledMatches(all, p.tail, sub.rest);
      } else if p.head == QUESTION || all {
        FilledMatches(all, p.tail, caps.tail);
      } else {
        FilledMatches(all, p.tail, caps);
      }
    }
  }

  lemma {:induction false} FilledNodeMatches(all: bool, items: Exprs, caps: Exprs)
    requires FillNode(all, items, caps).Filled?
    ensures Matches(items, FillNode(all, items, caps).list)
    decreases items, 1
  {
    if !all || Silent(items) { FilledMatches(all, items, caps); } else { FilledMatches(all, items, caps.head.items); }
  }

  lemma {:induction false} DropAll(a: Exprs)
    ensures Drop(a, Length(a)) == Nil
  {
    if a.Cons? { DropAll(a.tail); }
  }

  // A pattern that is not empty but matches the empty list is all stars, so it matches every
  // list: giving up at the last element of a list loses nothing.
  lemma {:induction false} MatchesEmpty(p: Exprs, list: Exprs)
    requires p.Cons? && Matches(p, Nil)
    ensures Matches(p, list)
    decreases p
  {
    assert p.head == STAR && Matches(p.tail, Nil);
    if p.tail.Nil? {
      DropAll(list);
    } else {
      MatchesEmpty(p.tail, list);
      assert Drop(list, 0) == list;
    }
  }

  // ---------- captures after captures ----------

  lemma {:induction false} FillMore(all: bool, p: Exprs, caps: Exprs, more: Exprs)
    requires Fill(all, p, caps).Filled?
    ensures Fill(all, p, Append(caps, more)) == Filled(Fill(all, p, caps).list, Append(Fill(all, p, caps).rest, more))
    decreases p, 0
  {
    if p.Cons? {
      if p.head == STAR || p.head == PLUS {
        FillMore(all, p.tail, caps.tail, more);
      } else if p.head.Node? {
        FillNodeMore(all, p.head.items, caps, more);
        FillMore(all, p.tail, FillNode(all, p.head.items, caps).rest, more);
      } else if p.head == QUESTION || all {
        FillMore(all, p.tail, caps.tail, more);
      } else {
        FillMore(all, p.tail, caps, more);
      }
    }
  }

  lemma {:induction false} FillNodeMore(all: bool, items: Exprs, caps: Exprs, more: Exprs)
    requires FillNode(all, items, caps).Filled?
    ensures FillNode(all, items, Append(caps, more))
         == Filled(FillNode(all, items, caps).list, Append(FillNode(all, items, caps).rest, more))
    decreases items, 1
  {
    if !all || Silent(items) { FillMore(all, items, caps, more); }
  }

  // In the mode that returns every element, captures are used up unless the pattern is silent.
  lemma {:induction false} CapturesUsed(p: Exprs, caps: Exprs)
    requires Fill(true, p, caps).Filled?
    ensures Length(Fill(true, p, caps).rest) <= Length(caps)
    ensures Silent(p) ==> Fill(true, p, caps).rest == caps
    ensures !Silent(p) ==> Length(Fill(true, p, caps).rest) < Length(caps)
    decreases p
  {
    if p.Cons? {
      if p.head == STAR || p.head == PLUS {
        CapturesUsed(p.tail, caps.tail);
      } else if p.head.Node? {
        if Silent(p.head.items) { CapturesUsed(p.head.items, caps); }
        CapturesUsed(p.tail, FillNode(true, p.head.items, caps).rest);
      } else {
        CapturesUsed(p.tail, caps.tail);
      }
    }
  }

  // ---------- the matcher ----------

  datatype Result = NoMatch | Match(captures: Exprs)

  ghost predicate Right(r: Result, all: bool, p: Exprs, list: Exprs) {
    match r
    case NoMatch => !Matches(p, list)
    case Match(captures) => Restores(all, p, captures, list)
  }

  // What is still to be matched decides, and its captures complete those already made.
  ghost predicate Continues(all: bool, p0: Exprs, list0: Exprs, caps: Exprs, p: Exprs, list: Exprs) {
    && (Matches(p0, list0) <==> Matches(p, list))
    && forall more :: Restores(all, p, more, list) ==> Restores(all, p0, Append(caps, more), list0)
  }

  // What one element of the pattern adds.
  lemma Continued(all: bool, p0: Exprs, list0: Exprs, caps: Exprs, p: Exprs, list: Exprs, added: Exprs)
    requires Continues(all, p0, list0, caps, p, list) && p.Cons? && list.Cons?
    requires Matches(p, list) <==> Matches(p.tail, list.tail)
    requires forall more :: Restores(all, p.tail, more, list.tail) ==> Restores(all, p, Append(added, more), list)
    ensures Continues(all, p0, list0, Append(caps, added), p.tail, list.tail)
  {
    forall more | Restores(all, p.tail, more, list.tail)
      ensures Restores(all, p0, Append(Append(caps, added), more), list0)
    {
      AppendAssociative(caps, added, more);
    }
  }

  lemma ElementTaken(all: bool, p: Exprs, list: Exprs)
    requires p.Cons? && list.Cons? && !p.head.Node? && p.head != STAR && p.head != PLUS
    requires p.head == QUESTION || p.head == list.head
    ensures Matches(p, list) <==> Matches(p.tail, list.tail)
    ensures var added := if all || p.head == QUESTION then Cons(list.head, Nil) else Nil;
            forall more :: Restores(all, p.tail, more, list.tail) ==> Restores(all, p, Append(added, more), list)
  {
  }

  // What a nested match adds: its captures in line, or with all one list, unless there are none.
  function Added(all: bool, captures: Exprs): Exprs {
    if captures.Nil? then Nil else if all then Cons(Node(Expression, captures), Nil) else captures
  }

  lemma NestedTaken(all: bool, p: Exprs, list: Exprs, captures: Exprs)
    requires p.Cons? && list.Cons? && p.head.Node? && list.head.Node? && list.head.kind == p.head.kind
    requires Restores(all, p.head.items, captures, list.head.items) && Matches(p.head.items, list.head.items)
    ensures Matches(p, list) <==> Matches(p.tail, list.tail)
    ensures forall more :: Restores(all, p.tail, more, list.tail) ==>
      Restores(all, p, Append(Added(all, captures), more), list)
  {
    var items := p.head.items;
    if all { CapturesUsed(items, captures); }
    forall more | Restores(all, p.tail, more, list.tail)
      ensures Restores(all, p, Append(Added(all, captures), more), list)
    {
      NestedFilled(all, items, captures, list.head.items, more);
    }
  }

  lemma NestedFilled(all: bool, items: Exprs, captures: Exprs, sub: Exprs, more: Exprs)
    requires Restores(all, items, captures, sub)
    requires all ==> (captures.Nil? <==> Silent(items))
    ensures FillNode(all, items, Append(Added(all, captures), more)) == Filled(sub, more)
  {
    FillMore(all, items, captures, more);
  }

  function Prepend(caps: Exprs, r: Result): Result {
    if r.NoMatch? then NoMatch else Match(Append(caps, r.captures))
  }

  lemma Combined(all: bool, p0: Exprs, list0: Exprs, caps: Exprs, p: Exprs, list: Exprs, r: Result)
    requires Continues(all, p0, list0, caps, p, list) && Right(r, all, p, list)
    ensures Right(Prepend(caps, r), all, p0, list0)
  {
  }

  // ---------- stretches ----------

  // The wildcard cannot cover fewer than k elements, nor exactly j of them for any j < k.
  ghost predicate Tried(plus: bool, rest: Exprs, list: Exprs, k: nat) {
    forall j :: (if plus then 1 else 0) <= j < k && j <= Length(list) ==> !Matches(rest, Drop(list, j))
  }

  lemma {:induction false} DropNext(list: Exprs, k: nat)
    requires k < Length(list)
    ensures Drop(list, k).Cons? && Drop(list, k + 1) == Drop(list, k).tail
    ensures Length(Drop(list, k)) == Length(list) - k
  {
    if k > 0 { DropNext(list.tail, k - 1); }
  }

  lemma {:induction false} DropLength(list: Exprs, k: nat)
    requires k <= Length(list)
    ensures Length(Drop(list, k)) == Length(list) - k
  {
    if k > 0 { DropLength(list.tail, k - 1); }
  }

  lemma NothingLeft(plus: bool, rest: Exprs, list: Exprs, k: nat)
    requires rest.Cons? && k <= Length(list) <= k + 1 && Tried(plus, rest, list, k) && !Matches(rest, Drop(list, k))
    ensures !Matches(Cons(if plus then PLUS else STAR, rest), list)
  {
    if k < Length(list) {
      DropNext(list, k);
      if Matches(rest, Nil) { MatchesEmpty(rest, Drop(list, k)); }
      assert Drop(list, k + 1) == Nil;
    }
    assert Tried(plus, rest, list, Length(list) + 1);
  }

  lemma StarRestored(all: bool, plus: bool, rest: Exprs, stars: Exprs, caps: Exprs, l: Exprs, list: Exprs)
    requires Restores(all, rest, caps, l) && list == Append(stars, l) && (plus ==> stars.Cons?)
    ensures Restores(all, Cons(if plus then PLUS else STAR, rest), Cons(Node(Expression, stars), caps), list)
  {
  }

  // The first capture is the shortest stretch of the list behind which the rest matches.
  ghost predicate Shortest(captures: Exprs, plus: bool, rest: Exprs, list: Exprs) {
    && captures.Cons? && captures.head.Node? && captures.head.kind == Expression
    && var stars := captures.head.items; var k := Length(stars);
    && k <= Length(list) && (plus ==> k > 0) && list == Append(stars, Drop(list, k))
    && Matches(rest, Drop(list, k)) && Tried(plus, rest, list, k)
  }

  lemma WholeList(plus: bool, list: Exprs, captures: Exprs)
    requires captures == Cons(Node(Expression, list), Nil) && (plus ==> list.Cons?)
    ensures Shortest(captures, plus, Nil, list)
  {
    DropAll(list);
    AppendNil(list);
    forall j | 0 <= j < Length(list) ensures !Matches(Nil, Drop(list, j)) { DropLength(list, j); }
  }

  // The wildcard + or * in front of rest: it covers as few elements as it can.
  method MatchStar(plus: bool, rest: Exprs, list: Exprs, flag: bool) returns (r: Result)
    ensures Right(r, flag, Cons(if plus then PLUS else STAR, rest), list)
    ensures r.Match? ==> Shortest(r.captures, plus, rest, list)
    decreases Size(rest), 1
  {
    var stars, l := Nil, list;
    ghost var k := 0;
    AppendNil(list);
    while true
      invariant list == Append(stars, l) && k == Length(stars) <= Length(list) && l == Drop(list, k)
      invariant Tried(plus, rest, list, k)
      decreases Length(l)
    {
      DropLength(list, k);
      if !(stars.Nil? && plus) {
        if rest.Nil? {
          AppendNil(list);
          StarRestored(flag, plus, rest, Append(stars, l), Nil, Nil, list);
          AppendLength(stars, l);
          WholeList(plus, list, Cons(Node(Expression, list), Nil));
          return Match(Cons(Node(Expression, Append(stars, l)), Nil));
        }
        var match0 := PatternMatchL(rest, l, flag);
        if match0.Match? {
          StarRestored(flag, plus, rest, stars, match0.captures, l, list);
          FilledMatches(flag, rest, match0.captures);
          return Match(Cons(Node(Expression, stars), match0.captures));
        }
        if l.Nil? || l.tail.Nil? {
          NothingLeft(plus, rest, list, k);
          return NoMatch;
        }
      }
      if l.Nil? {
        return NoMatch;
      }
      DropNext(list, k);
      AppendAssociative(stars, Cons(l.head, Nil), l.tail);
      AppendLength(stars, Cons(l.head, Nil));
      stars := Append(stars, Cons(l.head, Nil));
      l := l.tail;
      k := k + 1;
    }
  }

  function Size(p: Exprs): nat {
    if p.Nil? then 0
    else 1 + (if p.head.Node? then Size(p.head.items) else 0) + Size(p.tail)
  }

  // Match a list against a pattern; nil elements do not occur in either.
  method PatternMatchL(pattern: Exprs, list: Exprs, flag: bool) returns (r: Result)
    ensures Right(r, flag, pattern, list)
    decreases Size(pattern), 0
  {
    var p, l, matchList := pattern, list, Nil;
    while p.Cons?
      invariant Continues(flag, pattern, list, matchList, p, l)
      invariant Size(p) <= Size(pattern)
      decreases Size(p)
    {
      if p.head == STAR || p.head == PLUS {
        r := MatchStar(p.head == PLUS, p.tail, l, flag);
        assert p == Cons(p.head, p.tail);
        Combined(flag, pattern, list, matchList, p, l, r);
        return Prepend(matchList, r);
      }
      var added := Nil;
      if p.head.Node? {
        if l.Nil? || !l.head.Node? || l.head.kind != p.head.kind {
          return NoMatch;
        }
        var match0 := PatternMatchL(p.head.items, l.head.items, flag);
        if match0.NoMatch? {
          return NoMatch;
        }
        FilledMatches(flag, p.head.items, match0.captures);
        NestedTaken(flag, p, l, match0.captures);
        added := Added(flag, match0.captures);
      } else {
        if l.Nil? || (p.head != QUESTION && p.head != l.head) {
          return NoMatch;
        }
        ElementTaken(flag, p, l);
        if flag || p.head == QUESTION {
          added := Cons(l.head, Nil);
        }
      }
      Continued(flag, pattern, list, matchList, p, l, added);
      matchList := Append(matchList, added);
      p, l := p.tail, l.tail;
    }
    if l.Nil? {
      r := Match(Nil);
    } else {
      r := NoMatch;
    }
    Combined(flag, pattern, list, matchList, p, l, r);
    AppendNil(matchList);
    r := Prepend(matchList, r);
  }

  // A failure means that no captures at all put the list together.
  lemma NoCaptures(all: bool, p: Exprs, list: Exprs, caps: Exprs)
    requires Right(NoMatch, all, p, list)
    ensures !Restores(all, p, caps, list)
  {
    if Restores(all, p, caps, list) { FilledMatches(all, p, caps); }
  }
}
