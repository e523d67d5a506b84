// Reading an expression from the tokens of a text.
module Reader {
  import opened Syntax
  import opened Tokenizer

  // What is known to stand in the text: nothing, one expression, or the rest of a list.
  datatype Goal = Any | One(e: Expr) | Items(kind: Kind, items: seq<Expr>)

  datatype Status = Ok(more: bool) | Error

  // The reader takes fn for lambda and fn-macro for lambda-macro.
  predicate Spells(t: Token, u: Token) {
    t == u || (t == Symbol("fn") && u == Symbol("lambda")) || (t == Symbol("fn-macro") && u == Symbol("lambda-macro"))
  }

  // The first n tokens of part are those from index j on, perhaps spelled in the other way.
  ghost predicate Agree(ts: seq<Token>, j: nat, part: seq<Token>, n: nat) {
    n <= |part| && j + n <= |ts| && (n > 0 ==> Agree(ts, j, part, n - 1) && Spells(ts[j + n - 1], part[n - 1]))
  }

  // The tokens expected from index j on.
  ghost predicate Has(ts: seq<Token>, j: nat, part: seq<Token>) {
    Agree(ts, j, part, |part|)
  }

  lemma {:induction false} AgreeFirst(ts: seq<Token>, j: nat, a: seq<Token>, b: seq<Token>, n: nat, m: nat)
    requires Agree(ts, j, a + b, n) && m <= n && m <= |a|
    ensures Agree(ts, j, a, m)
    decreases n
  {
    if m < n {
      AgreeFirst(ts, j, a, b, n - 1, m);
    } else if m > 0 {
      AgreeFirst(ts, j, a, b, n - 1, m - 1);
    }
  }

  lemma {:induction false} AgreeSecond(ts: seq<Token>, j: nat, a: seq<Token>, b: seq<Token>, n: nat)
    requires n <= |b| && Agree(ts, j, a + b, |a| + n)
    ensures Agree(ts, j + |a|, b, n)
  {
    if n > 0 { AgreeSecond(ts, j, a, b, n - 1); }
  }

  lemma HasParts(ts: seq<Token>, j: nat, a: seq<Token>, b: seq<Token>)
    requires Has(ts, j, a + b)
    ensures Has(ts, j, a) && Has(ts, j + |a|, b)
  {
    AgreeFirst(ts, j, a, b, |a| + |b|, |a|);
    AgreeSecond(ts, j, a, b, |b|);
  }

  lemma {:induction false} AgreeAt(ts: seq<Token>, j: nat, part: seq<Token>, n: nat)
    requires Agree(ts, j, part, n) && n > 0
    ensures Spells(ts[j], part[0])
  {
    if n > 1 { AgreeAt(ts, j, part, n - 1); }
  }

  lemma HasFirst(ts: seq<Token>, j: nat, part: seq<Token>)
    requires Has(ts, j, part) && |part| > 0
    ensures j < |ts| && Spells(ts[j], part[0])
  {
    AgreeAt(ts, j, part, |part|);
  }

  lemma TokensOf(e: Expr)
    requires Readable(e)
    ensures |Tokens(e)| > 0 && !Tokens(e)[0].Right?
    ensures Tokens(e)[0].Symbol? ==> !Keyword(Tokens(e)[0].name)
  {
  }

  // The tokens of the items from index i on, and the closing parenthesis.
  function Tail(items: seq<Expr>, i: nat): seq<Token>
    requires i <= |items|
  {
    TokensFrom(items, i) + [Right]
  }

  // The tokens of what is left of a list: perhaps its keyword, and then the items from index i on.
  function Rest(kind: Kind, items: seq<Expr>, headRead: bool, i: nat): seq<Token>
    requires i <= |items|
  {
    if headRead || kind == Expression then Tail(items, i) else Head(kind) + Tail(items, i)
  }

  lemma Associates(a: seq<Token>, b: seq<Token>, c: seq<Token>)
    ensures a + b + c == a + (b + c)
  {
  }

  // The next token of a list: its keyword, the first token of an item, or the parenthesis.
  lemma RestHead(ts: seq<Token>, j: nat, kind: Kind, items: seq<Expr>)
    requires Has(ts, j, Rest(kind, items, false, 0)) && kind != Expression
    ensures j < |ts| && Spells(ts[j], Head(kind)[0]) && Has(ts, j + 1, Rest(kind, items, true, 0))
    ensures |Rest(kind, items, false, 0)| == 1 + |Rest(kind, items, true, 0)|
  {
    HasParts(ts, j, Head(kind), Tail(items, 0));
    HasFirst(ts, j, Head(kind));
  }

  lemma RestItem(ts: seq<Token>, j: nat, kind: Kind, items: seq<Expr>, i: nat, i': nat)
    requires i < |items| && Has(ts, j, Rest(kind, items, true, i)) && i' == i + 1
    ensures Has(ts, j, Tokens(items[i])) && Has(ts, j + |Tokens(items[i])|, Rest(kind, items, true, i'))
    ensures |Rest(kind, items, true, i)| == |Tokens(items[i])| + |Rest(kind, items, true, i')|
  {
    Associates(Tokens(items[i]), TokensFrom(items, i'), [Right]);
    HasParts(ts, j, Tokens(items[i]), Tail(items, i'));
  }

  lemma RestEnd(ts: seq<Token>, j: nat, kind: Kind, items: seq<Expr>)
    requires Has(ts, j, Rest(kind, items, true, |items|))
    ensures j < |ts| && ts[j] == Right && |Rest(kind, items, true, |items|)| == 1
  {
    assert TokensFrom(items, |items|) == [];
    HasFirst(ts, j, Tail(items, |items|));
  }

  // What has been written: tokens, where they end, and how strings were escaped.
  datatype Source = Source(text: string, raw: bool, ts: seq<Token>, ends: seq<nat>)

  ghost predicate Stands(s: Source, text: string, ptr: nat, j: nat) {
    s.text == text && Spaced(s.text, s.raw, s.ts, s.ends) && j <= |s.ts| && ptr == s.ends[j]
  }

  class ExpressionReader {
    const stream: Stream
    var parStackCounter: nat

    constructor (text: string)
      ensures fresh(stream) && stream.text == text && stream.ptr == 0 && parStackCounter == 0
    {
      stream := new Stream(text);
      parStackCounter := 0;
    }

    // The token j that is expected, or any token.
    method Next(ghost s: Source, ghost j: nat) returns (token: Token)
      requires stream.ptr <= |stream.text|
      modifies stream`ptr
      ensures old(stream.ptr) <= stream.ptr <= |stream.text| && (token.Empty? || old(stream.ptr) < stream.ptr)
      ensures Stands(s, stream.text, old(stream.ptr), j) && j < |s.ts| ==>
        token == s.ts[j] && Stands(s, stream.text, stream.ptr, j + 1)
    {
      ghost var start: nat, t, to := 0, Token.Empty, 0;
      if Stands(s, stream.text, stream.ptr, j) && j < |s.ts| {
        t, to := s.ts[j], s.ends[j + 1];
        SpacedToken(s.text, s.raw, s.ts, s.ends, j);
        start :| TokenAt(s.text, s.raw, s.ends[j], start, t, to);
      }
      token := stream.GetToken(s.raw, start, t, to);
    }

    // The goal is known to stand in the text from token j on.
    ghost predicate Expected(goal: Goal, s: Source, j: nat, isQuote: bool)
      reads this, stream
    {
      && Stands(s, stream.text, stream.ptr, j) && Has(s.ts, j, Wanted(goal))
      && match goal
         case Any => false
         case One(e) => Readable(e) && isQuote
         case Items(k, items) => Readable(Seq(k, items)) && !isQuote && parStackCounter > 0
    }

    // What was read is the goal, the parentheses are counted, and the text has been read up to there.
    ghost predicate Met(goal: Goal, s: Source, j: nat, before: nat, status: Status, kind: Kind, items: seq<Expr>)
      reads this, stream
    {
      && Stands(s, stream.text, stream.ptr, j + |Wanted(goal)|) && status == Ok(true)
      && match goal
         case Any => true
         case One(e) => items == [e] && parStackCounter == before
         case Items(k, es) => items == es && kind == k && parStackCounter + 1 == before
    }

    // The expression that starts with a token; j is the index of that token.
    method Item(token: Token, ghost s: Source, ghost j: nat, ghost e: Expr) returns (ok: bool, cell: Expr)
      requires stream.ptr <= |stream.text|
      modifies this`parStackCounter, stream`ptr
      ensures old(stream.ptr) <= stream.ptr <= |stream.text|
      ensures old(ItemExpected(token, s, j, e)) ==> ItemMet(ok, cell, s, j, e, old(parStackCounter))
      decreases |stream.text| - stream.ptr, 2
    {
      ok, cell := true, Nothing;
      match token
      case Str(str) => cell := Text(str);
      case Symbol(name) =>
        if |name| >= 6 && name[..6] == "[text]" {
          ok := false;
        } else {
          cell := Sym(name);
        }
      case Decimal(digits) => cell := ReadInteger(digits, e);
      case Other(digits) => cell := Numeral(digits);
      case Context(name) => ok, cell := ReadQualified(name);
      case QuoteMark => ok, cell := ReadQuote(s, j, e);
      case Left => ok, cell := ReadList(s, j, e);
      case _ => ok := false;
    }

    ghost predicate ItemExpected(token: Token, s: Source, j: nat, e: Expr)
      reads this, stream
    {
      Stands(s, stream.text, stream.ptr, j + 1) && Readable(e) && Has(s.ts, j, Tokens(e)) && token == Tokens(e)[0]
    }

    ghost predicate ItemMet(ok: bool, cell: Expr, s: Source, j: nat, e: Expr, before: nat)
      reads this, stream
    {
      ok && cell == e && parStackCounter == before && Stands(s, stream.text, stream.ptr, j + |Tokens(e)|)
    }

    method ReadInteger(digits: string, ghost e: Expr) returns (cell: Expr)
      ensures e.Int? && Int64(e.n) && digits == Show(e.n) ==> cell == e
    {
      if e.Int? { NumberReadBack(e.n); }
      cell := Numeral(digits);
      if Number(digits) {
        var n := NumberValue(digits);
        if Int64(n) {
          cell := Int(n);
        }
      }
    }

    method ReadQualified(context: string) returns (ok: bool, cell: Expr)
      requires stream.ptr <= |stream.text|
      modifies stream`ptr
      ensures old(stream.ptr) <= stream.ptr <= |stream.text|
    {
      ok, cell := false, Nothing;
      var token := stream.GetToken(false, 0, Token.Empty, 0);
      if token.Symbol? {
        ok, cell := true, Qualified(context, token.name);
      }
    }

    method ReadQuote(ghost s: Source, ghost j: nat, ghost e: Expr) returns (ok: bool, cell: Expr)
      requires stream.ptr <= |stream.text|
      modifies this`parStackCounter, stream`ptr
      ensures old(stream.ptr) <= stream.ptr <= |stream.text|
      ensures old(ItemExpected(QuoteMark, s, j, e)) ==> ItemMet(ok, cell, s, j, e, old(parStackCounter))
      decreases |stream.text| - stream.ptr, 1, 1
    {
      ghost var expected := ItemExpected(QuoteMark, s, j, e);
      ghost var goal := if expected && e.Quote? then One(e.e) else Any;
      if expected {
        assert e.Quote?;
        HasParts(s.ts, j, [QuoteMark], Tokens(e.e));
      }
      var status, kind, items := CompileExpression(true, s, j + 1, goal);
      ok := status != Error;
      cell := Quote(if items == [] then Nothing else items[0]);
    }

    method ReadList(ghost s: Source, ghost j: nat, ghost e: Expr) returns (ok: bool, cell: Expr)
      requires stream.ptr <= |stream.text|
      modifies this`parStackCounter, stream`ptr
      ensures old(stream.ptr) <= stream.ptr <= |stream.text|
      ensures old(ItemExpected(Left, s, j, e)) ==> ItemMet(ok, cell, s, j, e, old(parStackCounter))
      decreases |stream.text| - stream.ptr, 1, 1
    {
      ghost var expected := ItemExpected(Left, s, j, e);
      ghost var goal := if expected && e.Seq? then Items(e.kind, e.items) else Any;
      if expected {
        assert e.Seq?;
        SeqTokens(e.kind, e.items);
        HasParts(s.ts, j, [Left], Rest(e.kind, e.items, false, 0));
      }
      parStackCounter := parStackCounter + 1;
      var status, kind, items := CompileExpression(false, s, j + 1, goal);
      ok := status != Error;
      cell := Seq(kind, items);
    }

    // What is still to be read of the goal stands in the text from token j on.
    ghost predicate Progress(goal: Goal, s: Source, j0: nat, j: nat, before: nat, isQuote: bool, kind: Kind,
                             items: seq<Expr>)
      reads this, stream
    {
      && Stands(s, stream.text, stream.ptr, j) && parStackCounter == before
      && Unread(goal, s.ts, j, j0 + |Wanted(goal)|, isQuote, kind, items) && (!isQuote ==> before > 0)
    }

    // Read an item and link it; done when it is all, or the text ends too early.
    method LinkItem(token: Token, isQuote: bool, items0: seq<Expr>, ghost s: Source, ghost j: nat, ghost e: Expr)
      returns (done: bool, status: Status, items: seq<Expr>)
      requires stream.ptr <= |stream.text|
      modifies this`parStackCounter, stream`ptr
      ensures old(stream.ptr) <= stream.ptr <= |stream.text| && (!done ==> status == Error)
      ensures old(ItemExpected(token, s, j, e)) ==>
        ItemMet(true, e, s, j, e, old(parStackCounter)) && items == items0 + [e]
      ensures old(ItemExpected(token, s, j, e)) && isQuote && items0 == [] ==> done && status == Ok(true)
      ensures old(ItemExpected(token, s, j, e)) && !isQuote && old(parStackCounter) > 0 && j + |Tokens(e)| < |s.ts|
          ==> !done
      decreases |stream.text| - stream.ptr, 3
    {
      done, status, items := true, Error, items0;
      ghost var expected := ItemExpected(token, s, j, e);
      var ok, cell := Item(token, s, j, e);
      if !ok {
        return;
      }
      items := items + [cell];
      if isQuote && |items| == 1 {
        status := Ok(true);
        return;
      }
      if parStackCounter == 0 {
        status := Ok(false);
        return;
      }
      if expected && j + |Tokens(e)| < |s.ts| {
        NotAtEnd(s, stream.text, stream.ptr, j + |Tokens(e)|);
      }
      done := At(stream.text, stream.ptr) == NUL;
    }

    // An item of the goal starts with the token at j.
    ghost predicate ItemLeads(token: Token, goal: Goal, s: Source, j0: nat, j: nat, before: nat, isQuote: bool,
                              kind: Kind, items: seq<Expr>, e: Expr, next: seq<Expr>)
      reads this, stream
    {
      && Stands(s, stream.text, stream.ptr, j + 1) && parStackCounter == before && (!isQuote ==> before > 0)
      && next == items + [e] && ItemNext(s.ts, j, e) && token == s.ts[j]
      && match goal
         case Any => false
         case One(e1) => e == e1 && isQuote && items == [] && j + |Tokens(e)| == j0 + |Wanted(goal)|
         case Items(k, es) =>
           && !isQuote && kind == k && j + |Tokens(e)| < |s.ts|
           && UnreadList(k, es, s.ts, j + |Tokens(e)|, j0 + |Wanted(goal)|, kind, next)
    }

    method TakeItem(token: Token, isQuote: bool, kind: Kind, items0: seq<Expr>, ghost s: Source, ghost j0: nat,
                    ghost j: nat, ghost before: nat, ghost goal: Goal, ghost e: Expr, ghost next: seq<Expr>)
      returns (done: bool, status: Status, items: seq<Expr>)
      requires stream.ptr <= |stream.text|
      modifies this`parStackCounter, stream`ptr
      ensures old(stream.ptr) <= stream.ptr <= |stream.text| && (!done ==> status == Error)
      ensures old(ItemLeads(token, goal, s, j0, j, before, isQuote, kind, items0, e, next)) ==>
        if done then Met(goal, s, j0, before, status, kind, items)
        else Progress(goal, s, j0, j + |Tokens(e)|, before, isQuote, kind, items)
      decreases |stream.text| - stream.ptr, 4
    {
      done, status, items := LinkItem(token, isQuote, items0, s, j, e);
    }

    // Read one token, and the item it starts.
    method Step(isQuote: bool, kind0: Kind, items0: seq<Expr>, ghost s: Source, ghost j0: nat, ghost j: nat,
                ghost before: nat, ghost goal: Goal)
      returns (done: bool, status: Status, kind: Kind, items: seq<Expr>, ghost j': nat)
      requires stream.ptr <= |stream.text|
      modifies this`parStackCounter, stream`ptr
      ensures old(stream.ptr) <= stream.ptr <= |stream.text|
          && (!done ==> old(stream.ptr) < stream.ptr && status == Error)
      ensures old(Progress(goal, s, j0, j, before, isQuote, kind0, items0)) ==>
        if done then Met(goal, s, j0, before, status, kind, items)
        else Progress(goal, s, j0, j', before, isQuote, kind, items)
      decreases |stream.text| - stream.ptr, 0
    {
      done, status, kind, items, j' := true, Error, kind0, items0, j;
      ghost var expected := Progress(goal, s, j0, j, before, isQuote, kind, items);
      ghost var e := if expected then Upcoming(goal, items) else Nothing;
      ghost var end, next := j0 + |Wanted(goal)|, items + [e];
      if expected { NextLeads(goal, s.ts, j, end, isQuote, kind, items, e, next); }
      var token := Next(s, j);
      if token.Empty? {
        assert !expected;
        status := if parStackCounter != 0 then Error else Ok(false);
        return;
      }
      if token.Bad? {
        assert !expected;
        return;
      }
      if token.Right? {
        assert expected ==> goal.Items? && kind == goal.kind && items == goal.items && j + 1 == end;
        assert expected ==> Stands(s, stream.text, stream.ptr, j + 1) && parStackCounter == before > 0;
        if parStackCounter > 0 {
          parStackCounter := parStackCounter - 1;
          status := Ok(true);
        }
        return;
      }
      if token.Symbol? && KindWord(token.name) {
        assert expected ==> goal.Items? && items == [] && kind == Expression && WordKind(token.name) == goal.kind;
        var ok;
        ok, kind, items := SetKind(isQuote, kind, items, WordKind(token.name));
        done, j' := !ok, j + 1;
        assert expected ==> ok && kind == goal.kind && items == [];
        assert expected ==> Unread(goal, s.ts, j + 1, end, isQuote, kind, items);
        return;
      }
      assert expected ==> ItemLeads(token, goal, s, j0, j, before, isQuote, kind, items, e, next);
      done, status, items := TakeItem(token, isQuote, kind, items, s, j0, j, before, goal, e, next);
      j' := j + |Tokens(e)|;
    }

    // Read into a quote or a list cell: one expression, or all up to the closing parenthesis.
    method CompileExpression(isQuote: bool, ghost s: Source, ghost j0: nat, ghost goal: Goal)
      returns (status: Status, kind: Kind, items: seq<Expr>)
      requires stream.ptr <= |stream.text|
      modifies this`parStackCounter, stream`ptr
      ensures old(stream.ptr) <= stream.ptr <= |stream.text|
      ensures old(Expected(goal, s, j0, isQuote)) ==> Met(goal, s, j0, old(parStackCounter), status, kind, items)
      decreases |stream.text| - stream.ptr, 1, 0
    {
      status, kind, items := Error, Expression, [];
      ghost var expected := Expected(goal, s, j0, isQuote);
      ghost var j: nat := j0;
      var done := false;
      while !done
        invariant old(stream.ptr) <= stream.ptr <= |stream.text|
        invariant expected ==> if done then Met(goal, s, j0, old(parStackCounter), status, kind, items)
                               else Progress(goal, s, j0, j, old(parStackCounter), isQuote, kind, items)
        decreases !done, |stream.text| - stream.ptr
      {
        done, status, kind, items, j := Step(isQuote, kind, items, s, j0, j, old(parStackCounter), goal);
      }
    }
  }

  predicate KindWord(name: string) {
    name == "lambda" || name == "fn" || name == "lambda-macro" || name == "fn-macro"
  }

  function WordKind(name: string): Kind {
    if name == "lambda" || name == "fn" then Lambda else Fexpr
  }

  // A word like lambda changes the list being read, or else the list read last.
  method SetKind(isQuote: bool, kind0: Kind, items0: seq<Expr>, word: Kind)
    returns (ok: bool, kind: Kind, items: seq<Expr>)
    ensures items0 == [] && !isQuote && kind0 == Expression ==> ok && kind == word && items == []
  {
    ok, kind, items := false, kind0, items0;
    if items == [] {
      if !isQuote && kind == Expression {
        ok, kind := true, word;
      }
    } else {
      var last := items[|items| - 1];
      if last.Seq? && last.kind == Expression {
        ok, items := true, items[|items| - 1 := Seq(word, last.items)];
      }
    }
  }

  // What is still to be read of the goal when its keyword and some of its items have been.
  ghost predicate Unread(goal: Goal, ts: seq<Token>, j: nat, end: nat, isQuote: bool, kind: Kind, items: seq<Expr>) {
    match goal
    case Any => false
    case One(e) => Readable(e) && isQuote && items == [] && Has(ts, j, Tokens(e)) && j + |Tokens(e)| == end
    case Items(k, es) => !isQuote && UnreadList(k, es, ts, j, end, kind, items)
  }

  ghost predicate UnreadList(k: Kind, es: seq<Expr>, ts: seq<Token>, j: nat, end: nat, kind: Kind, items: seq<Expr>) {
    && Readable(Seq(k, es)) && Begins(items, es)
    && (kind == k || (kind == Expression && items == []))
    && Has(ts, j, Rest(k, es, kind == k, |items|)) && j + |Rest(k, es, kind == k, |items|)| == end
  }

  ghost predicate Begins(items: seq<Expr>, es: seq<Expr>) {
    |items| <= |es| && forall i {:trigger items[i]} :: 0 <= i < |items| ==> items[i] == es[i]
  }

  ghost function Upcoming(goal: Goal, items: seq<Expr>): Expr {
    match goal
    case Any => Nothing
    case One(e) => e
    case Items(_, es) => if |items| < |es| then es[|items|] else Nothing
  }

  // In a list, the next token is its keyword, the first token of an item or the parenthesis.
  lemma WordNext(k: Kind, es: seq<Expr>, ts: seq<Token>, j: nat, end: nat, kind: Kind,
                 items: seq<Expr>)
    requires UnreadList(k, es, ts, j, end, kind, items) && kind != k
    ensures j < |ts| && ts[j].Symbol? && KindWord(ts[j].name) && WordKind(ts[j].name) == k && items == []
    ensures UnreadList(k, es, ts, j + 1, end, k, items)
  {
    RestHead(ts, j, k, es);
  }

  lemma CloseNext(k: Kind, es: seq<Expr>, ts: seq<Token>, j: nat, end: nat, items: seq<Expr>)
    requires UnreadList(k, es, ts, j, end, k, items) && |items| == |es|
    ensures j < |ts| && ts[j] == Right && items == es && j + 1 == end
  {
    RestEnd(ts, j, k, es);
  }

  lemma OneMore(items: seq<Expr>, es: seq<Expr>, e: Expr, next: seq<Expr>)
    requires Begins(items, es) && |items| < |es| && e == es[|items|] && next == items + [e]
    ensures |next| == |items| + 1 <= |es| && Begins(next, es)
  {
  }

  lemma {:induction false} PartNext(k: Kind, es: seq<Expr>, ts: seq<Token>, j: nat, end: nat, items: seq<Expr>,
                                    e: Expr, next: seq<Expr>)
    requires UnreadList(k, es, ts, j, end, k, items) && |items| < |es| && e == es[|items|] && next == items + [e]
    ensures ItemNext(ts, j, e) && j + |Tokens(e)| < |ts|
    ensures UnreadList(k, es, ts, j + |Tokens(e)|, end, k, next)
  {
    OneMore(items, es, e, next);
    PartHas(k, es, ts, j, end, |items|, |next|);
    ItemStarts(ts, j, e);
  }

  lemma PartHas(k: Kind, es: seq<Expr>, ts: seq<Token>, j: nat, end: nat, i: nat, i': nat)
    requires i < |es| && i' == i + 1 && Has(ts, j, Rest(k, es, true, i)) && j + |Rest(k, es, true, i)| == end
    ensures Has(ts, j, Tokens(es[i])) && Has(ts, j + |Tokens(es[i])|, Rest(k, es, true, i'))
    ensures j + |Tokens(es[i])| + |Rest(k, es, true, i')| == end && j + |Tokens(es[i])| < |ts|
  {
    RestItem(ts, j, k, es, i, i');
  }

  // What the next token does; e is the item it starts, if any, and next the items with it.
  ghost predicate Leads(goal: Goal, ts: seq<Token>, j: nat, end: nat, kind: Kind, items: seq<Expr>, e: Expr,
                        next: seq<Expr>) {
    j < |ts| && match goal
    case Any => false
    case One(e1) => e == e1 && ItemNext(ts, j, e) && j + |Tokens(e)| == end
    case Items(k, es) =>
      if kind != k then ts[j].Symbol? && KindWord(ts[j].name) && WordKind(ts[j].name) == k
          && UnreadList(k, es, ts, j + 1, end, k, items)
      else if |items| == |es| then ts[j] == Right && items == es && j + 1 == end
      else ItemNext(ts, j, e) && j + |Tokens(e)| < |ts| && UnreadList(k, es, ts, j + |Tokens(e)|, end, kind, next)
  }

  lemma NextLeads(goal: Goal, ts: seq<Token>, j: nat, end: nat, isQuote: bool, kind: Kind,
                  items: seq<Expr>, e: Expr, next: seq<Expr>)
    requires Unread(goal, ts, j, end, isQuote, kind, items) && e == Upcoming(goal, items) && next == items + [e]
    ensures Leads(goal, ts, j, end, kind, items, e, next)
  {
    if goal.One? {
      ItemStarts(ts, j, e);
    } else if goal.Items? {
      if kind != goal.kind {
        WordNext(goal.kind, goal.items, ts, j, end, kind, items);
      } else if |items| == |goal.items| {
        CloseNext(goal.kind, goal.items, ts, j, end, items);
      } else {
        PartNext(goal.kind, goal.items, ts, j, end, items, e, next);
      }
    }
  }

  ghost predicate ItemNext(ts: seq<Token>, j: nat, e: Expr) {
    && Readable(e) && Has(ts, j, Tokens(e)) && j < |ts| && |Tokens(e)| > 0 && ts[j] == Tokens(e)[0]
    && !ts[j].Right? && !ts[j].Empty? && !ts[j].Bad? && (ts[j].Symbol? ==> !Keyword(ts[j].name))
  }

  lemma ItemStarts(ts: seq<Token>, j: nat, e: Expr)
    requires Readable(e) && Has(ts, j, Tokens(e))
    ensures ItemNext(ts, j, e)
  {
    TokensOf(e);
    HasFirst(ts, j, Tokens(e));
  }

  // Before a token the text has not ended.
  lemma NotAtEnd(s: Source, text: string, ptr: nat, j: nat)
    requires Stands(s, text, ptr, j) && j < |s.ts|
    ensures At(text, ptr) != NUL
  {
    SpacedToken(s.text, s.raw, s.ts, s.ends, j);
    var start :| TokenAt(s.text, s.raw, s.ends[j], start, s.ts[j], s.ends[j + 1]);
    LexemeStart(s.ts[j], s.raw);
    SliceAt(s.text, start, s.ends[j + 1], Lexeme(s.ts[j], s.raw));
    assert text[start + 0] == Lexeme(s.ts[j], s.raw)[0];
  }

  // The tokens of a goal.
  ghost function Wanted(goal: Goal): seq<Token> {
    match goal
    case Any => []
    case One(e) => Tokens(e)
    case Items(kind, items) => Rest(kind, items, false, 0)
  }

  lemma SeqTokens(kind: Kind, items: seq<Expr>)
    ensures Tokens(Seq(kind, items)) == [Left] + Rest(kind, items, false, 0)
  {
    Associates([Left] + Head(kind), TokensFrom(items, 0), [Right]);
    Associates([Left], Head(kind), Tail(items, 0));
    assert Head(Expression) + Tail(items, 0) == Tail(items, 0);
  }
}
