// Printing expressions, with the line breaks of pretty printing, and reading them back.
module Printer {
  import opened Syntax
  import opened Tokenizer
  import opened Reader

  // ---------- what has been written so far ----------

  // A text of tokens and blanks that may end in blanks.
  ghost predicate Laid(text: string, raw: bool, ts: seq<Token>, ends: seq<nat>) {
    && Spaced(text, raw, ts, ends) && ends[0] == 0 && ends[|ts|] <= |text|
    && forall i :: ends[|ts|] <= i < |text| ==> Blank(text[i])
  }

  // The text does not end in a symbol or number, so that anything may follow.
  ghost predicate Open(text: string, ts: seq<Token>, ends: seq<nat>) {
    && |ends| == |ts| + 1
    && forall i {:trigger Place(i)} :: Place(i) && 0 <= i < |ts| && NeedsStop(ts[i]) ==> ends[i + 1] < |text|
  }

  // A token stays what it is when the text goes on with x.
  lemma TokenStays(text: string, x: string, raw: bool, from: nat, t: Token, to: nat)
    requires TokenIn(text, raw, from, t, to) && (NeedsStop(t) && to == |text| && |x| > 0 ==> Stop(x[0]))
    ensures TokenIn(text + x, raw, from, t, to) && to <= |text|
  {
    var start: nat :| TokenAt(text, raw, from, start, t, to);
    var lex := Lexeme(t, raw);
    forall i | 0 <= i < |lex| ensures (text + x)[start + i] == lex[i] {}
    assert TokenAt(text + x, raw, from, start, t, to);
  }

  lemma TokensStay(text: string, x: string, raw: bool, ts: seq<Token>, ends: seq<nat>)
    requires Spaced(text, raw, ts, ends) && (|x| > 0 ==> Stop(x[0]) || Open(text, ts, ends))
    ensures Spaced(text + x, raw, ts, ends)
    ensures forall i {:trigger Place(i)} :: Place(i) && 0 <= i < |ts| ==> ends[i + 1] <= |text|
  {
    forall i {:trigger Place(i)} | Place(i) && 0 <= i < |ts|
      ensures TokenIn(text + x, raw, ends[i], ts[i], ends[i + 1]) && ends[i + 1] <= |text|
    {
      SpacedToken(text, raw, ts, ends, i);
      TokenStays(text, x, raw, ends[i], ts[i], ends[i + 1]);
    }
  }

  lemma BlanksFollow(text: string, x: string, raw: bool, ts: seq<Token>, ends: seq<nat>)
    requires Laid(text, raw, ts, ends) && forall i :: 0 <= i < |x| ==> Blank(x[i])
    ensures Laid(text + x, raw, ts, ends)
    ensures |x| > 0 || Open(text, ts, ends) ==> Open(text + x, ts, ends)
  {
    TokensStay(text, x, raw, ts, ends);
  }

  lemma TokenFollows(text: string, lex: string, raw: bool, ts: seq<Token>, ends: seq<nat>, t: Token)
    requires Laid(text, raw, ts, ends) && Good(t) && lex == Lexeme(t, raw)
    requires |lex| > 0 && (Stop(lex[0]) || Open(text, ts, ends))
    ensures Laid(text + lex, raw, ts + [t], ends + [|text| + |lex|])
    ensures !NeedsStop(t) ==> Open(text + lex, ts + [t], ends + [|text| + |lex|])
  {
    TokensStay(text, lex, raw, ts, ends);
    var all, ts', ends' := text + lex, ts + [t], ends + [|text| + |lex|];
    LastToken(text, lex, raw, ends[|ts|], t);
    forall i {:trigger Place(i)} | Place(i) && 0 <= i < |ts'|
      ensures TokenIn(all, raw, ends'[i], ts'[i], ends'[i + 1])
    {
      if i < |ts| { SpacedToken(all, raw, ts, ends, i); }
    }
  }

  lemma LastToken(text: string, lex: string, raw: bool, from: nat, t: Token)
    requires from <= |text| && (forall i :: from <= i < |text| ==> Blank(text[i])) && Good(t) && lex == Lexeme(t, raw)
    ensures TokenIn(text + lex, raw, from, t, |text| + |lex|)
  {
    assert TokenAt(text + lex, raw, from, |text|, t, |text| + |lex|);
  }

  lemma ShowIsInteger(n: int)
    requires Int64(n)
    ensures Integer(Show(n))
  {
    NumberReadBack(n);
    ShowLength(n);
    NoLeadingZero(if n < 0 then -n else n);
    DigitsReadBack(if n < 0 then -n else n);
    if n < 0 {
      assert Show(n)[1] == Digits(-n)[0];
      if -n < 10 { assert Digits(-n) == [DigitChar(-n)]; }
    }
  }

  lemma TokensStep(items: seq<Expr>, i: nat, before: seq<Token>, i': nat)
    requires i < |items| && i' == i + 1
    ensures before + TokensFrom(items, i) == before + Tokens(items[i]) + TokensFrom(items, i')
  {
    Associates(before, Tokens(items[i]), TokensFrom(items, i'));
  }

  class Printer {
    const raw: bool
    const tab: string
    const maxLength: int
    const toString: bool
    const printType: map<string, nat>
    var out: string
    var pars: int
    var current: int
    var length: int
    var double: bool
    ghost var ts: seq<Token>
    ghost var ends: seq<nat>

    constructor (raw: bool, tab: string, maxLength: int, toString: bool, printType: map<string, nat>)
      requires forall i :: 0 <= i < |tab| ==> Blank(tab[i])
      ensures Valid() && Ready() && ts == [] && out == "" && this.raw == raw
    {
      this.raw, this.tab, this.maxLength, this.toString, this.printType := raw, tab, maxLength, toString, printType;
      out, pars, current, length, double := "", 0, 0, 0, false;
      ts, ends := [], [0];
    }

    ghost predicate Valid()
      reads this
    {
      Laid(out, raw, ts, ends) && forall i :: 0 <= i < |tab| ==> Blank(tab[i])
    }

    ghost predicate Ready()
      reads this
    {
      Open(out, ts, ends)
    }

    method VarPrintf(x: string)
      modifies this`out, this`length
      ensures out == old(out) + x
    {
      out := out + x;
      length := length + |x|;
    }

    method WriteBlanks(x: string)
      requires Valid() && forall i :: 0 <= i < |x| ==> Blank(x[i])
      modifies this`out, this`length
      ensures Valid() && out == old(out) + x && (|x| > 0 || old(Ready()) ==> Ready())
    {
      BlanksFollow(out, x, raw, ts, ends);
      VarPrintf(x);
    }

    method WriteToken(x: string, ghost t: Token)
      requires Valid() && Good(t) && x == Lexeme(t, raw) && |x| > 0 && (Stop(x[0]) || Ready())
      modifies this`out, this`length, this`ts, this`ends
      ensures Valid() && out == old(out) + x && ts == old(ts) + [t] && ends[|ts|] == |out|
      ensures !NeedsStop(t) ==> Ready()
    {
      ghost var ts', ends' := ts + [t], ends + [|out| + |x|];
      TokenFollows(out, x, raw, ts, ends, t);
      VarPrintf(x);
      ts, ends := ts', ends';
    }

    // Start a new line, unless the output is for a string or has just been broken.
    method PrettyPrint()
      requires Valid()
      modifies this`out, this`length, this`current, this`double
      ensures Valid() && (old(Ready()) ==> Ready())
    {
      if double || toString {
        return;
      }
      if pars > 0 {
        WriteBlanks("\n");
      }
      var i := 0;
      while i < pars
        invariant Valid() && (old(Ready()) ==> Ready())
      {
        WriteBlanks(tab);
        i := i + 1;
      }
      length, current := pars, pars;
      double := true;
    }

    // ---------- strings ----------

    method PrintChar(c: char)
      requires c < 256 as char
      modifies this`out, this`length
      ensures out == old(out) + Escape(c, raw)
    {
      match c
      case '\n' => VarPrintf("\\n");
      case '\r' => VarPrintf("\\r");
      case '\t' => VarPrintf("\\t");
      case '\\' => VarPrintf("\\\\");
      case '"' => VarPrintf("\\\"");
      case _ =>
        if c == 8 as char {
          VarPrintf("\\b");
        } else if c == 12 as char {
          VarPrintf("\\f");
        } else if c < 32 as char || (raw && c > 126 as char) {
          VarPrintf("\\" + Decimal3(c));
        } else {
          VarPrintf([c]);
        }
    }

    method PrintString(s: string)
      requires Bytes(s)
      modifies this`out, this`length
      ensures out == old(out) + "\"" + EscapeAll(s, raw) + "\""
    {
      VarPrintf("\"");
      ghost var begun := out;
      ghost var pieces := Pieces(s, raw);
      var i := 0;
      while i < |s|
        invariant 0 <= i <= |s| && out == begun + Flatten(pieces, i)
      {
        PrintChar(s[i]);
        i := i + 1;
        Joined(begun, pieces, i);
      }
      VarPrintf("\"");
    }

    // ---------- expressions ----------

    method PrintCell(e: Expr)
      requires Valid() && Ready() && Readable(e)
      modifies this
      ensures Valid() && ts == old(ts) + Tokens(e) && ends[|ts|] == |out| && pars == old(pars)
      decreases e, 1
    {
      match e
      case Int(n) =>
        ShowIsInteger(n);
        WriteToken(Show(n), Decimal(Show(n)));
      case Text(s) => PrintText(s);
      case Sym(name) => WriteToken(name, Symbol(name));
      case Quote(e1) =>
        ghost var before := ts;
        WriteToken("'", QuoteMark);
        double := true;
        PrintCell(e1);
        Associates(before, [QuoteMark], Tokens(e1));
      case Seq(kind, items) => PrintExpression(kind, items);
      double := false;
    }

    method PrintText(s: string)
      requires Valid() && Bytes(s) && |s| < MAX_STRING
      modifies this`out, this`length, this`ts, this`ends
      ensures Valid() && ts == old(ts) + [Str(s)] && ends[|ts|] == |out|
    {
      ghost var lex := Lexeme(Str(s), raw);
      ghost var before := out;
      TokenFollows(out, lex, raw, ts, ends, Str(s));
      PrintString(s);
      assert out == before + lex;
      ts, ends := ts + [Str(s)], ends + [|out|];
    }

    method PrintHead(kind: Kind)
      requires Valid() && Ready()
      modifies this`out, this`length, this`ts, this`ends, this`pars
      ensures Valid() && Ready() && ts == old(ts) + [Left] + Head(kind) && pars == old(pars) + 1
    {
      WriteToken("(", Left);
      match kind {
        case Lambda =>
          WriteToken("lambda", Symbol("lambda"));
          WriteBlanks(" ");
        case Fexpr =>
          WriteToken("lambda-macro", Symbol("lambda-macro"));
          WriteBlanks(" ");
        case Expression =>
      }
      pars := pars + 1;
    }

    // An item, and a blank if another one follows.
    method PrintItem(items: seq<Expr>, i: nat, ghost before: seq<Token>, ghost all: seq<Token>) returns (i': nat)
      requires Valid() && Ready() && i < |items| && Readable(items[i])
      requires ts == before && before + TokensFrom(items, i) == all
      modifies this
      ensures Valid() && i' == i + 1 && ts + TokensFrom(items, i') == all && (i' < |items| ==> Ready())
          && pars == old(pars)
      decreases items, 0
    {
      PrintCell(items[i]);
      i' := i + 1;
      TokensStep(items, i, before, i');
      if i' < |items| {
        WriteBlanks(" ");
      }
    }

    // Start a new line where one is due; how many items go with the head on its line.
    method Break(kind: Kind, items: seq<Expr>) returns (pFlags: nat)
      requires Valid() && Ready()
      modifies this`out, this`length, this`current, this`double
      ensures Valid() && Ready()
    {
      if pars <= current || length > maxLength {
        PrettyPrint();
      }
      pFlags := 0;
      if kind == Expression && |items| > 0 && items[0].Sym? && items[0].name in printType {
        pFlags := printType[items[0].name];
      }
      if pFlags != 0 {
        PrettyPrint();
      }
    }

    method PrintExpression(kind: Kind, items: seq<Expr>)
      requires Valid() && Ready() && Readable(Seq(kind, items))
      modifies this
      ensures Valid() && ts == old(ts) + Tokens(Seq(kind, items)) && ends[|ts|] == |out| && pars == old(pars)
      decreases items, 2
    {
      ghost var before := ts;
      var pFlags := Break(kind, items);
      PrintHead(kind);
      ghost var all := ts + TokensFrom(items, 0);
      var i := PrintSome(items, 0, pFlags, all);
      if pFlags != 0 {
        PrettyPrint();
      }
      PrintRest(items, i, all);
      WriteToken(")", Right);
      pars := pars - 1;
      AllWritten(kind, items, before);
    }

    method PrintRest(items: seq<Expr>, i0: nat, ghost all: seq<Token>)
      requires Valid() && i0 <= |items| && ts + TokensFrom(items, i0) == all && (i0 < |items| ==> Ready())
      requires forall k :: 0 <= k < |items| ==> Readable(items[k])
      modifies this
      ensures Valid() && ts == all && pars == old(pars)
      decreases items, 1
    {
      var i := i0;
      while i < |items|
        invariant Valid() && i <= |items| && ts + TokensFrom(items, i) == all && (i < |items| ==> Ready())
        invariant pars == old(pars)
      {
        if length > maxLength {
          PrettyPrint();
        }
        i := PrintItem(items, i, ts, all);
      }
      NothingLeft(items, ts, all);
    }

    // The first items of a list whose first symbol asks for a line of their own.
    method PrintSome(items: seq<Expr>, i0: nat, count: nat, ghost all: seq<Token>) returns (i: nat)
      requires Valid() && Ready() && i0 == 0 && ts + TokensFrom(items, 0) == all
      requires forall k :: 0 <= k < |items| ==> Readable(items[k])
      modifies this
      ensures Valid() && i <= |items| && ts + TokensFrom(items, i) == all && (i < |items| ==> Ready())
          && pars == old(pars)
      decreases items, 1
    {
      i := 0;
      var k := 0;
      while k < count
        invariant Valid() && i <= |items| && ts + TokensFrom(items, i) == all && (i < |items| ==> Ready())
        invariant pars == old(pars)
      {
        if i == |items| {
          double := true;
          break;
        }
        i := PrintItem(items, i, ts, all);
        if i == |items| {
          double := true;
        }
        k := k + 1;
      }
    }
  }

  lemma Joined(begun: string, pieces: seq<string>, i: nat)
    requires 0 < i <= |pieces|
    ensures begun + Flatten(pieces, i - 1) + pieces[i - 1] == begun + Flatten(pieces, i)
  {
  }

  lemma NothingLeft(items: seq<Expr>, ts: seq<Token>, all: seq<Token>)
    requires ts + TokensFrom(items, |items|) == all
    ensures ts == all
  {
    assert TokensFrom(items, |items|) == [];
  }

  lemma AllWritten(kind: Kind, items: seq<Expr>, before: seq<Token>)
    ensures before + [Left] + Head(kind) + TokensFrom(items, 0) + [Right] == before + Tokens(Seq(kind, items))
  {
    Associates(before, [Left], Head(kind));
    Associates(before, [Left] + Head(kind), TokensFrom(items, 0));
    Associates(before, [Left] + Head(kind) + TokensFrom(items, 0), [Right]);
  }

  // Token by token a spelling of the others.
  predicate Spelled(ts: seq<Token>, us: seq<Token>) {
    |ts| == |us| && forall i :: 0 <= i < |us| ==> Spells(ts[i], us[i])
  }

  lemma {:induction false} AgreeSpelled(ts: seq<Token>, us: seq<Token>, n: nat)
    requires Spelled(ts, us) && n <= |us|
    ensures Agree(ts, 0, us, n)
  {
    if n > 0 { AgreeSpelled(ts, us, n - 1); }
  }

  // An expression is read from any text that holds its tokens, however its lambda words are
  // spelled and whatever the blanks between them.
  method ReadBack(text: string, e: Expr, ghost raw: bool, ghost ts: seq<Token>, ghost ends: seq<nat>)
    returns (status: Status, items: seq<Expr>, parStackCounter: nat, ptr: nat)
    requires Readable(e) && Spelled(ts, Tokens(e)) && Spaced(text, raw, ts, ends) && ends[0] == 0
    ensures status == Ok(true) && items == [e] && parStackCounter == 0 && ptr == ends[|ts|]
  {
    var reader := new ExpressionReader(text);
    AgreeSpelled(ts, Tokens(e), |Tokens(e)|);
    var kind;
    status, kind, items := reader.CompileExpression(true, Source(text, raw, ts, ends), 0, One(e));
    parStackCounter, ptr := reader.parStackCounter, reader.stream.ptr;
  }

  // A list is a lambda after lambda or fn, a macro after lambda-macro or fn-macro, and else an
  // expression.
  method ReadForm(text: string, ghost raw: bool, ghost head: seq<Token>, ghost items: seq<Expr>, ghost ends: seq<nat>)
    returns (status: Status, forms: seq<Expr>)
    requires forall i :: 0 <= i < |items| ==> Readable(items[i])
    requires head == [] || head == [Symbol("lambda")] || head == [Symbol("fn")]
          || head == [Symbol("lambda-macro")] || head == [Symbol("fn-macro")]
    requires Spaced(text, raw, [Left] + head + TokensFrom(items, 0) + [Right], ends) && ends[0] == 0
    ensures status == Ok(true)
    ensures head == [] ==> forms == [Seq(Expression, items)]
    ensures head == [Symbol("lambda")] || head == [Symbol("fn")] ==> forms == [Seq(Lambda, items)]
    ensures head == [Symbol("lambda-macro")] || head == [Symbol("fn-macro")] ==> forms == [Seq(Fexpr, items)]
  {
    ghost var kind :=
      if head == [] then Expression
      else if head == [Symbol("lambda")] || head == [Symbol("fn")] then Lambda
      else Fexpr;
    ghost var e, ts := Seq(kind, items), [Left] + head + TokensFrom(items, 0) + [Right];
    var reader := new ExpressionReader(text);
    AgreeSpelled(ts, Tokens(e), |Tokens(e)|);
    var kind0;
    status, kind0, forms := reader.CompileExpression(true, Source(text, raw, ts, ends), 0, One(e));
  }

  // What is printed is read back as it was, up to the end of the text.
  method PrintAndRead(e: Expr, raw: bool, tab: string, maxLength: int, toString: bool, printType: map<string, nat>)
    returns (text: string, status: Status, items: seq<Expr>, parStackCounter: nat, ptr: nat)
    requires Readable(e) && forall i :: 0 <= i < |tab| ==> Blank(tab[i])
    ensures status == Ok(true) && items == [e] && parStackCounter == 0 && ptr == |text|
  {
    var printer := new Printer(raw, tab, maxLength, toString, printType);
    printer.PrintCell(e);
    text := printer.out;
    assert printer.ts == Tokens(e);
    status, items, parStackCounter, ptr := ReadBack(text, e, raw, Tokens(e), printer.ends);
  }
}
