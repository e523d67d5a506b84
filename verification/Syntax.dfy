// Expressions, the tokens they are written with, and what a text made of tokens looks like.
module Syntax {

  const MAX_STRING := 2048
  const MAX_SYMBOL := 1023
  const MAX_DIGITS := 1001

  datatype Kind = Expression | Lambda | Fexpr

  // Nothing is an empty contents field; Numeral and Qualified are what the reader makes of
  // other number formats and of names with a context.
  datatype Expr =
    | Int(n: int)
    | Text(s: string)
    | Sym(name: string)
    | Quote(e: Expr)
    | Seq(kind: Kind, items: seq<Expr>)
    | Numeral(digits: string)
    | Qualified(context: string, name: string)
    | Nothing

  datatype Token =
    | Left | Right | QuoteMark
    | Str(s: string)
    | Symbol(name: string)
    | Decimal(digits: string)
    | Other(digits: string)
    | Context(name: string)
    | Empty
    | Bad

  // ---------- characters ----------

  const NUL: char := 0 as char

  predicate Blank(c: char) {
    NUL < c <= ' '
  }

  predicate Digit(c: char) {
    '0' <= c <= '9'
  }

  // The character at a position, or the terminating zero.
  function At(text: string, p: nat): char {
    if p < |text| then text[p] else NUL
  }

  // A character that no number or symbol goes on with.
  predicate Stop(c: char) {
    c <= ' ' || c == '"' || c == '\'' || c == '(' || c == ')'
  }

  // ---------- numbers ----------

  function DigitChar(d: nat): char
    requires d < 10
  {
    (d + 48) as char
  }

  function DigitValue(c: char): nat
    requires Digit(c)
  {
    c as nat - 48
  }

  lemma DigitCharacters(d: nat)
    requires d < 10
    ensures DigitChar(d) == "0123456789"[d] && DigitValue("0123456789"[d]) == d
  {
  }

  function Digits(n: nat): string {
    if n < 10 then [DigitChar(n)] else Digits(n / 10) + [DigitChar(n % 10)]
  }

  function Show(n: int): string {
    if n < 0 then "-" + Digits(-n) else Digits(n)
  }

  // strtoll in base ten.
  function DigitsValue(s: string): nat
    requires forall i :: 0 <= i < |s| ==> Digit(s[i])
  {
    if s == [] then 0 else DigitsValue(s[..|s| - 1]) * 10 + DigitValue(s[|s| - 1])
  }

  predicate Number(s: string) {
    (|s| > 0 && forall i :: 0 <= i < |s| ==> Digit(s[i])) ||
    (|s| > 1 && (s[0] == '-' || s[0] == '+') && forall i :: 1 <= i < |s| ==> Digit(s[i]))
  }

  function NumberValue(s: string): int
    requires Number(s)
  {
    if s[0] == '-' then 0 - DigitsValue(s[1..])
    else if s[0] == '+' then DigitsValue(s[1..])
    else DigitsValue(s)
  }

  lemma {:induction false} DigitsReadBack(n: nat)
    ensures |Digits(n)| > 0 && (forall i :: 0 <= i < |Digits(n)| ==> Digit(Digits(n)[i]))
    ensures DigitsValue(Digits(n)) == n
  {
    if n >= 10 {
      DigitsReadBack(n / 10);
      var s := Digits(n);
      assert s[..|s| - 1] == Digits(n / 10);
    } else {
      assert Digits(n)[..0] == [];
    }
  }

  lemma NumberReadBack(n: int)
    ensures Number(Show(n)) && NumberValue(Show(n)) == n
  {
    if n < 0 {
      DigitsReadBack(-n);
      assert Show(n)[1..] == Digits(-n);
    } else {
      DigitsReadBack(n);
    }
  }

  // No leading zero, so the digits are not taken for octal ones.
  lemma {:induction false} NoLeadingZero(n: nat)
    ensures |Digits(n)| > 0 && (|Digits(n)| > 1 ==> Digits(n)[0] != '0')
    ensures n < 10 ==> |Digits(n)| == 1
  {
    if n >= 10 {
      NoLeadingZero(n / 10);
      if n / 10 < 10 { assert n / 10 > 0; }
    }
  }

  function Pow10(k: nat): nat { if k == 0 then 1 else 10 * Pow10(k - 1) }

  lemma {:induction false} DigitsLength(n: nat, k: nat)
    requires k > 0 && n < Pow10(k)
    ensures |Digits(n)| <= k
  {
    if n >= 10 { DigitsLength(n / 10, k - 1); }
  }

  predicate Int64(n: int) {
    -0x8000_0000_0000_0000 <= n <= 0x7fff_ffff_ffff_ffff
  }

  lemma ShowLength(n: int)
    requires Int64(n)
    ensures |Show(n)| <= 20
  {
    assert Pow10(19) == 10000000000000000000 by {
      assert Pow10(4) == 10000;
      assert Pow10(8) == 100000000;
      assert Pow10(12) == 1000000000000;
      assert Pow10(16) == 10000000000000000;
    }
    DigitsLength(if n < 0 then -n else n, 19);
  }

  // ---------- strings ----------

  function Decimal3(c: char): (s: string)
    requires c < 256 as char
    ensures |s| == 3 && Digit(s[0]) && Digit(s[1]) && Digit(s[2])
  {
    [DigitChar(c as nat / 100), DigitChar(c as nat / 10 % 10), DigitChar(c as nat % 10)]
  }

  // How a character is written inside a string; raw keeps the output to plain characters.
  function Escape(c: char, raw: bool): (s: string)
    requires c < 256 as char
    ensures |s| > 0
  {
    if c == 8 as char then "\\b"
    else if c == 12 as char then "\\f"
    else if c == '\n' then "\\n"
    else if c == '\r' then "\\r"
    else if c == '\t' then "\\t"
    else if c == '\\' then "\\\\"
    else if c == '"' then "\\\""
    else if c < ' ' || (raw && c > 126 as char) then "\\" + Decimal3(c)
    else [c]
  }

  predicate Bytes(s: string) {
    forall i :: 0 <= i < |s| ==> s[i] < 256 as char
  }

  // The first n pieces, one after the other.
  function Flatten(pieces: seq<string>, n: nat): string
    requires n <= |pieces|
  {
    if n == 0 then "" else Flatten(pieces, n - 1) + pieces[n - 1]
  }

  function Pieces(s: string, raw: bool): (r: seq<string>)
    requires Bytes(s)
    ensures |r| == |s| && forall i :: 0 <= i < |s| ==> r[i] == Escape(s[i], raw)
  {
    if s == "" then [] else Pieces(s[..|s| - 1], raw) + [Escape(s[|s| - 1], raw)]
  }

  function EscapeAll(s: string, raw: bool): string
    requires Bytes(s)
  {
    Flatten(Pieces(s, raw), |s|)
  }

  // ---------- tokens in a text ----------

  predicate SymbolChar(c: char) {
    c > ' ' && c != '"' && c != '\'' && c != '(' && c != ')' && c != ':' && c != ','
  }

  // A name that is read as one symbol: it does not start like a number, a comment, a braced
  // string or a tag.
  predicate SymbolName(name: string) {
    && 1 <= |name| <= MAX_SYMBOL && (forall i :: 0 <= i < |name| ==> SymbolChar(name[i]))
    && !Digit(name[0]) && name[0] != ';' && name[0] != '#' && name[0] != '{' && name[0] != '['
    && (name[0] == '.' || name[0] == '-' || name[0] == '+' ==> |name| == 1 || (!Digit(name[1]) && name[1] != '.'))
  }

  predicate Integer(digits: string) {
    && Number(digits) && |digits| <= MAX_DIGITS && digits[0] != '+'
    && (digits[0] == '0' ==> |digits| == 1) && (digits[0] == '-' && digits[1] == '0' ==> |digits| == 2)
  }

  predicate Good(t: Token) {
    match t
    case Left => true
    case Right => true
    case QuoteMark => true
    case Str(s) => Bytes(s) && |s| < MAX_STRING
    case Symbol(name) => SymbolName(name)
    case Decimal(digits) => Integer(digits)
    case _ => false
  }

  function Lexeme(t: Token, raw: bool): string
    requires Good(t)
  {
    match t
    case Left => "("
    case Right => ")"
    case QuoteMark => "'"
    case Str(s) => "\"" + EscapeAll(s, raw) + "\""
    case Symbol(name) => name
    case Decimal(digits) => digits
    case _ => ""
  }

  // Symbols and numbers go on until something stops them.
  predicate NeedsStop(t: Token) {
    t.Symbol? || t.Decimal?
  }

  // The characters of s stand in the text from start on.
  ghost predicate Occurs(text: string, start: nat, s: string) {
    start + |s| <= |text| && forall i {:trigger s[i]} :: 0 <= i < |s| ==> text[start + i] == s[i]
  }

  ghost predicate TokenAt(text: string, raw: bool, from: nat, start: nat, t: Token, to: nat) {
    && from <= start <= to <= |text| && (forall i :: from <= i < start ==> Blank(text[i]))
    && Good(t) && to == start + |Lexeme(t, raw)| && Occurs(text, start, Lexeme(t, raw))
    && (NeedsStop(t) ==> Stop(At(text, to)))
  }

  // Any number of blanks, and then the token.
  ghost predicate TokenIn(text: string, raw: bool, from: nat, t: Token, to: nat) {
    exists start :: TokenAt(text, raw, from, start, t, to)
  }

  // Marks the positions at which the tokens of a text are looked at.
  predicate Place(i: int) {
    true
  }

  // The tokens, one after the other, with any blanks between them; token i ends at ends[i + 1].
  ghost predicate Spaced(text: string, raw: bool, ts: seq<Token>, ends: seq<nat>) {
    && |ends| == |ts| + 1
    && forall i {:trigger Place(i)} :: Place(i) && 0 <= i < |ts| ==> TokenIn(text, raw, ends[i], ts[i], ends[i + 1])
  }

  lemma SpacedToken(text: string, raw: bool, ts: seq<Token>, ends: seq<nat>, i: nat)
    requires Spaced(text, raw, ts, ends) && i < |ts|
    ensures TokenIn(text, raw, ends[i], ts[i], ends[i + 1])
  {
    assert Place(i);
  }

  // ---------- expressions ----------

  predicate Keyword(name: string) {
    name == "lambda" || name == "fn" || name == "lambda-macro" || name == "fn-macro"
        || (|name| >= 6 && name[..6] == "[text]")
  }

  // What the printer writes so that it can be read again.
  predicate Readable(e: Expr) {
    match e
    case Int(n) => Int64(n)
    case Text(s) => Bytes(s) && |s| < MAX_STRING
    case Sym(name) => SymbolName(name) && !Keyword(name)
    case Quote(e1) => Readable(e1)
    case Seq(_, items) => forall i :: 0 <= i < |items| ==> Readable(items[i])
    case _ => false
  }

  function Head(kind: Kind): seq<Token> {
    match kind
    case Expression => []
    case Lambda => [Symbol("lambda")]
    case Fexpr => [Symbol("lambda-macro")]
  }

  function Tokens(e: Expr): seq<Token>
    decreases e, 0
  {
    match e
    case Int(n) => [Decimal(Show(n))]
    case Text(s) => [Str(s)]
    case Sym(name) => [Symbol(name)]
    case Quote(e1) => [QuoteMark] + Tokens(e1)
    case Seq(kind, items) => [Left] + Head(kind) + TokensFrom(items, 0) + [Right]
    case _ => []
  }

  // The tokens of the items from index i on.
  function TokensFrom(items: seq<Expr>, i: nat): seq<Token>
    requires i <= |items|
    decreases items, |items| - i
  {
    if i == |items| then [] else Tokens(items[i]) + TokensFrom(items, i + 1)
  }
}
