// Reading one token from a text.
module Tokenizer {
  import opened Syntax
  import Utf8

  predicate IsHex(c: char) {
    Digit(c) || 'a' <= c <= 'f' || 'A' <= c <= 'F'
  }

  function HexValue(c: char): nat
    requires IsHex(c)
  {
    if Digit(c) then DigitValue(c) else if 'a' <= c <= 'f' then c as nat - 87 else c as nat - 55
  }

  function Upper(c: char): char {
    if 'a' <= c <= 'z' then (c as nat - 32) as char else c
  }

  // The bytes of a character, as the string holds them.
  function BytesOf(s: seq<int>): string {
    if s == [] then "" else BytesOf(s[..|s| - 1]) + [if 0 <= s[|s| - 1] < 256 then s[|s| - 1] as char else NUL]
  }

  predicate LineEnd(c: char) {
    c == '\n' || c == '\r'
  }

  lemma HexCharacters(d: nat)
    requires d < 16
    ensures IsHex("0123456789abcdef"[d]) && HexValue("0123456789abcdef"[d]) == d
    ensures IsHex("0123456789ABCDEF"[d]) && HexValue("0123456789ABCDEF"[d]) == d
  {
  }

  // n hexadecimal digits, and their value.
  predicate Hex(text: string, p: nat, n: nat) {
    p + n <= |text| && forall i :: p <= i < p + n ==> IsHex(text[i])
  }

  function HexNumber(text: string, p: nat, n: nat): (v: nat)
    requires Hex(text, p, n)
    ensures (n == 0 ==> v == 0) && (n == 1 ==> v < 16) && (n == 2 ==> v < 0x100)
    ensures (n == 3 ==> v < 0x1000) && (n == 4 ==> v < 0x10000)
  {
    if n == 0 then 0 else HexNumber(text, p, n - 1) * 16 + HexValue(text[p + n - 1])
  }

  predicate Octal(c: char) {
    '0' <= c <= '7'
  }

  // Opening braces minus closing ones.
  function Depth(text: string, from: nat, end: nat): int
    requires from <= end <= |text|
    decreases end
  {
    if from == end then 0
    else Depth(text, from, end - 1) + if text[end - 1] == '{' then 1 else if text[end - 1] == '}' then -1 else 0
  }

  // ---------- what is known about the token to come ----------

  lemma LexemeStart(t: Token, raw: bool)
    requires Good(t)
    ensures |Lexeme(t, raw)| > 0 && Lexeme(t, raw)[0] > ' ' && Lexeme(t, raw)[0] != ';' && Lexeme(t, raw)[0] != '#'
  {
  }

  lemma SliceAt(text: string, start: nat, to: nat, s: string)
    requires to == start + |s| && Occurs(text, start, s)
    ensures text[start..to] == s && forall i :: 0 <= i < |s| ==> text[start + i] == s[i]
  {
  }

  // The blanks before a token end where the token starts.
  lemma StartFound(text: string, raw: bool, from: nat, start: nat, t: Token, to: nat, p: nat)
    requires TokenAt(text, raw, from, start, t, to) && from <= p <= |text|
    requires (forall i :: from <= i < p ==> Blank(text[i])) && !Blank(At(text, p))
    ensures p == start < to && At(text, p) == Lexeme(t, raw)[0]
  {
    LexemeStart(t, raw);
    SliceAt(text, start, to, Lexeme(t, raw));
    assert text[start + 0] == Lexeme(t, raw)[0];
    assert p < start ==> Blank(At(text, p));
    assert start < p ==> Blank(At(text, start));
  }

  // Digits are taken exactly up to the end of the expected number.
  lemma AllDigits(text: string, raw: bool, start: nat, t: Token, to: nat, sign: string, from: nat, p: nat, tkn: string)
    requires t.Decimal? && TokenAt(text, raw, start, start, t, to) && |sign| <= 1
    requires from == start + |sign| < to && sign == t.digits[..|sign|]
        && (forall i :: from <= i < to ==> Digit(text[i]))
    requires from <= p <= |text| && tkn == sign + text[from..p] && (forall i :: from <= i < p ==> Digit(text[i]))
    requires !Digit(At(text, p)) || |tkn| >= MAX_DIGITS
    ensures p == to && tkn == t.digits && Stop(At(text, p))
  {
    SliceAt(text, start, to, t.digits);
    assert to <= p;
    assert |tkn| == |sign| + (p - from);
    assert p == to;
    assert text[from..to] == t.digits[|sign|..];
  }

  // ---------- escapes ----------

  function Named(c: char): char {
    if c == 'n' then '\n' else if c == 'b' then 8 as char else if c == 'f' then 12 as char
    else if c == 'r' then '\r' else if c == 't' then '\t' else c
  }

  function Value3(a: char, b: char, c: char): nat
    requires Digit(a) && Digit(b) && Digit(c)
  {
    DigitValue(a) * 100 + DigitValue(b) * 10 + DigitValue(c)
  }

  // The escape of c is what the text has at p.
  ghost predicate Written(text: string, p: nat, c: char, raw: bool) {
    c < 256 as char && Occurs(text, p, Escape(c, raw))
  }

  lemma WrittenAs(text: string, p: nat, c: char, raw: bool)
    requires Written(text, p, c, raw)
    ensures forall i :: 0 <= i < |Escape(c, raw)| ==> At(text, p + i) == Escape(c, raw)[i]
    ensures At(text, p) == Escape(c, raw)[0]
  {
    SliceAt(text, p, p + |Escape(c, raw)|, Escape(c, raw));
  }

  lemma ThreeDigits(c: char)
    requires c < 256 as char
    ensures Value3(Decimal3(c)[0], Decimal3(c)[1], Decimal3(c)[2]) == c as nat
  {
  }

  // After a backslash: three digits that give the character, or its name.
  ghost predicate Escaped(text: string, p: nat, c: char, raw: bool)
    requires c < 256 as char
  {
    if Digit(At(text, p + 1)) && Digit(At(text, p + 2)) && Digit(At(text, p + 3))
    then Value3(At(text, p + 1), At(text, p + 2), At(text, p + 3)) == c as nat && |Escape(c, raw)| == 4
    else At(text, p + 1) in "bfnrt\\\"" && Named(At(text, p + 1)) == c && |Escape(c, raw)| == 2
  }

  lemma EscapedAs(text: string, p: nat, c: char, raw: bool)
    requires Written(text, p, c, raw) && At(text, p) == '\\'
    ensures Escaped(text, p, c, raw)
  {
    WrittenAs(text, p, c, raw);
    ThreeDigits(c);
    var e := Escape(c, raw);
    assert At(text, p + 1) == e[1];
    if |e| == 4 {
      assert e == "\\" + Decimal3(c);
      assert At(text, p + 2) == e[2] && At(text, p + 3) == e[3];
    }
  }

  lemma {:induction false} FlattenPart(pieces: seq<string>, k: nat, n: nat)
    requires k < n <= |pieces|
    ensures |Flatten(pieces, k)| + |pieces[k]| <= |Flatten(pieces, n)|
    ensures forall i :: 0 <= i < |pieces[k]| ==> Flatten(pieces, n)[|Flatten(pieces, k)| + i] == pieces[k][i]
  {
    if k < n - 1 { FlattenPart(pieces, k, n - 1); }
  }

  lemma StretchAt(text: string, base: nat, all: string, i: nat, part: string)
    requires base + |all| <= |text| && text[base..base + |all|] == all && i + |part| <= |all|
    requires forall k :: 0 <= k < |part| ==> all[i + k] == part[k]
    ensures text[base + i..base + i + |part|] == part
  {
    forall k | 0 <= k < |part| ensures text[base + i..base + i + |part|][k] == part[k] {
      assert text[base..base + |all|][i + k] == all[i + k];
    }
  }

  // An expected string: what is between the quotes, and the closing quote.
  lemma StringAt(text: string, start: nat, s: string, raw: bool, to: nat)
    requires TokenAt(text, raw, start, start, Str(s), to)
    ensures to == start + 2 + |EscapeAll(s, raw)| && Bytes(s) && |s| < MAX_STRING
    ensures text[start + 1..to - 1] == EscapeAll(s, raw) && At(text, to - 1) == '"'
  {
    var all := EscapeAll(s, raw);
    var lex := Lexeme(Str(s), raw);
    SliceAt(text, start, to, lex);
    StretchAt(text, start, lex, 1, all);
    assert text[start + (1 + |all|)] == lex[1 + |all|] == '"';
  }

  // From p on the characters of s from k on are written, and then a quote.
  ghost predicate Remaining(text: string, p: nat, s: string, k: nat, raw: bool, to: nat) {
    && Bytes(s)
    && k <= |s| < MAX_STRING
    && if k < |s| then Written(text, p, s[k], raw) else p + 1 == to <= |text| && text[p] == '"'
  }

  lemma PieceAt(text: string, base: nat, pieces: seq<string>, k: nat, n: nat)
    requires k < n <= |pieces| && base + |Flatten(pieces, n)| <= |text|
    requires text[base..base + |Flatten(pieces, n)|] == Flatten(pieces, n)
    ensures base + |Flatten(pieces, k)| + |pieces[k]| <= base + |Flatten(pieces, n)|
    ensures text[base + |Flatten(pieces, k)|..base + |Flatten(pieces, k)| + |pieces[k]|] == pieces[k]
  {
    FlattenPart(pieces, k, n);
    StretchAt(text, base, Flatten(pieces, n), |Flatten(pieces, k)|, pieces[k]);
  }

  lemma PieceWritten(text: string, base: nat, s: string, raw: bool, pieces: seq<string>, k: nat,
                     p: nat)
    requires Bytes(s) && k < |s| == |pieces| && pieces[k] == Escape(s[k], raw) && p == base + |Flatten(pieces, k)|
    requires base + |Flatten(pieces, |s|)| < |text| && text[base..base + |Flatten(pieces, |s|)|] == Flatten(pieces, |s|)
    ensures Written(text, p, s[k], raw)
  {
    PieceAt(text, base, pieces, k, |s|);
    WrittenPiece(text, p, s[k], raw, pieces[k]);
  }

  lemma RemainingAt(text: string, base: nat, s: string, raw: bool, k: nat, p: nat)
    requires Bytes(s) && k <= |s| < MAX_STRING && base + |EscapeAll(s, raw)| < |text|
    requires text[base..base + |EscapeAll(s, raw)|] == EscapeAll(s, raw)
    requires text[base + |EscapeAll(s, raw)|] == '"' && p == base + |Flatten(Pieces(s, raw), k)|
    ensures Remaining(text, p, s, k, raw, base + |EscapeAll(s, raw)| + 1)
  {
    if k < |s| {
      PieceWritten(text, base, s, raw, Pieces(s, raw), k, p);
    }
  }

  lemma WrittenPiece(text: string, p: nat, c: char, raw: bool, piece: string)
    requires c < 256 as char && piece == Escape(c, raw) && p + |piece| <= |text| && text[p..p + |piece|] == piece
    ensures Written(text, p, c, raw)
  {
  }

  // No escape starts with a quote or ends the text.
  lemma EscapeFirst(c: char, raw: bool)
    requires c < 256 as char
    ensures Escape(c, raw)[0] != '"' && Escape(c, raw)[0] != NUL
  {
  }

  // The loop over a string stops at the closing quote and nowhere before.
  lemma StringEnds(text: string, base: nat, s: string, raw: bool, to: nat, k: nat, p: nat)
    requires Bytes(s) && k <= |s| < MAX_STRING && to == base + |EscapeAll(s, raw)| + 1 <= |text|
    requires text[base..to - 1] == EscapeAll(s, raw) && text[to - 1] == '"'
    requires p == base + |Flatten(Pieces(s, raw), k)|
    requires At(text, p) == '"' || At(text, p) == NUL || k >= MAX_STRING
    ensures k == |s| && p + 1 == to && At(text, p) == '"' && s[..k] == s
  {
    RemainingAt(text, base, s, raw, k, p);
    if k < |s| {
      WrittenAs(text, p, s[k], raw);
      EscapeFirst(s[k], raw);
    }
  }

  // What is expected when a symbol's first characters, tkn, have been read up to p.
  ghost predicate ExpectsSymbol(text: string, raw: bool, start: nat, t: Token, to: nat, p: nat, tkn: string) {
    t.Symbol? && TokenAt(text, raw, start, start, t, to) && |tkn| > 0 && p == start + |tkn| <= to
        && tkn == text[start..p]
  }

  class Stream {
    const text: string
    var ptr: nat

    constructor (text: string)
      ensures this.text == text && ptr == 0
    {
      this.text, ptr := text, 0;
    }

    method SkipBlanks()
      requires ptr <= |text|
      modifies this`ptr
      ensures old(ptr) <= ptr <= |text| && (forall i :: old(ptr) <= i < ptr ==> Blank(text[i])) && !Blank(At(text, ptr))
    {
      while Blank(At(text, ptr))
        invariant old(ptr) <= ptr <= |text| && forall i :: old(ptr) <= i < ptr ==> Blank(text[i])
        decreases |text| - ptr
      {
        ptr := ptr + 1;
      }
    }

    // Skip a comment up to the end of its line; false at the end of the text.
    method SkipComment() returns (more: bool)
      requires ptr < |text|
      modifies this`ptr
      ensures old(ptr) < ptr <= |text|
      ensures if more then old(ptr) + 1 < ptr && LineEnd(text[ptr - 1]) else At(text, ptr) == NUL
      ensures forall i :: old(ptr) < i < (if more then ptr - 1 else ptr) ==> !LineEnd(text[i]) && text[i] != NUL
    {
      ptr := ptr + 1;
      while At(text, ptr) != NUL && !LineEnd(At(text, ptr))
        invariant old(ptr) < ptr <= |text|
        invariant forall i :: old(ptr) < i < ptr ==> !LineEnd(text[i]) && text[i] != NUL
        decreases |text| - ptr
      {
        ptr := ptr + 1;
      }
      if At(text, ptr) == NUL {
        return false;
      }
      ptr := ptr + 1;
      more := true;
    }

    // Skip blanks and comments, up to where the expected token starts.
    method Strip(ghost raw: bool, ghost start: nat, ghost t: Token, ghost to: nat) returns (more: bool)
      requires ptr <= |text|
      modifies this`ptr
      ensures old(ptr) <= ptr <= |text| && (more ==> ptr < |text| && At(text, ptr) > ' ')
      ensures At(text, old(ptr)) > ' ' && At(text, old(ptr)) != ';' && At(text, old(ptr)) != '#' ==>
        more && ptr == old(ptr)
      ensures TokenAt(text, raw, old(ptr), start, t, to) ==>
        more && ptr == start < to && At(text, ptr) == Lexeme(t, raw)[0]
    {
      SkipBlanks();
      ghost var first := ptr;
      if TokenAt(text, raw, old(ptr), start, t, to) {
        StartFound(text, raw, old(ptr), start, t, to, ptr);
        LexemeStart(t, raw);
      }
      more := At(text, ptr) != NUL;
      while more && (At(text, ptr) == ';' || At(text, ptr) == '#')
        invariant first <= ptr <= |text| && (more ==> ptr < |text| && At(text, ptr) > ' ')
        invariant At(text, first) != ';' && At(text, first) != '#' ==> ptr == first && more == (At(text, first) != NUL)
        invariant TokenAt(text, raw, old(ptr), start, t, to) ==> more && ptr == first
        decreases |text| - ptr, more
      {
        more := SkipComment();
        if more {
          SkipBlanks();
          more := At(text, ptr) != NUL;
        }
      }
    }

    // Append digits to a token, up to a total length.
    method TakeDigits(tkn: string, max: nat) returns (r: string)
      requires ptr <= |text|
      modifies this`ptr
      ensures old(ptr) <= ptr <= |text| && r == tkn + text[old(ptr)..ptr]
      ensures forall i :: old(ptr) <= i < ptr ==> Digit(text[i])
      ensures !Digit(At(text, ptr)) || |r| >= max
    {
      r := tkn;
      while Digit(At(text, ptr)) && |r| < max
        invariant old(ptr) <= ptr <= |text| && r == tkn + text[old(ptr)..ptr]
        invariant forall i :: old(ptr) <= i < ptr ==> Digit(text[i])
        decreases |text| - ptr
      {
        r := r + [text[ptr]];
        ptr := ptr + 1;
      }
    }

    // The expected token is a number that starts before the digits at ptr, after a sign or not.
    ghost predicate ExpectsNumber(raw: bool, start: nat, t: Token, to: nat, sign: string)
      reads this
    {
      && t.Decimal? && TokenAt(text, raw, start, start, t, to) && |sign| <= 1
      && ptr == start + |sign| < to && sign == t.digits[..|sign|]
      && (forall i :: ptr <= i < to ==> Digit(text[i])) && (text[ptr] == '0' ==> to == ptr + 1)
    }

    method ReadOctal(sign: string) returns (token: Token)
      requires ptr < |text|
      modifies this`ptr
      ensures old(ptr) < ptr <= |text| && token == Other(sign + text[old(ptr)..ptr])
      ensures (forall i :: old(ptr) < i < ptr ==> Octal(text[i])) && !Octal(At(text, ptr))
    {
      var tkn := sign + [text[ptr]];
      ptr := ptr + 1;
      while Octal(At(text, ptr))
        invariant old(ptr) < ptr <= |text| && tkn == sign + text[old(ptr)..ptr]
        invariant forall i :: old(ptr) < i < ptr ==> Octal(text[i])
        decreases |text| - ptr
      {
        tkn := tkn + [text[ptr]];
        ptr := ptr + 1;
      }
      token := Other(tkn);
    }

    // A hexadecimal or binary number: its letter is at ptr.
    method ReadBased(tkn0: string, letter: char) returns (token: Token)
      requires ptr < |text|
      modifies this`ptr
      ensures old(ptr) < ptr <= |text| && token == Other(tkn0 + text[old(ptr)..ptr])
      ensures forall i :: old(ptr) < i < ptr ==>
        if letter == 'x' || letter == 'X' then IsHex(text[i]) else text[i] == '0' || text[i] == '1'
      ensures |token.digits| < MAX_DIGITS ==>
        !(if letter == 'x' || letter == 'X' then IsHex(At(text, ptr)) else At(text, ptr) == '0' || At(text, ptr) == '1')
    {
      var tkn := tkn0 + [text[ptr]];
      ptr := ptr + 1;
      while |tkn| < MAX_DIGITS
          && (if Upper(letter) == 'X' then IsHex(At(text, ptr)) else At(text, ptr) == '0' || At(text, ptr) == '1')
        invariant old(ptr) < ptr <= |text| && tkn == tkn0 + text[old(ptr)..ptr]
        invariant forall i :: old(ptr) < i < ptr ==>
          if letter == 'x' || letter == 'X' then IsHex(text[i]) else text[i] == '0' || text[i] == '1'
        decreases |text| - ptr
      {
        tkn := tkn + [text[ptr]];
        ptr := ptr + 1;
      }
      token := Other(tkn);
    }

    method FinishDecimal(tkn: string) returns (token: Token)
      requires ptr <= |text|
      modifies this`ptr
      ensures old(ptr) <= ptr <= |text| && token.Decimal?
      ensures At(text, old(ptr)) != 'L' ==> ptr == old(ptr) && token.digits == tkn
      ensures At(text, old(ptr)) == 'L' ==> ptr == old(ptr) + 1 && token.digits == tkn + "L"
    {
      token := Decimal(tkn);
      if At(text, ptr) == 'L' {
        token := Decimal(tkn + [text[ptr]]);
        ptr := ptr + 1;
      }
    }

    // An exponent is at ptr: digits, perhaps after a sign.
    method ReadExponent(tkn0: string, isFloat: bool) returns (token: Token)
      requires ptr < |text| && Upper(text[ptr]) == 'E'
      modifies this`ptr
      ensures old(ptr) <= ptr <= |text|
      ensures token == Other(tkn0 + text[old(ptr)..ptr]) || (!isFloat && token == Decimal(tkn0 + text[old(ptr)..ptr]))
    {
      var tkn := tkn0;
      if Digit(At(text, ptr + 2)) && (At(text, ptr + 1) == '-' || At(text, ptr + 1) == '+') {
        tkn := tkn + [text[ptr]];
        ptr := ptr + 1;
      }
      assert tkn == tkn0 + text[old(ptr)..ptr];
      if !Digit(At(text, ptr + 1)) {
        return if isFloat then Other(tkn) else Decimal(tkn);
      }
      tkn := tkn + [text[ptr]];
      ptr := ptr + 1;
      assert tkn == tkn0 + text[old(ptr)..ptr];
      ghost var middle := ptr;
      tkn := TakeDigits(tkn, MAX_SYMBOL);
      assert text[old(ptr)..ptr] == text[old(ptr)..middle] + text[middle..ptr];
      token := Other(tkn);
    }

    // A decimal point or an exponent is at ptr.
    method ReadFraction(tkn0: string) returns (token: Token)
      requires ptr < |text| && (text[ptr] == '.' || Upper(text[ptr]) == 'E')
      modifies this`ptr
      ensures old(ptr) <= ptr <= |text| && (At(text, old(ptr)) == '.' ==> ptr > old(ptr))
      ensures token == Other(tkn0 + text[old(ptr)..ptr]) || token == Decimal(tkn0 + text[old(ptr)..ptr])
      ensures At(text, old(ptr)) == '.' ==> token.Other?
    {
      var tkn, isFloat := tkn0, text[ptr] == '.';
      if isFloat {
        tkn := tkn + [text[ptr]];
        ptr := ptr + 1;
        tkn := TakeDigits(tkn, MAX_DIGITS);
        assert [text[old(ptr)]] + text[old(ptr) + 1..ptr] == text[old(ptr)..ptr];
      }
      assert tkn == tkn0 + text[old(ptr)..ptr];
      ghost var middle := ptr;
      token := Other(tkn);
      if Upper(At(text, ptr)) == 'E' {
        token := ReadExponent(tkn, isFloat);
      }
      assert text[old(ptr)..ptr] == text[old(ptr)..middle] + text[middle..ptr];
    }

    // A number, at a digit or a decimal point; a sign may already be in the token.
    method ReadNumber(sign: string, ghost raw: bool, ghost start: nat, ghost t: Token, ghost to: nat)
      returns (token: Token)
      requires ptr < |text| && (Digit(text[ptr]) || text[ptr] == '.') && |sign| <= 1
      modifies this`ptr
      ensures old(ptr) < ptr <= |text|
      ensures old(ExpectsNumber(raw, start, t, to, sign)) ==> token == t && ptr == to
    {
      if text[ptr] == '0' && Digit(At(text, ptr + 1)) {
        token := ReadOctal(sign);
        return;
      }
      ghost var expected := ExpectsNumber(raw, start, t, to, sign);
      var tkn := TakeDigits(sign, MAX_DIGITS);
      if expected { AllDigits(text, raw, start, t, to, sign, old(ptr), ptr, tkn); }
      var c := At(text, ptr);
      if tkn != [] && tkn[0] == '0' && (Upper(c) == 'X' || Upper(c) == 'B') {
        token := ReadBased(tkn, c);
      } else if c != '.' && Upper(c) != 'E' {
        token := FinishDecimal(tkn);
      } else {
        token := ReadFraction(tkn);
      }
    }

    // ---------- strings ----------

    // One character of a string, perhaps written as an escape; nothing at the end of the text.
    method ReadChar(ghost c: char, ghost raw: bool) returns (r: string)
      requires ptr < |text| && text[ptr] != '"' && text[ptr] != NUL
      modifies this`ptr
      ensures old(ptr) < ptr <= |text|
      ensures Written(text, old(ptr), c, raw) ==> r == [c] && ptr == old(ptr) + |Escape(c, raw)|
    {
      ghost var written := Written(text, ptr, c, raw);
      if written { WrittenAs(text, ptr, c, raw); }
      if text[ptr] != '\\' {
        r := [text[ptr]];
        ptr := ptr + 1;
        return;
      }
      if written { EscapedAs(text, ptr, c, raw); }
      ptr := ptr + 1;
      if Digit(At(text, ptr)) && Digit(At(text, ptr + 1)) && Digit(At(text, ptr + 2)) {
        r := [(Value3(text[ptr], text[ptr + 1], text[ptr + 2]) % 256) as char];
        ptr := ptr + 3;
        return;
      }
      r := ReadEscape();
    }

    // The character after a backslash.
    method ReadEscape() returns (r: string)
      requires ptr <= |text|
      modifies this`ptr
      ensures old(ptr) <= ptr <= |text|
      ensures At(text, old(ptr)) in "bfnrt\\\"" ==> ptr == old(ptr) + 1 && r == [Named(At(text, old(ptr)))]
      ensures At(text, old(ptr)) == 'n' ==> r == "\n"
      ensures At(text, old(ptr)) == 'r' ==> r == "\r"
      ensures At(text, old(ptr)) == 't' ==> r == "\t"
      ensures At(text, old(ptr)) == 'b' ==> r == [8 as char]
      ensures At(text, old(ptr)) == 'f' ==> r == [12 as char]
      ensures At(text, old(ptr)) == 'x' && Hex(text, old(ptr) + 1, 2) ==>
        r == [HexNumber(text, old(ptr) + 1, 2) as char] && ptr == old(ptr) + 3
      ensures At(text, old(ptr)) == 'u' && Hex(text, old(ptr) + 1, 4) ==>
        r == BytesOf(Utf8.Encode(HexNumber(text, old(ptr) + 1, 4))) && ptr == old(ptr) + 5
    {
      var c := At(text, ptr);
      if c == NUL {
        return "";
      }
      if c == 'x' && Hex(text, ptr + 1, 2) {
        r := [HexNumber(text, ptr + 1, 2) as char];
        ptr := ptr + 3;
        return;
      }
      if (c == 'x' || c == 'u') && Hex(text, ptr + 1, 4) {
        r := BytesOf(Utf8.Encode(HexNumber(text, ptr + 1, 4)));
        ptr := ptr + 5;
        return;
      }
      r := [Named(c)];
      ptr := ptr + 1;
    }

    // The expected string starts at base, after the opening quote; k characters have been read.
    ghost predicate InString(raw: bool, base: nat, s: string, to: nat, k: nat, tkn: string)
      reads this
    {
      && Bytes(s) && k <= |s| < MAX_STRING && to == base + |EscapeAll(s, raw)| + 1 <= |text|
      && text[base..to - 1] == EscapeAll(s, raw) && text[to - 1] == '"'
      && tkn == s[..k] && ptr == base + |Flatten(Pieces(s, raw), k)|
    }

    method ReadNext(tkn: string, ghost raw: bool, ghost base: nat, ghost s: string, ghost to: nat, ghost k: nat)
      returns (r: string)
      requires ptr < |text| && text[ptr] != '"' && text[ptr] != NUL
      modifies this`ptr
      ensures old(ptr) < ptr <= |text|
      ensures old(InString(raw, base, s, to, k, tkn)) ==> k < |s| && InString(raw, base, s, to, k + 1, r)
    {
      ghost var inside := InString(raw, base, s, to, k, tkn);
      if inside { RemainingAt(text, base, s, raw, k, ptr); }
      var c := ReadChar(if inside && k < |s| then s[k] else NUL, raw);
      r := tkn + c;
      assert inside ==> s[..k + 1] == s[..k] + [s[k]];
    }

    // A string in quotes; the opening one has been read.
    method ReadString(ghost raw: bool, ghost start: nat, ghost t: Token, ghost to: nat) returns (token: Token)
      requires ptr <= |text|
      modifies this`ptr
      ensures old(ptr) <= ptr <= |text| && !token.Empty?
      ensures t.Str? && TokenAt(text, raw, start, start, t, to) && old(ptr) == start + 1 ==> token == t && ptr == to
    {
      var tkn := "";
      ghost var base, k := ptr, 0;
      ghost var expected := t.Str? && TokenAt(text, raw, start, start, t, to) && ptr == start + 1;
      ghost var s := if expected then t.s else "";
      if expected { StringAt(text, start, s, raw, to); }
      while At(text, ptr) != '"' && At(text, ptr) != NUL && |tkn| < MAX_STRING
        invariant old(ptr) <= ptr <= |text|
        invariant expected ==> InString(raw, base, s, to, k, tkn)
        decreases |text| - ptr
      {
        tkn := ReadNext(tkn, raw, base, s, to, k);
        if expected { k := k + 1; }
      }
      if expected { StringEnds(text, base, s, raw, to, k, ptr); }
      if At(text, ptr) != '"' {
        return Bad;
      }
      ptr := ptr + 1;
      token := Str(tkn);
    }

    // A string in braces; the opening one has been read.
    method ReadBraces() returns (token: Token)
      requires ptr <= |text|
      modifies this`ptr
      ensures old(ptr) <= ptr <= |text| && !token.Empty?
      ensures token.Bad? || (old(ptr) < ptr && text[ptr - 1] == '}' && token == Str(text[old(ptr)..ptr - 1]))
      ensures token.Str? && |token.s| < MAX_STRING ==> Depth(text, old(ptr), ptr - 1) == 0
      ensures token.Str? ==> forall i :: old(ptr) <= i < ptr ==> Depth(text, old(ptr), i) >= 0
    {
      var tkn, bracketBalance := "", 1;
      while At(text, ptr) != NUL && |tkn| < MAX_STRING
        invariant old(ptr) <= ptr <= |text| && tkn == text[old(ptr)..ptr]
        invariant bracketBalance == Depth(text, old(ptr), ptr) + 1 >= 1
        invariant forall i :: old(ptr) <= i <= ptr ==> Depth(text, old(ptr), i) >= 0
        decreases |text| - ptr
      {
        if text[ptr] == '{' {
          bracketBalance := bracketBalance + 1;
        }
        if text[ptr] == '}' {
          bracketBalance := bracketBalance - 1;
        }
        if bracketBalance == 0 {
          break;
        }
        tkn := tkn + [text[ptr]];
        ptr := ptr + 1;
      }
      if At(text, ptr) != '}' {
        return Bad;
      }
      ptr := ptr + 1;
      token := Str(tkn);
    }

    // A tag in brackets; the opening one has been read.
    method ReadTag() returns (token: Token)
      requires ptr <= |text|
      modifies this`ptr
      ensures old(ptr) <= ptr <= |text| && !token.Empty?
      ensures token.Bad? || (old(ptr) < ptr && token == Symbol("[" + text[old(ptr)..ptr - 1] + "]"))
      ensures token.Symbol? && |token.name| <= MAX_SYMBOL ==> text[ptr - 1] == ']'
      ensures token.Symbol? ==> ']' !in text[old(ptr)..ptr - 1]
    {
      var tkn := "[";
      while |tkn| < MAX_SYMBOL && At(text, ptr) != NUL && At(text, ptr) != ']'
        invariant old(ptr) <= ptr <= |text| && tkn == "[" + text[old(ptr)..ptr] && ']' !in text[old(ptr)..ptr]
        decreases |text| - ptr
      {
        tkn := tkn + [text[ptr]];
        ptr := ptr + 1;
      }
      if At(text, ptr) == NUL {
        return Bad;
      }
      ptr := ptr + 1;
      token := Symbol(tkn + "]");
    }

    // A symbol whose first characters have been read, or a context name before a colon.
    method ReadSymbol(tkn0: string, ghost raw: bool, ghost start: nat, ghost t: Token, ghost to: nat)
      returns (token: Token)
      requires ptr <= |text|
      modifies this`ptr
      ensures old(ptr) <= ptr <= |text| && !token.Empty?
      ensures ExpectsSymbol(text, raw, start, t, to, old(ptr), tkn0) ==> token == t && ptr == to
    {
      var tkn := tkn0;
      ghost var expected := ExpectsSymbol(text, raw, start, t, to, ptr, tkn0);
      while |tkn| < MAX_SYMBOL && SymbolChar(At(text, ptr))
        invariant old(ptr) <= ptr <= |text|
        invariant expected ==> ExpectsSymbol(text, raw, start, t, to, ptr, tkn)
        decreases |text| - ptr
      {
        if expected { SymbolGoesOn(text, raw, start, t, to, ptr); }
        tkn := tkn + [text[ptr]];
        ptr := ptr + 1;
      }
      if expected { SymbolEnds(text, raw, start, t, to, ptr); }
      if At(text, ptr) == ':' {
        ptr := ptr + 1;
        return Context(tkn);
      }
      token := Symbol(tkn);
    }

    // What has been read is a sign: it belongs to a number if a digit or decimal point follows.
    method ReadSign() returns (tkn: string)
      requires ptr < |text|
      modifies this`ptr
      ensures old(ptr) <= ptr <= |text|
      ensures if (text[old(ptr)] == '-' || text[old(ptr)] == '+')
          && (Digit(At(text, old(ptr) + 1)) || At(text, old(ptr) + 1) == '.')
              then ptr == old(ptr) + 1 && tkn == [text[old(ptr)]] else ptr == old(ptr) && tkn == ""
    {
      tkn := "";
      if text[ptr] == '-' || text[ptr] == '+' {
        if Digit(At(text, ptr + 1)) || At(text, ptr + 1) == '.' {
          tkn := [text[ptr]];
          ptr := ptr + 1;
        }
      }
    }

    // The next token; a parenthesis or a quote is one whatever follows it.
    method GetToken(ghost raw: bool, ghost start: nat, ghost t: Token, ghost to: nat) returns (token: Token)
      requires ptr <= |text|
      modifies this`ptr
      ensures old(ptr) <= ptr <= |text| && (token.Empty? || old(ptr) < ptr)
      ensures TokenAt(text, raw, old(ptr), start, t, to) ==> token == t && ptr == to
      ensures At(text, old(ptr)) == '(' ==> token == Left && ptr == old(ptr) + 1
      ensures At(text, old(ptr)) == ')' ==> token == Right && ptr == old(ptr) + 1
      ensures At(text, old(ptr)) == '\'' ==> token == QuoteMark && ptr == old(ptr) + 1
    {
      var more := Strip(raw, start, t, to);
      if !more {
        return Empty;
      }
      token := TokenHere(raw, start, t, to);
    }

    // The token that starts here.
    method TokenHere(ghost raw: bool, ghost start: nat, ghost t: Token, ghost to: nat) returns (token: Token)
      requires ptr < |text|
      modifies this`ptr
      ensures old(ptr) < ptr <= |text|
      ensures TokenAt(text, raw, start, start, t, to) && old(ptr) == start ==> token == t && ptr == to
      ensures text[old(ptr)] == '(' ==> token == Left && ptr == old(ptr) + 1
      ensures text[old(ptr)] == ')' ==> token == Right && ptr == old(ptr) + 1
      ensures text[old(ptr)] == '\'' ==> token == QuoteMark && ptr == old(ptr) + 1
    {
      ghost var expected := TokenAt(text, raw, start, start, t, to) && ptr == start;
      if expected { TokenStarts(text, raw, start, t, to); }
      var tkn := ReadSign();
      var c := At(text, ptr);
      if Digit(c) || (c == '.' && Digit(At(text, ptr + 1))) {
        if expected { NumberExpected(text, raw, start, t, to, tkn, ptr); }
        token := ReadNumber(tkn, raw, start, t, to);
        return;
      }
      token := ReadOther(tkn, raw, start, t, to);
    }

    // Anything but a number.
    method ReadOther(tkn: string, ghost raw: bool, ghost start: nat, ghost t: Token, ghost to: nat)
      returns (token: Token)
      requires ptr < |text|
      modifies this`ptr
      ensures old(ptr) < ptr <= |text| && !token.Empty?
      ensures Starts(text, raw, start, t, to) && !t.Decimal? && tkn == "" && old(ptr) == start
          ==> token == t && ptr == to
      ensures text[old(ptr)] == '(' ==> token == Left && ptr == old(ptr) + 1
      ensures text[old(ptr)] == ')' ==> token == Right && ptr == old(ptr) + 1
      ensures text[old(ptr)] == '\'' ==> token == QuoteMark && ptr == old(ptr) + 1
    {
      ghost var expected := Starts(text, raw, start, t, to) && !t.Decimal? && tkn == "" && ptr == start;
      var c := text[ptr];
      ptr := ptr + 1;
      if c == '"' {
        token := ReadString(raw, start, t, to);
      } else if c == '\'' {
        token := QuoteMark;
      } else if c == '(' {
        token := Left;
      } else if c == ')' {
        token := Right;
      } else if c == '{' {
        token := ReadBraces();
      } else if c == ',' || c == ':' {
        token := Symbol(tkn + [c]);
      } else if c == '[' {
        token := ReadTag();
      } else {
        assert expected ==> tkn + [c] == text[start..ptr];
        assert expected ==> ExpectsSymbol(text, raw, start, t, to, ptr, tkn + [c]);
        token := ReadSymbol(tkn + [c], raw, start, t, to);
      }
    }
  }

  // How the first characters of a token tell what it is.
  ghost predicate Starts(text: string, raw: bool, start: nat, t: Token, to: nat) {
    && TokenAt(text, raw, start, start, t, to)
    && var c, d := At(text, start), At(text, start + 1);
    match t
    case Left => c == '(' && to == start + 1
    case Right => c == ')' && to == start + 1
    case QuoteMark => c == '\'' && to == start + 1
    case Str(_) => c == '"'
    case Symbol(_) =>
      && SymbolChar(c) && !Digit(c) && c != '{' && c != '[' && start < to
      && (c == '.' || c == '-' || c == '+' ==> !Digit(d) && d != '.')
    case Decimal(digits) =>
      && to == start + |digits| && (forall i :: start < i < to ==> Digit(At(text, i)))
      && (if c == '-' then to > start + 1 && (d == '0' ==> to == start + 2) && digits[..1] == "-"
          else Digit(c) && (c == '0' ==> to == start + 1))
    case _ => false
  }

  lemma TokenStarts(text: string, raw: bool, start: nat, t: Token, to: nat)
    requires TokenAt(text, raw, start, start, t, to)
    ensures Starts(text, raw, start, t, to)
  {
    var lex := Lexeme(t, raw);
    LexemeStart(t, raw);
    SliceAt(text, start, to, lex);
    assert text[start + 0] == lex[0];
    if |lex| > 1 { assert text[start + 1] == lex[1]; }
    if t.Decimal? { DecimalStarts(text, start, t.digits, to); }
  }

  lemma DecimalStarts(text: string, start: nat, digits: string, to: nat)
    requires Integer(digits) && to == start + |digits| && Occurs(text, start, digits)
    ensures to == start + |digits| && forall i :: start < i < to ==> Digit(At(text, i))
  {
    SliceAt(text, start, to, digits);
    forall i | start < i < to ensures Digit(At(text, i)) {
      assert text[start + (i - start)] == digits[i - start];
    }
  }

  // Digits at p, perhaps after a sign: only an integer starts like this.
  lemma NumberExpected(text: string, raw: bool, start: nat, t: Token, to: nat, sign: string, p: nat)
    requires Starts(text, raw, start, t, to)
    requires Digit(At(text, p)) || (At(text, p) == '.' && Digit(At(text, p + 1)))
    requires if (At(text, start) == '-' || At(text, start) == '+')
        && (Digit(At(text, start + 1)) || At(text, start + 1) == '.')
             then p == start + 1 && sign == [At(text, start)] else p == start && sign == ""
    ensures t.Decimal? && |sign| <= 1 && p == start + |sign| < to && sign == t.digits[..|sign|]
    ensures (forall i :: p <= i < to ==> Digit(text[i])) && (text[p] == '0' ==> to == p + 1)
  {
    forall i | p <= i < to ensures Digit(text[i]) {
      assert Digit(At(text, i));
    }
  }

  lemma SymbolChars(text: string, raw: bool, start: nat, t: Token, to: nat)
    requires t.Symbol? && TokenAt(text, raw, start, start, t, to)
    ensures to == start + |t.name| && |t.name| <= MAX_SYMBOL && forall i :: start <= i < to ==> SymbolChar(At(text, i))
  {
    SliceAt(text, start, to, t.name);
    forall i | start <= i < to ensures SymbolChar(At(text, i)) {
      assert text[start + (i - start)] == t.name[i - start];
    }
  }

  lemma SymbolGoesOn(text: string, raw: bool, start: nat, t: Token, to: nat, p: nat)
    requires t.Symbol? && TokenAt(text, raw, start, start, t, to) && start < p <= to && p < |text|
    requires SymbolChar(At(text, p))
    ensures p < to && text[start..p + 1] == text[start..p] + [text[p]]
  {
  }

  lemma SymbolEnds(text: string, raw: bool, start: nat, t: Token, to: nat, p: nat)
    requires t.Symbol? && TokenAt(text, raw, start, start, t, to) && start < p <= to
    requires p - start >= MAX_SYMBOL || !SymbolChar(At(text, p))
    ensures p == to && text[start..p] == t.name && At(text, p) != ':'
  {
    SymbolChars(text, raw, start, t, to);
  }
}
