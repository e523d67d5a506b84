// Big integers to and from decimal text.
module BigintText {
  import opened BigNum
  import opened Bigint

  predicate IsDigit(c: char) {
    '0' <= c <= '9'
  }

  predicate AllDigits(s: string) {
    forall i :: 0 <= i < |s| ==> IsDigit(s[i])
  }

  // The decimal value of the first n characters.
  function Dec(s: string, n: nat): int
    requires n <= |s|
  {
    if n == 0 then 0 else Dec(s, n - 1) * 10 + (s[n - 1] as int - 48)
  }

  lemma DecDigits(s: string, d: nat)
    requires d < 10
    ensures Dec(s + ["0123456789"[d]], |s| + 1) == 10 * Dec(s, |s|) + d
  {
    DecPrefix(s, s + ["0123456789"[d]], |s|);
  }

  function WithoutL(s: string): string {
    if s != [] && s[|s| - 1] == 'L' then s[..|s| - 1] else s
  }

  predicate HasSign(s: string) {
    s != [] && (s[0] == '-' || s[0] == '+')
  }

  // The digits of a token: without a trailing L and without the sign.
  function Body(s: string): string {
    var t := WithoutL(s);
    if HasSign(t) then t[1..] else t
  }

  predicate IsNumeral(s: string) {
    Body(s) != [] && AllDigits(Body(s))
  }

  function TokenSign(s: string): int {
    if s != [] && s[0] == '-' then -1 else 1
  }

  lemma {:induction false} DecSplit(s: string, c: nat, j: nat)
    requires c + j <= |s|
    ensures Dec(s, c + j) == Dec(s, c) * Pow(10, j) + Dec(s[c..], j)
  {
    if j > 0 {
      DecSplit(s, c, j - 1);
      assert s[c..][j - 1] == s[c + j - 1];
      Shifted(Dec(s, c), Pow(10, j - 1), Dec(s[c..], j - 1), Pow(10, j));
    }
  }

  lemma Shifted(a: int, p: int, b: int, q: int)
    requires q == 10 * p
    ensures (a * p + b) * 10 == a * q + b * 10
  {
    assert a * (10 * p) == 10 * (a * p);
  }

  lemma {:induction false} DecBounds(s: string, n: nat)
    requires AllDigits(s) && n <= |s|
    ensures 0 <= Dec(s, n) < Pow(10, n)
  {
    if n > 0 { DecBounds(s, n - 1); }
  }

  lemma {:induction false} DecZeros(s: string, n: nat)
    requires n <= |s| && forall i :: 0 <= i < n ==> s[i] == '0'
    ensures Dec(s, n) == 0
  {
    if n > 0 { DecZeros(s, n - 1); }
  }

  lemma {:induction false} DecPositive(s: string, n: nat)
    requires AllDigits(s) && 1 <= n <= |s| && s[0] != '0'
    ensures Dec(s, n) >= 1
  {
    if n > 1 { DecPositive(s, n - 1); }
  }

  lemma PowTen9()
    ensures Pow(10, 9) == BASE
  {
    assert Pow(10, 3) == 1000;
    PowAdd(10, 3, 3);
    PowAdd(10, 6, 3);
  }

  // One big digit: the next count characters of s from position at on.
  method ReadChunk(s: string, at: nat, count: nat) returns (v: int)
    requires AllDigits(s) && at + count <= |s| && count <= 9
    ensures v == Dec(s[at..], count) && 0 <= v < BASE
  {
    var j := 0;
    v := 0;
    PowTen9();
    while j < count
      invariant 0 <= j <= count && v == Dec(s[at..], j) && 0 <= v < Pow(10, j)
    {
      assert s[at..][j] == s[at + j];
      PowMonotone(10, j + 1, 9);
      assert FitsInt(10 * v + s[at + j] as int);
      v := 10 * v + s[at + j] as int - 48;
      j := j + 1;
    }
    PowMonotone(10, count, 9);
  }

  // Read a token: optional sign, digits with any leading zeros, optional trailing L.
  method StrToBigint(str: string) returns (num: array<int>, n: int)
    requires IsNumeral(str)
    ensures fresh(num) && IsBig(num, n) && num[0] == TokenSign(str)
    ensures Magnitude(num, n) == Dec(Body(str), |Body(str)|)
  {
    var s := WithoutL(str);
    var sign := 1;
    // skip leading sign
    if s[0] == '-' || s[0] == '+' {
      sign := if s[0] == '-' then -1 else 1;
      s := s[1..];
    }
    assert s == Body(str);
    // remove leading zeros
    var z := 0;
    while |s| - z > 1 && s[z] == '0'
      invariant 0 <= z < |s| && forall i :: 0 <= i < z ==> s[i] == '0'
    {
      z := z + 1;
    }
    DecZeros(s, z);
    DecSplit(s, z, |s| - z);
    num, n := StoreDigits(s[z..], sign);
  }

  method StoreDigits(s: string, sign: int) returns (num: array<int>, n: int)
    requires AllDigits(s) && |s| >= 1 && (|s| > 1 ==> s[0] != '0') && (sign == 1 || sign == -1)
    ensures fresh(num) && IsBig(num, n) && num[0] == sign && Magnitude(num, n) == Dec(s, |s|)
  {
    var len := |s|;
    var size, cut := len / 9 + 1, len % 9;
    if cut != 0 {
      size := size + 1;
    } else {
      cut := 9;
    }
    n := size - 1;
    num := new int[size];
    num[0] := sign;
    var i, ptr := 1, 0;
    assert Val(num[1..1]) == 0 == Dec(s, 0);
    while i < size
      invariant 1 <= i <= size && ptr == (if i == 1 then 0 else (len - 1) % 9 + 1 + 9 * (i - 2))
      invariant cut == if i == 1 then (len - 1) % 9 + 1 else 9
      invariant num[0] == sign && Digits(num[1..i]) && Val(num[1..i]) == Dec(s, ptr)
      invariant i > 1 && len > 1 ==> num[1] != 0
    {
      ghost var d := num[1..i];
      var v := ReadChunk(s, ptr, cut);
      num[i] := v;
      ChunkValue(s, ptr, cut, d, v);
      assert num[1..i + 1] == d + [v];
      ptr := ptr + cut;
      cut := 9;
      i := i + 1;
    }
  }

  lemma ChunkValue(s: string, at: nat, count: nat, d: seq<int>, v: int)
    requires AllDigits(s) && at + count <= |s| && 1 <= count <= 9 && (at > 0 ==> count == 9)
    requires Val(d) == Dec(s, at) && v == Dec(s[at..], count)
    ensures Val(d + [v]) == Dec(s, at + count)
    ensures at == 0 && s[0] != '0' ==> v != 0
  {
    DecSplit(s, at, count);
    PowTen9();
    SamePrefix(d, d + [v], |d|);
    assert Upto(d + [v], |d| + 1) == Upto(d + [v], |d|) * BASE + (d + [v])[|d|];
    if at == 0 {
      assert s[0..] == s;
      if s[0] != '0' { DecPositive(s, count); }
    }
  }

  // ---------- printing ----------

  lemma {:induction false} DecPrefix(a: string, b: string, n: nat)
    requires n <= |a| && n <= |b| && forall i :: 0 <= i < n ==> a[i] == b[i]
    ensures Dec(a, n) == Dec(b, n)
  {
    if n > 0 { DecPrefix(a, b, n - 1); }
  }

  lemma DecConcat(a: string, b: string)
    ensures Dec(a + b, |a + b|) == Dec(a, |a|) * Pow(10, |b|) + Dec(b, |b|)
  {
    DecSplit(a + b, |a|, |b|);
    DecPrefix(a + b, a, |a|);
    assert (a + b)[|a|..] == b;
  }

  // The decimal digits of one big digit, cnt of them.
  method EmitDigits(bigdigit0: int, basediv0: int, cnt: nat) returns (s: string)
    requires 1 <= cnt <= 9 && 0 <= bigdigit0 < Pow(10, cnt) && basediv0 == Pow(10, cnt - 1)
    ensures |s| == cnt && AllDigits(s) && Dec(s, cnt) == bigdigit0
    ensures bigdigit0 >= basediv0 ==> s[0] != '0'
  {
    var bigdigit, basediv, j := bigdigit0, basediv0, 0;
    s := "";
    while j < cnt
      invariant 0 <= j <= cnt == |s| + (cnt - j) && AllDigits(s)
      invariant basediv == if j < cnt then Pow(10, cnt - j - 1) else 0
      invariant 0 <= bigdigit < Pow(10, cnt - j)
      invariant Dec(s, j) * Pow(10, cnt - j) + bigdigit == bigdigit0
      invariant j > 0 && bigdigit0 >= basediv0 ==> s[0] != '0'
    {
      PowPositive(10, cnt - j - 1);
      var q := bigdigit / basediv;
      OneDecimal(Dec(s, j), bigdigit, basediv, q);
      var c := (q + 48) as char;
      DecPrefix(s, s + [c], j);
      s := s + [c];
      bigdigit := bigdigit - q * basediv;
      basediv := basediv / 10;
      j := j + 1;
    }
  }

  lemma OneDecimal(d: int, rest: int, p: int, q: int)
    requires p > 0 && 0 <= rest < 10 * p && q == rest / p
    ensures 0 <= q <= 9 && 0 <= rest - q * p < p && (rest >= p ==> q >= 1)
    ensures d * (10 * p) + rest == (d * 10 + q) * p + (rest - q * p)
  {
    var r := rest % p;
    assert rest == q * p + r && 0 <= r < p;
    if q >= 10 { MulMonotone(10, q, p); }
    if q <= 0 { MulMonotone(q, 0, p); }
    if q < 0 { MulMonotone(q, -1, p); }
    SumTimes(d * 10, q, p);
    assert (d * 10) * p == d * (10 * p);
  }

  // How many decimal digits the leading big digit has.
  method CountDigits(bigdigit: int) returns (cnt: nat, basediv: int)
    requires 1 <= bigdigit < BASE
    ensures 1 <= cnt <= 9 && basediv == Pow(10, cnt - 1) && basediv <= bigdigit < Pow(10, cnt)
  {
    cnt := 0;
    basediv := BASE / 10;
    PowTen9();
    assert Pow(10, 9) == 10 * Pow(10, 8);
    while bigdigit / basediv == 0
      invariant 0 <= cnt <= 8 && basediv == Pow(10, 8 - cnt) > 0 && bigdigit < Pow(10, 9 - cnt)
      decreases 8 - cnt
    {
      QuotientZero(bigdigit, basediv);
      LastPower(8 - cnt, bigdigit);
      basediv := basediv / 10;
      cnt := cnt + 1;
      PowPositive(10, 8 - cnt);
    }
    QuotientPositive(bigdigit, basediv);
    cnt := 9 - cnt;
  }

  lemma QuotientZero(a: int, b: int)
    requires b > 0 && a >= 0 && a / b == 0
    ensures a < b
  {
  }

  lemma QuotientPositive(a: int, b: int)
    requires b > 0 && a >= 0 && a / b != 0
    ensures a >= b
  {
  }

  // A positive number below a power of ten: the power is not 10^0.
  lemma LastPower(e: nat, a: int)
    requires 1 <= a < Pow(10, e)
    ensures e > 0
  {
  }

  // The nine digits of one more big digit.
  method AppendDigits(ds: string, bigdigit: int) returns (r: string)
    requires ds != [] && AllDigits(ds) && 0 <= bigdigit < BASE
    ensures |r| > |ds| && AllDigits(r) && r[0] == ds[0]
    ensures Dec(r, |r|) == Dec(ds, |ds|) * BASE + bigdigit
  {
    PowTen9();
    assert Pow(10, 9) == 10 * Pow(10, 8);
    var t := EmitDigits(bigdigit, BASE / 10, 9);
    DecConcat(ds, t);
    r := ds + t;
  }

  // Write a big integer as text; zero is written without a sign.
  method BigintToDigits(num: array<int>, n: int) returns (digits: string)
    requires IsBig(num, n)
    ensures IsText(digits, num[0], Magnitude(num, n))
  {
    ghost var d := num[1..n + 1];
    ZeroIsZero(d);
    if n == 1 && num[1] == 0 {
      assert Dec("0", 0) == 0;
      return "0";
    }
    var cnt, basediv := CountDigits(num[1]);
    var ds := EmitDigits(num[1], basediv, cnt);
    var i := 2;
    assert Upto(d, 0) == 0;
    while i <= n
      invariant 2 <= i <= n + 1 && |ds| >= 1 && AllDigits(ds) && ds[0] != '0' && Dec(ds, |ds|) == Upto(d, i - 1)
    {
      assert num[i] == d[i - 1];
      ds := AppendDigits(ds, num[i]);
      i := i + 1;
    }
    digits := if num[0] == -1 then "-" + ds else ds;
    assert num[0] == -1 ==> digits[1..] == ds;
    NotL(ds);
    NotL(digits);
  }

  lemma NotL(s: string)
    requires s != [] && IsDigit(s[|s| - 1])
    ensures WithoutL(s) == s
  {
  }

  // Decimal text of sign * v: no leading zeros, a minus sign only before a number that is not zero.
  ghost predicate IsText(t: string, sign: int, v: int) {
    && IsNumeral(t) && WithoutL(t) == t && Dec(Body(t), |Body(t)|) == v
    && (Body(t) == "0" || Body(t)[0] != '0')
    && t == (if sign == -1 && v != 0 then "-" else "") + Body(t)
  }

  // Reading what was written, with or without a trailing L, gives the number back; zero loses its sign.
  method RoundTrip(num: array<int>, n: int, mark: bool) returns (num': array<int>, n': int)
    requires IsBig(num, n)
    ensures IsBig(num', n') && n' == n && num'[1..n' + 1] == num[1..n + 1]
    ensures num'[0] == if Magnitude(num, n) == 0 then 1 else num[0]
  {
    ghost var d := num[1..n + 1];
    var text := BigintToDigits(num, n);
    ghost var t := text;
    if mark {
      text := text + "L";
    }
    assert WithoutL(text) == t;
    ZeroIsZero(d);
    num', n' := StrToBigint(text);
    NormalUnique(d, num'[1..n' + 1]);
  }
}
