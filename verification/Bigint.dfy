// Addition, subtraction, multiplication and comparison of big integers. A big integer is
// an array: its sign (1 or -1) at 0, then n digits in base 10^9, most significant first.
module Bigint {
  import opened BigNum
  import opened Signs

  ghost predicate IsBig(a: array<int>, n: int)
    reads a
  {
    1 <= n < a.Length && (a[0] == 1 || a[0] == -1) && Normal(a[1..n + 1])
  }

  ghost function Magnitude(a: array<int>, n: int): int
    reads a
    requires 0 <= n < a.Length
  {
    Val(a[1..n + 1])
  }

  ghost function Value(a: array<int>, n: int): int
    reads a
    requires 0 <= n < a.Length
  {
    a[0] * Magnitude(a, n)
  }

  // Lexicographic comparison of digit sequences of equal length, the longer being larger.
  // The leading digit may exceed the base, as the product of a quotient estimate can.
  ghost predicate Comparable(x: seq<int>, y: seq<int>) {
    && |x| >= 1 && |y| >= 1 && x[0] >= 0 && y[0] >= 0 && Digits(x[1..]) && Digits(y[1..])
    && (|x| > |y| ==> x[0] != 0 && y[0] < BASE)
    && (|y| > |x| ==> y[0] != 0 && x[0] < BASE)
  }

  method CmpAbsBigint(x: array<int>, nx: int, y: array<int>, ny: int) returns (c: int)
    requires 1 <= nx < x.Length && 1 <= ny < y.Length
    requires Comparable(x[1..nx + 1], y[1..ny + 1])
    ensures c == Sign(Magnitude(x, nx) - Magnitude(y, ny))
  {
    var cmp := nx - ny;
    if cmp == 0 {
      var i := 1;
      while i <= nx
        invariant 1 <= i <= nx + 1
        invariant x[1..nx + 1][..i - 1] == y[1..nx + 1][..i - 1]
      {
        assert x[1..nx + 1][i - 1] == x[i] && y[1..nx + 1][i - 1] == y[i];
        if x[i] > y[i] {
          FirstDifference(y[1..nx + 1], x[1..nx + 1], i - 1);
          return 1;
        }
        if x[i] < y[i] {
          FirstDifference(x[1..nx + 1], y[1..nx + 1], i - 1);
          return -1;
        }
        i := i + 1;
      }
      assert x[1..nx + 1] == y[1..nx + 1];
      return 0;
    }
    if cmp > 0 {
      LongerIsLarger(y[1..ny + 1], x[1..nx + 1]);
      return 1;
    }
    LongerIsLarger(x[1..nx + 1], y[1..ny + 1]);
    return -1;
  }

  // Signs first, then magnitudes; zero has two signs but one value.
  method CmpBigint(x: array<int>, nx: int, y: array<int>, ny: int) returns (c: int)
    requires IsBig(x, nx) && IsBig(y, ny)
    ensures c == Sign(Value(x, nx) - Value(y, ny))
  {
    ZeroIsZero(x[1..nx + 1]);
    ZeroIsZero(y[1..ny + 1]);
    if nx == 1 && ny == 1 && x[1] == 0 && y[1] == 0 {
      return 0;
    }
    if x[0] > y[0] {
      return 1;
    }
    if x[0] < y[0] {
      return -1;
    }
    var cmp := CmpAbsBigint(x, nx, y, ny);
    c := cmp * x[0];
  }

  // A normalised number is zero exactly when it is the digit zero.
  lemma ZeroIsZero(d: seq<int>)
    requires Normal(d)
    ensures Val(d) >= 0 && (Val(d) == 0 <==> |d| == 1 && d[0] == 0)
  {
    ValBounds(d);
    if d[0] > 0 {
      ValAtLeast(d);
      PowPositive(BASE, |d| - 1);
    } else {
      assert d == [0];
    }
  }

  // Digits below the base make a normalised number as soon as its value is large enough.
  lemma LargeIsNormal(d: seq<int>, v: int)
    requires Digits(d) && |d| >= 1 && Val(d) == v
    requires |d| > 1 ==> v >= Pow(BASE, |d| - 1)
    ensures Normal(d)
  {
    if |d| > 1 && d[0] == 0 {
      DropZeros(d, 1);
      ValBounds(d[1..]);
    }
  }

  // ---------- addition of magnitudes ----------

  // The digit of y in column i when y stands right-aligned under n columns.
  function At(y: seq<int>, n: int, i: int): int {
    if n - |y| <= i < n then y[i - (n - |y|)] else 0
  }

  function Zeros(n: nat): (z: seq<int>)
    ensures |z| == n && forall k :: 0 <= k < n ==> z[k] == 0
  {
    if n == 0 then [] else [0] + Zeros(n - 1)
  }

  lemma LeadingZeros(z: seq<int>, y: seq<int>)
    requires forall k :: 0 <= k < |z| ==> z[k] == 0
    ensures Val(z + y) == Val(y)
  {
    ValConcat(z, y);
    ZeroDigits(z, |z|);
  }

  // The carry that column i - 1 receives from the columns i and up.
  function Carry(x: seq<int>, y: seq<int>, i: nat): int
    decreases |x| - i
  {
    if i >= |x| then 0 else (x[i] + At(y, |x|, i) + Carry(x, y, i + 1)) / BASE
  }

  function SumDigit(x: seq<int>, y: seq<int>, i: nat): int
    requires i < |x|
  {
    (x[i] + At(y, |x|, i) + Carry(x, y, i + 1)) % BASE
  }

  lemma {:induction false} CarryBounds(x: seq<int>, y: seq<int>, i: nat)
    requires i <= |x| && Digits(x) && Digits(y)
    ensures 0 <= Carry(x, y, i) <= 1
    decreases |x| - i
  {
    if i < |x| { CarryBounds(x, y, i + 1); }
  }

  lemma ColumnValue(q: int, r: int, t: int, p: int)
    requires r + q * BASE == t
    ensures r * p + q * (BASE * p) == t * p
  {
    assert (r + q * BASE) * p == r * p + q * (BASE * p);
  }

  lemma SumOfThreeTimes(a: int, b: int, c: int, p: int)
    ensures (a + b + c) * p == a * p + b * p + c * p
  {
  }

  lemma ColumnArith(q: int, r: int, a: int, b: int, c: int, p: int, vs: int, va: int, vb: int)
    requires r + q * BASE == a + b + c && vs + c * p == va + vb
    ensures (r * p + vs) + q * (BASE * p) == (a * p + va) + (b * p + vb)
  {
    ColumnValue(q, r, a + b + c, p);
    SumOfThreeTimes(a, b, c, p);
  }

  lemma TailOf(d: seq<int>, i: nat)
    requires i < |d|
    ensures Val(d[i..]) == d[i] * Pow(BASE, |d| - i - 1) + Val(d[i + 1..])
  {
    assert d[i..] == [d[i]] + d[i + 1..];
    ValCons(d[i], d[i + 1..]);
  }

  // The columns from i on add up, but for the carry they pass on; z is y with leading zeros.
  lemma {:induction false} SumFrom(x: seq<int>, y: seq<int>, z: seq<int>, d: seq<int>, i: nat)
    requires i <= |x| == |d| == |z| && forall k :: 0 <= k < |x| ==> d[k] == SumDigit(x, y, k)
    requires forall k :: 0 <= k < |x| ==> z[k] == At(y, |x|, k)
    ensures Val(d[i..]) + Carry(x, y, i) * Pow(BASE, |x| - i) == Val(x[i..]) + Val(z[i..])
    decreases |x| - i
  {
    if i < |x| {
      SumFrom(x, y, z, d, i + 1);
      TailOf(d, i);
      TailOf(x, i);
      TailOf(z, i);
      ColumnArith(Carry(x, y, i), d[i], x[i], z[i], Carry(x, y, i + 1), Pow(BASE, |x| - i - 1),
                  Val(d[i + 1..]), Val(x[i + 1..]), Val(z[i + 1..]));
    }
  }

  ghost predicate IsSum(d: seq<int>, x: seq<int>, y: seq<int>) {
    |d| == |x| + 1 && d[0] == Carry(x, y, 0) && forall k :: 0 < k < |d| ==> d[k] == SumDigit(x, y, k - 1)
  }

  lemma SumValue(d: seq<int>, x: seq<int>, y: seq<int>)
    requires |y| <= |x| && IsSum(d, x, y)
    ensures Val(d) == Val(x) + Val(y)
  {
    var o := Zeros(|x| - |y|);
    var c, t, z := d[0], d[1..], o + y;
    assert Val(t) + c * Pow(BASE, |x|) == Val(x) + Val(z) by {
      SumFrom(x, y, z, t, 0);
      assert t[0..] == t && x[0..] == x && z[0..] == z;
    }
    assert Val(z) == Val(y) by { LeadingZeros(o, y); }
    assert Val(d) == c * Pow(BASE, |x|) + Val(t) by {
      assert d == [c] + t;
      ValCons(c, t);
    }
  }

  lemma SumDigits(d: seq<int>, x: seq<int>, y: seq<int>)
    requires Digits(x) && Digits(y) && IsSum(d, x, y)
    ensures Digits(d)
  {
    CarryBounds(x, y, 0);
  }

  // The sum of two magnitudes, digit by digit from the right; the result goes to sm[1..nx + 2].
  method AddColumns(x: array<int>, nx: int, y: array<int>, ny: int, sm: array<int>)
    requires 1 <= ny <= nx < x.Length && ny < y.Length && nx + 1 < sm.Length && sm != x && sm != y
    requires Digits(x[1..nx + 1]) && Digits(y[1..ny + 1])
    modifies sm
    ensures IsSum(sm[1..nx + 2], x[1..nx + 1], y[1..ny + 1])
  {
    ghost var xs, ys := x[1..nx + 1], y[1..ny + 1];
    assert forall k :: 1 <= k <= nx ==> x[k] == xs[k - 1];
    assert forall k :: 1 <= k <= ny ==> y[k] == ys[k - 1];
    var d, carry := nx - ny, 0;
    var i := ny;
    while i > 0 // ny is the smaller
      invariant 0 <= i <= ny && carry == Carry(xs, ys, i + d)
      invariant forall k :: i + d + 2 <= k < nx + 2 ==> sm[k] == SumDigit(xs, ys, k - 2)
    {
      CarryBounds(xs, ys, i + d);
      assert x[i + d] == xs[i + d - 1] && y[i] == ys[i - 1] == At(ys, nx, i + d - 1);
      var digit := x[i + d] + y[i] + carry;
      assert FitsInt(digit);
      carry := digit / BASE;
      sm[i + d + 1] := digit % BASE;
      i := i - 1;
    }
    i := nx - ny;
    while i > 0 // nx is the bigger
      invariant 0 <= i <= d && carry == Carry(xs, ys, i)
      invariant forall k :: i + 2 <= k < nx + 2 ==> sm[k] == SumDigit(xs, ys, k - 2)
    {
      CarryBounds(xs, ys, i);
      assert x[i] == xs[i - 1] && At(ys, nx, i - 1) == 0;
      var digit := x[i] + carry;
      assert FitsInt(digit);
      carry := digit / BASE;
      sm[i + 1] := digit % BASE;
      i := i - 1;
    }
    sm[1] := carry;
  }

  // Overwrite the first digit by moving the others up one place.
  method ShiftUp(a: array<int>, n: int)
    requires 0 <= n && n + 1 < a.Length
    modifies a
    ensures a[1..n + 1] == old(a[2..n + 2])
    ensures a[0] == old(a[0]) && a[n + 1..] == old(a[n + 1..])
  {
    var i := 1;
    while i < n + 1
      invariant 1 <= i <= n + 1
      invariant forall k :: 1 <= k < i ==> a[k] == old(a[k + 1])
      invariant forall k :: i <= k < a.Length ==> a[k] == old(a[k])
      invariant a[0] == old(a[0])
    {
      a[i] := a[i + 1];
      i := i + 1;
    }
  }

  method AddBigint(x0: array<int>, nx0: int, y0: array<int>, ny0: int, sm: array<int>) returns (nsm: int)
    requires IsBig(x0, nx0) && IsBig(y0, ny0) && sm != x0 && sm != y0
    requires sm.Length >= (if nx0 > ny0 then nx0 else ny0) + 2
    modifies x0, y0, sm
    ensures x0[..] == old(x0[..]) && y0[..] == old(y0[..])
    ensures IsBig(sm, nsm) && Value(sm, nsm) == old(Value(x0, nx0)) + old(Value(y0, ny0))
    decreases if x0[0] != y0[0] then 1 else 0
  {
    var x, nx, y, ny := x0, nx0, y0, ny0;
    if nx < ny {
      nx, ny := ny, nx;
      x, y := y, x;
    }
    if x[0] != y[0] { // signs are different
      var sign := x[0];
      y[0] := sign;
      assert y[1..ny + 1] == old(y[1..ny + 1]);
      nsm := SubBigint(x, nx, y, ny, sm);
      x[0] := sign;
      y[0] := sign * -1;
      assert sm[1..nsm + 1] == sm[..][1..nsm + 1];
      return;
    }
    nsm := AddSameSign(x, nx, y, ny, sm);
  }

  method AddSameSign(x: array<int>, nx: int, y: array<int>, ny: int, sm: array<int>) returns (nsm: int)
    requires IsBig(x, nx) && IsBig(y, ny) && sm != x && sm != y && x[0] == y[0] && ny <= nx
    requires sm.Length >= nx + 2
    modifies sm
    ensures IsBig(sm, nsm) && Value(sm, nsm) == Value(x, nx) + Value(y, ny)
  {
    AddColumns(x, nx, y, ny, sm);
    ghost var xs, ys, d := x[1..nx + 1], y[1..ny + 1], sm[1..nx + 2];
    SumIsLarge(xs, ys, d);
    if sm[1] == 0 {
      ShiftUp(sm, nx);
      nsm := nx;
      assert sm[1..nsm + 1] == d[1..];
    } else {
      nsm := nx + 1;
      assert sm[1..nsm + 1] == d;
    }
    sm[0] := x[0];
    ghost var r := sm[1..nsm + 1];
    assert r == if d[0] == 0 then d[1..] else d;
    SignedSum(x[0], Val(xs), Val(ys), Val(r));
  }

  lemma SignedSum(s: int, a: int, b: int, c: int)
    ensures c == a + b ==> s * c == s * a + s * b
    ensures c == a - b ==> s * c == s * a - s * b
    ensures c == b - a ==> (s * -1) * c == s * a - s * b
  {
  }

  lemma SumIsLarge(x: seq<int>, y: seq<int>, d: seq<int>)
    requires Normal(x) && Normal(y) && |y| <= |x| && IsSum(d, x, y)
    ensures var r := if d[0] == 0 then d[1..] else d; Normal(r) && Val(r) == Val(x) + Val(y)
  {
    SumValue(d, x, y);
    SumDigits(d, x, y);
    ValBounds(y);
    if d[0] == 0 {
      DropZeros(d, 1);
      if |x| > 1 { ValAtLeast(x); }
      LargeIsNormal(d[1..], Val(d));
    }
  }

  // ---------- subtraction of magnitudes ----------

  // The borrow that column i - 1 gives to the columns i and up.
  function Borrow(x: seq<int>, y: seq<int>, i: nat): int
    decreases |x| - i
  {
    if i >= |x| then 0 else if x[i] - At(y, |x|, i) - Borrow(x, y, i + 1) < 0 then 1 else 0
  }

  function DiffDigit(x: seq<int>, y: seq<int>, i: nat): int
    requires i < |x|
  {
    x[i] - At(y, |x|, i) - Borrow(x, y, i + 1) + Borrow(x, y, i) * BASE
  }

  // The columns from i on subtract, but for the borrow they take.
  lemma {:induction false} DiffFrom(x: seq<int>, y: seq<int>, z: seq<int>, d: seq<int>, i: nat)
    requires i <= |x| == |d| == |z| && forall k :: 0 <= k < |x| ==> d[k] == DiffDigit(x, y, k)
    requires forall k :: 0 <= k < |x| ==> z[k] == At(y, |x|, k)
    ensures Val(d[i..]) - Borrow(x, y, i) * Pow(BASE, |x| - i) == Val(x[i..]) - Val(z[i..])
    decreases |x| - i
  {
    if i < |x| {
      DiffFrom(x, y, z, d, i + 1);
      TailOf(d, i);
      TailOf(x, i);
      TailOf(z, i);
      ColumnDownArith(Borrow(x, y, i), d[i], x[i], z[i], Borrow(x, y, i + 1), Pow(BASE, |x| - i - 1),
                      Val(d[i + 1..]), Val(x[i + 1..]), Val(z[i + 1..]));
    }
  }

  lemma ColumnDownArith(q: int, r: int, a: int, b: int, c: int, p: int, vs: int, va: int, vb: int)
    requires r - q * BASE == a - b - c && vs - c * p == va - vb
    ensures (r * p + vs) - q * (BASE * p) == (a * p + va) - (b * p + vb)
  {
    ColumnValue(-q, r, a - b - c, p);
    SumOfThreeTimes(a, -b, -c, p);
  }

  ghost predicate IsDiff(d: seq<int>, x: seq<int>, y: seq<int>) {
    |d| == |x| && forall k :: 0 <= k < |d| ==> d[k] == DiffDigit(x, y, k)
  }

  lemma DiffDigits(d: seq<int>, x: seq<int>, y: seq<int>)
    requires Digits(x) && Digits(y) && IsDiff(d, x, y)
    ensures Digits(d)
  {
  }

  // When x is not below y, no borrow is left over.
  lemma DifferenceValue(d: seq<int>, x: seq<int>, y: seq<int>)
    requires |y| <= |x| && Digits(x) && Digits(y) && Val(x) >= Val(y) && IsDiff(d, x, y)
    ensures Val(d) == Val(x) - Val(y)
  {
    var o := Zeros(|x| - |y|);
    var c, p, z := Borrow(x, y, 0), Pow(BASE, |x|), o + y;
    assert Val(d) - c * p == Val(x) - Val(z) by {
      DiffFrom(x, y, z, d, 0);
      assert d[0..] == d && x[0..] == x && z[0..] == z;
    }
    assert Val(z) == Val(y) by { LeadingZeros(o, y); }
    assert Val(d) < p by {
      DiffDigits(d, x, y);
      ValBounds(d);
    }
    assert c == 0;
  }

  // The difference of two magnitudes, digit by digit from the right; sm may be x itself.
  method SubColumns(x: array<int>, nx: int, y: array<int>, ny: int, sm: array<int>)
    requires 1 <= ny <= nx < x.Length && ny < y.Length && nx < sm.Length && sm != y
    requires Digits(x[1..nx + 1]) && Digits(y[1..ny + 1])
    modifies sm
    ensures IsDiff(sm[1..nx + 1], old(x[1..nx + 1]), old(y[1..ny + 1]))
    ensures sm[0] == old(sm[0]) && forall k :: nx < k < sm.Length ==> sm[k] == old(sm[k])
  {
    ghost var xs, ys := x[1..nx + 1], y[1..ny + 1];
    assert forall k :: 1 <= k <= ny ==> y[k] == ys[k - 1];
    var i, j, carry := nx, ny, 0;
    while i > 0
      invariant 0 <= i <= nx && j == ny - nx + i && sm[0] == old(sm[0]) && carry == Borrow(xs, ys, i)
      invariant forall k :: i < k <= nx ==> sm[k] == DiffDigit(xs, ys, k - 1)
      invariant forall k :: nx < k < sm.Length ==> sm[k] == old(sm[k])
      invariant forall k :: 1 <= k <= i ==> x[k] == xs[k - 1]
    {
      var digit;
      if j > 0 {
        assert y[j] == ys[j - 1];
        digit := x[i] - y[j] - carry;
      } else {
        digit := x[i] - carry;
      }
      assert digit == xs[i - 1] - At(ys, nx, i - 1) - Borrow(xs, ys, i);
      assert FitsInt64(digit);
      if digit < 0 {
        digit := digit + BASE;
        carry := 1;
      } else {
        carry := 0;
      }
      sm[i] := digit % BASE;
      i, j := i - 1, j - 1;
    }
  }

  // Remove leading zeros; the place behind the last digit is looked at when all are zero.
  method TrimZeros(a: array<int>, nx: int) returns (m: int)
    requires 1 <= nx && nx + 1 < a.Length && Digits(a[1..nx + 1])
    modifies a
    ensures 1 <= m <= nx && Normal(a[1..m + 1]) && Val(a[1..m + 1]) == old(Val(a[1..nx + 1]))
    ensures a[0] == old(a[0])
  {
    var i, n := 1, 0;
    ghost var d := a[1..nx + 1];
    while a[i] == 0 && i <= nx
      invariant 1 <= i <= nx + 1 && n == i - 1 && forall k :: 0 <= k < n ==> d[k] == 0
      invariant forall k :: 1 <= k <= nx ==> a[k] == d[k - 1]
      decreases nx - i
    {
      n, i := n + 1, i + 1;
    }
    TrimmedValue(d, n);
    if n == nx {
      assert a[1..2] == [0] && d[..1] == [0];
      return 1;
    }
    MoveDown(a, n, nx);
    m := nx - n;
    assert a[1..m + 1] == d[n..];
  }

  // Zeros at the front, then nothing or a digit that is not zero.
  lemma TrimmedValue(d: seq<int>, n: nat)
    requires Digits(d) && n <= |d| && |d| >= 1 && (forall k :: 0 <= k < n ==> d[k] == 0) && (n < |d| ==> d[n] != 0)
    ensures Val(d[n..]) == Val(d) && (n == |d| ==> Val(d) == 0 == Val([0])) && (n < |d| ==> Normal(d[n..]))
  {
    DropZeros(d, n);
  }

  // The digits behind the first n ones move to the front.
  method MoveDown(a: array<int>, n: int, nx: int)
    requires 0 <= n <= nx < a.Length
    modifies a
    ensures forall k :: 1 <= k <= nx - n ==> a[k] == old(a[k + n])
    ensures a[0] == old(a[0])
  {
    forall k | 1 <= k <= nx - n {
      a[k] := a[k + n];
    }
  }

  method SubBigint(x0: array<int>, nx0: int, y0: array<int>, ny0: int, sm: array<int>) returns (nsm: int)
    requires IsBig(x0, nx0) && IsBig(y0, ny0) && sm != x0 && sm != y0
    requires sm.Length >= (if nx0 > ny0 then nx0 else ny0) + 2
    modifies x0, y0, sm
    ensures x0[..] == old(x0[..]) && y0[..] == old(y0[..])
    ensures IsBig(sm, nsm) && Value(sm, nsm) == old(Value(x0, nx0)) - old(Value(y0, ny0))
    decreases if x0[0] != y0[0] then 1 else 0
  {
    var x, nx, y, ny := x0, nx0, y0, ny0;
    if x[0] != y[0] {
      var sign := x[0];
      y[0] := sign;
      assert y[1..ny + 1] == old(y[1..ny + 1]);
      nsm := AddBigint(x, nx, y, ny, sm);
      x[0] := sign;
      y[0] := sign * -1;
      assert sm[1..nsm + 1] == sm[..][1..nsm + 1];
      return;
    }
    nsm := SubSameSign(x, nx, y, ny, sm);
  }

  method SubSameSign(x0: array<int>, nx0: int, y0: array<int>, ny0: int, sm: array<int>) returns (nsm: int)
    requires IsBig(x0, nx0) && IsBig(y0, ny0) && sm != x0 && sm != y0 && x0[0] == y0[0]
    requires sm.Length >= nx0 + 2 && sm.Length >= ny0 + 2
    modifies sm
    ensures IsBig(sm, nsm) && Value(sm, nsm) == Value(x0, nx0) - Value(y0, ny0)
  {
    var x, nx, y, ny := x0, nx0, y0, ny0;
    // compare and subtract the abs(smaller) from the abs(greater)
    var c := CmpAbsBigint(x, nx, y, ny);
    ghost var s, a, b := x[0], Magnitude(x, nx), Magnitude(y, ny);
    if c >= 1 {
      sm[0] := x[0];
    } else {
      sm[0] := x[0] * -1;
      nx, ny := ny, nx;
      x, y := y, x;
    }
    nsm := SubSmaller(x, nx, y, ny, sm);
    SignedSum(s, a, b, Magnitude(sm, nsm));
  }

  method SubSmaller(x: array<int>, nx: int, y: array<int>, ny: int, sm: array<int>) returns (nsm: int)
    requires IsBig(x, nx) && IsBig(y, ny) && sm != x && sm != y && sm.Length >= nx + 2
    requires Magnitude(x, nx) >= Magnitude(y, ny)
    modifies sm
    ensures 1 <= nsm < sm.Length && Normal(sm[1..nsm + 1]) && sm[0] == old(sm[0])
    ensures Magnitude(sm, nsm) == Magnitude(x, nx) - Magnitude(y, ny)
  {
    if nx < ny {
      LongerIsLarger(x[1..nx + 1], y[1..ny + 1]);
    }
    SubColumns(x, nx, y, ny, sm);
    DiffDigits(sm[1..nx + 1], x[1..nx + 1], y[1..ny + 1]);
    DifferenceValue(sm[1..nx + 1], x[1..nx + 1], y[1..ny + 1]);
    nsm := TrimZeros(sm, nx);
  }
}
