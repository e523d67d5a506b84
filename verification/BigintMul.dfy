// Multiplication of big integers: one row of products after the other, added in place.
module BigintMul {
  import opened BigNum
  import opened Bigint

  lemma MulBound(a: int, b: int)
    requires 0 <= a < BASE && 0 <= b < BASE
    ensures 0 <= a * b <= (BASE - 1) * (BASE - 1)
  {
    MulMonotone(a, BASE - 1, b);
    MulMonotone(b, BASE - 1, BASE - 1);
  }

  // One column of a row: pd is replaced by r and q is carried on.
  lemma RowColumn(pd: int, yd: int, xd: int, c: int, q: int, r: int, px: int, pe: int, vw: int, v0: int, vx: int)
    requires r + q * BASE == pd + yd * xd + c && vw + c * (px * pe) == v0 + yd * (vx * pe)
    ensures (vw + (r - pd) * (px * pe)) + q * (BASE * (px * pe)) == v0 + yd * ((xd * px + vx) * pe)
  {
    var p, t := px * pe, yd * xd;
    ColumnValue(q, r - pd, t + c, p);
    SumTimes(t, c, p);
    calc {
      yd * ((xd * px + vx) * pe);
    == { SumTimes(xd * px, vx, pe); }
      yd * ((xd * px) * pe + vx * pe);
    == { assert (xd * px) * pe == xd * p; }
      yd * (xd * p + vx * pe);
    == { TimesSum(yd, xd * p, vx * pe); }
      yd * (xd * p) + yd * (vx * pe);
    == { assert yd * (xd * p) == t * p; }
      t * p + yd * (vx * pe);
    }
  }

  lemma TimesSum(a: int, b: int, c: int)
    ensures a * (b + c) == a * b + a * c
  {
  }

  // Add yd times x to the number in p[1..m + 1], x ending above column i + nx.
  method AddRow(x: array<int>, nx: int, yd: int, i: int, p: array<int>, m: int)
    requires 1 <= nx < x.Length && 1 <= i && i + nx <= m < p.Length && p != x
    requires Digits(x[1..nx + 1]) && Digits(p[1..m + 1]) && 0 <= yd < BASE && p[i] == 0
    modifies p
    ensures Digits(p[1..m + 1]) && forall k :: 1 <= k < i ==> p[k] == old(p[k])
    ensures Val(p[1..m + 1]) == old(Val(p[1..m + 1])) + yd * (Val(x[1..nx + 1]) * Pow(BASE, m - nx - i))
  {
    ghost var xs, w, e := x[1..nx + 1], p[1..m + 1], m - nx - i;
    ghost var v0 := Val(w);
    assert forall k :: 1 <= k <= nx ==> x[k] == xs[k - 1];
    var carry, j := 0, nx;
    assert xs[nx..] == [];
    while j > 0
      invariant 0 <= j <= nx && 0 <= carry < BASE && |w| == m
      invariant forall k :: 1 <= k <= m ==> p[k] == w[k - 1] && 0 <= p[k] < BASE
      invariant forall k :: 1 <= k <= i ==> p[k] == old(p[k])
      invariant Val(w) + carry * Pow(BASE, m - i - j) == v0 + yd * (Val(xs[j..]) * Pow(BASE, e))
    {
      MulBound(yd, x[j]);
      var digit := p[j + i] + yd * x[j] + carry;
      assert FitsInt64(digit);
      ghost var pd, c := p[j + i], carry;
      carry := digit / BASE;
      assert FitsInt(carry);
      p[j + i] := digit % BASE;
      RowStep(w, xs, yd, i, j, e, pd, c, digit / BASE, digit % BASE, v0);
      w := w[j + i - 1 := digit % BASE];
      j := j - 1;
    }
    assert xs[0..] == xs;
    ValUpdate(w, i - 1, carry);
    var digit := p[i] + carry;
    assert FitsInt64(digit);
    assert digit == digit % BASE == carry;
    p[i] := digit % BASE;
    w := w[i - 1 := carry];
    assert forall k :: 1 <= k <= m ==> p[k] == w[k - 1];
    assert p[1..m + 1] == w;
  }

  lemma RowStep(w: seq<int>, xs: seq<int>, yd: int, i: int, j: int, e: int, pd: int, c: int, q: int, r: int, v0: int)
    requires 1 <= i && 1 <= j <= |xs| && 0 <= e && i + |xs| + e == |w|
    requires w[j + i - 1] == pd && r + q * BASE == pd + yd * xs[j - 1] + c
    requires Val(w) + c * Pow(BASE, |w| - i - j) == v0 + yd * (Val(xs[j..]) * Pow(BASE, e))
    ensures Val(w[j + i - 1 := r]) + q * Pow(BASE, |w| - i - (j - 1)) == v0 + yd * (Val(xs[j - 1..]) * Pow(BASE, e))
  {
    var px, pe := Pow(BASE, |xs| - j), Pow(BASE, e);
    PowAdd(BASE, |xs| - j, e);
    assert Pow(BASE, |w| - i - j) == px * pe;
    ValUpdate(w, j + i - 1, r);
    TailOf(xs, j - 1);
    RowColumn(pd, yd, xs[j - 1], c, q, r, px, pe, Val(w), v0, Val(xs[j..]));
  }

  method MulBigint(x: array<int>, nx: int, y: array<int>, ny: int, p: array<int>) returns (n: int)
    requires IsBig(x, nx) && IsBig(y, ny) && p != x && p != y && p.Length >= nx + ny + 1
    modifies p
    ensures IsBig(p, n) && Value(p, n) == Value(x, nx) * Value(y, ny)
  {
    ghost var xs, ys := x[1..nx + 1], y[1..ny + 1];
    var m := nx + ny;
    MulRows(x, nx, y, ny, p);
    n := DropLeading(p, m);
    // set sign
    p[0] := x[0] * y[0];
    SignedProduct(x[0], y[0], Val(xs), Val(ys));
  }

  lemma SignedProduct(s: int, t: int, a: int, b: int)
    ensures (s * t) * (a * b) == (s * a) * (t * b)
  {
    assert (s * t) * (a * b) == ((s * t) * a) * b;
    assert (s * a) * (t * b) == ((s * a) * t) * b;
  }

  method MulRows(x: array<int>, nx: int, y: array<int>, ny: int, p: array<int>)
    requires IsBig(x, nx) && IsBig(y, ny) && p != x && p != y && p.Length >= nx + ny + 1
    modifies p
    ensures var m := nx + ny; Digits(p[1..m + 1]) && Val(p[1..m + 1]) == Magnitude(x, nx) * Magnitude(y, ny)
  {
    ghost var xs, ys := x[1..nx + 1], y[1..ny + 1];
    var m := nx + ny;
    forall k | 0 <= k <= m {
      p[k] := 0;
    }
    var i := ny;
    ZeroDigits(p[1..m + 1], m);
    NoRows(xs, ys[ny..]);
    while i > 0 // for each digit in multiplier
      invariant 0 <= i <= ny && Digits(p[1..m + 1])
      invariant forall k :: 1 <= k <= i ==> p[k] == 0
      invariant Val(p[1..m + 1]) == Times(xs, ys[i..])
      invariant x[1..nx + 1] == xs && y[1..ny + 1] == ys
    {
      assert y[i] == y[1..ny + 1][i - 1] == ys[i - 1];
      RowValue(xs, ys, i);
      AddRow(x, nx, y[i], i, p, m);
      i := i - 1;
    }
    assert ys[0..] == ys;
  }

  lemma NoRows(x: seq<int>, y: seq<int>)
    requires y == []
    ensures Times(x, y) == 0
  {
  }

  ghost function Times(x: seq<int>, y: seq<int>): int {
    Val(x) * Val(y)
  }

  lemma RowValue(x: seq<int>, y: seq<int>, i: nat)
    requires 1 <= i <= |y|
    ensures Times(x, y[i - 1..]) == Times(x, y[i..]) + y[i - 1] * (Val(x) * Pow(BASE, |y| - i))
  {
    TailOf(y, i - 1);
    ProductOfTail(Val(x), y[i - 1], Pow(BASE, |y| - i), Val(y[i..]));
  }

  lemma ProductOfTail(vx: int, yd: int, pe: int, vy: int)
    ensures vx * (yd * pe + vy) == vx * vy + yd * (vx * pe)
  {
    TimesSum(vx, yd * pe, vy);
    assert yd * (vx * pe) == vx * (yd * pe);
  }

  // Remove leading zeros one at a time, but keep one digit.
  method DropLeading(p: array<int>, m: int) returns (k: int)
    requires 1 <= m < p.Length && Digits(p[1..m + 1])
    modifies p
    ensures 1 <= k <= m && Normal(p[1..k + 1]) && Val(p[1..k + 1]) == old(Val(p[1..m + 1]))
  {
    k := m;
    while p[1] == 0 && k > 1
      invariant 1 <= k <= m && Digits(p[1..k + 1]) && Val(p[1..k + 1]) == old(Val(p[1..m + 1]))
    {
      ghost var d := p[1..k + 1];
      DropZeros(d, 1);
      ShiftUp(p, k - 1);
      assert p[1..k] == d[1..];
      k := k - 1;
    }
  }
}
