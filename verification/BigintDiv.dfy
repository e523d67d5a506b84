// Long division of big integers: every quotient digit is estimated from the leading digits
// of remainder and divisor, never too small and at most two too large, and then corrected.
module BigintDiv {
  import opened BigNum
  import opened Signs
  import opened Bigint

  // ---------- division of integers as C understands it ----------

  function Abs(a: int): int {
    if a < 0 then -a else a
  }

  function Quotient(a: int, b: int): int
    requires b != 0
  {
    Sign(a) * Sign(b) * (Abs(a) / Abs(b))
  }

  function Remainder(a: int, b: int): int
    requires b != 0
  {
    Sign(a) * (Abs(a) % Abs(b))
  }

  // The law of division: the remainder is smaller than the divisor and has the dividend's sign.
  lemma DivisionLaw(a: int, b: int)
    requires b != 0
    ensures a == Quotient(a, b) * b + Remainder(a, b)
    ensures Abs(Remainder(a, b)) < Abs(b)
    ensures Remainder(a, b) == 0 || Sign(Remainder(a, b)) == Sign(a)
  {
    var m, n := Abs(a), Abs(b);
    var q, r := m / n, m % n;
    assert m == q * n + r;
    assert Sign(b) * b == n;
    assert (Sign(a) * Sign(b) * q) * b == Sign(a) * (q * (Sign(b) * b));
  }

  // ---------- the estimate ----------

  // Exact value of the first n digits; a count below 2 still reads the first digit.
  method BigintToAbsFloat(num: array<int>, n: int) returns (value: int)
    requires 1 < num.Length && n < num.Length
    ensures value == Upto(num[1..], if n > 1 then n else 1)
  {
    value := num[1];
    ghost var d := num[1..];
    assert Upto(d, 0) == 0;
    var i := 2;
    while i <= n
      invariant 2 <= i && (i <= n + 1 || i == 2) && value == Upto(d, i - 1)
    {
      assert num[i] == d[i - 1];
      value := value * BASE + num[i];
      i := i + 1;
    }
  }

  lemma MulCancel(a: int, b: int, c: int)
    requires a * c < b * c && c > 0
    ensures a < b
  {
    if b <= a { MulMonotone(b, a, c); }
  }

  lemma MulSwap(a: int, b: int, c: int)
    ensures (a * b) * c == a * (b * c) == (a * c) * b
  {
  }

  lemma DivFacts(a: int, b: int, q: int)
    requires b > 0 && q == a / b
    ensures q * b <= a < (q + 1) * b
  {
    assert q * b <= a < q * b + b;
    SumTimes(q, 1, b);
  }

  lemma DivNonNegative(a: int, b: int)
    requires a >= 0 && b > 0
    ensures a / b >= 0
  {
  }

  lemma DivAtLeast(a: int, b: int, q: int)
    requires b > 0 && q * b <= a
    ensures q <= a / b
  {
    SumTimes(a / b, 1, b);
    MulCancel(q, a / b + 1, b);
  }

  lemma DivAtMost(a: int, b: int, q: int)
    requires b > 0 && a < (q + 1) * b
    ensures a / b <= q
  {
    MulCancel(a / b, q + 1, b);
  }

  // rf and yf are what is left of r and y when the last digits, worth s, are cut off.
  ghost predicate Cut(r: int, rf: int, s: int) {
    rf >= 0 && s >= 1 && rf * s <= r < (rf + 1) * s
  }

  lemma CutOrder(r: int, rf: int, y: int, yf: int, s: int)
    requires Cut(r, rf, s) && Cut(y, yf, s) && rf < yf
    ensures r < y
  {
    MulMonotone(rf + 1, yf, s);
  }

  lemma EqualCuts(r: int, y: int, f: int, s: int)
    requires Cut(r, f, s) && Cut(y, f, s) && f >= 1
    ensures y >= 1 && r / y <= 1
  {
    SumTimes(f, 1, s);
    MulMonotone(1, f, s);
    DivAtMost(r, y, 1);
  }

  // The estimate is never too small.
  lemma EstimateEnough(r: int, rf: int, y: int, yf: int, s: int)
    requires Cut(r, rf, s) && Cut(y, yf, s) && yf >= 1
    ensures y >= 1 && 0 <= r / y <= rf / yf
  {
    MulMonotone(1, yf, s);
    MulMonotone(0, rf, s);
    var q := r / y;
    DivFacts(r, y, q);
    DivNonNegative(r, y);
    EnoughBound(r, rf, y, yf, s, q);
    MulCancel(q * yf, rf + 1, s);
    DivAtLeast(rf, yf, q);
  }

  lemma EnoughBound(r: int, rf: int, y: int, yf: int, s: int, q: int)
    requires Cut(r, rf, s) && Cut(y, yf, s) && q >= 0 && q * y <= r
    ensures (q * yf) * s < (rf + 1) * s
  {
    MulSwap(q, yf, s);
    MulMonotone(yf * s, y, q);
  }

  // The estimate is at most two too large when the divisor keeps two digits.
  lemma EstimateClose(r: int, rf: int, y: int, yf: int, s: int)
    requires Cut(r, rf, s) && Cut(y, yf, s) && yf >= BASE && r < y * BASE
    ensures y >= 1 && rf / yf <= r / y + 1
  {
    MulMonotone(1, yf, s);
    MulMonotone(0, rf, s);
    var q := r / y;
    DivFacts(r, y, q);
    DivNonNegative(r, y);
    QuotientLimit(r, rf, y, yf, s);
    CutProduct(r, rf, y, yf, s, q);
    CloseBound(rf, yf, q);
    DivAtMost(rf, yf, q + 1);
  }

  lemma QuotientLimit(r: int, rf: int, y: int, yf: int, s: int)
    requires Cut(r, rf, s) && Cut(y, yf, s) && r < y * BASE
    ensures rf < (yf + 1) * BASE
  {
    MulSwap(yf + 1, s, BASE);
    MulMonotone(y, (yf + 1) * s, BASE);
    MulCancel(rf, (yf + 1) * BASE, s);
  }

  lemma CutProduct(r: int, rf: int, y: int, yf: int, s: int, q: int)
    requires Cut(r, rf, s) && Cut(y, yf, s) && q >= 0 && r < (q + 1) * y
    ensures rf < (q + 1) * (yf + 1)
  {
    MulSwap(q + 1, yf + 1, s);
    MulMonotone(y, (yf + 1) * s, q + 1);
    MulCancel(rf, (q + 1) * (yf + 1), s);
  }

  lemma CloseBound(rf: int, yf: int, q: int)
    requires yf >= BASE && q >= 0 && rf < (yf + 1) * BASE && rf < (q + 1) * (yf + 1)
    ensures rf < (q + 2) * yf
  {
    SumTimes(q + 1, 1, yf);
    if q + 1 <= yf {
      SumTimes(yf, 1, q + 1);
    } else {
      MulMonotone(yf + 1, q + 1, yf);
      MulMonotone(BASE, yf, yf + 1);
    }
  }

  // Truncating the real quotient plus one is integer division plus one.
  lemma CeilLike(a: int, b: int)
    requires a >= 0 && b > 0
    ensures (a as real / b as real + 1.0).Floor == a / b + 1
  {
    var q, r := a / b, a % b;
    var x := a as real / b as real;
    assert x * b as real == a as real;
    assert a as real == q as real * b as real + r as real;
    RealCancel(q as real, x, b as real);
    RealCancelStrict(x, (q + 1) as real, b as real);
  }

  lemma RealCancel(a: real, b: real, c: real)
    requires a * c <= b * c && c > 0.0
    ensures a <= b
  {
  }

  lemma RealCancelStrict(a: real, b: real, c: real)
    requires a * c < b * c && c > 0.0
    ensures a < b
  {
  }

  // ---------- the product of divisor and estimate ----------

  // Carry out of column i when y is multiplied by the small number q.
  function ProdCarry(y: seq<int>, q: int, i: nat): int
    decreases |y| - i
  {
    if i >= |y| then 0 else (y[i] * q + ProdCarry(y, q, i + 1)) / BASE
  }

  function ProdDigit(y: seq<int>, q: int, i: nat): int
    requires i < |y|
  {
    (y[i] * q + ProdCarry(y, q, i + 1)) % BASE
  }

  lemma SmallProduct(a: int, q: int)
    requires 0 <= a < BASE && 0 <= q <= BASE + 1
    ensures 0 <= a * q <= (BASE - 1) * (BASE + 1)
  {
    MulMonotone(a, BASE - 1, q);
    MulMonotone(q, BASE + 1, BASE - 1);
    MulMonotone(0, a, q);
  }

  lemma {:induction false} ProdCarryBounds(y: seq<int>, q: int, i: nat)
    requires i <= |y| && Digits(y) && 0 <= q <= BASE + 1
    ensures 0 <= ProdCarry(y, q, i) <= BASE
    ensures i < |y| ==> 0 <= y[i] * q + ProdCarry(y, q, i + 1) <= (BASE - 1) * (BASE + 1) + BASE
    decreases |y| - i
  {
    if i < |y| {
      ProdCarryBounds(y, q, i + 1);
      SmallProduct(y[i], q);
    }
  }

  ghost predicate IsProduct(d: seq<int>, y: seq<int>, q: int) {
    |d| == |y| && forall k :: 0 <= k < |y| ==> d[k] == ProdDigit(y, q, k)
  }

  // The columns from i on multiply, but for the carry they pass on.
  lemma {:induction false} ProdFrom(d: seq<int>, y: seq<int>, q: int, i: nat)
    requires IsProduct(d, y, q) && i <= |y|
    ensures Val(d[i..]) + ProdCarry(y, q, i) * Pow(BASE, |y| - i) == Val(y[i..]) * q
    decreases |y| - i
  {
    if i < |y| {
      ProdFrom(d, y, q, i + 1);
      TailOf(d, i);
      TailOf(y, i);
      ProdArith(ProdCarry(y, q, i), d[i], y[i], q, ProdCarry(y, q, i + 1), Pow(BASE, |y| - i - 1),
                Val(d[i + 1..]), Val(y[i + 1..]));
    }
  }

  lemma ProdArith(c': int, r: int, yd: int, q: int, c: int, p: int, vd: int, vy: int)
    requires r + c' * BASE == yd * q + c && vd + c * p == vy * q
    ensures (r * p + vd) + c' * (BASE * p) == (yd * p + vy) * q
  {
    ColumnValue(c', r, yd * q + c, p);
    SumTimes(yd * q, c, p);
    SumTimes(yd * p, vy, q);
    MulSwap(yd, q, p);
    MulSwap(yd, p, q);
  }

  lemma ProductValue(d: seq<int>, y: seq<int>, q: int)
    requires IsProduct(d, y, q)
    ensures Val([ProdCarry(y, q, 0)] + d) == Val(y) * q
    ensures ProdCarry(y, q, 0) == 0 ==> Val(d) == Val(y) * q
  {
    ProdFrom(d, y, q, 0);
    assert d[0..] == d && y[0..] == y;
    ValCons(ProdCarry(y, q, 0), d);
  }

  // The columns of the product; what is left over is the carry.
  method ProductColumns(y: array<int>, ny: int, q: int, p: array<int>) returns (carry: int)
    requires 1 <= ny < y.Length && ny < p.Length && p != y && Digits(y[1..ny + 1]) && 0 <= q <= BASE + 1
    modifies p
    ensures carry == ProdCarry(y[1..ny + 1], q, 0) && IsProduct(p[1..ny + 1], y[1..ny + 1], q)
  {
    ghost var ys := y[1..ny + 1];
    assert forall k :: 1 <= k <= ny ==> y[k] == ys[k - 1];
    var j := ny;
    carry := 0;
    while j > 0
      invariant 0 <= j <= ny && carry == ProdCarry(ys, q, j)
      invariant forall k :: j < k <= ny ==> p[k] == ProdDigit(ys, q, k - 1)
    {
      ProdCarryBounds(ys, q, j - 1);
      var digit := y[j] * q + carry;
      assert FitsInt64(digit);
      if digit >= BASE {
        p[j] := digit % BASE;
        carry := digit / BASE;
      } else {
        p[j], carry := digit, 0;
      }
      assert FitsInt(carry);
      j := j - 1;
    }
  }

  // The product goes to p[1..pn + 1]; a carry out of the front takes one more place.
  method Product(y: array<int>, ny: int, q: int, p: array<int>) returns (pn: int)
    requires 1 <= ny < y.Length && ny + 1 < p.Length && p != y && Digits(y[1..ny + 1]) && 0 <= q <= BASE + 1
    modifies p
    ensures ny <= pn <= ny + 1 && Val(p[1..pn + 1]) == Val(y[1..ny + 1]) * q
    ensures Digits(p[2..pn + 1]) && 0 <= p[1] && (pn == ny ==> p[1] < BASE) && (pn > ny ==> p[1] != 0)
  {
    var carry := ProductColumns(y, ny, q, p);
    ghost var ys, d := y[1..ny + 1], p[1..ny + 1];
    ProdCarryBounds(ys, q, 0);
    ProductValue(d, ys, q);
    ProductDigits(d, ys, q);
    pn := ny;
    if carry != 0 { // shift right
      ShiftRight(p, ny);
      p[1], pn := carry, ny + 1;
      assert p[2..pn + 1] == d;
      assert p[1..pn + 1] == [carry] + d;
    } else {
      assert p[2..pn + 1] == d[1..] && p[1] == d[0];
    }
  }

  lemma ProductDigits(d: seq<int>, y: seq<int>, q: int)
    requires IsProduct(d, y, q)
    ensures Digits(d)
  {
  }

  method ShiftRight(p: array<int>, n: int)
    requires 1 <= n && n + 1 < p.Length
    modifies p
    ensures p[2..n + 2] == old(p[1..n + 1])
  {
    var j := n;
    while j > 0
      invariant 0 <= j <= n
      invariant forall k :: 1 <= k <= j ==> p[k] == old(p[k])
      invariant forall k :: j + 2 <= k <= n + 1 ==> p[k] == old(p[k - 1])
    {
      p[j + 1] := p[j];
      j := j - 1;
    }
  }

  // ---------- one quotient digit ----------

  // Dividend and divisor of one step: the old remainder was below y, so r is below y * BASE.
  ghost predicate StepOk(r: seq<int>, y: seq<int>) {
    Normal(r) && Normal(y) && y[0] > 0 && Val(r) < Val(y) * BASE
  }

  function Least(a: int, b: int): int {
    if a < b then a else b
  }

  // The leading digits the C code takes: all of them for short divisors, otherwise so many
  // that the divisor keeps two.
  ghost function YFloat(y: seq<int>): int
    requires |y| >= 1
  {
    Upto(y, Least(2, |y|))
  }

  ghost function RFloat(r: seq<int>, ny: nat): int
    requires |r| >= 1
  {
    var n := if ny > 2 then |r| + 2 - ny else |r|;
    Upto(r, if n > 1 then n else 1)
  }

  // What the leading digits tell about r and y.
  lemma LeadingCuts(r: seq<int>, y: seq<int>)
    requires StepOk(r, y)
    ensures YFloat(y) >= 1 && (|y| > 2 ==> YFloat(y) >= BASE)
    ensures |y| > 2 && |r| + 2 - |y| < 1 ==> RFloat(r, |y|) < YFloat(y) && Val(r) < Val(y)
    ensures |y| > 2 && |r| + 2 - |y| >= 1 ==>
      var s := Pow(BASE, |y| - 2); Cut(Val(r), RFloat(r, |y|), s) && Cut(Val(y), YFloat(y), s)
    ensures |y| <= 2 ==> Cut(Val(r), RFloat(r, |y|), 1) && Cut(Val(y), YFloat(y), 1)
  {
    YFloatLarge(y);
    if |y| > 2 {
      var s := Pow(BASE, |y| - 2);
      PowPositive(BASE, |y| - 2);
      CutAt(y, 2);
      var n := |r| + 2 - |y|;
      if n < 1 {
        OneDigitUpto(r);
        LongerIsLarger(r, y);
      } else {
        CutAt(r, n);
      }
    } else {
      ValBounds(r);
      ValBounds(y);
    }
  }

  lemma OneDigitUpto(d: seq<int>)
    requires |d| >= 1
    ensures Upto(d, 1) == d[0]
  {
    assert Upto(d, 0) == 0;
  }

  lemma YFloatLarge(y: seq<int>)
    requires Normal(y) && y[0] > 0
    ensures YFloat(y) >= 1 && (|y| > 2 ==> YFloat(y) >= BASE)
  {
    OneDigitUpto(y);
    if |y| >= 2 { assert Upto(y, 2) == Upto(y, 1) * BASE + y[1]; }
  }

  lemma CutAt(d: seq<int>, n: nat)
    requires Digits(d) && n <= |d|
    ensures Cut(Val(d), Upto(d, n), Pow(BASE, |d| - n))
  {
    LeadingDigits(d, n);
    PrefixValue(d, n);
    UptoBounds(d, n);
    PowPositive(BASE, |d| - n);
  }

  // The estimate: 0, or a number from the true digit to two more.
  lemma Estimate(r: seq<int>, y: seq<int>)
    requires StepOk(r, y)
    ensures Val(y) >= 1
    ensures var rf, yf := RFloat(r, |y|), YFloat(y); var q := Val(r) / Val(y);
      && yf >= 1 && 0 <= q < BASE
      && (yf > rf ==> q == 0)
      && (yf == rf ==> q <= 1)
      && (yf < rf ==> q + 1 <= rf / yf + 1 <= q + 2)
      && (yf <= rf ==> |r| >= |y|)
  {
    var rf, yf, rv, yv := RFloat(r, |y|), YFloat(y), Val(r), Val(y);
    var s := if |y| > 2 then Pow(BASE, |y| - 2) else 1;
    LeadingCuts(r, y);
    ValBounds(r);
    ValAtLeast(y);
    PowPositive(BASE, |y| - 1);
    DivAtMost(rv, yv, BASE - 1);
    DivNonNegative(rv, yv);
    if |y| > 2 && |r| + 2 - |y| < 1 {
      DivAtMost(rv, yv, 0);
    } else {
      EstimateFromCuts(rv, rf, yv, yf, s);
      if |r| < |y| {
        LongerIsLarger(r, y);
        ShortMeansLess(r, y);
      }
    }
  }

  lemma EstimateFromCuts(r: int, rf: int, y: int, yf: int, s: int)
    requires Cut(r, rf, s) && Cut(y, yf, s) && yf >= 1 && y >= 1 && r < y * BASE && (s == 1 || yf >= BASE)
    ensures yf > rf ==> r / y == 0
    ensures yf == rf ==> r / y <= 1
    ensures yf < rf ==> r / y + 1 <= rf / yf + 1 <= r / y + 2
  {
    if yf > rf {
      CutOrder(r, rf, y, yf, s);
      MulMonotone(0, rf, s);
      DivAtMost(r, y, 0);
      DivNonNegative(r, y);
    } else if yf == rf {
      EqualCuts(r, y, yf, s);
    } else {
      EstimateEnough(r, rf, y, yf, s);
      if s == 1 {
        assert r == rf && y == yf;
      } else {
        EstimateClose(r, rf, y, yf, s);
      }
    }
  }

  // A shorter remainder also has the smaller leading digits.
  lemma ShortMeansLess(r: seq<int>, y: seq<int>)
    requires StepOk(r, y) && |r| < |y| && !(|y| > 2 && |r| + 2 - |y| < 1)
    ensures RFloat(r, |y|) < YFloat(y)
  {
    YFloatLarge(y);
    OneDigitUpto(r);
    LongerIsLarger(r, y);
  }

  // The first value tried for a quotient digit, given the leading digits.
  method FirstEstimate(rFloat: int, yFloat: int) returns (q: int)
    requires 1 <= yFloat <= rFloat
    ensures q == if yFloat == rFloat then 1 else rFloat / yFloat + 1
  {
    if yFloat == rFloat {
      q := 1;
    } else {
      CeilLike(rFloat, yFloat);
      q := (rFloat as real / yFloat as real + 1.0).Floor; // like ceil
    }
  }

  // What the product of divisor and q looks like in p[1..pn + 1].
  ghost predicate ProductIn(p: array<int>, pn: int, y: seq<int>, q: int)
    reads p
  {
    && 1 <= |y| <= pn <= |y| + 1 && pn < p.Length && Val(p[1..pn + 1]) == Val(y) * q
    && Digits(p[2..pn + 1]) && 0 <= p[1] && (pn == |y| ==> p[1] < BASE) && (pn > |y| ==> p[1] != 0)
  }

  // Multiply out one estimate and compare with the remainder.
  method Attempt(r: array<int>, nr: int, y: array<int>, ny: int, q: int, p: array<int>) returns (pn: int, c: int)
    requires 1 <= nr < r.Length && 1 <= ny < y.Length && ny + 1 < p.Length && p != r && p != y
    requires StepOk(r[1..nr + 1], y[1..ny + 1]) && ny <= nr && 0 <= q <= BASE + 1
    modifies p
    ensures ProductIn(p, pn, y[1..ny + 1], q) && c == Sign(Val(r[1..nr + 1]) - Val(y[1..ny + 1]) * q)
  {
    pn := Product(y, ny, q, p);
    TryProduct(r[1..nr + 1], y[1..ny + 1], p[1..pn + 1]);
    c := CmpAbsBigint(r, nr, p, pn);
  }

  // Lower an estimate until its product fits; the product stays in p[1..pn + 1].
  method Correct(r: array<int>, nr: int, y: array<int>, ny: int, p: array<int>, est: int) returns (q: int, pn: int)
    requires 1 <= nr < r.Length && 1 <= ny < y.Length && ny + 1 < p.Length && p != r && p != y
    requires StepOk(r[1..nr + 1], y[1..ny + 1]) && ny <= nr
    requires Val(y[1..ny + 1]) >= 1
    requires var t := Val(r[1..nr + 1]) / Val(y[1..ny + 1]); t <= est <= t + 2 && 0 <= est <= BASE + 1
    modifies p
    ensures q == Val(r[1..nr + 1]) / Val(y[1..ny + 1]) && est - 2 <= q // at most two corrections
    ensures ny <= pn <= nr && pn < p.Length && Digits(p[1..pn + 1]) && Val(p[1..pn + 1]) == Val(y[1..ny + 1]) * q
  {
    ghost var rs, ys := r[1..nr + 1], y[1..ny + 1];
    ghost var rv, yv := Val(rs), Val(ys);
    var c;
    ValBounds(rs);
    q := est;
    pn, c := Attempt(r, nr, y, ny, q, p);
    while c < 0
      invariant r[1..nr + 1] == rs && y[1..ny + 1] == ys
      invariant 0 <= q <= est && rv / yv <= q && c == Sign(rv - yv * q)
      invariant ProductIn(p, pn, ys, q)
      decreases q
    {
      TooLarge(rv, yv, q);
      q := q - 1; // too big
      pn, c := Attempt(r, nr, y, ny, q, p);
    }
    Fits(rs, ys, p[1..pn + 1], q);
  }

  lemma TooLarge(r: int, y: int, q: int)
    requires y >= 1 && r >= 0 && r < y * q && r / y <= q
    ensures r / y <= q - 1 && q >= 1
  {
    DivNonNegative(r, y);
    DivAtMost(r, y, q - 1);
  }

  // The product of an estimate can be compared with the remainder.
  lemma TryProduct(r: seq<int>, y: seq<int>, p: seq<int>)
    requires StepOk(r, y) && |y| <= |r| && |y| <= |p| <= |y| + 1
    requires Digits(p[1..]) && 0 <= p[0] && (|p| == |y| ==> p[0] < BASE) && (|p| > |y| ==> p[0] != 0)
    ensures Comparable(r, p)
  {
    RemainderLength(r, y);
  }

  // The remainder has at most one digit more than the divisor.
  lemma RemainderLength(r: seq<int>, y: seq<int>)
    requires StepOk(r, y)
    ensures |r| <= |y| + 1
  {
    if |r| > 1 {
      ValBounds(y);
      ValAtLeast(r);
      PowLess(BASE, |r| - 1, |y| + 1);
    }
  }

  lemma PowLess(b: nat, m: nat, n: nat)
    requires b > 0 && Pow(b, m) < Pow(b, n)
    ensures m < n
  {
    if n <= m { PowMonotone(b, n, m); }
  }

  lemma Fits(r: seq<int>, y: seq<int>, p: seq<int>, q: int)
    requires StepOk(r, y) && |y| <= |r| && |y| <= |p| <= |y| + 1 && Val(y) >= 1
    requires Digits(p[1..]) && 0 <= p[0] && (|p| == |y| ==> p[0] < BASE) && (|p| > |y| ==> p[0] != 0)
    requires Val(r) / Val(y) <= q && Val(p) == Val(y) * q && Val(p) <= Val(r)
    ensures q == Val(r) / Val(y) && |p| <= |r| && Digits(p)
  {
    DivAtLeast(Val(r), Val(y), q);
    if |p| > |y| {
      ValAtLeast(p);
      ValBounds(r);
      PowLess(BASE, |p| - 1, |r|);
      RemainderLength(r, y);
      LeadFits(r, p);
    }
  }

  // A number that is not larger has no larger leading digit than the base allows.
  lemma LeadFits(r: seq<int>, p: seq<int>)
    requires |p| == |r| >= 1 && Digits(r) && Digits(p[1..]) && Val(p) <= Val(r)
    ensures p[0] < BASE
  {
    var w := Pow(BASE, |p| - 1);
    assert p == [p[0]] + p[1..];
    ValCons(p[0], p[1..]);
    ValBounds(p[1..]);
    ValBounds(r);
    if p[0] >= BASE {
      MulMonotone(BASE, p[0], w);
    }
  }

  // One step of the division: the quotient digit, and r replaced by the remainder.
  method DivideStep(r: array<int>, nr: int, y: array<int>, ny: int, yFloat: int, p: array<int>)
    returns (q: int, nr': int)
    requires 1 <= nr && nr + 1 < r.Length && 1 <= ny < y.Length && ny + 1 < p.Length && p != r && p != y && r != y
    requires StepOk(r[1..nr + 1], y[1..ny + 1]) && yFloat == YFloat(y[1..ny + 1])
    modifies r, p
    ensures Val(y[1..ny + 1]) >= 1
    ensures q == old(Val(r[1..nr + 1])) / Val(y[1..ny + 1]) && 0 <= q < BASE
    ensures 1 <= nr' <= nr && Normal(r[1..nr' + 1]) && Val(r[1..nr' + 1]) == old(Val(r[1..nr + 1])) % Val(y[1..ny + 1])
  {
    ghost var rs, ys := r[1..nr + 1], y[1..ny + 1];
    var n := if ny > 2 then nr + 2 - ny else nr;
    var rFloat := BigintToAbsFloat(r, n);
    SamePrefix(r[1..], rs, if n > 1 then n else 1);
    Estimate(rs, ys);
    nr' := nr;
    if yFloat > rFloat {
      q := 0;
      RemainderValue(Val(rs), Val(ys), q);
    } else {
      q := FirstEstimate(rFloat, yFloat);
      q := Reduce(r, nr, y, ny, p, q);
    }
    // trim leading zeros
    if r[1] == 0 {
      nr' := TrimZeros(r, nr);
    }
  }

  method Reduce(r: array<int>, nr: int, y: array<int>, ny: int, p: array<int>, est: int) returns (q: int)
    requires 1 <= nr < r.Length && 1 <= ny < y.Length && ny + 1 < p.Length && p != r && p != y && r != y
    requires StepOk(r[1..nr + 1], y[1..ny + 1]) && ny <= nr
    requires Val(y[1..ny + 1]) >= 1
    requires var t := Val(r[1..nr + 1]) / Val(y[1..ny + 1]); t <= est <= t + 2 && 0 <= est <= BASE + 1
    modifies r, p
    ensures q == old(Val(r[1..nr + 1])) / Val(y[1..ny + 1]) && est - 2 <= q
    ensures Digits(r[1..nr + 1]) && Val(r[1..nr + 1]) == old(Val(r[1..nr + 1])) % Val(y[1..ny + 1])
  {
    ghost var rs, ys := r[1..nr + 1], y[1..ny + 1];
    var pn;
    q, pn := Correct(r, nr, y, ny, p, est);
    RemainderValue(Val(rs), Val(ys), q);
    assert Digits(rs);
    SubtractProduct(r, nr, p, pn);
  }

  lemma RemainderValue(r: int, y: int, q: int)
    requires y >= 1 && q == r / y
    ensures r - y * q == r % y >= 0
  {
  }

  method SubtractProduct(r: array<int>, nr: int, p: array<int>, pn: int)
    requires 1 <= pn <= nr < r.Length && pn < p.Length && p != r
    requires Digits(r[1..nr + 1]) && Digits(p[1..pn + 1]) && Val(p[1..pn + 1]) <= Val(r[1..nr + 1])
    modifies r
    ensures Digits(r[1..nr + 1]) && Val(r[1..nr + 1]) == old(Val(r[1..nr + 1])) - Val(p[1..pn + 1])
  {
    ghost var rs, ps := r[1..nr + 1], p[1..pn + 1];
    SubColumns(r, nr, p, pn, r);
    DiffDigits(r[1..nr + 1], rs, ps);
    DifferenceValue(r[1..nr + 1], rs, ps);
  }

  // ---------- long division ----------

  // After the first i digits of x: quotient digits q, remainder digits r. A remainder of zero
  // is dropped before the next digit comes in; until the first quotient digit r is x itself.
  ghost predicate Divided(x: seq<int>, i: nat, y: seq<int>, q: seq<int>, r: seq<int>) {
    && i <= |x| && Digits(q) && Digits(r) && |r| <= i
    && Upto(x, i) == Val(q) * Val(y) + Val(r) && Val(r) < Val(y)
    && (i < |x| && r != [] ==> r[0] != 0)
    && (i == |x| ==> i == 0 || Normal(r))
    && (q == [] ==> |r| == i)
    && (q != [] ==> q[0] != 0 && |q| + |y| <= i + 1)
  }

  // The next digit of x comes in.
  lemma BringDown(x: seq<int>, i: nat, y: seq<int>, q: seq<int>, r: seq<int>)
    requires Normal(x) && x[0] > 0 && i < |x| && Normal(y) && y[0] > 0 && Divided(x, i, y, q, r)
    ensures StepOk(r + [x[i]], y)
    ensures Upto(x, i + 1) == (Val(q) * Val(y)) * BASE + Val(r + [x[i]])
    ensures q == [] ==> Val(r + [x[i]]) == Upto(x, i + 1)
  {
    var r' := r + [x[i]];
    Appended(r, x[i]);
    if q == [] { NoDigits(q); }
  }

  lemma NoDigits(q: seq<int>)
    requires q == []
    ensures Val(q) == 0
  {
  }

  lemma Appended(r: seq<int>, d: int)
    ensures Val(r + [d]) == Val(r) * BASE + d
  {
    var r' := r + [d];
    SamePrefix(r, r', |r|);
    assert Upto(r', |r'|) == Upto(r', |r|) * BASE + r'[|r|];
  }

  // A quotient digit was found for the remainder extended by the next digit of x.
  lemma NextDigit(x: seq<int>, i: nat, y: seq<int>, q: seq<int>, r: seq<int>, d: int, r': seq<int>)
    requires Normal(x) && x[0] > 0 && i < |x| && Normal(y) && y[0] > 0 && Divided(x, i, y, q, r)
    requires var t := Val(r + [x[i]]); Val(y) >= 1 && d == t / Val(y) && 0 <= d < BASE && Val(r') == t % Val(y)
    requires q == [] ==> Val(r + [x[i]]) >= Val(y)
    requires Normal(r') && |r'| <= |r| + 1
    ensures var r'' := if r'[0] == 0 && i + 1 < |x| then [] else r'; Divided(x, i + 1, y, q + [d], r'')
  {
    var t := Val(r + [x[i]]);
    BringDown(x, i, y, q, r);
    Appended(q, d);
    DigitValue(Val(q), d, Val(y), t, Val(r'));
    if q == [] {
      DivAtLeast(t, Val(y), 1);
      FirstDigitLength(x, i, y);
    }
    if r'[0] == 0 { assert r' == [0]; }
    ZeroIsZero(r');
  }

  lemma DigitValue(q: int, d: int, y: int, t: int, r: int)
    requires y >= 1 && d == t / y && r == t % y
    ensures (q * y) * BASE + t == (q * BASE + d) * y + r && 0 <= r < y
  {
    SumTimes(q * BASE, d, y);
    MulSwap(q, y, BASE);
  }

  // The first quotient digit needs as many digits as the divisor has.
  lemma FirstDigitLength(x: seq<int>, i: nat, y: seq<int>)
    requires Digits(x) && i < |x| && Normal(y) && y[0] > 0 && Upto(x, i + 1) >= Val(y)
    ensures |y| <= i + 1
  {
    UptoBounds(x, i + 1);
    ValAtLeast(y);
    PowLess(BASE, |y| - 1, i + 1);
  }

  // No quotient digit yet: the extended remainder is still below the divisor.
  lemma StillSmaller(x: seq<int>, i: nat, y: seq<int>, r: seq<int>)
    requires Normal(x) && x[0] > 0 && i < |x| && Normal(y) && y[0] > 0 && Divided(x, i, y, [], r)
    requires Val(r + [x[i]]) < Val(y)
    ensures Divided(x, i + 1, y, [], r + [x[i]])
  {
    BringDown(x, i, y, [], r);
    NoDigits([]);
  }

  // Divisor and scratch arrays of a division.
  ghost predicate Ready(x: array<int>, nx: int, y: array<int>, ny: int, r: array<int>, q: array<int>, p: array<int>)
    reads x, y
  {
    && IsBig(x, nx) && IsBig(y, ny) && ny <= nx && x[1] > 0 && y[1] > 0
    && r.Length == nx + 2 && q.Length == nx - ny + 2 && p.Length == ny + 2
    && r != x && r != y && q != x && q != y && p != x && p != y && r != q && r != p && q != p
  }

  // The digit x[i] comes in, and the quotient gets a digit unless it has none and needs none.
  method NextColumn(x: array<int>, nx: int, y: array<int>, ny: int, i: int, yFloat: int,
                    r: array<int>, nr0: int, q: array<int>, sq0: int, p: array<int>) returns (nr: int, sq: int)
    requires Ready(x, nx, y, ny, r, q, p) && yFloat == YFloat(y[1..ny + 1])
    requires 1 <= i <= nx && 0 <= nr0 < i && 0 <= sq0 < q.Length
    requires Divided(x[1..nx + 1], i - 1, y[1..ny + 1], q[1..sq0 + 1], r[1..nr0 + 1])
    modifies r, q, p
    ensures 0 <= nr <= i && 0 <= sq < q.Length
    ensures Divided(x[1..nx + 1], i, y[1..ny + 1], q[1..sq + 1], r[1..nr + 1])
  {
    ghost var xs, ys, rs, qs := x[1..nx + 1], y[1..ny + 1], r[1..nr0 + 1], q[1..sq0 + 1];
    assert xs[0] == x[1] && ys[0] == y[1] && xs[i - 1] == x[i];
    BringDown(xs, i - 1, ys, qs, rs);
    nr, sq := nr0 + 1, sq0;
    r[nr] := x[i];
    assert r[1..nr + 1] == rs + [xs[i - 1]];
    nr, sq := PlaceColumn(x, nx, y, ny, i, yFloat, r, nr, q, sq, p, rs);
  }

  method PlaceColumn(x: array<int>, nx: int, y: array<int>, ny: int, i: int, yFloat: int, r: array<int>, nr0: int,
                     q: array<int>, sq0: int, p: array<int>, ghost rs: seq<int>)
    returns (nr: int, sq: int)
    requires Ready(x, nx, y, ny, r, q, p) && yFloat == YFloat(y[1..ny + 1])
    requires 1 <= i <= nx && 1 <= nr0 <= i && 0 <= sq0 < q.Length
    requires Divided(x[1..nx + 1], i - 1, y[1..ny + 1], q[1..sq0 + 1], rs)
    requires r[1..nr0 + 1] == rs + [x[i]] && StepOk(r[1..nr0 + 1], y[1..ny + 1])
    modifies r, q, p
    ensures 0 <= nr <= i && 0 <= sq < q.Length
    ensures Divided(x[1..nx + 1], i, y[1..ny + 1], q[1..sq + 1], r[1..nr + 1])
  {
    nr, sq := nr0, sq0;
    if sq == 0 {
      var c := CmpAbsBigint(r, nr, y, ny);
      if c < 0 {
        assert x[1..nx + 1][i - 1] == x[i] && x[1..nx + 1][0] == x[1] && y[1..ny + 1][0] == y[1];
        assert q[1..sq + 1] == [];
        StillSmaller(x[1..nx + 1], i - 1, y[1..ny + 1], rs);
        return;
      }
    }
    nr, sq := TakeDigit(x, nx, y, ny, i, yFloat, r, nr, q, sq, p, rs);
  }

  method TakeDigit(x: array<int>, nx: int, y: array<int>, ny: int, i: int, yFloat: int, r: array<int>, nr0: int,
                   q: array<int>, sq0: int, p: array<int>, ghost rs: seq<int>)
    returns (nr: int, sq: int)
    requires Ready(x, nx, y, ny, r, q, p) && yFloat == YFloat(y[1..ny + 1])
    requires 1 <= i <= nx && 1 <= nr0 <= i && 0 <= sq0 < q.Length
    requires Divided(x[1..nx + 1], i - 1, y[1..ny + 1], q[1..sq0 + 1], rs)
    requires r[1..nr0 + 1] == rs + [x[i]] && StepOk(r[1..nr0 + 1], y[1..ny + 1])
    requires sq0 == 0 ==> Val(r[1..nr0 + 1]) >= Val(y[1..ny + 1])
    modifies r, q, p
    ensures 0 <= nr <= i && 0 <= sq < q.Length
    ensures Divided(x[1..nx + 1], i, y[1..ny + 1], q[1..sq + 1], r[1..nr + 1])
  {
    ghost var xs, ys, qs := x[1..nx + 1], y[1..ny + 1], q[1..sq0 + 1];
    assert xs[0] == x[1] && ys[0] == y[1] && xs[i - 1] == x[i];
    var d;
    d, nr := DivideStep(r, nr0, y, ny, yFloat, p);
    ghost var r' := r[1..nr + 1];
    NextDigit(xs, i - 1, ys, qs, rs, d, r');
    sq := sq0 + 1;
    assert |qs + [d]| == sq;
    q[sq] := d;
    assert q[1..sq + 1] == qs + [d];
    if r[1] == 0 && i < nx {
      nr := 0;
      assert r[1..nr + 1] == [];
    } else {
      assert r[1..nr + 1] == r';
    }
  }

  method LongDivide(x: array<int>, nx: int, y: array<int>, ny: int)
    returns (q: array<int>, sq: int, r: array<int>, nr: int)
    requires IsBig(x, nx) && IsBig(y, ny) && Magnitude(y, ny) > 0 && Magnitude(x, nx) >= Magnitude(y, ny) && ny <= nx
    ensures fresh(q) && fresh(r) && q != r && 1 <= sq < q.Length && 1 <= nr < r.Length
    ensures Normal(q[1..sq + 1]) && Val(q[1..sq + 1]) == Magnitude(x, nx) / Magnitude(y, ny)
    ensures Normal(r[1..nr + 1]) && Val(r[1..nr + 1]) == Magnitude(x, nx) % Magnitude(y, ny)
  {
    ghost var xs, ys := x[1..nx + 1], y[1..ny + 1];
    Leading(xs, ys);
    r := new int[nx + 2];
    q := new int[nx - ny + 2];
    var p := new int[ny + 2];
    nr, sq := 0, 0;
    var yFloat := BigintToAbsFloat(y, if ny > 2 then 2 else ny);
    SamePrefix(y[1..], ys, Least(2, ny));
    Start(xs, ys, q[1..sq + 1], r[1..nr + 1]);
    var i := 1;
    while i <= nx
      invariant 1 <= i <= nx + 1 && 0 <= nr < i && 0 <= sq < q.Length
      invariant x[1..nx + 1] == xs && y[1..ny + 1] == ys && Ready(x, nx, y, ny, r, q, p)
      invariant Divided(xs, i - 1, ys, q[1..sq + 1], r[1..nr + 1])
    {
      nr, sq := NextColumn(x, nx, y, ny, i, yFloat, r, nr, q, sq, p);
      i := i + 1;
    }
    Finish(xs, ys, q[1..sq + 1], r[1..nr + 1]);
  }

  lemma Leading(x: seq<int>, y: seq<int>)
    requires Normal(x) && Normal(y) && Val(y) > 0 && Val(x) >= Val(y)
    ensures x[0] > 0 && y[0] > 0
  {
    ZeroIsZero(x);
    ZeroIsZero(y);
  }

  lemma Start(x: seq<int>, y: seq<int>, q: seq<int>, r: seq<int>)
    requires q == [] && r == [] && |x| >= 1 && Val(y) > 0
    ensures Divided(x, 0, y, q, r)
  {
  }

  lemma Finish(x: seq<int>, y: seq<int>, q: seq<int>, r: seq<int>)
    requires Divided(x, |x|, y, q, r) && |x| >= 1 && Val(x) >= Val(y) > 0
    ensures |q| >= 1 && |r| >= 1
    ensures Normal(q) && Val(q) == Val(x) / Val(y) && Normal(r) && Val(r) == Val(x) % Val(y)
  {
    if q == [] { NoDigits(q); }
    ValBounds(r);
    DivModUnique(Val(x), Val(y), Val(q), Val(r));
  }

  lemma DivModUnique(a: int, b: int, q: int, r: int)
    requires b > 0 && a == q * b + r && 0 <= r < b
    ensures q == a / b && r == a % b
  {
    SumTimes(q, 1, b);
    DivAtLeast(a, b, q);
    DivAtMost(a, b, q);
  }

  // The quotient, or with rmndr set the remainder, of two big integers.
  method DivModBigint(x: array<int>, nx: int, y: array<int>, ny: int, rmndr: bool)
    returns (error: bool, q: array<int>, nq: int)
    requires IsBig(x, nx) && IsBig(y, ny)
    ensures error <==> Value(y, ny) == 0
    ensures !error ==> fresh(q) && IsBig(q, nq)
    ensures !error ==>
      Value(q, nq) ==
      if rmndr then Remainder(Value(x, nx), Value(y, ny)) else Quotient(Value(x, nx), Value(y, ny))
  {
    ghost var xs, ys := x[1..nx + 1], y[1..ny + 1];
    ZeroIsZero(xs);
    ZeroIsZero(ys);
    SignedZero(y[0], Val(ys));
    if y[1] == 0 && ny == 1 {
      error, nq := true, 0;
      q := new int[0];
      return;
    }
    error := false;
    SignedDivision(x[0], Val(xs), y[0], Val(ys));
    q, nq := DivideNonZero(x, nx, y, ny, rmndr);
  }

  // The result by magnitudes and signs.
  ghost predicate IsResult(q: array<int>, nq: int, s: int, xv: int, t: int, yv: int, rmndr: bool)
    reads q
    requires yv > 0
  {
    IsBig(q, nq) && Value(q, nq) == if rmndr then s * (xv % yv) else (s * t) * (xv / yv)
  }

  method DivideNonZero(x: array<int>, nx: int, y: array<int>, ny: int, rmndr: bool) returns (q: array<int>, nq: int)
    requires IsBig(x, nx) && IsBig(y, ny) && Magnitude(y, ny) > 0 && Magnitude(x, nx) >= 0
    ensures fresh(q) && IsResult(q, nq, x[0], Magnitude(x, nx), y[0], Magnitude(y, ny), rmndr)
  {
    ghost var xs, ys := x[1..nx + 1], y[1..ny + 1];
    var c := CmpAbsBigint(x, nx, y, ny);
    if c < 0 {
      SmallDividend(Val(xs), Val(ys));
      if rmndr {
        q := CopyDigits(x, nx, x[0]);
        nq := nx;
      } else {
        q := new int[2];
        q[0], q[1], nq := 1, 0, 1;
        OneDigit(q[1..2]);
      }
    } else {
      if nx < ny {
        LongerIsLarger(xs, ys);
      }
      q, nq := LongResult(x, nx, y, ny, rmndr);
    }
  }

  method LongResult(x: array<int>, nx: int, y: array<int>, ny: int, rmndr: bool) returns (q: array<int>, nq: int)
    requires IsBig(x, nx) && IsBig(y, ny) && Magnitude(y, ny) > 0 && Magnitude(x, nx) >= Magnitude(y, ny) && ny <= nx
    ensures fresh(q) && IsResult(q, nq, x[0], Magnitude(x, nx), y[0], Magnitude(y, ny), rmndr)
  {
    var qa, sq, r, nr := LongDivide(x, nx, y, ny);
    if rmndr {
      q := CopyDigits(r, nr, x[0]); // set sign
      nq := nr;
    } else {
      q := CopyDigits(qa, sq, x[0] * y[0]);
      nq := sq;
    }
  }

  method CopyDigits(a: array<int>, n: int, sign: int) returns (b: array<int>)
    requires 1 <= n < a.Length
    ensures fresh(b) && b.Length == n + 1 && b[0] == sign && b[1..n + 1] == a[1..n + 1]
  {
    b := new int[n + 1];
    forall k | 0 <= k <= n {
      b[k] := a[k];
    }
    b[0] := sign;
  }

  lemma SignedZero(s: int, v: int)
    requires s == 1 || s == -1
    ensures s * v == 0 <==> v == 0
  {
  }

  lemma SmallDividend(a: int, b: int)
    requires 0 <= a < b
    ensures a / b == 0 && a % b == a
  {
  }

  // Division of signed values by their magnitudes.
  lemma SignedDivision(s: int, a: int, t: int, b: int)
    requires (s == 1 || s == -1) && (t == 1 || t == -1) && a >= 0 && b > 0
    ensures Quotient(s * a, t * b) == (s * t) * (a / b)
    ensures Remainder(s * a, t * b) == s * (a % b)
    ensures a < b ==> Quotient(s * a, t * b) == 0 && Remainder(s * a, t * b) == s * a
  {
    assert Abs(s * a) == a && Abs(t * b) == b;
    assert Sign(t * b) == t;
    if a == 0 {
      assert a / b == 0 && a % b == 0;
    } else {
      assert Sign(s * a) == s;
    }
    if a < b { SmallDividend(a, b); }
  }
}
