// Numbers as digit sequences in base 10^9, most significant digit first.
module BigNum {

  const BASE: int := 1_000_000_000

  function Pow(b: nat, n: nat): nat {
    if n == 0 then 1 else b * Pow(b, n - 1)
  }

  // The value of the first n digits.
  function Upto(d: seq<int>, n: nat): int
    requires n <= |d|
  {
    if n == 0 then 0 else Upto(d, n - 1) * BASE + d[n - 1]
  }

  function Val(d: seq<int>): int {
    Upto(d, |d|)
  }

  predicate Digits(d: seq<int>) {
    forall i :: 0 <= i < |d| ==> 0 <= d[i] < BASE
  }

  // No leading zero, except for zero itself.
  predicate Normal(d: seq<int>) {
    Digits(d) && |d| >= 1 && (|d| > 1 ==> d[0] != 0)
  }

  // The C types of the intermediate results.
  predicate FitsInt(n: int) {
    -0x8000_0000 <= n < 0x8000_0000
  }

  predicate FitsInt64(n: int) {
    -0x8000_0000_0000_0000 <= n < 0x8000_0000_0000_0000
  }

  lemma PowPositive(b: nat, n: nat)
    requires b > 0
    ensures Pow(b, n) > 0
  {
    if n > 0 {
      PowPositive(b, n - 1);
      Positive(b, Pow(b, n - 1));
    }
  }

  lemma Positive(a: int, b: int)
    requires a > 0 && b > 0
    ensures a * b > 0
  {
  }

  lemma {:induction false} PowAdd(b: nat, m: nat, n: nat)
    ensures Pow(b, m + n) == Pow(b, m) * Pow(b, n)
  {
    if m > 0 {
      PowAdd(b, m - 1, n);
      assert Pow(b, m + n) == b * (Pow(b, m - 1) * Pow(b, n));
      assert b * (Pow(b, m - 1) * Pow(b, n)) == (b * Pow(b, m - 1)) * Pow(b, n);
    }
  }

  lemma {:induction false} PowMonotone(b: nat, m: nat, n: nat)
    requires b > 0 && m <= n
    ensures Pow(b, m) <= Pow(b, n)
  {
    if m < n {
      PowMonotone(b, m, n - 1);
      PowPositive(b, n - 1);
      MulMonotone(1, b, Pow(b, n - 1));
    }
  }

  lemma MulMonotone(a: int, b: int, c: int)
    requires a <= b && c >= 0
    ensures a * c <= b * c
  {
  }

  // ---------- values ----------

  lemma {:induction false} SamePrefix(a: seq<int>, b: seq<int>, n: nat)
    requires n <= |a| && n <= |b| && forall i :: 0 <= i < n ==> a[i] == b[i]
    ensures Upto(a, n) == Upto(b, n)
  {
    if n > 0 { SamePrefix(a, b, n - 1); }
  }

  lemma PrefixValue(d: seq<int>, n: nat)
    requires n <= |d|
    ensures Val(d[..n]) == Upto(d, n)
  {
    SamePrefix(d[..n], d, n);
  }

  lemma {:induction false} UptoConcat(a: seq<int>, b: seq<int>, n: nat)
    requires n <= |b|
    ensures Upto(a + b, |a| + n) == Val(a) * Pow(BASE, n) + Upto(b, n)
  {
    if n == 0 {
      SamePrefix(a, a + b, |a|);
    } else {
      UptoConcat(a, b, n - 1);
      Scale(Val(a), Pow(BASE, n - 1), Upto(b, n - 1));
    }
  }

  lemma ValConcat(a: seq<int>, b: seq<int>)
    ensures Val(a + b) == Val(a) * Pow(BASE, |b|) + Val(b)
  {
    UptoConcat(a, b, |b|);
  }

  lemma Scale(a: int, p: int, b: int)
    ensures (a * p + b) * BASE == a * (BASE * p) + b * BASE
  {
  }

  // A digit in front.
  lemma ValCons(x: int, d: seq<int>)
    ensures Val([x] + d) == x * Pow(BASE, |d|) + Val(d)
  {
    OneDigit([x]);
    ValConcat([x], d);
  }

  lemma OneDigit(d: seq<int>)
    requires |d| == 1
    ensures Val(d) == d[0]
  {
    assert Upto(d, 0) == 0;
  }

  // One digit replaced.
  lemma {:induction false} UptoUpdate(d: seq<int>, w: seq<int>, k: nat, n: nat)
    requires |w| == |d| && k < n <= |d| && forall i :: 0 <= i < |d| && i != k ==> w[i] == d[i]
    ensures Upto(w, n) == Upto(d, n) + (w[k] - d[k]) * Pow(BASE, n - 1 - k)
  {
    if k == n - 1 {
      SamePrefix(d, w, k);
    } else {
      UptoUpdate(d, w, k, n - 1);
      Scale(w[k] - d[k], Pow(BASE, n - 2 - k), Upto(d, n - 1));
    }
  }

  lemma ValUpdate(d: seq<int>, k: nat, v: int)
    requires k < |d|
    ensures Val(d[k := v]) == Val(d) + (v - d[k]) * Pow(BASE, |d| - 1 - k)
  {
    UptoUpdate(d, d[k := v], k, |d|);
  }

  lemma SumTimes(a: int, b: int, c: int)
    ensures (a - b) * c == a * c - b * c
    ensures (a + b) * c == a * c + b * c
  {
  }

  lemma {:induction false} UptoBounds(d: seq<int>, n: nat)
    requires n <= |d| && forall i :: 0 <= i < n ==> 0 <= d[i] < BASE
    ensures 0 <= Upto(d, n) < Pow(BASE, n)
  {
    if n > 0 { UptoBounds(d, n - 1); }
  }

  lemma ValBounds(d: seq<int>)
    requires Digits(d)
    ensures 0 <= Val(d) < Pow(BASE, |d|)
  {
    UptoBounds(d, |d|);
  }

  lemma ValAtLeast(d: seq<int>)
    requires d != [] && d[0] > 0 && Digits(d[1..])
    ensures Val(d) >= Pow(BASE, |d| - 1)
  {
    assert d == [d[0]] + d[1..];
    ValCons(d[0], d[1..]);
    ValBounds(d[1..]);
    PowPositive(BASE, |d| - 1);
    MulMonotone(1, d[0], Pow(BASE, |d| - 1));
  }

  lemma {:induction false} ZeroDigits(d: seq<int>, n: nat)
    requires n <= |d| && forall i :: 0 <= i < n ==> d[i] == 0
    ensures Upto(d, n) == 0
  {
    if n > 0 { ZeroDigits(d, n - 1); }
  }

  // Leading zeros do not count.
  lemma DropZeros(d: seq<int>, k: nat)
    requires k <= |d| && forall i :: 0 <= i < k ==> d[i] == 0
    ensures Val(d[k..]) == Val(d)
  {
    assert d == d[..k] + d[k..];
    ValConcat(d[..k], d[k..]);
    PrefixValue(d, k);
    ZeroDigits(d, k);
  }

  // The first difference decides.
  lemma {:induction false} FirstDifferenceUpto(a: seq<int>, b: seq<int>, k: nat, n: nat)
    requires k < n <= |a| == |b| && a[k] < b[k] && forall i :: 0 <= i < k ==> a[i] == b[i]
    requires forall i :: k < i < |a| ==> 0 <= a[i] < BASE && 0 <= b[i] < BASE
    ensures Upto(a, n) < Upto(b, n)
  {
    if k == n - 1 {
      SamePrefix(a, b, k);
    } else {
      FirstDifferenceUpto(a, b, k, n - 1);
    }
  }

  lemma FirstDifference(a: seq<int>, b: seq<int>, k: nat)
    requires k < |a| == |b| && a[k] < b[k] && forall i :: 0 <= i < k ==> a[i] == b[i]
    requires forall i :: k < i < |a| ==> 0 <= a[i] < BASE && 0 <= b[i] < BASE
    ensures Val(a) < Val(b)
  {
    FirstDifferenceUpto(a, b, k, |a|);
  }

  // A longer number without leading zero is larger.
  lemma LongerIsLarger(a: seq<int>, b: seq<int>)
    requires |a| < |b| && Digits(a) && b[0] > 0 && Digits(b[1..])
    ensures Val(a) < Val(b)
  {
    ValBounds(a);
    ValAtLeast(b);
    PowMonotone(BASE, |a|, |b| - 1);
  }

  // A normalised number is determined by its value.
  lemma NormalUnique(a: seq<int>, b: seq<int>)
    requires Normal(a) && Normal(b) && Val(a) == Val(b)
    ensures a == b
  {
    if |a| < |b| { LongerIsLarger(a, b); }
    if |b| < |a| { LongerIsLarger(b, a); }
    if a != b {
      SameLengthDiffer(a, b);
    }
  }

  lemma SameLengthDiffer(a: seq<int>, b: seq<int>)
    requires |a| == |b| && Digits(a) && Digits(b) && a != b
    ensures Val(a) != Val(b)
  {
    var k := FirstUnequal(a, b);
    if a[k] < b[k] {
      FirstDifference(a, b, k);
    } else {
      FirstDifference(b, a, k);
    }
  }

  lemma FirstUnequal(a: seq<int>, b: seq<int>) returns (k: nat)
    requires |a| == |b| && a != b
    ensures k < |a| && a[k] != b[k] && forall i :: 0 <= i < k ==> a[i] == b[i]
  {
    k := 0;
    while a[k] == b[k]
      invariant k < |a| && forall i :: 0 <= i < k ==> a[i] == b[i]
      invariant exists j :: k <= j < |a| && a[j] != b[j]
      decreases |a| - k
    {
      k := k + 1;
    }
  }

  // The leading digits are the value divided by a power of the base.
  lemma LeadingDigits(d: seq<int>, n: nat)
    requires Digits(d) && n <= |d|
    ensures var s := Pow(BASE, |d| - n); Val(d[..n]) * s <= Val(d) < (Val(d[..n]) + 1) * s
  {
    assert d == d[..n] + d[n..];
    ValConcat(d[..n], d[n..]);
    ValBounds(d[n..]);
    SumTimes(Val(d[..n]), 1, Pow(BASE, |d| - n));
  }
}
