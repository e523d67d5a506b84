// Solving for one right-hand side with a decomposition, in place.
module BackSubstitution {
  import opened Matrices

  ghost predicate HasEntries(a: array2<real>, m: Matrix, n: nat)
    reads a
  {
    a.Length0 == n + 1 == a.Length1 && Square(m, n) &&
    forall i, j :: 1 <= i <= n && 1 <= j <= n ==> a[i, j] == m[i][j]
  }

  ghost predicate Regular(m: Matrix, n: nat) {
    Square(m, n) && forall i :: 1 <= i <= n ==> m[i][i] != 0.0
  }

  // ---------- sums ----------

  lemma {:induction false} TimesSame(m: Matrix, n: nat, y: Vector, y': Vector, i: nat, t: nat)
    requires Square(m, n) && |y| == n + 1 == |y'| && i <= n && t <= n && forall k :: 1 <= k <= t ==> y'[k] == y[k]
    ensures Times(m, n, y', i, t) == Times(m, n, y, i, t)
  {
    if t > 0 { TimesSame(m, n, y, y', i, t - 1); }
  }

  lemma {:induction false} TimesZero(m: Matrix, n: nat, y: Vector, i: nat, t: nat)
    requires Square(m, n) && |y| == n + 1 && i <= n && t <= n && forall k :: 1 <= k <= t ==> y[k] == 0.0
    ensures Times(m, n, y, i, t) == 0.0
  {
    if t > 0 { TimesZero(m, n, y, i, t - 1); }
  }

  lemma {:induction false} LowerIsTimes(m: Matrix, n: nat, y: Vector, i: nat, t: nat)
    requires Square(m, n) && |y| == n + 1 && t < i <= n
    ensures LowerTimes(m, n, y, i, t) == Times(m, n, y, i, t)
  {
    if t > 0 { LowerIsTimes(m, n, y, i, t - 1); }
  }

  lemma {:induction false} LowerStops(m: Matrix, n: nat, y: Vector, i: nat, t: nat)
    requires Square(m, n) && |y| == n + 1 && 1 <= i <= t <= n
    ensures LowerTimes(m, n, y, i, t) == Times(m, n, y, i, i - 1) + y[i]
  {
    if t == i { LowerIsTimes(m, n, y, i, i - 1); } else { LowerStops(m, n, y, i, t - 1); }
  }

  // The sum over i < c <= t of m[i][c] * x[c].
  ghost function Tail(m: Matrix, n: nat, x: Vector, i: nat, t: nat): real
    requires Square(m, n) && |x| == n + 1 && i <= n && t <= n
  {
    if t <= i then 0.0 else Tail(m, n, x, i, t - 1) + m[i][t] * x[t]
  }

  lemma {:induction false} TailSame(m: Matrix, n: nat, x: Vector, x': Vector, i: nat, t: nat)
    requires Square(m, n) && |x| == n + 1 == |x'| && i <= n && t <= n && forall k :: i < k <= n ==> x'[k] == x[k]
    ensures Tail(m, n, x', i, t) == Tail(m, n, x, i, t)
  {
    if t > i { TailSame(m, n, x, x', i, t - 1); }
  }

  lemma {:induction false} UpperIsTail(m: Matrix, n: nat, x: Vector, i: nat, t: nat)
    requires Square(m, n) && |x| == n + 1 && 1 <= i <= n && t <= n
    ensures UpperTimes(m, n, x, i, t) == if t < i then 0.0 else m[i][i] * x[i] + Tail(m, n, x, i, t)
  {
    if t > 0 { UpperIsTail(m, n, x, i, t - 1); }
  }

  // Interchanges after the k-th leave the first k elements alone.
  lemma {:induction false} PermutedFixed<T>(s: seq<T>, n: nat, indx: seq<int>, k: nat, k': nat, t: nat)
    requires |s| == n + 1 && 1 <= t <= k <= k' && Interchanges(indx, n, k') && Interchanges(indx, n, k)
    ensures Permuted(s, n, indx, k')[t] == Permuted(s, n, indx, k)[t]
  {
    if k' > k { PermutedFixed(s, n, indx, k, k' - 1, t); }
  }

  // ---------- forward ----------

  // Row t of the lower factor times y; its diagonal is 1.
  ghost function LowerRow(m: Matrix, n: nat, y: Vector, t: nat): real
    requires Square(m, n) && |y| == n + 1 && 1 <= t <= n
  {
    Times(m, n, y, t, t - 1) + y[t]
  }

  // y solves the first k equations of the lower factor, for the right-hand side b.
  ghost predicate Forward(m: Matrix, n: nat, y: Vector, b: Vector, k: nat)
    requires Square(m, n) && |y| == n + 1 == |b| && k <= n
  {
    forall t :: 1 <= t <= k ==> LowerRow(m, n, y, t) == b[t]
  }

  lemma LowerRowSame(m: Matrix, n: nat, y: Vector, y': Vector, t: nat, u: nat)
    requires Square(m, n) && |y| == n + 1 == |y'| && 1 <= t <= n && u == t - 1
    requires forall k :: 1 <= k <= t ==> y'[k] == y[k]
    ensures LowerRow(m, n, y', t) == LowerRow(m, n, y, t)
  {
    TimesSame(m, n, y, y', t, u);
  }

  lemma LowerRowNew(m: Matrix, n: nat, y: Vector, y': Vector, i: nat, u: nat, sum: real, rhs: real)
    requires Square(m, n) && |y| == n + 1 == |y'| && 1 <= i <= n && u == i - 1
    requires (forall k :: 1 <= k < i ==> y'[k] == y[k]) && y'[i] == sum
    requires sum == rhs - Times(m, n, y, i, u)
    ensures LowerRow(m, n, y', i) == rhs
  {
    TimesSame(m, n, y, y', i, u);
  }

  lemma ForwardNext(m: Matrix, n: nat, y: Vector, y': Vector, b: Vector, i: nat, sum: real)
    requires Square(m, n) && |y| == n + 1 == |b| && 1 <= i <= n
    requires Forward(m, n, y, b, i - 1) && y' == y[i := sum]
    requires sum == b[i] - Times(m, n, y, i, i - 1)
    ensures Forward(m, n, y', b, i)
  {
    LowerRowNew(m, n, y, y', i, i - 1, sum, b[i]);
    forall t | 1 <= t < i ensures LowerRow(m, n, y', t) == b[t] {
      LowerRowSame(m, n, y, y', t, t - 1);
    }
  }

  // Either no non-zero element has been seen, or ii is where the first one is.
  ghost predicate SkipsZeros(y: Vector, ii: nat, i: nat) {
    && (ii == 0 ==> forall t :: 1 <= t < i && t < |y| ==> y[t] == 0.0)
    && (ii > 0 ==> ii < i && forall t :: 1 <= t < ii && t < |y| ==> y[t] == 0.0)
  }

  // Subtract the terms from ii on; the ones before are zero.
  method SubtractLower(a: array2<real>, n: nat, b: array<real>, i: nat, ii: nat, sum0: real, ghost m: Matrix,
                       ghost y: Vector)
    returns (sum: real)
    requires HasEntries(a, m, n) && b.Length == n + 1 == |y| && 1 <= ii < i <= n
    requires forall t :: 1 <= t < i ==> b[t] == y[t]
    requires forall t :: 1 <= t < ii ==> y[t] == 0.0
    ensures sum == sum0 - Times(m, n, y, i, i - 1)
  {
    sum := sum0;
    TimesZero(m, n, y, i, ii - 1);
    var j := ii;
    while j <= i - 1
      invariant ii <= j <= i && sum == sum0 - Times(m, n, y, i, j - 1)
    {
      sum := sum - a[i, j] * b[j];
      j := j + 1;
    }
  }

  method ForwardStep(a: array2<real>, n: nat, indx: array<int>, b: array<real>, i: nat, ii0: nat,
                     ghost m: Matrix, ghost y: Vector, ghost idx: seq<int>, ghost b0: Vector)
    returns (ii: nat, ghost y': Vector)
    requires HasEntries(a, m, n) && b.Length == n + 1 == |y| == |b0| && 1 <= i <= n
    requires Interchanges(idx, n, n) && indx.Length == n + 1 && indx[i] == idx[i]
    requires Forward(m, n, y, Permuted(b0, n, idx, n), i - 1) && SkipsZeros(y, ii0, i)
    requires forall t :: 1 <= t < i ==> b[t] == y[t]
    requires forall t :: i <= t <= n ==> b[t] == Permuted(b0, n, idx, i - 1)[t]
    modifies b
    ensures |y'| == n + 1 && Forward(m, n, y', Permuted(b0, n, idx, n), i) && SkipsZeros(y', ii, i + 1)
    ensures forall t :: 1 <= t <= i ==> b[t] == y'[t]
    ensures forall t :: i < t <= n ==> b[t] == Permuted(b0, n, idx, i)[t]
  {
    ii := ii0;
    var ip := indx[i];
    var sum := b[ip];
    b[ip] := b[i];
    if ii != 0 {
      sum := SubtractLower(a, n, b, i, ii, sum, m, y);
    } else {
      TimesZero(m, n, y, i, i - 1);
      if sum != 0.0 {
        ii := i;
      }
    }
    b[i] := sum;
    y' := y[i := sum];
    PermutedFixed(b0, n, idx, i, n, i);
    ForwardNext(m, n, y, y', Permuted(b0, n, idx, n), i, sum);
  }

  // ---------- backward ----------

  // Row t of the upper factor times x.
  ghost function UpperRow(m: Matrix, n: nat, x: Vector, t: nat): real
    requires Square(m, n) && |x| == n + 1 && 1 <= t <= n
  {
    m[t][t] * x[t] + Tail(m, n, x, t, n)
  }

  // x solves the equations of the upper factor after the k-th.
  ghost predicate Backward(m: Matrix, n: nat, x: Vector, y: Vector, k: nat)
    requires Square(m, n) && |x| == n + 1 == |y|
  {
    forall t :: k < t <= n ==> UpperRow(m, n, x, t) == y[t]
  }

  lemma Quotient(s: real, d: real)
    requires d != 0.0
    ensures d * (s / d) == s
  {
  }

  lemma UpperRowSame(m: Matrix, n: nat, x: Vector, x': Vector, t: nat)
    requires Square(m, n) && |x| == n + 1 == |x'| && 1 <= t <= n && forall k :: t <= k <= n ==> x'[k] == x[k]
    ensures UpperRow(m, n, x', t) == UpperRow(m, n, x, t)
  {
    TailSame(m, n, x, x', t, n);
  }

  lemma UpperRowNew(m: Matrix, n: nat, x: Vector, x': Vector, i: nat, sum: real, rhs: real)
    requires Square(m, n) && |x| == n + 1 == |x'| && 1 <= i <= n
    requires (forall k :: i < k <= n ==> x'[k] == x[k]) && m[i][i] * x'[i] == sum
    requires sum == rhs - Tail(m, n, x, i, n)
    ensures UpperRow(m, n, x', i) == rhs
  {
    TailSame(m, n, x, x', i, n);
  }

  lemma BackwardNext(m: Matrix, n: nat, x: Vector, x': Vector, y: Vector, i: nat, sum: real)
    requires Regular(m, n) && |x| == n + 1 == |y| && 1 <= i <= n && Backward(m, n, x, y, i)
    requires sum == y[i] - Tail(m, n, x, i, n) && x' == x[i := sum / m[i][i]]
    ensures Backward(m, n, x', y, i - 1)
  {
    Quotient(sum, m[i][i]);
    UpperRowNew(m, n, x, x', i, sum, y[i]);
    forall t | i < t <= n ensures UpperRow(m, n, x', t) == y[t] {
      UpperRowSame(m, n, x, x', t);
    }
  }

  method SubtractUpper(a: array2<real>, n: nat, b: array<real>, i: nat, ghost m: Matrix, ghost x: Vector)
    returns (sum: real)
    requires HasEntries(a, m, n) && b.Length == n + 1 == |x| && 1 <= i <= n
    requires forall t :: i < t <= n ==> b[t] == x[t]
    ensures sum == b[i] - Tail(m, n, x, i, n)
  {
    sum := b[i];
    var j := i + 1;
    while j <= n
      invariant i < j <= n + 1 && sum == b[i] - Tail(m, n, x, i, j - 1)
    {
      sum := sum - a[i, j] * b[j];
      j := j + 1;
    }
  }

  // ---------- both ----------

  method Substitute(a: array2<real>, n: nat, indx: array<int>, b: array<real>, ghost m: Matrix, ghost idx: seq<int>)
    returns (ghost y: Vector)
    requires HasEntries(a, m, n) && Regular(m, n) && b.Length == n + 1
    requires indx.Length == n + 1 == |idx| && (forall t :: 0 <= t <= n ==> indx[t] == idx[t]) && Interchanges(idx, n, n)
    modifies b
    ensures |y| == n + 1 && Forward(m, n, y, Permuted(old(b[..]), n, idx, n), n)
    ensures |b[..]| == n + 1 && Backward(m, n, b[..], y, 0)
  {
    ghost var b0 := b[..];
    y := b0;
    var ii := 0;
    for i := 1 to n + 1
      invariant |y| == n + 1 && Forward(m, n, y, Permuted(b0, n, idx, n), i - 1) && SkipsZeros(y, ii, i)
      invariant forall t :: 1 <= t < i ==> b[t] == y[t]
      invariant forall t :: i <= t <= n ==> b[t] == Permuted(b0, n, idx, i - 1)[t]
    {
      ii, y := ForwardStep(a, n, indx, b, i, ii, m, y, idx, b0);
    }
    ghost var x := b[..];
    var i := n;
    while i >= 1
      invariant 0 <= i <= n && |x| == n + 1 && Backward(m, n, x, y, i)
      invariant forall t :: 0 <= t <= n ==> b[t] == x[t]
      invariant forall t :: 1 <= t <= i ==> x[t] == y[t]
    {
      var sum := SubtractUpper(a, n, b, i, m, x);
      b[i] := sum / a[i, i];
      ghost var x' := x[i := sum / m[i][i]];
      BackwardNext(m, n, x, x', y, i, sum);
      x := x';
      i := i - 1;
    }
    assert b[..] == x;
  }

  // The two halves together: a solution for every right-hand side.
  lemma SolvesPermuted(m: Matrix, p: Matrix, n: nat, x: Vector, y: Vector, b: Vector, indx: seq<int>)
    requires Square(m, n) && Square(p, n) && |x| == n + 1 == |y| && |b| == n + 1 && Interchanges(indx, n, n)
    requires forall i, c :: 1 <= i <= n && 1 <= c <= n ==> Product(m, n, i, c, n) == p[i][c]
    requires Forward(m, n, y, Permuted(b, n, indx, n), n) && Backward(m, n, x, y, 0)
    ensures forall i :: 1 <= i <= n ==> Times(p, n, x, i, n) == Permuted(b, n, indx, n)[i]
  {
    forall k | 1 <= k <= n ensures y[k] == UpperTimes(m, n, x, k, n) {
      UpperIsTail(m, n, x, k, n);
      assert UpperRow(m, n, x, k) == y[k];
    }
    forall i | 1 <= i <= n ensures Times(p, n, x, i, n) == Permuted(b, n, indx, n)[i] {
      Associates(m, p, n, x, y, i);
      LowerStops(m, n, y, i, n);
      assert LowerRow(m, n, y, i) == Permuted(b, n, indx, n)[i];
    }
  }

  // What a decomposition of a is: the factors multiply to a with its rows interchanged.
  ghost predicate Decomposes(m: Matrix, n: nat, indx: seq<int>, a: Matrix) {
    && Square(m, n) && Square(a, n) && Interchanges(indx, n, n) && Regular(m, n)
    && Square(Permuted(a, n, indx, n), n)
    && forall i, c :: 1 <= i <= n && 1 <= c <= n ==> Product(m, n, i, c, n) == Permuted(a, n, indx, n)[i][c]
  }

  // Solve a0 x = b for the a0 that was decomposed; b becomes x.
  method Lubksb(a: array2<real>, n: nat, indx: array<int>, b: array<real>, ghost m: Matrix, ghost idx: seq<int>,
                ghost a0: Matrix)
    requires HasEntries(a, m, n) && b.Length == n + 1 && Decomposes(m, n, idx, a0)
    requires indx.Length == n + 1 && forall t :: 0 <= t <= n ==> indx[t] == idx[t]
    modifies b
    ensures forall i :: 1 <= i <= n ==> Times(a0, n, b[..], i, n) == old(b[..])[i]
  {
    ghost var b0 := b[..];
    ghost var y := Substitute(a, n, indx, b, m, idx);
    SolvesPermuted(m, Permuted(a0, n, idx, n), n, b[..], y, b0, idx);
    Unpermute(a0, b0, n, idx, n, b[..]);
  }
}
