// Square matrices over exact reals, with rows and columns numbered from 1, and what a matrix
// that holds both factors of a decomposition stands for.
module Matrices {

  type Vector = seq<real>
  type Matrix = seq<seq<real>>

  // n rows and columns; row and column 0 are not used.
  predicate Square(m: Matrix, n: nat) {
    |m| == n + 1 && forall i :: 0 <= i <= n ==> |m[i]| == n + 1
  }

  // The sum over k <= t of m[i][k] * m[k][c].
  ghost function Dot(m: Matrix, n: nat, i: nat, c: nat, t: nat): real
    requires Square(m, n) && i <= n && c <= n && t <= n
  {
    if t == 0 then 0.0 else Dot(m, n, i, c, t - 1) + m[i][t] * m[t][c]
  }

  lemma {:induction false} DotSame(m: Matrix, m': Matrix, n: nat, i: nat, i': nat, c: nat, t: nat)
    requires Square(m, n) && Square(m', n) && i <= n && i' <= n && c <= n && t <= n
    requires forall k :: 1 <= k <= t ==> m'[i'][k] == m[i][k] && m'[k][c] == m[k][c]
    ensures Dot(m', n, i', c, t) == Dot(m, n, i, c, t)
  {
    if t > 0 { DotSame(m, m', n, i, i', c, t - 1); }
  }

  // ---------- the two factors in one matrix ----------

  // Below the diagonal the lower factor, whose diagonal is 1; from the diagonal on the upper one.
  ghost function LowerAt(m: Matrix, n: nat, i: nat, k: nat): real
    requires Square(m, n) && i <= n && k <= n
  {
    if k < i then m[i][k] else if k == i then 1.0 else 0.0
  }

  ghost function UpperAt(m: Matrix, n: nat, k: nat, c: nat): real
    requires Square(m, n) && k <= n && c <= n
  {
    if k <= c then m[k][c] else 0.0
  }

  // The sum over k <= t of the products of both factors.
  ghost function Product(m: Matrix, n: nat, i: nat, c: nat, t: nat): real
    requires Square(m, n) && i <= n && c <= n && t <= n
  {
    if t == 0 then 0.0 else Product(m, n, i, c, t - 1) + LowerAt(m, n, i, t) * UpperAt(m, n, t, c)
  }

  // The same entry as the algorithm keeps it.
  ghost function Entry(m: Matrix, n: nat, i: nat, c: nat): real
    requires Square(m, n) && 1 <= i <= n && 1 <= c <= n
  {
    if i <= c then m[i][c] + Dot(m, n, i, c, i - 1) else Dot(m, n, i, c, c)
  }

  lemma {:induction false} ProductIsDot(m: Matrix, n: nat, i: nat, c: nat, t: nat)
    requires Square(m, n) && i <= n && c <= n && t <= n && t < i && t <= c
    ensures Product(m, n, i, c, t) == Dot(m, n, i, c, t)
  {
    if t > 0 { ProductIsDot(m, n, i, c, t - 1); }
  }

  lemma {:induction false} ProductStops(m: Matrix, n: nat, i: nat, c: nat, t: nat, u: nat)
    requires Square(m, n) && i <= n && c <= n && t <= u <= n && (i <= t || c <= t)
    ensures Product(m, n, i, c, u) == Product(m, n, i, c, t)
  {
    if u > t { ProductStops(m, n, i, c, t, u - 1); }
  }

  lemma ProductIsEntry(m: Matrix, n: nat, i: nat, c: nat)
    requires Square(m, n) && 1 <= i <= n && 1 <= c <= n
    ensures Product(m, n, i, c, n) == Entry(m, n, i, c)
  {
    if i <= c {
      ProductIsDot(m, n, i, c, i - 1);
      ProductStops(m, n, i, c, i, n);
    } else {
      ProductIsDot(m, n, i, c, c);
      ProductStops(m, n, i, c, c, n);
    }
  }

  // ---------- matrix times vector ----------

  ghost function Times(m: Matrix, n: nat, x: Vector, i: nat, t: nat): real
    requires Square(m, n) && |x| == n + 1 && i <= n && t <= n
  {
    if t == 0 then 0.0 else Times(m, n, x, i, t - 1) + m[i][t] * x[t]
  }

  ghost function LowerTimes(m: Matrix, n: nat, y: Vector, i: nat, t: nat): real
    requires Square(m, n) && |y| == n + 1 && i <= n && t <= n
  {
    if t == 0 then 0.0 else LowerTimes(m, n, y, i, t - 1) + LowerAt(m, n, i, t) * y[t]
  }

  ghost function UpperTimes(m: Matrix, n: nat, x: Vector, k: nat, t: nat): real
    requires Square(m, n) && |x| == n + 1 && k <= n && t <= n
  {
    if t == 0 then 0.0 else UpperTimes(m, n, x, k, t - 1) + UpperAt(m, n, k, t) * x[t]
  }

  // The sum over c <= t of (the sum over k <= b of L[i][k] U[k][c]) x[c].
  ghost function Nested(m: Matrix, n: nat, x: Vector, i: nat, b: nat, t: nat): real
    requires Square(m, n) && |x| == n + 1 && i <= n && b <= n && t <= n
  {
    if t == 0 then 0.0 else Nested(m, n, x, i, b, t - 1) + Product(m, n, i, t, b) * x[t]
  }

  lemma Expand(s: real, p: real, l: real, u: real, x: real, r: real)
    ensures s + l * r + (p + l * u) * x == s + p * x + l * (r + u * x)
  {
    assert (p + l * u) * x == p * x + l * u * x;
    assert l * (r + u * x) == l * r + l * (u * x);
    assert l * u * x == l * (u * x);
  }

  lemma {:induction false} NestedStep(m: Matrix, n: nat, x: Vector, i: nat, b: nat, t: nat)
    requires Square(m, n) && |x| == n + 1 && i <= n && 1 <= b <= n && t <= n
    ensures Nested(m, n, x, i, b, t) == Nested(m, n, x, i, b - 1, t) + LowerAt(m, n, i, b) * UpperTimes(m, n, x, b, t)
  {
    if t > 0 {
      NestedStep(m, n, x, i, b, t - 1);
      Expand(Nested(m, n, x, i, b - 1, t - 1), Product(m, n, i, t, b - 1), LowerAt(m, n, i, b),
             UpperAt(m, n, b, t), x[t],
             UpperTimes(m, n, x, b, t - 1));
    }
  }

  lemma {:induction false} NestedZero(m: Matrix, n: nat, x: Vector, i: nat, t: nat)
    requires Square(m, n) && |x| == n + 1 && i <= n && t <= n
    ensures Nested(m, n, x, i, 0, t) == 0.0
  {
    if t > 0 { NestedZero(m, n, x, i, t - 1); }
  }

  // The order of summation does not matter: L (U x).
  lemma {:induction false} NestedIsLower(m: Matrix, n: nat, x: Vector, y: Vector, i: nat, b: nat)
    requires Square(m, n) && |x| == n + 1 == |y| && i <= n && b <= n
    requires forall k :: 1 <= k <= n ==> y[k] == UpperTimes(m, n, x, k, n)
    ensures Nested(m, n, x, i, b, n) == LowerTimes(m, n, y, i, b)
  {
    if b == 0 {
      NestedZero(m, n, x, i, n);
    } else {
      NestedStep(m, n, x, i, b, n);
      NestedIsLower(m, n, x, y, i, b - 1);
    }
  }

  lemma {:induction false} NestedIsTimes(m: Matrix, p: Matrix, n: nat, x: Vector, i: nat, t: nat)
    requires Square(m, n) && Square(p, n) && |x| == n + 1 && 1 <= i <= n && t <= n
    requires forall c :: 1 <= c <= n ==> Product(m, n, i, c, n) == p[i][c] || x[c] == 0.0
    ensures Nested(m, n, x, i, n, t) == Times(p, n, x, i, t)
  {
    if t > 0 {
      NestedIsTimes(m, p, n, x, i, t - 1);
      assert x[t] == 0.0 || Product(m, n, i, t, n) == p[i][t];
    }
  }

  // (L U) x == L (U x).
  lemma Associates(m: Matrix, p: Matrix, n: nat, x: Vector, y: Vector, i: nat)
    requires Square(m, n) && Square(p, n) && |x| == n + 1 == |y| && 1 <= i <= n
    requires forall k :: 1 <= k <= n ==> y[k] == UpperTimes(m, n, x, k, n)
    requires forall c :: 1 <= c <= n ==> Product(m, n, i, c, n) == p[i][c] || x[c] == 0.0
    ensures Times(p, n, x, i, n) == LowerTimes(m, n, y, i, n)
  {
    NestedIsLower(m, n, x, y, i, n);
    NestedIsTimes(m, p, n, x, i, n);
  }

  // ---------- rows in another order ----------

  function Swap<T>(s: seq<T>, i: nat, j: nat): (r: seq<T>)
    requires i < |s| && j < |s|
    ensures |r| == |s| && r[i] == s[j] && r[j] == s[i] && forall k :: 0 <= k < |s| && k != i && k != j ==> r[k] == s[k]
  {
    s[i := s[j]][j := s[i]]
  }

  predicate Interchanges(indx: seq<int>, n: nat, k: nat) {
    |indx| == n + 1 && k <= n && forall i :: 1 <= i <= k ==> i <= indx[i] <= n
  }

  // The first k interchanges, one after the other.
  ghost function Permuted<T>(s: seq<T>, n: nat, indx: seq<int>, k: nat): (r: seq<T>)
    requires |s| == n + 1 && Interchanges(indx, n, k)
    ensures |r| == |s|
  {
    if k == 0 then s else Swap(Permuted(s, n, indx, k - 1), k, indx[k])
  }

  lemma {:induction false} PermutedSquare(a: Matrix, n: nat, indx: seq<int>, k: nat)
    requires Square(a, n) && Interchanges(indx, n, k)
    ensures Square(Permuted(a, n, indx, k), n)
  {
    if k > 0 { PermutedSquare(a, n, indx, k - 1); }
  }

  lemma {:induction false} PermutedSame<T>(s: seq<T>, n: nat, indx: seq<int>, indx': seq<int>, k: nat)
    requires |s| == n + 1 && Interchanges(indx, n, k) && Interchanges(indx', n, k)
    requires forall i :: 1 <= i <= k ==> indx'[i] == indx[i]
    ensures Permuted(s, n, indx', k) == Permuted(s, n, indx, k)
  {
    if k > 0 { PermutedSame(s, n, indx, indx', k - 1); }
  }

  lemma {:induction false} SameRow(p: Matrix, q: Matrix, n: nat, x: Vector, i: nat, j: nat, t: nat)
    requires Square(p, n) && Square(q, n) && |x| == n + 1 && i <= n && j <= n && t <= n && p[i] == q[j]
    ensures Times(p, n, x, i, t) == Times(q, n, x, j, t)
  {
    if t > 0 { SameRow(p, q, n, x, i, j, t - 1); }
  }

  // A solution of the equations in another order is a solution.
  lemma {:induction false} Unpermute(a: Matrix, b: Vector, n: nat, indx: seq<int>, k: nat, x: Vector)
    requires Square(a, n) && |b| == n + 1 == |x| && Interchanges(indx, n, k)
    requires Square(Permuted(a, n, indx, k), n)
    requires forall i :: 1 <= i <= n ==> Times(Permuted(a, n, indx, k), n, x, i, n) == Permuted(b, n, indx, k)[i]
    ensures forall i :: 1 <= i <= n ==> Times(a, n, x, i, n) == b[i]
  {
    if k > 0 {
      PermutedSquare(a, n, indx, k - 1);
      var p, q := Permuted(a, n, indx, k - 1), Permuted(a, n, indx, k);
      var v, w := Permuted(b, n, indx, k - 1), Permuted(b, n, indx, k);
      forall i | 1 <= i <= n ensures Times(p, n, x, i, n) == v[i] {
        var j := if i == k then indx[k] else if i == indx[k] then k else i;
        SameRow(p, q, n, x, i, j, n);
        assert w[j] == v[i];
      }
      Unpermute(a, b, n, indx, k - 1, x);
    }
  }
}
