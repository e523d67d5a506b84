// A decomposition exists exactly for the matrices whose equations have one solution each.
module Singularity {
  import opened Matrices
  import opened BackSubstitution
  import opened LuDecomposition

  ghost predicate Solves(a: Matrix, n: nat, x: Vector, b: Vector) {
    Square(a, n) && |x| == n + 1 == |b| && forall i :: 1 <= i <= n ==> Times(a, n, x, i, n) == b[i]
  }

  ghost predicate HasSolution(a: Matrix, n: nat, b: Vector) {
    exists x :: Solves(a, n, x, b)
  }

  // a x == 0.
  ghost predicate Kills(a: Matrix, n: nat, x: Vector) {
    Square(a, n) && |x| == n + 1 && forall i :: 1 <= i <= n ==> Times(a, n, x, i, n) == 0.0
  }

  ghost predicate ZeroFrom(x: Vector, k: nat) {
    forall i :: k < i < |x| ==> x[i] == 0.0
  }

  // Every right-hand side has a solution, and only zero solves a x == 0.
  ghost predicate WellPosed(a: Matrix, n: nat) {
    && (forall b: Vector :: |b| == n + 1 ==> HasSolution(a, n, b))
    && (forall x :: Kills(a, n, x) ==> ZeroFrom(x, 0))
  }

  // ---------- a decomposition gives solutions ----------

  lemma {:induction false} ForwardExists(m: Matrix, n: nat, b: Vector, k: nat) returns (y: Vector)
    requires Square(m, n) && |b| == n + 1 && k <= n
    ensures |y| == n + 1 && Forward(m, n, y, b, k)
  {
    if k == 0 {
      y := b;
    } else {
      var y0 := ForwardExists(m, n, b, k - 1);
      var sum := b[k] - Times(m, n, y0, k, k - 1);
      y := y0[k := sum];
      ForwardNext(m, n, y0, y, b, k, sum);
    }
  }

  // Rows k + 1 to j solved, for a vector that is fixed from j + 1 on.
  lemma {:induction false} BackwardExists(m: Matrix, n: nat, x0: Vector, y: Vector, j: nat, k: nat) returns (x: Vector)
    requires Square(m, n) && |x0| == n + 1 == |y| && k <= j <= n
    requires forall i :: 1 <= i <= j ==> m[i][i] != 0.0
    ensures |x| == n + 1 && (forall t :: j < t <= n ==> x[t] == x0[t])
    ensures forall t :: k < t <= j ==> UpperRow(m, n, x, t) == y[t]
    decreases j - k
  {
    if k == j {
      x := x0;
    } else {
      var x1 := BackwardExists(m, n, x0, y, j, k + 1);
      var sum := y[k + 1] - Tail(m, n, x1, k + 1, n);
      Quotient(sum, m[k + 1][k + 1]);
      x := x1[k + 1 := sum / m[k + 1][k + 1]];
      UpperRowNew(m, n, x1, x, k + 1, sum, y[k + 1]);
      forall t | k + 1 < t <= j ensures UpperRow(m, n, x, t) == y[t] {
        UpperRowSame(m, n, x1, x, t);
      }
    }
  }

  lemma DecomposedSolves(m: Matrix, n: nat, indx: seq<int>, a: Matrix, b: Vector)
    requires Decomposes(m, n, indx, a) && |b| == n + 1
    ensures HasSolution(a, n, b)
  {
    var y := ForwardExists(m, n, Permuted(b, n, indx, n), n);
    var x := BackwardExists(m, n, y, y, n, 0);
    SolvesPermuted(m, Permuted(a, n, indx, n), n, x, y, b, indx);
    Unpermute(a, b, n, indx, n, x);
    assert Solves(a, n, x, b);
  }

  // ---------- and only one ----------

  lemma {:induction false} LowerKills(m: Matrix, n: nat, y: Vector, k: nat)
    requires Square(m, n) && |y| == n + 1 && k <= n
    requires forall i :: 1 <= i <= n ==> LowerRow(m, n, y, i) == 0.0
    ensures forall i :: 1 <= i <= k ==> y[i] == 0.0
  {
    if k > 0 {
      LowerKills(m, n, y, k - 1);
      TimesZero(m, n, y, k, k - 1);
      assert LowerRow(m, n, y, k) == 0.0;
    }
  }

  lemma {:induction false} TailZero(m: Matrix, n: nat, x: Vector, i: nat, t: nat)
    requires Square(m, n) && |x| == n + 1 && i <= n && t <= n && ZeroFrom(x, i)
    ensures Tail(m, n, x, i, t) == 0.0
  {
    if t > i { TailZero(m, n, x, i, t - 1); }
  }

  lemma ProductZero(d: real, x: real)
    requires d != 0.0 && d * x == 0.0
    ensures x == 0.0
  {
  }

  lemma {:induction false} UpperKills(m: Matrix, n: nat, x: Vector, k: nat)
    requires Regular(m, n) && |x| == n + 1 && k <= n
    requires forall i :: 1 <= i <= n ==> UpperRow(m, n, x, i) == 0.0
    ensures ZeroFrom(x, k)
    decreases n - k
  {
    if k < n {
      UpperKills(m, n, x, k + 1);
      TailZero(m, n, x, k + 1, n);
      assert UpperRow(m, n, x, k + 1) == 0.0;
      ProductZero(m[k + 1][k + 1], x[k + 1]);
    }
  }

  lemma {:induction false} PermutedKills(a: Matrix, n: nat, indx: seq<int>, k: nat, x: Vector)
    requires Kills(a, n, x) && Interchanges(indx, n, k)
    ensures Kills(Permuted(a, n, indx, k), n, x)
  {
    PermutedSquare(a, n, indx, k);
    if k > 0 {
      PermutedKills(a, n, indx, k - 1, x);
      var p, q := Permuted(a, n, indx, k - 1), Permuted(a, n, indx, k);
      forall i | 1 <= i <= n ensures Times(q, n, x, i, n) == 0.0 {
        var j := if i == k then indx[k] else if i == indx[k] then k else i;
        SameRow(q, p, n, x, i, j, n);
      }
    }
  }

  ghost function UpperImage(m: Matrix, n: nat, x: Vector, k: nat): (y: Vector)
    requires Square(m, n) && |x| == n + 1 && k <= n
    ensures |y| == k + 1 && forall i :: 1 <= i <= k ==> y[i] == UpperTimes(m, n, x, i, n)
  {
    if k == 0 then [0.0] else UpperImage(m, n, x, k - 1) + [UpperTimes(m, n, x, k, n)]
  }

  lemma DecomposedKills(m: Matrix, n: nat, indx: seq<int>, a: Matrix, x: Vector)
    requires Decomposes(m, n, indx, a) && Kills(a, n, x)
    ensures ZeroFrom(x, 0)
  {
    var p := Permuted(a, n, indx, n);
    var y := UpperImage(m, n, x, n);
    PermutedKills(a, n, indx, n, x);
    forall i | 1 <= i <= n ensures LowerRow(m, n, y, i) == 0.0 {
      Associates(m, p, n, x, y, i);
      LowerStops(m, n, y, i, n);
    }
    LowerKills(m, n, y, n);
    forall i | 1 <= i <= n ensures UpperRow(m, n, x, i) == 0.0 {
      UpperIsTail(m, n, x, i, n);
    }
    UpperKills(m, n, x, 0);
  }

  lemma DecomposedIsRegular(m: Matrix, n: nat, indx: seq<int>, a: Matrix)
    requires Decomposes(m, n, indx, a)
    ensures WellPosed(a, n)
  {
    forall b: Vector | |b| == n + 1 ensures HasSolution(a, n, b) {
      DecomposedSolves(m, n, indx, a, b);
    }
    forall x | Kills(a, n, x) ensures ZeroFrom(x, 0) {
      DecomposedKills(m, n, indx, a, x);
    }
  }

  // ---------- where the decomposition gives up ----------

  lemma {:induction false} ZeroRowTimes(a: Matrix, n: nat, x: Vector, i: nat, t: nat)
    requires Square(a, n) && |x| == n + 1 && i <= n && t <= n && forall k :: 1 <= k <= n ==> a[i][k] == 0.0
    ensures Times(a, n, x, i, t) == 0.0
  {
    if t > 0 { ZeroRowTimes(a, n, x, i, t - 1); }
  }

  // A row of zeros: there are equations without a solution.
  lemma ZeroRowIsSingular(a: Matrix, n: nat, i: nat)
    requires Square(a, n) && 1 <= i <= n && forall k :: 1 <= k <= n ==> a[i][k] == 0.0
    ensures !WellPosed(a, n)
  {
    var b := seq(n + 1, _ => 1.0);
    forall x ensures !Solves(a, n, x, b) {
      if Solves(a, n, x, b) { ZeroRowTimes(a, n, x, i, n); }
    }
    assert !HasSolution(a, n, b);
  }

  // All candidates for a pivot are zero: some vector other than zero is sent to zero.
  lemma ZeroPivotVector(m: Matrix, p: Matrix, n: nat, j: nat) returns (x: Vector)
    requires AtRow(m, p, n, j, n + 1) && 1 <= j <= n
    requires (forall i :: 1 <= i < j ==> m[i][i] != 0.0) && forall i :: j <= i <= n ==> m[i][j] == 0.0
    ensures Kills(p, n, x) && x[j] == 1.0
  {
    var zero := seq(n + 1, _ => 0.0);
    x := BackwardExists(m, n, zero[j := 1.0], zero, j - 1, 0);
    var y := UpperImage(m, n, x, n);
    forall k | 1 <= k <= n ensures y[k] == 0.0 {
      UpperIsTail(m, n, x, k, n);
      if k < j {
        assert UpperRow(m, n, x, k) == zero[k];
      } else {
        TailZero(m, n, x, k, n);
      }
    }
    forall c | 1 <= c <= n ensures x[c] == 0.0 || forall i :: 1 <= i <= n ==> Product(m, n, i, c, n) == p[i][c] {
      if c <= j {
        forall i | 1 <= i <= n ensures Product(m, n, i, c, n) == p[i][c] {
          ZeroPivotEntry(m, p, n, j, i, c, j - 1);
        }
      }
    }
    forall i | 1 <= i <= n ensures Times(p, n, x, i, n) == 0.0 {
      Associates(m, p, n, x, y, i);
      LowerStops(m, n, y, i, n);
      TimesZero(m, n, y, i, i - 1);
    }
  }

  lemma ZeroPivotEntry(m: Matrix, p: Matrix, n: nat, j: nat, i: nat, c: nat, t: nat)
    requires AtRow(m, p, n, j, n + 1) && 1 <= j <= n && 1 <= i <= n && 1 <= c <= j && t == j - 1
    requires forall r :: j <= r <= n ==> m[r][j] == 0.0
    ensures Product(m, n, i, c, n) == p[i][c]
  {
    ProductIsEntry(m, n, i, c);
    if c == j { assert Restored(m, n, i, j) == p[i][j]; }
  }

  lemma {:induction false} PermutedZero(n: nat, indx: seq<int>, k: nat, b: Vector)
    requires Interchanges(indx, n, k) && |b| == n + 1 && forall i :: 0 <= i <= n ==> b[i] == 0.0
    ensures forall i :: 0 <= i <= n ==> Permuted(b, n, indx, k)[i] == 0.0
  {
    if k > 0 { PermutedZero(n, indx, k - 1, b); }
  }

  lemma ZeroPivotIsSingular(m: Matrix, n: nat, indx: seq<int>, a: Matrix, j: nat)
    requires Square(a, n) && 1 <= j <= n && Interchanges(indx, n, j)
    requires AtRow(m, Permuted(a, n, indx, j), n, j, n + 1)
    requires (forall i :: 1 <= i < j ==> m[i][i] != 0.0) && forall i :: j <= i <= n ==> m[i][j] == 0.0
    ensures !WellPosed(a, n)
  {
    var x := ZeroPivotVector(m, Permuted(a, n, indx, j), n, j);
    var zero := seq(n + 1, _ => 0.0);
    PermutedZero(n, indx, j, zero);
    Unpermute(a, zero, n, indx, j, x);
    assert Kills(a, n, x) && !ZeroFrom(x, 0);
  }
}
