// The determinant as the decomposition gives it, and where the decomposition gives up.
module LuDeterminant {
  import opened Matrices
  import opened BackSubstitution
  import opened LuDecomposition
  import opened Determinants

  // ---------- a decomposition ----------

  // The upper factor.
  ghost function Upper(m: Matrix, n: nat, k: nat): (q: Matrix)
    requires Square(m, n) && k <= n + 1
    ensures |q| == k && forall i :: 0 <= i < k ==> |q[i]| == n + 1
    ensures forall i, c :: 0 <= i < k && 0 <= c <= n ==> q[i][c] == UpperAt(m, n, i, c)
  {
    if k == 0 then [] else Upper(m, n, k - 1) + [seq(n + 1, c requires 0 <= c <= n => UpperAt(m, n, k - 1, c))]
  }

  lemma {:induction false} MixedIsProduct(m: Matrix, q: Matrix, n: nat, i: nat, c: nat, t: nat)
    requires Square(m, n) && Square(q, n) && i <= n && c <= n && t < i
    requires forall k :: 1 <= k <= t ==> q[k][c] == UpperAt(m, n, k, c)
    ensures Mixed(m, q, n, i, c, t) == Product(m, n, i, c, t)
  {
    if t > 0 { MixedIsProduct(m, q, n, i, c, t - 1); }
  }

  lemma ProductAtDiagonal(m: Matrix, n: nat, i: nat, c: nat)
    requires Square(m, n) && 1 <= i <= n && c <= n
    ensures Product(m, n, i, c, n) == UpperAt(m, n, i, c) + Product(m, n, i, c, i - 1)
  {
    ProductStops(m, n, i, c, i, n);
  }

  lemma UpperEliminated(m: Matrix, p: Matrix, q: Matrix, n: nat)
    requires Square(m, n) && Square(p, n) && q == Upper(m, n, n + 1)
    requires forall i, c :: 1 <= i <= n && 1 <= c <= n ==> Product(m, n, i, c, n) == p[i][c]
    ensures Eliminated(p, m, q, n)
  {
    hide Mixed, Product, UpperAt;
    forall i, c | 1 <= i <= n && 1 <= c <= n ensures p[i][c] == q[i][c] + Mixed(m, q, n, i, c, i - 1) {
      MixedIsProduct(m, q, n, i, c, i - 1);
      ProductAtDiagonal(m, n, i, c);
    }
  }

  // The determinant is the product of the diagonal with the sign of the interchanges.
  lemma DecomposedDeterminant(m: Matrix, n: nat, indx: seq<int>, a: Matrix)
    requires Decomposes(m, n, indx, a)
    ensures Square(a, n)
    ensures (Sign(indx, n) == 1.0 && Determinant(a, n) == Diagonal(m, n, n))
         || (Sign(indx, n) == -1.0 && Determinant(a, n) == -Diagonal(m, n, n))
  {
    hide Det, Mixed, Product, Diagonal;
    var p, q := Permuted(a, n, indx, n), Upper(m, n, n + 1);
    UpperEliminated(m, p, q, n);
    EliminationKeeps(p, m, q, n);
    TriangularDeterminant(q, n);
    SameDiagonals(m, q, n, n);
    PermutedDeterminant(a, n, indx, n);
  }

  lemma {:induction false} SameDiagonals(m: Matrix, q: Matrix, n: nat, t: nat)
    requires Square(m, n) && Square(q, n) && t <= n && forall i :: 1 <= i <= t ==> q[i][i] == m[i][i]
    ensures Diagonal(q, n, t) == Diagonal(m, n, t)
  {
    if t > 0 { SameDiagonals(m, q, n, t - 1); }
  }

  // ---------- giving up ----------

  lemma {:induction false} MixedSame(l: Matrix, q: Matrix, q': Matrix, n: nat, i: nat, c: nat, t: nat)
    requires Square(l, n) && Square(q, n) && Square(q', n) && i <= n && c <= n && t <= n
    requires forall k :: 1 <= k <= t ==> q'[k] == q[k]
    ensures Mixed(l, q', n, i, c, t) == Mixed(l, q, n, i, c, t)
  {
    if t > 0 { MixedSame(l, q, q', n, i, c, t - 1); }
  }

  // Subtracting multiples of the rows before, row by row.
  lemma {:induction false} Eliminate(p: Matrix, l: Matrix, n: nat, t: nat) returns (q: Matrix)
    requires Square(p, n) && Square(l, n) && t <= n
    ensures Square(q, n)
    ensures forall i, c :: 1 <= i <= t && 1 <= c <= n ==> p[i][c] == q[i][c] + Mixed(l, q, n, i, c, i - 1)
  {
    if t == 0 {
      q := p;
    } else {
      var q0 := Eliminate(p, l, n, t - 1);
      q := q0[t := seq(n + 1, c requires 0 <= c <= n => p[t][c] - Mixed(l, q0, n, t, c, t - 1))];
      forall i, c | 1 <= i <= t && 1 <= c <= n ensures p[i][c] == q[i][c] + Mixed(l, q, n, i, c, i - 1) {
        MixedSame(l, q0, q, n, i, c, i - 1);
      }
    }
  }

  // Only the columns before j of the lower factor are there.
  ghost predicate LowerPart(m: Matrix, l: Matrix, n: nat, j: nat) {
    && Square(m, n) && Square(l, n)
    && forall i, k :: 1 <= i <= n && 1 <= k <= n ==> l[i][k] == if k < j then m[i][k] else 0.0
  }

  ghost function Left(m: Matrix, n: nat, j: nat, k: nat): (l: Matrix)
    requires Square(m, n) && k <= n + 1
    ensures |l| == k && forall i :: 0 <= i < k ==> |l[i]| == n + 1
    ensures forall i, c :: 0 <= i < k && 0 <= c <= n ==> l[i][c] == if c < j then m[i][c] else 0.0
  {
    if k == 0 then []
    else Left(m, n, j, k - 1) + [seq(n + 1, c requires 0 <= c <= n => if c < j then m[k - 1][c] else 0.0)]
  }

  // What elimination subtracts is what the decomposition has subtracted.
  lemma {:induction false} MixedIsDot(m: Matrix, l: Matrix, q: Matrix, n: nat, j: nat, i: nat, c: nat, t: nat)
    requires LowerPart(m, l, n, j) && Square(q, n) && 1 <= i <= n && 1 <= c <= n && t < i
    requires forall k :: 1 <= k <= t && k < j ==> q[k][c] == if k <= c then m[k][c] else 0.0
    requires c <= j
    ensures Mixed(l, q, n, i, c, t) == Dot(m, n, i, c, Least(t, Least(c, j - 1)))
    decreases t
  {
    if t > 0 { MixedIsDot(m, l, q, n, j, i, c, t - 1); }
  }

  // In the columns up to j elimination leaves the upper factor, and zeros from row j on.
  lemma {:induction false} EliminatedColumn(m: Matrix, p: Matrix, l: Matrix, q: Matrix, n: nat, j: nat, i: nat, c: nat)
    requires AtRow(m, p, n, j, n + 1) && 1 <= j <= n && (forall r :: j <= r <= n ==> m[r][j] == 0.0)
    requires LowerPart(m, l, n, j) && Eliminated(p, l, q, n) && 1 <= i <= n && 1 <= c <= j
    ensures q[i][c] == if i <= c then m[i][c] else 0.0
    decreases i
  {
    hide Dot, Mixed;
    forall k | 1 <= k < i ensures q[k][c] == if k <= c then m[k][c] else 0.0 {
      EliminatedColumn(m, p, l, q, n, j, k, c);
    }
    MixedIsDot(m, l, q, n, j, i, c, i - 1);
    if c < j { assert Entry(m, n, i, c) == p[i][c]; } else { assert Restored(m, n, i, j) == p[i][c]; }
  }

  lemma ZeroPivotDeterminant(m: Matrix, n: nat, indx: seq<int>, a: Matrix, j: nat)
    requires Square(a, n) && 1 <= j <= n && Interchanges(indx, n, j)
    requires AtRow(m, Permuted(a, n, indx, j), n, j, n + 1) && forall i :: j <= i <= n ==> m[i][j] == 0.0
    ensures Determinant(a, n) == 0.0
  {
    hide Det;
    var p, l := Permuted(a, n, indx, j), Left(m, n, j, n + 1);
    var q := Eliminate(p, l, n, n);
    forall i, c | 1 <= i <= n && 1 <= c <= j ensures q[i][c] == if i <= c then m[i][c] else 0.0 {
      EliminatedColumn(m, p, l, q, n, j, i, c);
    }
    EliminationKeeps(p, l, q, n);
    ZeroColumn(q, n, j);
    PermutedDeterminant(a, n, indx, j);
  }

  lemma ZeroRowDeterminant(a: Matrix, n: nat, i: nat)
    requires Square(a, n) && 1 <= i <= n && forall k :: 1 <= k <= n ==> a[i][k] == 0.0
    ensures Determinant(a, n) == 0.0
  {
    ZeroRow(a[1..], n, i - 1);
  }

  lemma {:induction false} DiagonalNotZero(m: Matrix, n: nat, t: nat)
    requires Regular(m, n) && t <= n
    ensures Diagonal(m, n, t) != 0.0
  {
    if t > 0 {
      DiagonalNotZero(m, n, t - 1);
      ProductNotZero(Diagonal(m, n, t - 1), m[t][t]);
    }
  }

  lemma ProductNotZero(x: real, y: real)
    requires x != 0.0 && y != 0.0
    ensures x * y != 0.0
  {
  }
}
