// Decomposition with scaled partial pivoting, and inversion, on arrays.
module LinearSolver {
  import opened Matrices
  import opened BackSubstitution
  import opened LuDecomposition
  import opened Singularity
  import opened Determinants
  import opened LuDeterminant

  function Abs(x: real): real { if x < 0.0 then -x else x }

  // ---------- the scale of each row ----------

  method Biggest(a: array2<real>, n: nat, i: nat, ghost m: Matrix) returns (big: real)
    requires HasEntries(a, m, n) && 1 <= i <= n
    ensures big >= 0.0 && (big == 0.0 ==> forall k :: 1 <= k <= n ==> m[i][k] == 0.0)
  {
    big := 0.0;
    for j := 1 to n + 1
      invariant big >= 0.0 && forall k :: 1 <= k < j ==> Abs(m[i][k]) <= big
    {
      var temp := Abs(a[i, j]);
      if temp > big {
        big := temp;
      }
    }
  }

  method RowScales(a: array2<real>, n: nat, vv: array<real>, ghost m: Matrix) returns (ok: bool)
    requires HasEntries(a, m, n) && vv.Length == n + 1
    modifies vv
    ensures ok ==> forall i :: 1 <= i <= n ==> vv[i] > 0.0
    ensures !ok ==> !WellPosed(m, n) && Determinant(m, n) == 0.0
  {
    for i := 1 to n + 1
      invariant forall k :: 1 <= k < i ==> vv[k] > 0.0
    {
      var big := Biggest(a, n, i, m);
      if big == 0.0 {
        ZeroRowIsSingular(m, n, i);
        ZeroRowDeterminant(m, n, i);
        return false;
      }
      Reciprocal(big);
      vv[i] := 1.0 / big;
    }
    return true;
  }

  lemma Reciprocal(x: real)
    requires x > 0.0
    ensures 1.0 / x > 0.0
  {
  }

  // ---------- working on a column ----------

  method Reduce(a: array2<real>, n: nat, i: nat, j: nat, t: nat, ghost m: Matrix) returns (sum: real)
    requires HasEntries(a, m, n) && 1 <= i <= n && 1 <= j <= n && t == Least(i, j) - 1
    ensures sum == m[i][j] - Dot(m, n, i, j, t)
  {
    sum := a[i, j];
    for k := 1 to t + 1
      invariant sum == m[i][j] - Dot(m, n, i, j, k - 1)
    {
      sum := sum - a[i, k] * a[k, j];
    }
  }

  method WorkOn(a: array2<real>, n: nat, i: nat, j: nat, ghost m: Matrix, ghost p: Matrix)
    returns (sum: real, ghost m': Matrix)
    requires HasEntries(a, m, n) && AtRow(m, p, n, j, i) && 1 <= i <= n
    modifies a
    ensures m' == Put(m, i, j, sum) && HasEntries(a, m', n) && AtRow(m', p, n, j, i + 1)
  {
    sum := Reduce(a, n, i, j, Least(i, j) - 1, m);
    m' := Put(m, i, j, sum);
    PutSquare(m, n, i, j, sum);
    RowDone(m, m', p, n, j, i, Least(i, j) - 1, sum);
    a[i, j] := sum;
  }

  // dums are the scaled sizes of the elements of column j from row j to row i - 1.
  ghost predicate Recorded(dums: seq<real>, scale: seq<real>, m: Matrix, n: nat, j: nat, i: nat) {
    && Square(m, n) && |scale| == n + 1 == |dums| && 1 <= j <= n && i <= n + 1
    && forall r :: j <= r < i ==> dums[r] == scale[r] * Abs(m[r][j])
  }

  // big is the largest of them, found at imax.
  ghost predicate Largest(dums: seq<real>, j: nat, i: nat, big: real, imax: nat) {
    && i <= |dums| && big >= 0.0 && (i <= j ==> big == 0.0)
    && (forall r :: j <= r < i ==> dums[r] <= big)
    && (i > j ==> j <= imax < i && big == dums[imax])
  }

  lemma LargestNext(dums: seq<real>, j: nat, i: nat, big: real, imax: nat, dum: real)
    requires Largest(dums, j, i, big, imax) && j <= i < |dums| && dum >= 0.0
    ensures if dum >= big
      then Largest(dums[i := dum], j, i + 1, dum, i)
      else Largest(dums[i := dum], j, i + 1, big, imax)
  {
  }

  lemma RecordedNext(dums: seq<real>, scale: seq<real>, m: Matrix, m': Matrix, n: nat, j: nat, i: nat, dum: real)
    requires Recorded(dums, scale, m, n, j, i) && Square(m', n) && j <= i <= n
    requires forall r :: j <= r < i ==> m'[r][j] == m[r][j]
    requires dum == scale[i] * Abs(m'[i][j])
    ensures Recorded(dums[i := dum], scale, m', n, j, i + 1)
  {
  }

  lemma ScaledZero(s: real, x: real)
    requires s > 0.0 && s * Abs(x) <= 0.0
    ensures x == 0.0
  {
  }

  lemma ScaledPositive(s: real, x: real)
    requires s > 0.0
    ensures s * Abs(x) >= 0.0
  {
  }

  lemma PivotZero(dums: seq<real>, scale: seq<real>, m: Matrix, n: nat, j: nat, big: real, imax: nat)
    requires Recorded(dums, scale, m, n, j, n + 1) && Largest(dums, j, n + 1, big, imax)
    requires forall i :: 1 <= i <= n ==> scale[i] > 0.0
    ensures j <= imax <= n && (m[imax][j] == 0.0 ==> forall r :: j <= r <= n ==> m[r][j] == 0.0)
  {
    if m[imax][j] == 0.0 {
      assert dums[imax] == scale[imax] * 0.0;
      forall r | j <= r <= n ensures m[r][j] == 0.0 {
        ScaledZero(scale[r], m[r][j]);
      }
    }
  }

  ghost predicate SameDiagonal(m: Matrix, m': Matrix, n: nat, j: nat) {
    Square(m, n) && Square(m', n) && forall i :: 1 <= i < j && i <= n ==> m'[i][i] == m[i][i]
  }

  method Above(a: array2<real>, n: nat, j: nat, ghost m0: Matrix, ghost p: Matrix) returns (ghost m: Matrix)
    requires HasEntries(a, m0, n) && AtColumn(m0, p, n, j) && 1 <= j <= n
    modifies a
    ensures HasEntries(a, m, n) && AtRow(m, p, n, j, j) && SameDiagonal(m0, m, n, j)
  {
    m := m0;
    ColumnStart(m, p, n, j);
    for i := 1 to j
      invariant HasEntries(a, m, n) && AtRow(m, p, n, j, i) && SameDiagonal(m0, m, n, j)
    {
      var sum;
      PutSquare(m, n, i, j, m[i][j]);
      sum, m := WorkOn(a, n, i, j, m, p);
    }
  }

  method Below(a: array2<real>, n: nat, j: nat, vv: array<real>, ghost m0: Matrix, ghost p: Matrix)
    returns (imax: nat, ghost m: Matrix)
    requires HasEntries(a, m0, n) && AtRow(m0, p, n, j, j) && vv.Length == n + 1
    requires forall i :: 1 <= i <= n ==> vv[i] > 0.0
    modifies a
    ensures HasEntries(a, m, n) && AtRow(m, p, n, j, n + 1) && SameDiagonal(m0, m, n, j)
    ensures j <= imax <= n && (m[imax][j] == 0.0 ==> forall r :: j <= r <= n ==> m[r][j] == 0.0)
  {
    m := m0;
    imax := 0;
    var big := 0.0;
    ghost var scale := vv[..];
    ghost var dums := scale;
    for i := j to n + 1
      invariant HasEntries(a, m, n) && AtRow(m, p, n, j, i) && SameDiagonal(m0, m, n, j)
      invariant Recorded(dums, scale, m, n, j, i) && Largest(dums, j, i, big, imax)
    {
      ghost var before := m;
      var sum;
      sum, m := WorkOn(a, n, i, j, m, p);
      PutSquare(before, n, i, j, sum);
      var dum := vv[i] * Abs(sum);
      ScaledPositive(scale[i], sum);
      LargestNext(dums, j, i, big, imax, dum);
      RecordedNext(dums, scale, before, m, n, j, i, dum);
      dums := dums[i := dum];
      if dum >= big {
        big := dum;
        imax := i;
      }
    }
    PivotZero(dums, scale, m, n, j, big, imax);
  }

  method SwapRows(a: array2<real>, n: nat, imax: nat, j: nat, ghost m: Matrix)
    requires HasEntries(a, m, n) && 1 <= j <= n && 1 <= imax <= n && imax != j
    modifies a
    ensures HasEntries(a, Swap(m, j, imax), n)
  {
    for k := 1 to n + 1
      invariant forall c :: 1 <= c < k ==> a[imax, c] == m[j][c] && a[j, c] == m[imax][c]
      invariant forall i, c :: 1 <= i <= n && 1 <= c <= n && ((i != j && i != imax) || c >= k) ==> a[i, c] == m[i][c]
    {
      var dum := a[imax, k];
      a[imax, k] := a[j, k];
      a[j, k] := dum;
    }
  }

  lemma ReciprocalTimes(d: real)
    requires d != 0.0
    ensures 1.0 / d * d == 1.0
  {
  }

  lemma DividedBack(x: real, dum: real, d: real)
    requires dum * d == 1.0
    ensures x * dum * d == x
  {
    assert x * dum * d == x * (dum * d);
  }

  lemma DividedNext(m0: Matrix, m: Matrix, n: nat, j: nat, i: nat, v: real)
    requires Divided(m0, m, n, j, i) && j < i <= n && v * m0[j][j] == m0[i][j]
    ensures Divided(m0, Put(m, i, j, v), n, j, i + 1)
  {
    PutSquare(m, n, i, j, v);
  }

  // Divide the column below the pivot.
  method DivideColumn(a: array2<real>, n: nat, j: nat, ghost m0: Matrix) returns (ghost m: Matrix)
    requires HasEntries(a, m0, n) && 1 <= j <= n && m0[j][j] != 0.0
    modifies a
    ensures HasEntries(a, m, n) && Divided(m0, m, n, j, n + 1)
  {
    m := m0;
    if j != n {
      var dum := 1.0 / a[j, j];
      ReciprocalTimes(m0[j][j]);
      for i := j + 1 to n + 1
        invariant HasEntries(a, m, n) && Divided(m0, m, n, j, i)
      {
        var v := a[i, j] * dum;
        DividedBack(m0[i][j], dum, m0[j][j]);
        DividedNext(m0, m, n, j, i, v);
        PutSquare(m, n, i, j, v);
        a[i, j] := v;
        m := Put(m, i, j, v);
      }
    }
  }

  // Interchange the pivot row with row j, in the matrix and in the scales.
  method Interchange(a: array2<real>, n: nat, vv: array<real>, imax: nat, j: nat, d0: real, ghost m: Matrix)
    returns (d: real)
    requires HasEntries(a, m, n) && vv.Length == n + 1 && 1 <= j <= imax <= n
    requires forall i :: 1 <= i <= n ==> vv[i] > 0.0
    modifies a, vv
    ensures HasEntries(a, Swap(m, j, imax), n) && forall i :: 1 <= i <= n ==> vv[i] > 0.0
    ensures d == if imax != j then -d0 else d0
  {
    d := d0;
    if j != imax {
      SwapRows(a, n, imax, j, m);
      d := -d;
      vv[imax] := vv[j];
    }
  }

  // ---------- the whole decomposition ----------

  // The state before column j: the rows interchanged so far are those of idx.
  ghost predicate Decomposing(m: Matrix, n: nat, idx: seq<int>, a0: Matrix, j: nat, d: real) {
    && Square(a0, n) && 1 <= j <= n + 1 && Interchanges(idx, n, j - 1)
    && AtColumn(m, Permuted(a0, n, idx, j - 1), n, j)
    && (forall i :: 1 <= i < j ==> m[i][i] != 0.0)
    && d == Sign(idx, j - 1)
  }

  lemma NextInterchange(n: nat, idx: seq<int>, idx': seq<int>, a0: Matrix, j: nat, imax: nat)
    requires Square(a0, n) && 1 <= j <= imax <= n && Interchanges(idx, n, j - 1) && idx' == idx[j := imax]
    ensures Interchanges(idx', n, j)
    ensures Permuted(a0, n, idx', j) == Swap(Permuted(a0, n, idx, j - 1), j, imax)
    ensures Sign(idx', j) == if imax != j then -Sign(idx, j - 1) else Sign(idx, j - 1)
  {
    PermutedSame(a0, n, idx, idx', j - 1);
    SignSame(idx, idx', j - 1);
  }

  lemma Finished(m: Matrix, n: nat, idx: seq<int>, a0: Matrix, d: real)
    requires Decomposing(m, n, idx, a0, n + 1, d)
    ensures Decomposes(m, n, idx, a0)
  {
    PermutedSquare(a0, n, idx, n);
    forall i, c | 1 <= i <= n && 1 <= c <= n ensures Product(m, n, i, c, n) == Permuted(a0, n, idx, n)[i][c] {
      ProductIsEntry(m, n, i, c);
    }
  }

  // After the interchange the pivot is on the diagonal, and zero only if all candidates are.
  ghost predicate PivotInPlace(m: Matrix, n: nat, idx: seq<int>, a0: Matrix, j: nat, d: real) {
    && Square(a0, n) && 1 <= j <= n && Interchanges(idx, n, j)
    && AtRow(m, Permuted(a0, n, idx, j), n, j, n + 1)
    && (forall i :: 1 <= i < j ==> m[i][i] != 0.0)
    && (m[j][j] == 0.0 ==> forall i :: j <= i <= n ==> m[i][j] == 0.0)
    && d == Sign(idx, j)
  }

  lemma PutInPlace(m: Matrix, m': Matrix, n: nat, idx: seq<int>, idx': seq<int>, a0: Matrix, j: nat, imax: nat, d: real)
    requires Square(a0, n) && 1 <= j <= imax <= n && Interchanges(idx, n, j - 1) && idx' == idx[j := imax]
    requires AtRow(m, Permuted(a0, n, idx, j - 1), n, j, n + 1) && m' == Swap(m, j, imax)
    requires forall i :: 1 <= i < j ==> m[i][i] != 0.0
    requires m[imax][j] == 0.0 ==> forall r :: j <= r <= n ==> m[r][j] == 0.0
    requires d == if imax != j then -Sign(idx, j - 1) else Sign(idx, j - 1)
    ensures PivotInPlace(m', n, idx', a0, j, d)
  {
    NextInterchange(n, idx, idx', a0, j, imax);
    RowsSwapped(m, Permuted(a0, n, idx, j - 1), m', Permuted(a0, n, idx', j), n, j, imax);
  }

  // Work on column j and bring the largest element to the diagonal.
  method Pivot(a: array2<real>, n: nat, j: nat, indx: array<int>, vv: array<real>, d0: real,
               ghost m0: Matrix, ghost idx0: seq<int>, ghost a0: Matrix)
    returns (d: real, ghost m: Matrix, ghost idx: seq<int>)
    requires HasEntries(a, m0, n) && 1 <= j <= n && Decomposing(m0, n, idx0, a0, j, d0)
    requires vv.Length == n + 1 == indx.Length && (forall i :: 1 <= i <= n ==> vv[i] > 0.0)
    requires forall i :: 0 <= i <= n ==> indx[i] == idx0[i]
    modifies a, vv, indx
    ensures forall i :: 1 <= i <= n ==> vv[i] > 0.0
    ensures |idx| == n + 1 && forall i :: 0 <= i <= n ==> indx[i] == idx[i]
    ensures HasEntries(a, m, n) && PivotInPlace(m, n, idx, a0, j, d)
  {
    ghost var p := Permuted(a0, n, idx0, j - 1);
    ghost var m1 := Above(a, n, j, m0, p);
    var imax;
    ghost var m2;
    imax, m2 := Below(a, n, j, vv, m1, p);
    d := Interchange(a, n, vv, imax, j, d0, m2);
    indx[j] := imax;
    idx := idx0[j := imax];
    m := Swap(m2, j, imax);
    PutInPlace(m2, m, n, idx0, idx, a0, j, imax, d);
  }

  // Divide by the pivot, unless it is zero.
  method Finish(a: array2<real>, n: nat, j: nat, d: real, ghost m0: Matrix, ghost idx: seq<int>, ghost a0: Matrix)
    returns (ok: bool, ghost m: Matrix)
    requires HasEntries(a, m0, n) && PivotInPlace(m0, n, idx, a0, j, d)
    modifies a
    ensures ok ==> HasEntries(a, m, n) && Decomposing(m, n, idx, a0, j + 1, d)
    ensures !ok ==> !WellPosed(a0, n) && Determinant(a0, n) == 0.0
  {
    if a[j, j] == 0.0 {
      ZeroPivotIsSingular(m0, n, idx, a0, j);
      ZeroPivotDeterminant(m0, n, idx, a0, j);
      return false, m0;
    }
    m := DivideColumn(a, n, j, m0);
    ColumnDone(m0, m, Permuted(a0, n, idx, j), n, j);
    return true, m;
  }

  // The decomposition succeeds exactly when every right-hand side has one solution, and exactly
  // when the determinant is not zero; then that is the product of the diagonal times d.
  method Ludcmp(a: array2<real>, n: nat, indx: array<int>, ghost a0: Matrix)
    returns (ok: bool, d: real, ghost m: Matrix, ghost idx: seq<int>)
    requires HasEntries(a, a0, n) && indx.Length == n + 1
    modifies a, indx
    ensures ok <==> WellPosed(a0, n)
    ensures ok <==> Determinant(a0, n) != 0.0
    ensures ok ==> HasEntries(a, m, n) && idx == indx[..] && Decomposes(m, n, idx, a0)
    ensures ok ==> (d == 1.0 || d == -1.0) && Determinant(a0, n) == d * Diagonal(m, n, n)
  {
    hide Det, Diagonal, Dot;
    var vv := new real[n + 1];
    d, m, idx := 1.0, a0, indx[..];
    ok := RowScales(a, n, vv, a0);
    if !ok {
      return;
    }
    for j := 1 to n + 1
      invariant HasEntries(a, m, n) && Decomposing(m, n, idx, a0, j, d)
      invariant forall i :: 1 <= i <= n ==> vv[i] > 0.0
      invariant |idx| == n + 1 && forall i :: 0 <= i <= n ==> indx[i] == idx[i]
    {
      d, m, idx := Pivot(a, n, j, indx, vv, d, m, idx, a0);
      ok, m := Finish(a, n, j, d, m, idx, a0);
      if !ok {
        return;
      }
    }
    ok := true;
    Finished(m, n, idx, a0, d);
    DecomposedIsRegular(m, n, idx, a0);
    DecomposedDeterminant(m, n, idx, a0);
    DiagonalNotZero(m, n, n);
    assert idx == indx[..];
  }

  method TimesDiagonal(a: array2<real>, n: nat, d0: real, ghost m: Matrix) returns (d: real)
    requires HasEntries(a, m, n)
    ensures d == d0 * Diagonal(m, n, n)
  {
    d := d0;
    for i := 1 to n + 1
      invariant d == d0 * Diagonal(m, n, i - 1)
    {
      Regroup(d0, Diagonal(m, n, i - 1), m[i][i]);
      d := d * a[i, i];
    }
  }

  // det: the diagonal multiplied up, or nil.
  method PDeterminant(a: array2<real>, n: nat, ghost a0: Matrix) returns (ok: bool, d: real)
    requires HasEntries(a, a0, n)
    modifies a
    ensures ok <==> Determinant(a0, n) != 0.0
    ensures ok ==> d == Determinant(a0, n)
  {
    hide Det, Diagonal;
    var indx := new int[n + 1];
    ghost var m, idx;
    ok, d, m, idx := Ludcmp(a, n, indx, a0);
    if ok {
      d := TimesDiagonal(a, n, d, m);
    }
  }

  // ---------- inversion ----------

  function Unit(n: nat, j: nat): (e: Vector)
    ensures |e| == n + 1 && forall i :: 0 <= i <= n ==> e[i] == if i == j then 1.0 else 0.0
  {
    seq(n + 1, i => if i == j then 1.0 else 0.0)
  }

  // Element (i, j) of a0 * y.
  ghost function ProductAt(a0: Matrix, n: nat, y: array2<real>, i: nat, j: nat, t: nat): real
    requires Square(a0, n) && y.Length0 == n + 1 == y.Length1 && i <= n && j <= n && t <= n
    reads y
  {
    if t == 0 then 0.0 else ProductAt(a0, n, y, i, j, t - 1) + a0[i][t] * y[t, j]
  }

  lemma {:induction false} ProductIsTimes(a0: Matrix, n: nat, y: array2<real>, x: Vector, i: nat, j: nat, t: nat)
    requires Square(a0, n) && y.Length0 == n + 1 == y.Length1 && |x| == n + 1 && i <= n && j <= n && t <= n
    requires forall k :: 1 <= k <= n ==> y[k, j] == x[k]
    ensures ProductAt(a0, n, y, i, j, t) == Times(a0, n, x, i, t)
  {
    if t > 0 { ProductIsTimes(a0, n, y, x, i, j, t - 1); }
  }

  // Solve for column j of the identity.
  method SolveColumn(a: array2<real>, n: nat, indx: array<int>, col: array<real>, j: nat, ghost m: Matrix,
                     ghost idx: seq<int>, ghost a0: Matrix)
    requires HasEntries(a, m, n) && col.Length == n + 1 && Decomposes(m, n, idx, a0) && 1 <= j <= n
    requires indx.Length == n + 1 && forall t :: 0 <= t <= n ==> indx[t] == idx[t]
    modifies col
    ensures Solves(a0, n, col[..], Unit(n, j))
  {
    col[0] := 0.0;
    for i := 1 to n + 1
      invariant forall k :: 0 <= k < i ==> col[k] == 0.0
    {
      col[i] := 0.0;
    }
    col[j] := 1.0;
    assert col[..] == Unit(n, j);
    Lubksb(a, n, indx, col, m, idx, a0);
  }

  // The columns of y before j are xs.
  ghost predicate Columns(y: array2<real>, n: nat, xs: seq<Vector>, j: nat)
    reads y
  {
    y.Length0 == n + 1 == y.Length1 && |xs| == j <= n + 1 && (forall c :: 1 <= c < j ==> |xs[c]| == n + 1)
    && forall k, c :: 1 <= k <= n && 1 <= c < j ==> y[k, c] == xs[c][k]
  }

  method StoreColumn(y: array2<real>, n: nat, col: array<real>, j: nat, ghost xs: seq<Vector>)
    requires Columns(y, n, xs, j) && 1 <= j <= n && col.Length == n + 1
    modifies y
    ensures Columns(y, n, xs + [col[..]], j + 1)
  {
    for i := 1 to n + 1
      invariant Columns(y, n, xs, j) && forall k :: 1 <= k < i ==> y[k, j] == col[k]
    {
      y[i, j] := col[i];
    }
  }

  lemma IsInverse(a0: Matrix, n: nat, y: array2<real>, xs: seq<Vector>)
    requires Columns(y, n, xs, n + 1) && Square(a0, n)
    requires forall c :: 1 <= c <= n ==> Solves(a0, n, xs[c], Unit(n, c))
    ensures forall i, j :: 1 <= i <= n && 1 <= j <= n ==> ProductAt(a0, n, y, i, j, n) == if i == j then 1.0 else 0.0
  {
    forall i, j | 1 <= i <= n && 1 <= j <= n ensures ProductAt(a0, n, y, i, j, n) == if i == j then 1.0 else 0.0 {
      ProductIsTimes(a0, n, y, xs[j], i, j, n);
      assert Solves(a0, n, xs[j], Unit(n, j));
    }
  }

  // The inverse, exactly when the matrix has one.
  method Invert(a: array2<real>, n: nat, ghost a0: Matrix) returns (ok: bool, y: array2<real>)
    requires HasEntries(a, a0, n)
    modifies a
    ensures ok <==> WellPosed(a0, n)
    ensures ok ==> fresh(y) && y.Length0 == n + 1 == y.Length1
    ensures ok ==> forall i, j :: 1 <= i <= n && 1 <= j <= n ==>
      ProductAt(a0, n, y, i, j, n) == if i == j then 1.0 else 0.0
  {
    hide Det, Diagonal, Dot;
    var col := new real[n + 1];
    var indx := new int[n + 1];
    y := new real[n + 1, n + 1];
    var d;
    ghost var m, idx;
    ok, d, m, idx := Ludcmp(a, n, indx, a0);
    if !ok {
      return;
    }
    ghost var xs: seq<Vector> := [Unit(n, 0)];
    for j := 1 to n + 1
      invariant HasEntries(a, m, n) && fresh(y) && fresh(col) && (forall t :: 0 <= t <= n ==> indx[t] == idx[t])
      invariant Columns(y, n, xs, j) && forall c :: 1 <= c < j ==> Solves(a0, n, xs[c], Unit(n, c))
    {
      SolveColumn(a, n, indx, col, j, m, idx, a0);
      StoreColumn(y, n, col, j, xs);
      xs := xs + [col[..]];
    }
    IsInverse(a0, n, y, xs);
  }
}
