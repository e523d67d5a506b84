// The determinant of a matrix, by expansion along its first column, and what row operations do
// to it.
module Determinants {
  import opened Matrices

  // At most n rows, of n columns numbered from 1.
  ghost predicate Rows(rows: seq<Vector>, n: nat) {
    |rows| <= n && forall i :: 0 <= i < |rows| ==> |rows[i]| == n + 1
  }

  function Without<T>(s: seq<T>, i: nat): (r: seq<T>)
    requires i < |s|
    ensures |r| == |s| - 1
    ensures forall k :: 0 <= k < |r| ==> r[k] == if k < i then s[k] else s[k + 1]
  {
    s[..i] + s[i + 1..]
  }

  // The sum of the first t products, with alternating signs.
  ghost function Alternating(xs: seq<real>, ds: seq<real>, t: nat): real
    requires t <= |xs| == |ds|
  {
    if t == 0 then 0.0
    else if t % 2 == 1 then Alternating(xs, ds, t - 1) + xs[t - 1] * ds[t - 1]
    else Alternating(xs, ds, t - 1) - xs[t - 1] * ds[t - 1]
  }

  // The determinant of as many rows and of as many columns, the last ones: the elements of the
  // first of these columns times their minors.
  ghost function Det(rows: seq<Vector>, n: nat): real
    requires Rows(rows, n)
    decreases |rows|, 0
  {
    if rows == [] then 1.0 else Alternating(Column(rows, n), Minors(rows, n), |rows|)
  }

  ghost function Column(rows: seq<Vector>, n: nat): (xs: seq<real>)
    requires Rows(rows, n)
    ensures |xs| == |rows| && forall i :: 0 <= i < |rows| ==> xs[i] == rows[i][n + 1 - |rows|]
  {
    seq(|rows|, i requires 0 <= i < |rows| => rows[i][n + 1 - |rows|])
  }

  ghost function Minors(rows: seq<Vector>, n: nat): (ds: seq<real>)
    requires Rows(rows, n) && rows != []
    ensures |ds| == |rows|
    decreases |rows| - 1, 1
  {
    seq(|rows|, i requires 0 <= i < |rows| => Det(Without(rows, i), n))
  }

  // The determinant of a square matrix.
  ghost function Determinant(a: Matrix, n: nat): real
    requires Square(a, n)
  {
    Det(a[1..], n)
  }

  // ---------- alternating sums ----------

  // In each place either the factors xs are combined or the factors ds are.
  ghost predicate CombinedAt(xs: seq<real>, ds: seq<real>, ys: seq<real>, es: seq<real>, zs: seq<real>, fs: seq<real>,
                             k: real, i: nat)
    requires i < |xs| == |ds| == |ys| == |es| == |zs| == |fs|
  {
    || (zs[i] == xs[i] + k * ys[i] && fs[i] == ds[i] == es[i])
    || (zs[i] == xs[i] == ys[i] && fs[i] == ds[i] + k * es[i])
  }

  lemma {:induction false} LinearSum(xs: seq<real>, ds: seq<real>, ys: seq<real>, es: seq<real>, zs: seq<real>,
                                     fs: seq<real>, k: real, t: nat)
    requires t <= |xs| == |ds| == |ys| == |es| == |zs| == |fs|
    requires forall i :: 0 <= i < |xs| ==> CombinedAt(xs, ds, ys, es, zs, fs, k, i)
    ensures Alternating(zs, fs, t) == Alternating(xs, ds, t) + k * Alternating(ys, es, t)
  {
    if t > 0 {
      LinearSum(xs, ds, ys, es, zs, fs, k, t - 1);
      assert CombinedAt(xs, ds, ys, es, zs, fs, k, t - 1);
      LinearProduct(xs[t - 1], ds[t - 1], ys[t - 1], es[t - 1], zs[t - 1], fs[t - 1], k);
      Distributes(k, Alternating(ys, es, t - 1), ys[t - 1] * es[t - 1]);
    } else {
      assert k * 0.0 == 0.0;
    }
  }

  lemma LinearProduct(x: real, d: real, y: real, e: real, z: real, f: real, k: real)
    requires (z == x + k * y && f == d == e) || (z == x == y && f == d + k * e)
    ensures z * f == x * d + k * (y * e)
  {
    if z == x + k * y && f == d == e {
      assert (x + k * y) * d == x * d + k * (y * d);
    } else {
      assert x * (d + k * e) == x * d + k * (x * e);
    }
  }

  lemma Distributes(k: real, s: real, t: real)
    ensures k * (s + t) == k * s + k * t
    ensures k * (s - t) == k * s - k * t
  {
  }

  // Two neighbouring places are exchanged; everywhere else the factors ds change their sign.
  ghost predicate Crossed(xs: seq<real>, ds: seq<real>, ys: seq<real>, es: seq<real>, r: nat) {
    && |xs| == |ds| == |ys| == |es| && r + 1 < |xs|
    && ys[r] == xs[r + 1] && es[r] == ds[r + 1] && ys[r + 1] == xs[r] && es[r + 1] == ds[r]
    && forall i :: 0 <= i < |xs| && i != r && i != r + 1 ==> ys[i] == xs[i] && es[i] == -ds[i]
  }

  lemma {:induction false} CrossedSum(xs: seq<real>, ds: seq<real>, ys: seq<real>, es: seq<real>, r: nat, t: nat)
    requires Crossed(xs, ds, ys, es, r) && t <= |xs|
    ensures t != r + 1 ==> Alternating(ys, es, t) == -Alternating(xs, ds, t)
    decreases t
  {
    if t == r + 2 {
      CrossedSum(xs, ds, ys, es, r, r);
      TwoMore(xs, ds, ys, es, r, t);
    } else if t > 0 && t != r + 1 {
      CrossedSum(xs, ds, ys, es, r, t - 1);
      Opposite(xs[t - 1], ds[t - 1], es[t - 1]);
    }
  }

  lemma Opposite(x: real, d: real, e: real)
    requires e == -d
    ensures x * e == -(x * d)
  {
  }

  lemma TwoMore(xs: seq<real>, ds: seq<real>, ys: seq<real>, es: seq<real>, r: nat, t: nat)
    requires t <= |xs| == |ds| == |ys| == |es| && t == r + 2
    requires ys[r] == xs[r + 1] && es[r] == ds[r + 1] && ys[r + 1] == xs[r] && es[r + 1] == ds[r]
    requires Alternating(ys, es, r) == -Alternating(xs, ds, r)
    ensures Alternating(ys, es, t) == -Alternating(xs, ds, t)
  {
    OneMore(xs, ds, r, r + 1);
    OneMore(xs, ds, r + 1, t);
    OneMore(ys, es, r, r + 1);
    OneMore(ys, es, r + 1, t);
  }

  lemma OneMore(xs: seq<real>, ds: seq<real>, r: nat, t: nat)
    requires t <= |xs| == |ds| && t == r + 1
    ensures Alternating(xs, ds, t)
         == if r % 2 == 0 then Alternating(xs, ds, r) + xs[r] * ds[r] else Alternating(xs, ds, r) - xs[r] * ds[r]
  {
  }

  // All numbers but the first are zero.
  lemma {:induction false} FirstOnly(xs: seq<real>, ds: seq<real>, t: nat)
    requires 1 <= t <= |xs| == |ds| && forall i :: 1 <= i < |xs| ==> xs[i] == 0.0
    ensures Alternating(xs, ds, t) == xs[0] * ds[0]
  {
    if t == 1 {
      assert Alternating(xs, ds, 0) == 0.0;
    } else {
      FirstOnly(xs, ds, t - 1);
      assert xs[t - 1] * ds[t - 1] == 0.0;
    }
  }

  // ---------- linear in every row ----------

  ghost predicate SameColumns(x: Vector, y: Vector, n: nat) {
    |x| == n + 1 == |y| && forall c :: 1 <= c <= n ==> x[c] == y[c]
  }

  // Column 0 does not matter.
  lemma {:induction false} DetSame(p: seq<Vector>, q: seq<Vector>, n: nat)
    requires Rows(p, n) && Rows(q, n) && |q| == |p| && forall i :: 0 <= i < |p| ==> SameColumns(p[i], q[i], n)
    ensures Det(p, n) == Det(q, n)
    decreases |p|
  {
    hide Alternating;
    if p != [] {
      forall i | 0 <= i < |p| ensures Minors(p, n)[i] == Minors(q, n)[i] && Column(p, n)[i] == Column(q, n)[i] {
        DetSame(Without(p, i), Without(q, i), n);
        assert SameColumns(p[i], q[i], n);
      }
      assert Minors(p, n) == Minors(q, n) && Column(p, n) == Column(q, n);
    }
  }

  // z is x + k * y.
  ghost predicate Combined(x: Vector, y: Vector, k: real, z: Vector, n: nat) {
    |x| == n + 1 == |y| && |z| == n + 1 && forall c :: 1 <= c <= n ==> z[c] == x[c] + k * y[c]
  }

  lemma {:induction false} Linear(rows: seq<Vector>, n: nat, r: nat, x: Vector, y: Vector, k: real, z: Vector)
    requires Rows(rows, n) && r < |rows| && Combined(x, y, k, z, n)
    ensures Det(rows[r := z], n) == Det(rows[r := x], n) + k * Det(rows[r := y], n)
    decreases |rows|, 1
  {
    hide Alternating;
    var p, q, s := rows[r := x], rows[r := y], rows[r := z];
    forall i | 0 <= i < |rows|
      ensures CombinedAt(Column(p, n), Minors(p, n), Column(q, n), Minors(q, n), Column(s, n), Minors(s, n), k, i)
    {
      TermLinear(rows, n, r, x, y, k, z, i);
    }
    LinearSum(Column(p, n), Minors(p, n), Column(q, n), Minors(q, n), Column(s, n), Minors(s, n), k, |rows|);
  }

  lemma {:induction false} TermLinear(rows: seq<Vector>, n: nat, r: nat, x: Vector, y: Vector, k: real, z: Vector,
                                      i: nat)
    requires Rows(rows, n) && r < |rows| && Combined(x, y, k, z, n) && i < |rows|
    ensures var p, q, s := rows[r := x], rows[r := y], rows[r := z];
      CombinedAt(Column(p, n), Minors(p, n), Column(q, n), Minors(q, n), Column(s, n), Minors(s, n), k, i)
    decreases |rows|, 0
  {
    hide Alternating;
    WithoutSet(rows, i, r, x);
    WithoutSet(rows, i, r, y);
    WithoutSet(rows, i, r, z);
    if i != r {
      Linear(Without(rows, i), n, if i < r then r - 1 else r, x, y, k, z);
    }
  }

  lemma WithoutSet(rows: seq<Vector>, i: nat, r: nat, v: Vector)
    requires i < |rows| && r < |rows|
    ensures i == r ==> Without(rows[r := v], i) == Without(rows, i)
    ensures i < r ==> Without(rows[r := v], i) == Without(rows, i)[r - 1 := v]
    ensures i > r ==> Without(rows[r := v], i) == Without(rows, i)[r := v]
  {
  }

  // ---------- exchanging rows ----------

  lemma {:induction false} Neighbours(rows: seq<Vector>, n: nat, r: nat)
    requires Rows(rows, n) && r + 1 < |rows|
    ensures Det(Swap(rows, r, r + 1), n) == -Det(rows, n)
    decreases |rows|, 1
  {
    hide Alternating;
    var q := Swap(rows, r, r + 1);
    assert Without(q, r) == Without(rows, r + 1) && Without(q, r + 1) == Without(rows, r);
    forall i | 0 <= i < |rows| && i != r && i != r + 1 ensures Minors(q, n)[i] == -Minors(rows, n)[i] {
      NeighbourMinor(rows, n, r, i);
    }
    CrossedSum(Column(rows, n), Minors(rows, n), Column(q, n), Minors(q, n), r, |rows|);
  }

  lemma {:induction false} NeighbourMinor(rows: seq<Vector>, n: nat, r: nat, i: nat)
    requires Rows(rows, n) && r + 1 < |rows| && i < |rows| && i != r && i != r + 1
    ensures Minors(Swap(rows, r, r + 1), n)[i] == -Minors(rows, n)[i]
    decreases |rows|, 0
  {
    hide Alternating;
    var r' := if i < r then r - 1 else r;
    Neighbours(Without(rows, i), n, r');
    assert Without(Swap(rows, r, r + 1), i) == Swap(Without(rows, i), r', r' + 1);
  }

  // Two equal rows.
  lemma {:induction false} EqualRows(rows: seq<Vector>, n: nat, r: nat, s: nat)
    requires Rows(rows, n) && r < s < |rows| && rows[r] == rows[s]
    ensures Det(rows, n) == 0.0
    decreases s - r
  {
    hide Alternating;
    Neighbours(rows, n, s - 1);
    var q := Swap(rows, s - 1, s);
    if s == r + 1 {
      assert q == rows;
    } else {
      EqualRows(q, n, r, s - 1);
    }
  }

  // A multiple of another row may be added to a row.
  lemma AddMultiple(rows: seq<Vector>, n: nat, r: nat, s: nat, k: real, z: Vector)
    requires Rows(rows, n) && r < |rows| && s < |rows| && r != s && Combined(rows[r], rows[s], k, z, n)
    ensures Det(rows[r := z], n) == Det(rows, n)
  {
    hide Alternating;
    Linear(rows, n, r, rows[r], rows[s], k, z);
    assert rows[r := rows[r]] == rows;
    EqualRows(rows[r := rows[s]], n, if r < s then r else s, if r < s then s else r);
  }

  function Plus(x: Vector, y: Vector): (z: Vector)
    requires |x| == |y|
    ensures |z| == |x| && forall c :: 0 <= c < |z| ==> z[c] == x[c] + y[c]
  {
    seq(|x|, c requires 0 <= c < |x| => x[c] + y[c])
  }

  lemma Additive(rows: seq<Vector>, n: nat, r: nat, x: Vector, y: Vector)
    requires Rows(rows, n) && r < |rows| && |x| == n + 1 == |y|
    ensures Det(rows[r := Plus(x, y)], n) == Det(rows[r := x], n) + Det(rows[r := y], n)
  {
    hide Alternating;
    Linear(rows, n, r, x, y, 1.0, Plus(x, y));
  }

  // Exchanging two rows changes the sign: with the sum of both in both places the determinant
  // is zero, and it is the sum of four.
  lemma Exchanged(rows: seq<Vector>, n: nat, r: nat, s: nat)
    requires Rows(rows, n) && r < s < |rows|
    ensures Det(Swap(rows, r, s), n) == -Det(rows, n)
  {
    hide Alternating;
    var x, y := rows[r], rows[s];
    var z := Plus(x, y);
    EqualRows(rows[r := z][s := z], n, r, s);
    EqualRows(rows[r := x][s := x], n, r, s);
    EqualRows(rows[r := y][s := y], n, r, s);
    Additive(rows[r := z], n, s, x, y);
    Additive(rows[s := x], n, r, x, y);
    Additive(rows[s := y], n, r, x, y);
    assert rows[s := x][r := z] == rows[r := z][s := x] && rows[s := y][r := z] == rows[r := z][s := y];
    assert rows[s := x][r := x] == rows[r := x][s := x] && rows[s := y][r := y] == rows[r := y][s := y];
    assert rows[s := x][r := y] == Swap(rows, r, s) && rows[s := y][r := x] == rows;
  }

  // ---------- zeros ----------

  lemma ZeroRow(rows: seq<Vector>, n: nat, r: nat)
    requires Rows(rows, n) && r < |rows| && forall c :: 1 <= c <= n ==> rows[r][c] == 0.0
    ensures Det(rows, n) == 0.0
  {
    hide Alternating;
    Linear(rows, n, r, rows[r], rows[r], 1.0, rows[r]);
    assert rows[r := rows[r]] == rows;
  }

  // Below its first element the first column is zero.
  lemma FirstColumn(rows: seq<Vector>, n: nat)
    requires Rows(rows, n) && rows != [] && forall i :: 1 <= i < |rows| ==> rows[i][n + 1 - |rows|] == 0.0
    ensures Det(rows, n) == rows[0][n + 1 - |rows|] * Det(rows[1..], n)
  {
    hide Alternating;
    assert Without(rows, 0) == rows[1..];
    FirstOnly(Column(rows, n), Minors(rows, n), |rows|);
  }

  // ---------- elimination ----------

  // The sum over k <= t of l[i][k] * q[k][c].
  ghost function Mixed(l: Matrix, q: Matrix, n: nat, i: nat, c: nat, t: nat): real
    requires Square(l, n) && Square(q, n) && i <= n && c <= n && t <= n
  {
    if t == 0 then 0.0 else Mixed(l, q, n, i, c, t - 1) + l[i][t] * q[t][c]
  }

  // Each row of p is that row of q and multiples of the rows of q before it.
  ghost predicate Eliminated(p: Matrix, l: Matrix, q: Matrix, n: nat) {
    && Square(p, n) && Square(l, n) && Square(q, n)
    && forall i, c :: 1 <= i <= n && 1 <= c <= n ==> p[i][c] == q[i][c] + Mixed(l, q, n, i, c, i - 1)
  }

  ghost function Partly(l: Matrix, q: Matrix, n: nat, i: nat, t: nat): (v: Vector)
    requires Square(l, n) && Square(q, n) && 1 <= i <= n && t < i
    ensures |v| == n + 1 && forall c :: 0 <= c <= n ==> v[c] == q[i][c] + Mixed(l, q, n, i, c, t)
  {
    seq(n + 1, c requires 0 <= c <= n => q[i][c] + Mixed(l, q, n, i, c, t))
  }

  // Row i of q with the multiples of the rows before it, one after the other.
  lemma {:induction false} RowRestored(rows: seq<Vector>, l: Matrix, q: Matrix, n: nat, i: nat, t: nat)
    requires Rows(rows, n) && |rows| == n && Square(l, n) && Square(q, n) && 1 <= i <= n && t < i
    requires forall k :: 1 <= k <= i ==> rows[k - 1] == q[k]
    ensures Det(rows[i - 1 := Partly(l, q, n, i, t)], n) == Det(rows, n)
  {
    hide Alternating;
    if t == 0 {
      assert rows[i - 1 := Partly(l, q, n, i, 0)] == rows by {
        assert Partly(l, q, n, i, 0) == q[i];
      }
    } else {
      RowRestored(rows, l, q, n, i, t - 1);
      var before := rows[i - 1 := Partly(l, q, n, i, t - 1)];
      AddMultiple(before, n, i - 1, t - 1, l[i][t], Partly(l, q, n, i, t));
      assert before[i - 1 := Partly(l, q, n, i, t)] == rows[i - 1 := Partly(l, q, n, i, t)];
    }
  }

  // The first i rows of q, and then those of p.
  function Stage(p: Matrix, q: Matrix, i: nat): seq<Vector>
    requires 1 <= i + 1 <= |p| == |q|
  {
    q[1..i + 1] + p[i + 1..]
  }

  lemma {:induction false} StageSame(p: Matrix, l: Matrix, q: Matrix, n: nat, i: nat)
    requires Eliminated(p, l, q, n) && i <= n
    ensures Det(Stage(p, q, i), n) == Determinant(p, n)
  {
    hide Alternating, Mixed;
    if i == 0 {
      assert Stage(p, q, 0) == p[1..];
    } else {
      StageSame(p, l, q, n, i - 1);
      var rows, last := Stage(p, q, i), Stage(p, q, i - 1);
      RowRestored(rows, l, q, n, i, i - 1);
      var done := rows[i - 1 := Partly(l, q, n, i, i - 1)];
      forall k | 0 <= k < n ensures SameColumns(done[k], last[k], n) {
        if k != i - 1 { assert done[k] == last[k]; }
      }
      DetSame(done, last, n);
    }
  }

  // Elimination keeps the determinant.
  lemma EliminationKeeps(p: Matrix, l: Matrix, q: Matrix, n: nat)
    requires Eliminated(p, l, q, n)
    ensures Determinant(p, n) == Determinant(q, n)
  {
    StageSame(p, l, q, n, n);
    assert Stage(p, q, n) == q[1..];
  }

  // ---------- triangular matrices ----------

  // The product of the first t elements of the diagonal.
  ghost function Diagonal(m: Matrix, n: nat, t: nat): real
    requires Square(m, n) && t <= n
  {
    if t == 0 then 1.0 else Diagonal(m, n, t - 1) * m[t][t]
  }

  // Below the diagonal the first t columns are zero.
  ghost predicate ZeroBelow(q: Matrix, n: nat, t: nat) {
    Square(q, n) && forall i, c :: 1 <= c < i <= n && c <= t ==> q[i][c] == 0.0
  }

  lemma {:induction false} Triangle(q: Matrix, n: nat, t: nat)
    requires t <= n && ZeroBelow(q, n, t)
    ensures Determinant(q, n) == Diagonal(q, n, t) * Det(q[t + 1..], n)
  {
    hide Alternating;
    if t > 0 {
      Triangle(q, n, t - 1);
      var rows := q[t..];
      FirstColumn(rows, n);
      assert rows[1..] == q[t + 1..];
      Regroup(Diagonal(q, n, t - 1), q[t][t], Det(q[t + 1..], n));
    }
  }

  lemma Regroup(x: real, y: real, z: real)
    ensures x * (y * z) == x * y * z
  {
  }

  lemma TriangularDeterminant(q: Matrix, n: nat)
    requires ZeroBelow(q, n, n)
    ensures Determinant(q, n) == Diagonal(q, n, n)
  {
    Triangle(q, n, n);
    assert q[n + 1..] == [];
  }

  ghost predicate Identity(m: Matrix, n: nat) {
    Square(m, n) && forall i, c :: 1 <= i <= n && 1 <= c <= n ==> m[i][c] == if i == c then 1.0 else 0.0
  }

  // Linear in every row, changing the sign with every exchange and 1 for the identity: there is
  // only one such function.
  lemma IdentityDeterminant(m: Matrix, n: nat)
    requires Identity(m, n)
    ensures Determinant(m, n) == 1.0
  {
    TriangularDeterminant(m, n);
    OnesDiagonal(m, n, n);
  }

  lemma {:induction false} OnesDiagonal(m: Matrix, n: nat, t: nat)
    requires Identity(m, n) && t <= n
    ensures Diagonal(m, n, t) == 1.0
  {
    if t > 0 { OnesDiagonal(m, n, t - 1); }
  }

  // A column that is zero from the diagonal on.
  lemma ZeroColumn(q: Matrix, n: nat, j: nat)
    requires 1 <= j <= n && ZeroBelow(q, n, j) && q[j][j] == 0.0
    ensures Determinant(q, n) == 0.0
  {
    Triangle(q, n, j);
    assert Diagonal(q, n, j) == 0.0;
  }

  // ---------- interchanges ----------

  // 1.0 for an even number of interchanges, -1.0 for an odd one.
  ghost function Sign(indx: seq<int>, k: nat): real
    requires k < |indx|
  {
    if k == 0 then 1.0 else if indx[k] != k then -Sign(indx, k - 1) else Sign(indx, k - 1)
  }

  lemma {:induction false} SignSame(indx: seq<int>, indx': seq<int>, k: nat)
    requires k < |indx| == |indx'| && forall i :: 1 <= i <= k ==> indx'[i] == indx[i]
    ensures Sign(indx', k) == Sign(indx, k)
  {
    if k > 0 { SignSame(indx, indx', k - 1); }
  }

  lemma SwappedDeterminant(p: Matrix, n: nat, k: nat, j: nat)
    requires Square(p, n) && 1 <= k <= j <= n
    ensures Square(Swap(p, k, j), n)
    ensures Determinant(Swap(p, k, j), n) == if j != k then -Determinant(p, n) else Determinant(p, n)
  {
    hide Alternating;
    if j != k {
      Exchanged(p[1..], n, k - 1, j - 1);
      assert Swap(p, k, j)[1..] == Swap(p[1..], k - 1, j - 1);
    } else {
      assert Swap(p, k, j) == p;
    }
  }

  // The sign is that of the interchanges.
  lemma {:induction false} PermutedDeterminant(a: Matrix, n: nat, indx: seq<int>, k: nat)
    requires Square(a, n) && Interchanges(indx, n, k)
    ensures Square(Permuted(a, n, indx, k), n)
    ensures (Sign(indx, k) == 1.0 && Determinant(a, n) == Determinant(Permuted(a, n, indx, k), n))
         || (Sign(indx, k) == -1.0 && Determinant(a, n) == -Determinant(Permuted(a, n, indx, k), n))
  {
    hide Alternating, Det;
    PermutedSquare(a, n, indx, k);
    if k > 0 {
      PermutedDeterminant(a, n, indx, k - 1);
      SwappedDeterminant(Permuted(a, n, indx, k - 1), n, k, indx[k]);
    }
  }
}
