// Decomposing a matrix in place, column by column, with rows interchanged for the pivot.
module LuDecomposition {
  import opened Matrices
  import opened BackSubstitution

  // ---------- one column ----------

  function Least(a: nat, b: nat): nat { if a < b then a else b }

  // Element (i, j) of a column being worked on, plus what has been subtracted from it.
  ghost function Restored(m: Matrix, n: nat, i: nat, j: nat): real
    requires Square(m, n) && 1 <= i <= n && 1 <= j <= n
  {
    m[i][j] + Dot(m, n, i, j, Least(i, j) - 1)
  }

  // Columns before j are decomposed, columns after j untouched; in column j the rows before i
  // have been worked on.
  ghost predicate AtRow(m: Matrix, p: Matrix, n: nat, j: nat, i: nat) {
    && Square(m, n) && Square(p, n) && 1 <= j <= n
    && (forall r, c :: 1 <= r <= n && 1 <= c < j ==> Entry(m, n, r, c) == p[r][c])
    && (forall r, c :: 1 <= r <= n && j < c <= n ==> m[r][c] == p[r][c])
    && (forall r :: 1 <= r < i && r <= n ==> Restored(m, n, r, j) == p[r][j])
    && (forall r :: i <= r <= n && 1 <= r ==> m[r][j] == p[r][j])
  }

  // Columns before j are decomposed, the others untouched.
  ghost predicate AtColumn(m: Matrix, p: Matrix, n: nat, j: nat) {
    && Square(m, n) && Square(p, n)
    && (forall r, c :: 1 <= r <= n && 1 <= c < j && c <= n ==> Entry(m, n, r, c) == p[r][c])
    && (forall r, c :: 1 <= r <= n && j <= c <= n && 1 <= c ==> m[r][c] == p[r][c])
  }

  lemma ColumnStart(m: Matrix, p: Matrix, n: nat, j: nat)
    requires AtColumn(m, p, n, j) && 1 <= j <= n
    ensures AtRow(m, p, n, j, 1)
  {
  }

  function Put(m: Matrix, i: nat, j: nat, v: real): Matrix
    requires i < |m| && j < |m[i]|
  {
    m[i := m[i][j := v]]
  }

  lemma PutSquare(m: Matrix, n: nat, i: nat, j: nat, v: real)
    requires Square(m, n) && i <= n && j <= n
    ensures Square(Put(m, i, j, v), n) && Put(m, i, j, v)[i][j] == v
    ensures forall r, c :: 0 <= r <= n && 0 <= c <= n && (r != i || c != j) ==> Put(m, i, j, v)[r][c] == m[r][c]
  {
  }

  // Only the columns up to c matter for an entry of column c.
  lemma EntrySame(m: Matrix, m': Matrix, n: nat, i: nat, c: nat)
    requires Square(m, n) && Square(m', n) && 1 <= i <= n && 1 <= c <= n
    requires forall r, k :: 0 <= r <= n && 0 <= k <= c ==> m'[r][k] == m[r][k]
    ensures Entry(m', n, i, c) == Entry(m, n, i, c)
  {
    if i <= c { DotSame(m, m', n, i, i, c, i - 1); } else { DotSame(m, m', n, i, i, c, c); }
  }

  lemma RestoredSame(m: Matrix, m': Matrix, n: nat, r: nat, i: nat, j: nat)
    requires Square(m, n) && Square(m', n) && 1 <= r <= n && 1 <= i <= n && 1 <= j <= n && r < i
    requires forall k, c :: 0 <= k <= n && 0 <= c <= n && (k != i || c != j) ==> m'[k][c] == m[k][c]
    ensures Restored(m', n, r, j) == Restored(m, n, r, j)
  {
    DotSame(m, m', n, r, r, j, Least(r, j) - 1);
  }

  lemma RestoredNew(m: Matrix, m': Matrix, n: nat, i: nat, j: nat, t: nat)
    requires Square(m, n) && Square(m', n) && 1 <= i <= n && 1 <= j <= n && t == Least(i, j) - 1
    requires forall k, c :: 0 <= k <= n && 0 <= c <= n && (k != i || c != j) ==> m'[k][c] == m[k][c]
    requires m'[i][j] == m[i][j] - Dot(m, n, i, j, t)
    ensures Restored(m', n, i, j) == m[i][j]
  {
    DotSame(m, m', n, i, i, j, t);
  }

  lemma RowDone(m: Matrix, m': Matrix, p: Matrix, n: nat, j: nat, i: nat, t: nat, sum: real)
    requires AtRow(m, p, n, j, i) && 1 <= i <= n && t == Least(i, j) - 1
    requires sum == m[i][j] - Dot(m, n, i, j, t) && m' == Put(m, i, j, sum)
    ensures AtRow(m', p, n, j, i + 1)
  {
    PutSquare(m, n, i, j, sum);
    RestoredNew(m, m', n, i, j, t);
    forall r | 1 <= r < i ensures Restored(m', n, r, j) == p[r][j] {
      RestoredSame(m, m', n, r, i, j);
    }
    forall r, c | 1 <= r <= n && 1 <= c < j ensures Entry(m', n, r, c) == p[r][c] {
      EntrySame(m, m', n, r, c);
    }
  }

  // ---------- interchanging two rows ----------

  lemma EntrySwapped(m: Matrix, m': Matrix, n: nat, j: nat, i: nat, s: nat, c: nat)
    requires Square(m, n) && Square(m', n) && 1 <= i <= n && 1 <= s <= n && 1 <= c < j <= n
    requires m'[i] == m[s] && (forall k :: 1 <= k < j ==> m'[k] == m[k]) && (i == s || (i >= j && s >= j))
    ensures Entry(m', n, i, c) == Entry(m, n, s, c)
  {
    DotSame(m, m', n, s, i, c, if i <= c then i - 1 else c);
  }

  lemma RestoredSwapped(m: Matrix, m': Matrix, n: nat, j: nat, i: nat, s: nat)
    requires Square(m, n) && Square(m', n) && 1 <= i <= n && 1 <= s <= n && 1 <= j <= n
    requires m'[i] == m[s] && (forall k :: 1 <= k < j ==> m'[k] == m[k]) && (i == s || (i >= j && s >= j))
    ensures Restored(m', n, i, j) == Restored(m, n, s, j)
  {
    DotSame(m, m', n, s, i, j, Least(i, j) - 1);
  }

  lemma RowsSwapped(m: Matrix, p: Matrix, m': Matrix, p': Matrix, n: nat, j: nat, r: nat)
    requires AtRow(m, p, n, j, n + 1) && 1 <= j <= r <= n
    requires m' == Swap(m, j, r) && p' == Swap(p, j, r)
    ensures AtRow(m', p', n, j, n + 1)
  {
    forall i, c | 1 <= i <= n && 1 <= c < j ensures Entry(m', n, i, c) == p'[i][c] {
      var s := if i == j then r else if i == r then j else i;
      EntrySwapped(m, m', n, j, i, s, c);
    }
    forall i | 1 <= i <= n ensures Restored(m', n, i, j) == p'[i][j] {
      var s := if i == j then r else if i == r then j else i;
      RestoredSwapped(m, m', n, j, i, s);
    }
  }

  // ---------- dividing by the pivot ----------

  // Rows i and below have been divided.
  ghost predicate Divided(m: Matrix, m': Matrix, n: nat, j: nat, i: nat) {
    && Square(m, n) && Square(m', n) && 1 <= j <= n
    && (forall r, c :: 0 <= r <= n && 0 <= c <= n && (c != j || r <= j || r >= i) ==> m'[r][c] == m[r][c])
    && (forall r :: j < r < i && r <= n ==> m'[r][j] * m[j][j] == m[r][j])
  }

  lemma UpperKept(m: Matrix, m': Matrix, n: nat, j: nat, r: nat)
    requires Divided(m, m', n, j, n + 1) && 1 <= r <= j
    ensures Entry(m', n, r, j) == Restored(m, n, r, j)
  {
    DotSame(m, m', n, r, r, j, r - 1);
  }

  lemma LowerKept(m: Matrix, m': Matrix, n: nat, j: nat, r: nat, t: nat)
    requires Divided(m, m', n, j, n + 1) && j < r <= n && t == j - 1
    ensures Entry(m', n, r, j) == Restored(m, n, r, j)
  {
    DotSame(m, m', n, r, r, j, t);
    assert m'[j][j] == m[j][j];
  }

  lemma ColumnDone(m: Matrix, m': Matrix, p: Matrix, n: nat, j: nat)
    requires AtRow(m, p, n, j, n + 1) && Divided(m, m', n, j, n + 1)
    ensures AtColumn(m', p, n, j + 1)
  {
    forall r, c | 1 <= r <= n && 1 <= c < j + 1 && c <= n ensures Entry(m', n, r, c) == p[r][c] {
      if c < j {
        EntrySame(m, m', n, r, c);
      } else if r <= j {
        UpperKept(m, m', n, j, r);
      } else {
        LowerKept(m, m', n, j, r, j - 1);
      }
    }
  }
}
