/** The three elementary row operations of the elimination, as functions on
    matrix values and as the in-place loops over the array that perform them. */
module RowOps {
  import opened Matrices

  /** Rows `i` and `j` exchanged. */
  function Swapped(m: seq<seq<real>>, i: nat, j: nat): (r: seq<seq<real>>)
    requires i < |m| && j < |m|
    ensures |r| == |m| && r[i] == m[j] && r[j] == m[i]
    ensures forall k :: 0 <= k < |m| && k != i && k != j ==> r[k] == m[k]
    ensures forall c :: Rect(m, c) ==> Rect(r, c)
  {
    m[i := m[j]][j := m[i]]
  }

  /** A swap permutes the rows: the multiset of rows is unchanged. */
  lemma SwappedPermutes(m: seq<seq<real>>, i: nat, j: nat)
    requires i < |m| && j < |m|
    ensures multiset(Swapped(m, i, j)) == multiset(m)
  {
  }

  /** Row `row` multiplied by `inv` from column `from` on. */
  function Scaled(m: seq<seq<real>>, row: nat, from: nat, inv: real): (r: seq<seq<real>>)
    requires row < |m|
    ensures |r| == |m| && |r[row]| == |m[row]|
    ensures forall k :: 0 <= k < |m| && k != row ==> r[k] == m[k]
    ensures forall j :: 0 <= j < |m[row]| && j < from ==> r[row][j] == m[row][j]
    ensures forall c :: Rect(m, c) ==> Rect(r, c)
  {
    m[row := seq(|m[row]|, j requires 0 <= j < |m[row]| => if j < from then m[row][j] else m[row][j] * inv)]
  }

  /** `factor` times row `pr` subtracted from row `r`, from column `from` on. */
  function Subtracted(m: seq<seq<real>>, r: nat, pr: nat, from: nat, factor: real): (res: seq<seq<real>>)
    requires r < |m| && pr < |m| && |m[pr]| == |m[r]|
    ensures |res| == |m| && |res[r]| == |m[r]|
    ensures forall k :: 0 <= k < |m| && k != r ==> res[k] == m[k]
    ensures forall j :: 0 <= j < |m[r]| && j < from ==> res[r][j] == m[r][j]
    ensures forall c :: Rect(m, c) ==> Rect(res, c)
  {
    m[r := seq(|m[r]|, j requires 0 <= j < |m[r]| => if j < from then m[r][j] else m[r][j] - factor * m[pr][j])]
  }

  /** Scaling a row by the reciprocal of its entry in column `col` makes that entry 1. */
  lemma ScaledToOne(m: seq<seq<real>>, row: nat, col: nat)
    requires row < |m| && col < |m[row]| && m[row][col] != 0.0
    ensures Scaled(m, row, col, 1.0 / m[row][col])[row][col] == 1.0
  {
    var p := m[row][col];
    assert p * (1.0 / p) == 1.0;
  }

  /** Subtracting the entry's own value times a row with 1 in that column clears it. */
  lemma SubtractedToZero(m: seq<seq<real>>, r: nat, pr: nat, col: nat)
    requires r < |m| && pr < |m| && |m[pr]| == |m[r]| && col < |m[r]| && m[pr][col] == 1.0
    ensures Subtracted(m, r, pr, col, m[r][col])[r][col] == 0.0
  {
  }

  // ---------------------------------------------------------------------------
  // In place

  /** The swap loop: rows `i` and `j` exchange their entries column by column. */
  method SwapRows(A: array2<real>, i: nat, j: nat)
    requires i < A.Length0 && j < A.Length0
    modifies A
    ensures Snapshot(A) == Swapped(old(Snapshot(A)), i, j)
  {
    ghost var m := Snapshot(A);
    var c := 0;
    while c < A.Length1
      invariant 0 <= c <= A.Length1
      invariant forall r, k :: 0 <= r < A.Length0 && 0 <= k < A.Length1 ==>
        A[r, k] == if k < c then Swapped(m, i, j)[r][k] else m[r][k]
    {
      var t := A[j, c];
      A[j, c] := A[i, c];
      A[i, c] := t;
      c := c + 1;
    }
    SnapshotIs(A, Swapped(m, i, j));
  }

  /** The scaling loop over the columns of row `row` from `from` on. */
  method ScaleRow(A: array2<real>, row: nat, from: nat, inv: real)
    requires row < A.Length0 && from <= A.Length1
    modifies A
    ensures Snapshot(A) == Scaled(old(Snapshot(A)), row, from, inv)
  {
    ghost var m := Snapshot(A);
    var c := from;
    while c < A.Length1
      invariant from <= c <= A.Length1
      invariant forall r, k :: 0 <= r < A.Length0 && 0 <= k < A.Length1 ==>
        A[r, k] == if from <= k < c then Scaled(m, row, from, inv)[r][k] else m[r][k]
    {
      A[row, c] := A[row, c] * inv;
      c := c + 1;
    }
    SnapshotIs(A, Scaled(m, row, from, inv));
  }

  /** The elimination loop over the columns of row `r` from `from` on. */
  method SubtractRow(A: array2<real>, r: nat, pr: nat, from: nat, factor: real)
    requires r < A.Length0 && pr < A.Length0 && r != pr && from <= A.Length1
    modifies A
    ensures Snapshot(A) == Subtracted(old(Snapshot(A)), r, pr, from, factor)
  {
    ghost var m := Snapshot(A);
    var c := from;
    while c < A.Length1
      invariant from <= c <= A.Length1
      invariant forall i, k :: 0 <= i < A.Length0 && 0 <= k < A.Length1 ==>
        A[i, k] == if from <= k < c then Subtracted(m, r, pr, from, factor)[i][k] else m[i][k]
    {
      A[r, c] := A[r, c] - factor * A[pr, c];
      c := c + 1;
    }
    SnapshotIs(A, Subtracted(m, r, pr, from, factor));
  }
}
