/** The augmented matrix `[A | b]` is a two-dimensional array of reals; these
    functions read a row, or the whole matrix, as sequence values. */
module Matrices {

  /** Every row of `m` has `cols` entries. */
  predicate Rect(m: seq<seq<real>>, cols: nat)
  {
    forall i :: 0 <= i < |m| ==> |m[i]| == cols
  }

  /** Row `i` of `A`, left to right. */
  function RowOf(A: array2<real>, i: nat): (row: seq<real>)
    requires i < A.Length0
    reads A
    ensures |row| == A.Length1
    ensures forall j :: 0 <= j < A.Length1 ==> row[j] == A[i, j]
  {
    seq(A.Length1, j requires 0 <= j < A.Length1 reads A => A[i, j])
  }

  /** The whole matrix, row by row. */
  ghost function Snapshot(A: array2<real>): (m: seq<seq<real>>)
    reads A
    ensures |m| == A.Length0 && Rect(m, A.Length1)
    ensures forall i :: 0 <= i < A.Length0 ==> m[i] == RowOf(A, i)
    ensures forall i, j :: 0 <= i < A.Length0 && 0 <= j < A.Length1 ==> m[i][j] == A[i, j]
  {
    seq(A.Length0, i requires 0 <= i < A.Length0 reads A => RowOf(A, i))
  }

  /** An array whose entries agree with `m` has `m` as its snapshot. */
  lemma SnapshotIs(A: array2<real>, m: seq<seq<real>>)
    requires |m| == A.Length0 && Rect(m, A.Length1)
    requires forall i, j :: 0 <= i < A.Length0 && 0 <= j < A.Length1 ==> A[i, j] == m[i][j]
    ensures Snapshot(A) == m
  {
    var s := Snapshot(A);
    forall i | 0 <= i < |m|
      ensures s[i] == m[i]
    {
      assert forall j :: 0 <= j < A.Length1 ==> s[i][j] == m[i][j];
    }
  }
}
