/**
  Weighted adjacency matrices, both as the mutable two-dimensional buffer the
  structure-learning pipeline hands around (`array2<real>`, a numpy `ndarray`
  passed by reference) and as the immutable value the specifications talk
  about (`Matrix`, a sequence of rows).
*/
module Matrices {

  /** A matrix as a value: row `r`, column `c` is `m[r][c]`. */
  type Matrix = seq<seq<real>>

  /** `d x d` for `d == |m|`. */
  predicate IsSquare(m: Matrix) {
    forall r :: 0 <= r < |m| ==> |m[r]| == |m|
  }

  /** Two matrices of the same shape that agree entry by entry. */
  predicate SameEntries(a: Matrix, b: Matrix) {
    && |a| == |b|
    && (forall r :: 0 <= r < |a| ==> |a[r]| == |b[r]|)
    && (forall r, c :: 0 <= r < |a| && 0 <= c < |a[r]| ==> a[r][c] == b[r][c])
  }

  /** Matrices are equal exactly when they have the same shape and entries. */
  lemma SameEntriesEqual(a: Matrix, b: Matrix)
    requires SameEntries(a, b)
    ensures a == b
  {
    forall r | 0 <= r < |a|
      ensures a[r] == b[r]
    {
      assert forall c :: 0 <= c < |a[r]| ==> a[r][c] == b[r][c];
    }
  }

  /** The current contents of a buffer, as a value. */
  function Snapshot(A: array2<real>): (m: Matrix)
    reads A
    ensures |m| == A.Length0
    ensures forall r :: 0 <= r < |m| ==> |m[r]| == A.Length1
    ensures forall r, c :: 0 <= r < A.Length0 && 0 <= c < A.Length1 ==> m[r][c] == A[r, c]
  {
    seq(A.Length0, r requires 0 <= r < A.Length0 reads A =>
      seq(A.Length1, c requires 0 <= c < A.Length1 reads A => A[r, c]))
  }

  /** `np.copy`: a fresh buffer with the same shape and entries. */
  method Copy(B: array2<real>) returns (C: array2<real>)
    ensures fresh(C)
    ensures C.Length0 == B.Length0 && C.Length1 == B.Length1
    ensures Snapshot(C) == Snapshot(B)
  {
    C := new real[B.Length0, B.Length1];
    forall r, c | 0 <= r < B.Length0 && 0 <= c < B.Length1 {
      C[r, c] := B[r, c];
    }
    SameEntriesEqual(Snapshot(C), Snapshot(B));
  }
}
