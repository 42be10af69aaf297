/** Square tables of reals: the distance table and the pheromone table. */
module Matrices {
  type Matrix = seq<seq<real>>

  /** m has n rows of n entries each. */
  predicate IsSquare(m: Matrix, n: nat)
  {
    |m| == n && forall i :: 0 <= i < n ==> |m[i]| == n
  }

  predicate Symmetric(m: Matrix)
    requires IsSquare(m, |m|)
  {
    forall i, j :: 0 <= i < |m| && 0 <= j < |m| ==> m[i][j] == m[j][i]
  }

  predicate NonNegative(m: Matrix)
    requires IsSquare(m, |m|)
  {
    forall i, j :: 0 <= i < |m| && 0 <= j < |m| ==> m[i][j] >= 0.0
  }

  predicate Positive(m: Matrix)
    requires IsSquare(m, |m|)
  {
    forall i, j :: 0 <= i < |m| && 0 <= j < |m| ==> m[i][j] > 0.0
  }

  /** Every edge between two different cities has a positive length. */
  predicate OffDiagonalPositive(m: Matrix)
    requires IsSquare(m, |m|)
  {
    forall i, j :: 0 <= i < |m| && 0 <= j < |m| && i != j ==> m[i][j] > 0.0
  }

  /** Two square tables of the same size with the same entries are equal. */
  lemma SameEntries(m1: Matrix, m2: Matrix, n: nat)
    requires IsSquare(m1, n) && IsSquare(m2, n)
    requires forall i, j :: 0 <= i < n && 0 <= j < n ==> m1[i][j] == m2[i][j]
    ensures m1 == m2
  {
    forall i | 0 <= i < n
      ensures m1[i] == m2[i]
    {
      assert forall j :: 0 <= j < n ==> m1[i][j] == m2[i][j];
    }
  }
}
