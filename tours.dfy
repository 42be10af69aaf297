/** Tours over the cities 0 .. n-1 and their lengths under a distance table. */
module Tours {
  import opened Matrices

  /** Every entry of t is a city index below n. */
  predicate InRange(t: seq<int>, n: nat)
  {
    forall k :: 0 <= k < |t| ==> 0 <= t[k] < n
  }

  /** No city occurs twice in t. */
  predicate Distinct(t: seq<int>)
  {
    forall a, b :: 0 <= a < b < |t| ==> t[a] != t[b]
  }

  /** t lists each of the n cities exactly once. */
  predicate IsTour(t: seq<int>, n: nat)
  {
    |t| == n && InRange(t, n) && Distinct(t)
  }

  /** Appending a city not yet on a partial tour keeps it in range and repetition-free. */
  lemma AppendFresh(t: seq<int>, n: nat, x: int)
    requires InRange(t, n) && Distinct(t) && 0 <= x < n && x !in t
    ensures InRange(t + [x], n) && Distinct(t + [x])
  {
  }

  /** The set of city indices 0 .. n-1. */
  function Cities(n: nat): (c: set<int>)
    ensures forall j :: j in c <==> 0 <= j < n
    ensures |c| == n
  {
    if n == 0 then {} else Cities(n - 1) + {n - 1}
  }

  function Elements(t: seq<int>): set<int>
  {
    set x | x in t
  }

  lemma {:induction false} ElementsCount(t: seq<int>)
    requires Distinct(t)
    ensures |Elements(t)| == |t|
  {
    if t != [] {
      var init := t[..|t| - 1];
      ElementsCount(init);
      assert Elements(t) == Elements(init) + {t[|t| - 1]};
      assert t[|t| - 1] !in Elements(init);
    }
  }

  lemma SubsetCount(a: set<int>, b: set<int>)
    requires a <= b
    ensures |a| <= |b|
    ensures |a| == |b| ==> a == b
  {
    assert b == a + (b - a);
    assert a * (b - a) == {};
  }

  /** Pigeonhole: a repetition-free partial tour shorter than n leaves a city unvisited. */
  lemma UnvisitedExists(t: seq<int>, n: nat)
    requires InRange(t, n) && Distinct(t) && |t| < n
    ensures exists j :: 0 <= j < n && j !in t
  {
    ElementsCount(t);
    if forall j :: 0 <= j < n ==> j in t {
      assert Cities(n) <= Elements(t);
      SubsetCount(Cities(n), Elements(t));
      assert false;
    }
  }

  /** A tour visits every city. */
  lemma TourCoversAll(t: seq<int>, n: nat)
    requires IsTour(t, n)
    ensures forall j :: 0 <= j < n ==> j in t
  {
    ElementsCount(t);
    assert Elements(t) <= Cities(n);
    SubsetCount(Elements(t), Cities(n));
    forall j | 0 <= j < n
      ensures j in t
    {
      assert j in Elements(t);
    }
  }

  /** Sum of dist[t[k]][t[k+1]] over the consecutive pairs of t (the open path). */
  function PathLength(dist: Matrix, t: seq<int>): (len: real)
    requires IsSquare(dist, |dist|) && InRange(t, |dist|)
    ensures NonNegative(dist) ==> len >= 0.0
    decreases |t|
  {
    if |t| <= 1 then 0.0
    else PathLength(dist, t[..|t| - 1]) + dist[t[|t| - 2]][t[|t| - 1]]
  }

  /** Length of the closed tour: the open path plus the edge from the last city back to the first. */
  function TourLength(dist: Matrix, t: seq<int>): real
    requires IsSquare(dist, |dist|) && InRange(t, |dist|) && |t| >= 1
  {
    PathLength(dist, t) + dist[t[|t| - 1]][t[0]]
  }

  /** Extending a path by one city adds exactly the new edge. */
  lemma PathLengthSnoc(dist: Matrix, t: seq<int>, c: int)
    requires IsSquare(dist, |dist|) && InRange(t, |dist|) && 0 <= c < |dist| && |t| >= 1
    ensures InRange(t + [c], |dist|)
    ensures PathLength(dist, t + [c]) == PathLength(dist, t) + dist[t[|t| - 1]][c]
  {
    var s := t + [c];
    forall k | 0 <= k < |s|
      ensures 0 <= s[k] < |dist|
    {
      if k < |t| {
        assert s[k] == t[k];
      }
    }
    assert s[..|s| - 1] == t;
    assert s[|s| - 2] == t[|t| - 1] && s[|s| - 1] == c;
    assert PathLength(dist, s) == PathLength(dist, s[..|s| - 1]) + dist[s[|s| - 2]][s[|s| - 1]];
  }

  /** With non-negative distances a tour has non-negative length; on two or more cities with
      positive distances between different cities it has positive length. */
  lemma TourLengthSign(dist: Matrix, t: seq<int>)
    requires IsSquare(dist, |dist|) && NonNegative(dist) && IsTour(t, |dist|) && |dist| >= 1
    ensures TourLength(dist, t) >= 0.0
    ensures |dist| >= 2 && OffDiagonalPositive(dist) ==> TourLength(dist, t) > 0.0
  {
    if |dist| >= 2 && OffDiagonalPositive(dist) {
      assert t[|t| - 1] != t[0];
    }
  }

  /** Every closed tour over the table has a positive length, so that Q / tourLength is defined
      for every ant; on one city there is no edge to reinforce and nothing is required. */
  ghost predicate PositiveTours(dist: Matrix)
    requires IsSquare(dist, |dist|)
  {
    |dist| >= 2 ==> forall t :: IsTour(t, |dist|) ==> TourLength(dist, t) > 0.0
  }

  /** Positive distances between different cities make every tour positive. */
  lemma OffDiagonalPositiveTours(dist: Matrix)
    requires IsSquare(dist, |dist|) && NonNegative(dist) && OffDiagonalPositive(dist)
    ensures PositiveTours(dist)
  {
    if |dist| >= 2 {
      forall t | IsTour(t, |dist|)
        ensures TourLength(dist, t) > 0.0
      {
        TourLengthSign(dist, t);
      }
    }
  }
}
