/** The transition rule of one ant: from its current city, with the row of the pheromone
    table P and the row of the distance table D for that city and its visited flags V,
    choose the next city for a draw u in [0, 1] (the uniform draw rand() / RAND_MAX). */
module Transition {
  import opened Config

  /** V, P and D describe the same n cities. */
  predicate Rows(V: seq<bool>, P: seq<real>, D: seq<real>)
  {
    |V| == |P| == |D|
  }

  predicate NonNegativeRow(P: seq<real>)
  {
    forall j :: 0 <= j < |P| ==> P[j] >= 0.0
  }

  /** City j can be drawn: it is unvisited and reachable by an edge of positive length. */
  predicate Eligible(V: seq<bool>, D: seq<real>, j: int)
    requires |V| == |D| && 0 <= j < |V|
  {
    !V[j] && D[j] > 0.0
  }

  /** pheromone^Alpha * (1 / distance)^Beta. */
  function Weight(p: real, d: real): (w: real)
    requires d > 0.0
    ensures p >= 0.0 ==> w >= 0.0
    ensures p > 0.0 ==> w > 0.0
  {
    Pow(p, Alpha) * Pow(1.0 / d, Beta)
  }

  /** The unnormalised probability of city j: its weight if eligible, otherwise 0. */
  function Prob(V: seq<bool>, P: seq<real>, D: seq<real>, j: int): (w: real)
    requires Rows(V, P, D) && 0 <= j < |V|
    ensures !Eligible(V, D, j) ==> w == 0.0
    ensures P[j] >= 0.0 ==> w >= 0.0
  {
    if Eligible(V, D, j) then Weight(P[j], D[j]) else 0.0
  }

  /** Cumulative weight of the cities 0 .. k-1. */
  function CumWeight(V: seq<bool>, P: seq<real>, D: seq<real>, k: nat): (c: real)
    requires Rows(V, P, D) && k <= |V|
    ensures NonNegativeRow(P) ==> c >= 0.0
  {
    if k == 0 then 0.0 else CumWeight(V, P, D, k - 1) + Prob(V, P, D, k - 1)
  }

  /** Sum of the weights of all eligible cities. */
  function TotalWeight(V: seq<bool>, P: seq<real>, D: seq<real>): real
    requires Rows(V, P, D)
  {
    CumWeight(V, P, D, |V|)
  }

  /** The lowest-index unvisited city at or after j, or -1 if there is none. */
  function FirstUnvisited(V: seq<bool>, j: nat): (c: int)
    ensures c == -1 <==> forall k :: j <= k < |V| ==> V[k]
    ensures c != -1 ==> j <= c < |V| && !V[c] && forall k :: j <= k < c ==> V[k]
    decreases |V| - j
  {
    if j >= |V| then -1 else if !V[j] then j else FirstUnvisited(V, j + 1)
  }

  /** City k is eligible and the cumulative weight up to and including k reaches r. */
  predicate Reaches(V: seq<bool>, P: seq<real>, D: seq<real>, r: real, k: int)
    requires Rows(V, P, D) && 0 <= k < |V|
  {
    Eligible(V, D, k) && CumWeight(V, P, D, k + 1) >= r
  }

  /** The first city at or after j that reaches r, or -1. */
  function FirstReaching(V: seq<bool>, P: seq<real>, D: seq<real>, r: real, j: nat): (c: int)
    requires Rows(V, P, D)
    ensures c != -1 ==> j <= c < |V| && Reaches(V, P, D, r, c)
    ensures c != -1 ==> forall k :: j <= k < c ==> !Reaches(V, P, D, r, k)
    ensures c == -1 ==> forall k :: j <= k < |V| ==> !Reaches(V, P, D, r, k)
    decreases |V| - j
  {
    if j >= |V| then -1
    else if Reaches(V, P, D, r, j) then j
    else FirstReaching(V, P, D, r, j + 1)
  }

  /** The city chosen for draw u: with zero total weight, the lowest-index unvisited city;
      otherwise the first eligible city whose cumulative weight reaches u times the total. */
  function Choose(V: seq<bool>, P: seq<real>, D: seq<real>, u: real): int
    requires Rows(V, P, D)
  {
    var total := TotalWeight(V, P, D);
    if total == 0.0 then FirstUnvisited(V, 0) else FirstReaching(V, P, D, u * total, 0)
  }

  /** The two cases of Choose, by the total weight, for the threshold r = u * total; when no
      city is left unvisited the cumulative walk finds nothing either. */
  lemma ChooseCases(V: seq<bool>, P: seq<real>, D: seq<real>, u: real, r: real)
    requires Rows(V, P, D) && r == u * TotalWeight(V, P, D)
    ensures TotalWeight(V, P, D) == 0.0 ==> Choose(V, P, D, u) == FirstUnvisited(V, 0)
    ensures TotalWeight(V, P, D) != 0.0 ==> Choose(V, P, D, u) == FirstReaching(V, P, D, r, 0)
    ensures FirstUnvisited(V, 0) == -1 ==> FirstReaching(V, P, D, r, 0) == -1
  {
  }

  /** If the cumulative weight of the first k cities is not zero, some eligible city below k
      carries the cumulative weight up to its full value. */
  lemma {:induction false} LastEligible(V: seq<bool>, P: seq<real>, D: seq<real>, k: nat)
    requires Rows(V, P, D) && k <= |V| && CumWeight(V, P, D, k) != 0.0
    ensures exists m :: 0 <= m < k && Eligible(V, D, m) && CumWeight(V, P, D, m + 1) == CumWeight(V, P, D, k)
  {
    if Eligible(V, D, k - 1) {
      assert CumWeight(V, P, D, (k - 1) + 1) == CumWeight(V, P, D, k);
    } else {
      LastEligible(V, P, D, k - 1);
    }
  }

  /** Fallback: when the total weight is zero the choice ignores the draw and is the
      lowest-index unvisited city (-1 only when every city is visited). */
  lemma ChooseFallback(V: seq<bool>, P: seq<real>, D: seq<real>, u1: real, u2: real)
    requires Rows(V, P, D) && TotalWeight(V, P, D) == 0.0
    ensures Choose(V, P, D, u1) == Choose(V, P, D, u2)
    ensures var c := Choose(V, P, D, u1);
      (c == -1 <==> forall k :: 0 <= k < |V| ==> V[k]) &&
      (c != -1 ==> 0 <= c < |V| && !V[c] && forall k :: 0 <= k < c ==> V[k])
  {
  }

  /** With a positive total weight, every threshold r up to the total is reached by some city. */
  lemma FirstReachingFound(V: seq<bool>, P: seq<real>, D: seq<real>, r: real)
    requires Rows(V, P, D) && TotalWeight(V, P, D) > 0.0 && r <= TotalWeight(V, P, D)
    ensures 0 <= FirstReaching(V, P, D, r, 0) < |V|
  {
    LastEligible(V, P, D, |V|);
    var m :| 0 <= m < |V| && Eligible(V, D, m) && CumWeight(V, P, D, m + 1) == TotalWeight(V, P, D);
    assert Reaches(V, P, D, r, m);
  }

  /** Weighted choice: with a positive total and a draw u in [0, 1], the choice is the first
      city, in ascending order, that is eligible and whose cumulative weight reaches u times
      the total. */
  lemma ChooseFirstReaching(V: seq<bool>, P: seq<real>, D: seq<real>, u: real)
    requires Rows(V, P, D) && TotalWeight(V, P, D) > 0.0 && 0.0 <= u <= 1.0
    ensures var c := Choose(V, P, D, u); var r := u * TotalWeight(V, P, D);
      0 <= c < |V| && Reaches(V, P, D, r, c) && forall k :: 0 <= k < c ==> !Reaches(V, P, D, r, k)
  {
    ScaledBelow(u, TotalWeight(V, P, D));
    FirstReachingFound(V, P, D, u * TotalWeight(V, P, D));
    ChooseCases(V, P, D, u, u * TotalWeight(V, P, D));
  }

  lemma ScaledBelow(u: real, x: real)
    requires 0.0 <= u <= 1.0 && x > 0.0
    ensures u * x <= x
  {
  }

  /** With non-negative pheromone and a draw in [0, 1] the choice is an unvisited city, and
      it is -1 exactly when every city has been visited. */
  lemma ChooseUnvisited(V: seq<bool>, P: seq<real>, D: seq<real>, u: real)
    requires Rows(V, P, D) && NonNegativeRow(P) && 0.0 <= u <= 1.0
    ensures var c := Choose(V, P, D, u);
      (c == -1 <==> forall k :: 0 <= k < |V| ==> V[k]) &&
      (c != -1 ==> 0 <= c < |V| && !V[c])
  {
    if TotalWeight(V, P, D) != 0.0 {
      ChooseFirstReaching(V, P, D, u);
    }
  }
}
