/** The pheromone update as a function on tables: evaporation of every entry, then for
    every ant a symmetric deposit of Q / length on each consecutive pair of its tour. */
module Pheromones {
  import opened Config
  import opened Matrices
  import opened Tours

  /** The directed edge (from, to) is the unordered pair {i, j}. */
  predicate Touches(from: int, to: int, i: int, j: int)
  {
    (i == from && j == to) || (i == to && j == from)
  }

  /** The tours handed to the update: one per length, each n cities long and inside the
      table, with a positive length wherever a deposit divides by it. */
  predicate ValidTours(tours: seq<seq<int>>, lengths: seq<real>, n: nat)
  {
    |tours| == |lengths| &&
    (forall a :: 0 <= a < |tours| ==> |tours[a]| == n && InRange(tours[a], n)) &&
    (n >= 2 ==> forall a :: 0 <= a < |lengths| ==> lengths[a] > 0.0)
  }

  /** Every entry scaled by 1 - Rho. */
  function Evaporate(m: Matrix): (e: Matrix)
    requires IsSquare(m, |m|)
    ensures IsSquare(e, |m|)
  {
    seq(|m|, i requires 0 <= i < |m| => seq(|m|, j requires 0 <= j < |m| => m[i][j] * (1.0 - Rho)))
  }

  /** pheromone[from][to] += amount; pheromone[to][from] = pheromone[from][to]. */
  function DepositEdge(m: Matrix, from: int, to: int, amount: real): (d: Matrix)
    requires IsSquare(m, |m|) && 0 <= from < |m| && 0 <= to < |m|
    ensures IsSquare(d, |m|)
    ensures forall i, j :: 0 <= i < |m| && 0 <= j < |m| ==>
      d[i][j] == if Touches(from, to, i, j) then m[from][to] + amount else m[i][j]
  {
    var raised := m[from := m[from][to := m[from][to] + amount]];
    raised[to := raised[to][from := raised[from][to]]]
  }

  /** Deposits of one ant on the edges (t[e], t[e+1]) for e < k, in order. */
  function DepositTour(m: Matrix, t: seq<int>, len: real, k: nat): (d: Matrix)
    requires IsSquare(m, |m|) && InRange(t, |m|) && k < |t| && (k > 0 ==> len != 0.0)
    ensures IsSquare(d, |m|)
  {
    if k == 0 then m else DepositEdge(DepositTour(m, t, len, k - 1), t[k - 1], t[k], Q / len)
  }

  /** Deposits of the first a ants, each on its n - 1 consecutive pairs. */
  function DepositAll(m: Matrix, tours: seq<seq<int>>, lengths: seq<real>, a: nat): (d: Matrix)
    requires IsSquare(m, |m|) && |m| >= 1 && ValidTours(tours, lengths, |m|) && a <= |tours|
    ensures IsSquare(d, |m|)
  {
    if a == 0 then m
    else DepositTour(DepositAll(m, tours, lengths, a - 1), tours[a - 1], lengths[a - 1], |m| - 1)
  }

  /** The table after one call of the update with the given ants. */
  function Update(m: Matrix, tours: seq<seq<int>>, lengths: seq<real>): (u: Matrix)
    requires IsSquare(m, |m|) && |m| >= 1 && ValidTours(tours, lengths, |m|)
    ensures IsSquare(u, |m|)
  {
    DepositAll(Evaporate(m), tours, lengths, |tours|)
  }

  /** Amount one ant deposits on the unordered pair {i, j} over its first k edges. */
  function TourGain(t: seq<int>, len: real, i: int, j: int, k: nat): real
    requires k < |t| && (k > 0 ==> len != 0.0)
  {
    if k == 0 then 0.0
    else TourGain(t, len, i, j, k - 1) + (if Touches(t[k - 1], t[k], i, j) then Q / len else 0.0)
  }

  /** Amount the first a ants deposit on the unordered pair {i, j}. */
  function Gain(tours: seq<seq<int>>, lengths: seq<real>, n: nat, i: int, j: int, a: nat): real
    requires n >= 1 && ValidTours(tours, lengths, n) && a <= |tours|
  {
    if a == 0 then 0.0
    else Gain(tours, lengths, n, i, j, a - 1) + TourGain(tours[a - 1], lengths[a - 1], i, j, n - 1)
  }

  lemma EvaporateEffect(m: Matrix)
    requires IsSquare(m, |m|)
    ensures forall i, j :: 0 <= i < |m| && 0 <= j < |m| ==> Evaporate(m)[i][j] == m[i][j] * (1.0 - Rho)
    ensures Symmetric(m) ==> Symmetric(Evaporate(m))
    ensures Positive(m) ==> Positive(Evaporate(m))
    ensures NonNegative(m) ==> NonNegative(Evaporate(m))
  {
  }

  /** One ant's deposits keep a symmetric table symmetric. */
  lemma {:induction false} DepositTourSymmetric(m: Matrix, t: seq<int>, len: real, k: nat)
    requires IsSquare(m, |m|) && Symmetric(m) && InRange(t, |m|) && k < |t| && (k > 0 ==> len != 0.0)
    ensures Symmetric(DepositTour(m, t, len, k))
  {
    if k > 0 {
      DepositTourSymmetric(m, t, len, k - 1);
    }
  }

  /** On a symmetric table one ant's deposits add its gain to each entry. */
  lemma {:induction false} DepositTourEffect(m: Matrix, t: seq<int>, len: real, k: nat)
    requires IsSquare(m, |m|) && Symmetric(m) && InRange(t, |m|) && k < |t| && (k > 0 ==> len != 0.0)
    ensures forall i, j :: 0 <= i < |m| && 0 <= j < |m| ==>
      DepositTour(m, t, len, k)[i][j] == m[i][j] + TourGain(t, len, i, j, k)
  {
    if k > 0 {
      DepositTourEffect(m, t, len, k - 1);
      DepositTourSymmetric(m, t, len, k - 1);
      var prev := DepositTour(m, t, len, k - 1);
      assert prev[t[k - 1]][t[k]] == prev[t[k]][t[k - 1]];
    }
  }

  /** The deposits of a ants keep a symmetric table symmetric. */
  lemma {:induction false} DepositAllSymmetric(m: Matrix, tours: seq<seq<int>>, lengths: seq<real>, a: nat)
    requires IsSquare(m, |m|) && |m| >= 1 && Symmetric(m) && ValidTours(tours, lengths, |m|) && a <= |tours|
    ensures Symmetric(DepositAll(m, tours, lengths, a))
  {
    if a > 0 {
      DepositAllSymmetric(m, tours, lengths, a - 1);
      DepositTourSymmetric(DepositAll(m, tours, lengths, a - 1), tours[a - 1], lengths[a - 1], |m| - 1);
    }
  }

  /** On a symmetric table the deposits of a ants add their gain to each entry. */
  lemma {:induction false} DepositAllEffect(m: Matrix, tours: seq<seq<int>>, lengths: seq<real>, a: nat)
    requires IsSquare(m, |m|) && |m| >= 1 && Symmetric(m) && ValidTours(tours, lengths, |m|) && a <= |tours|
    ensures forall i, j :: 0 <= i < |m| && 0 <= j < |m| ==>
      DepositAll(m, tours, lengths, a)[i][j] == m[i][j] + Gain(tours, lengths, |m|, i, j, a)
  {
    if a > 0 {
      var prev := DepositAll(m, tours, lengths, a - 1);
      DepositAllEffect(m, tours, lengths, a - 1);
      DepositAllSymmetric(m, tours, lengths, a - 1);
      assert Symmetric(prev);
      DepositTourEffect(prev, tours[a - 1], lengths[a - 1], |m| - 1);
    }
  }

  /** Entry by entry: on a symmetric table the update evaporates each entry and then adds
      Q / length once for every consecutive pair of every ant's tour that joins the two cities;
      the result is symmetric again. */
  lemma UpdateEntries(m: Matrix, tours: seq<seq<int>>, lengths: seq<real>)
    requires IsSquare(m, |m|) && |m| >= 1 && Symmetric(m) && ValidTours(tours, lengths, |m|)
    ensures Symmetric(Update(m, tours, lengths))
    ensures forall i, j :: 0 <= i < |m| && 0 <= j < |m| ==>
      Update(m, tours, lengths)[i][j] == m[i][j] * (1.0 - Rho) + Gain(tours, lengths, |m|, i, j, |tours|)
  {
    EvaporateEffect(m);
    DepositAllSymmetric(Evaporate(m), tours, lengths, |tours|);
    DepositAllEffect(Evaporate(m), tours, lengths, |tours|);
  }

  /** An ant none of whose first k edges joins i and j gains nothing there. */
  lemma {:induction false} TourGainZero(t: seq<int>, len: real, i: int, j: int, k: nat)
    requires k < |t| && (k > 0 ==> len != 0.0)
    requires forall e :: 0 <= e < k ==> !Touches(t[e], t[e + 1], i, j)
    ensures TourGain(t, len, i, j, k) == 0.0
  {
    if k > 0 {
      TourGainZero(t, len, i, j, k - 1);
    }
  }

  lemma {:induction false} GainZero(tours: seq<seq<int>>, lengths: seq<real>, n: nat, i: int, j: int, a: nat)
    requires n >= 1 && ValidTours(tours, lengths, n) && a <= |tours|
    requires forall b, e :: 0 <= b < a && 0 <= e < n - 1 ==> !Touches(tours[b][e], tours[b][e + 1], i, j)
    ensures Gain(tours, lengths, n, i, j, a) == 0.0
  {
    if a > 0 {
      GainZero(tours, lengths, n, i, j, a - 1);
      TourGainZero(tours[a - 1], lengths[a - 1], i, j, n - 1);
    }
  }

  /** An entry whose two cities no ant visits consecutively is only evaporated. */
  lemma UpdateUntouched(m: Matrix, tours: seq<seq<int>>, lengths: seq<real>, i: int, j: int)
    requires IsSquare(m, |m|) && |m| >= 1 && Symmetric(m) && ValidTours(tours, lengths, |m|)
    requires 0 <= i < |m| && 0 <= j < |m|
    requires forall b, e :: 0 <= b < |tours| && 0 <= e < |m| - 1 ==> !Touches(tours[b][e], tours[b][e + 1], i, j)
    ensures Update(m, tours, lengths)[i][j] == m[i][j] * (1.0 - Rho)
  {
    UpdateEntries(m, tours, lengths);
    GainZero(tours, lengths, |m|, i, j, |tours|);
  }

  /** On three or more cities the closing edge of a tour is never one of its consecutive
      pairs, so that ant deposits nothing on it. */
  lemma ClosingEdgeNotReinforced(t: seq<int>, n: nat, len: real)
    requires IsTour(t, n) && n >= 3 && len != 0.0
    ensures TourGain(t, len, t[n - 1], t[0], n - 1) == 0.0
  {
    forall e | 0 <= e < n - 1
      ensures !Touches(t[e], t[e + 1], t[n - 1], t[0])
    {
      assert t[e] != t[n - 1];
      assert e + 1 < n - 1 ==> t[e + 1] != t[n - 1];
    }
    TourGainZero(t, len, t[n - 1], t[0], n - 1);
  }

  lemma {:induction false} DepositTourSign(m: Matrix, t: seq<int>, len: real, k: nat)
    requires IsSquare(m, |m|) && InRange(t, |m|) && k < |t| && (k > 0 ==> len > 0.0)
    ensures NonNegative(m) ==> NonNegative(DepositTour(m, t, len, k))
    ensures Positive(m) ==> Positive(DepositTour(m, t, len, k))
  {
    if k > 0 {
      DepositTourSign(m, t, len, k - 1);
      assert Q / len > 0.0;
    }
  }

  lemma {:induction false} DepositAllSign(m: Matrix, tours: seq<seq<int>>, lengths: seq<real>, a: nat)
    requires IsSquare(m, |m|) && |m| >= 1 && ValidTours(tours, lengths, |m|) && a <= |tours|
    ensures NonNegative(m) ==> NonNegative(DepositAll(m, tours, lengths, a))
    ensures Positive(m) ==> Positive(DepositAll(m, tours, lengths, a))
  {
    if a > 0 {
      DepositAllSign(m, tours, lengths, a - 1);
      DepositTourSign(DepositAll(m, tours, lengths, a - 1), tours[a - 1], lengths[a - 1], |m| - 1);
    }
  }

  /** With positive tour lengths the update keeps a positive (non-negative) table positive
      (non-negative), whether or not it is symmetric. */
  lemma UpdateSign(m: Matrix, tours: seq<seq<int>>, lengths: seq<real>)
    requires IsSquare(m, |m|) && |m| >= 1 && ValidTours(tours, lengths, |m|)
    ensures NonNegative(m) ==> NonNegative(Update(m, tours, lengths))
    ensures Positive(m) ==> Positive(Update(m, tours, lengths))
  {
    EvaporateEffect(m);
    DepositAllSign(Evaporate(m), tours, lengths, |tours|);
  }

  /** With no ant depositing, the update is the evaporation alone. */
  lemma NoAntsEvaporates(m: Matrix)
    requires IsSquare(m, |m|) && |m| >= 1
    ensures Update(m, [], []) == Evaporate(m)
  {
  }

  /** The table after k updates in which no ant deposits. */
  function Idle(m: Matrix, k: nat): (d: Matrix)
    requires IsSquare(m, |m|) && |m| >= 1
    ensures IsSquare(d, |m|)
  {
    if k == 0 then m else Update(Idle(m, k - 1), [], [])
  }

  /** Evaporation law: without deposits, after k updates every entry is its initial value
      times (1 - Rho)^k. */
  lemma IdleDecay(m: Matrix, k: nat)
    requires IsSquare(m, |m|) && |m| >= 1
    ensures forall i, j :: 0 <= i < |m| && 0 <= j < |m| ==>
      Idle(m, k)[i][j] == m[i][j] * Pow(1.0 - Rho, k)
  {
    forall i, j | 0 <= i < |m| && 0 <= j < |m|
      ensures Idle(m, k)[i][j] == m[i][j] * Pow(1.0 - Rho, k)
    {
      IdleDecayAt(m, k, i, j);
    }
  }

  /** The evaporation law for one entry, by induction on the number of updates. */
  lemma {:induction false} IdleDecayAt(m: Matrix, k: nat, i: int, j: int)
    requires IsSquare(m, |m|) && |m| >= 1 && 0 <= i < |m| && 0 <= j < |m|
    ensures Idle(m, k)[i][j] == m[i][j] * Pow(1.0 - Rho, k)
  {
    if k > 0 {
      IdleDecayAt(m, k - 1, i, j);
      IdleStep(m, k, i, j);
      Regroup(Idle(m, k)[i][j], Idle(m, k - 1)[i][j], m[i][j], Pow(1.0 - Rho, k - 1), 1.0 - Rho);
    }
  }

  /** One update without deposits scales an entry by 1 - Rho. */
  lemma IdleStep(m: Matrix, k: nat, i: int, j: int)
    requires IsSquare(m, |m|) && |m| >= 1 && 0 <= i < |m| && 0 <= j < |m| && k > 0
    ensures Idle(m, k)[i][j] == Idle(m, k - 1)[i][j] * (1.0 - Rho)
  {
    NoAntsEvaporates(Idle(m, k - 1));
    EvaporateEffect(Idle(m, k - 1));
  }

  /** One more factor c: from a == b * c and b == x * p follows a == x * (c * p). */
  lemma Regroup(a: real, b: real, x: real, p: real, c: real)
    requires a == b * c && b == x * p
    ensures a == x * (c * p)
  {
  }
}
