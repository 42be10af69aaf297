/** The colony as the program runs it: a pheromone table rewritten in place, ants whose tours,
    visited flags and lengths are built step by step, and the best tour found so far. The
    random draws of the program are inputs: a start draw (the raw value of rand(), reduced
    modulo the number of cities) and, for each step of a tour, a draw u in [0, 1] (the value
    rand() / RAND_MAX). */
module AntColony {
  import opened Config
  import opened Matrices
  import opened Tours
  import opened Transition
  import opened Pheromones

  /** The best length found so far; Infinite plays the role of the initial DBL_MAX. */
  datatype Bound = Infinite | Finite(value: real)

  /** A tour of this length replaces the best one (the program's `tourLength < bestLength`). */
  predicate Improves(length: real, best: Bound)
  {
    best.Infinite? || length < best.value
  }

  /** b is no larger than c. */
  predicate AtMost(b: Bound, c: Bound)
  {
    c.Infinite? || (b.Finite? && b.value <= c.value)
  }

  /** The visited flags of an ant whose tour so far is t. */
  function VisitedBy(t: seq<int>, n: nat): seq<bool>
  {
    seq(n, j => j in t)
  }

  /** Visiting one more city sets exactly its flag. */
  lemma VisitedBySnoc(t: seq<int>, n: nat, x: int)
    requires 0 <= x < n
    ensures VisitedBy(t, n)[x := true] == VisitedBy(t + [x], n)
  {
    forall j | 0 <= j < n
      ensures VisitedBy(t, n)[x := true][j] == VisitedBy(t + [x], n)[j]
    {
      assert (j in t + [x]) == (j in t || j == x);
    }
  }

  /** Every city of t after the first is the one the transition rule chooses from the city
      before it, given the cities already on t as visited flags and the matching draw. */
  ghost predicate FollowsRule(t: seq<int>, T: Matrix, dist: Matrix, draws: seq<real>)
    requires IsSquare(T, |dist|) && IsSquare(dist, |dist|) && InRange(t, |dist|) && |t| <= |draws| + 1
  {
    forall k :: 1 <= k < |t| ==>
      t[k] == Choose(VisitedBy(t[..k], |dist|), T[t[k - 1]], dist[t[k - 1]], draws[k - 1])
  }

  /** Appending the city the rule chooses next keeps a tour following the rule. */
  lemma FollowsRuleExtend(t: seq<int>, T: Matrix, dist: Matrix, draws: seq<real>, c: int, u: real, x: int)
    requires IsSquare(T, |dist|) && IsSquare(dist, |dist|) && InRange(t, |dist|)
    requires 1 <= |t| <= |draws| && 0 <= x < |dist|
    requires FollowsRule(t, T, dist, draws)
    requires c == t[|t| - 1] && u == draws[|t| - 1]
    requires x == Choose(VisitedBy(t, |dist|), T[c], dist[c], u)
    ensures InRange(t + [x], |dist|) && FollowsRule(t + [x], T, dist, draws)
  {
    var t' := t + [x];
    forall k | 1 <= k < |t'|
      ensures t'[k] == Choose(VisitedBy(t'[..k], |dist|), T[t'[k - 1]], dist[t'[k - 1]], draws[k - 1])
    {
      if k < |t| {
        assert t'[..k] == t[..k];
      } else {
        assert t'[..k] == t;
      }
    }
  }

  /** A tour under construction, as values: t holds distinct cities, V flags exactly them,
      len adds up the edges of t and every city after the first followed the rule. */
  ghost predicate PartialTour(t: seq<int>, V: seq<bool>, len: real, T: Matrix, dist: Matrix, draws: seq<real>)
  {
    IsSquare(dist, |dist|) && IsSquare(T, |dist|) && |draws| + 1 == |dist| &&
    1 <= |t| <= |dist| && InRange(t, |dist|) && Distinct(t) &&
    V == VisitedBy(t, |dist|) && len == PathLength(dist, t) && FollowsRule(t, T, dist, draws)
  }

  /** One step of the construction: while a city is left, the rule picks one not on the
      tour, and appending it, flagging it and adding its edge gives a longer partial tour. */
  lemma PartialTourStep(t: seq<int>, V: seq<bool>, len: real, T: Matrix, dist: Matrix, draws: seq<real>, u: real, x: int)
    requires PartialTour(t, V, len, T, dist, draws) && |t| < |dist|
    requires u == draws[|t| - 1] && 0.0 <= u <= 1.0 && NonNegativeRow(T[t[|t| - 1]])
    requires x == Choose(V, T[t[|t| - 1]], dist[t[|t| - 1]], u)
    ensures 0 <= x < |dist| && x !in t
    ensures PartialTour(t + [x], V[x := true], len + dist[t[|t| - 1]][x], T, dist, draws)
  {
    var n, c := |dist|, t[|t| - 1];
    UnvisitedExists(t, n);
    var free :| 0 <= free < n && free !in t;
    assert !V[free];
    ChooseUnvisited(V, T[c], dist[c], u);
    assert 0 <= x < n && !V[x];
    PathLengthSnoc(dist, t, x);
    FollowsRuleExtend(t, T, dist, draws, c, u, x);
    AppendFresh(t, n, x);
    VisitedBySnoc(t, n, x);
  }

  /** The start of the construction: a reset ant's flags with the start city set, the
      one-city tour and length 0 form a partial tour. */
  lemma PartialTourStart(c: int, V0: seq<bool>, V: seq<bool>, T: Matrix, dist: Matrix, draws: seq<real>)
    requires IsSquare(dist, |dist|) && IsSquare(T, |dist|) && |draws| + 1 == |dist| && 0 <= c < |dist|
    requires |V0| == |dist| && (forall j :: 0 <= j < |V0| ==> !V0[j]) && V == V0[c := true]
    ensures PartialTour([c], V, 0.0, T, dist, draws)
  {
    assert V == VisitedBy([c], |dist|);
  }

  /** The end of the construction: a partial tour over all n cities is a tour, flags every
      city, and adding the closing edge to its length gives the length of the closed tour. */
  lemma PartialTourDone(t: seq<int>, V: seq<bool>, len: real, T: Matrix, dist: Matrix, draws: seq<real>)
    requires PartialTour(t, V, len, T, dist, draws) && |t| == |dist|
    ensures IsTour(t, |dist|) && forall j :: 0 <= j < |V| ==> V[j]
    ensures len + dist[t[|t| - 1]][t[0]] == TourLength(dist, t)
  {
    TourCoversAll(t, |dist|);
  }

  /** A finished tour over table T: every city once, starting at startDraw % n, each later
      city the rule's choice for its draw, and tourLength the length of the closed tour. */
  ghost predicate Finished(dist: Matrix, tour: seq<int>, tourLength: real, startDraw: nat, T: Matrix, draws: seq<real>)
    requires |dist| >= 1 && IsSquare(dist, |dist|) && IsSquare(T, |dist|)
  {
    IsTour(tour, |dist|) && tour[0] == startDraw % |dist| && tourLength == TourLength(dist, tour) &&
    |draws| == |dist| - 1 && FollowsRule(tour, T, dist, draws)
  }

  /** The distance table of the program, a 5-city asymmetric instance. */
  const ExampleDist: Matrix := [
    [0.0, 2.0, 9.0, 10.0, 7.0],
    [1.0, 0.0, 6.0, 4.0, 3.0],
    [15.0, 7.0, 0.0, 8.0, 3.0],
    [6.0, 3.0, 12.0, 0.0, 11.0],
    [9.0, 7.0, 5.0, 6.0, 0.0]
  ]

  lemma ExampleDistIsValid()
    ensures IsSquare(ExampleDist, 5) && NonNegative(ExampleDist) && PositiveTours(ExampleDist)
  {
    OffDiagonalPositiveTours(ExampleDist);
  }

  /** A 3-city table with a zero-length edge from city 0 to city 1. */
  const ZeroEdgeDist: Matrix := [
    [0.0, 0.0, 1.0],
    [1.0, 0.0, 1.0],
    [1.0, 1.0, 0.0]
  ]

  /** Every tour over ZeroEdgeDist has a positive length although one edge between different
      cities is 0, and an ant at city 0 with city 1 left over has no eligible city, so its next
      city comes from the fallback scan. */
  lemma ZeroEdgeReachesFallback(u: real)
    ensures IsSquare(ZeroEdgeDist, 3) && NonNegative(ZeroEdgeDist) && PositiveTours(ZeroEdgeDist)
    ensures !OffDiagonalPositive(ZeroEdgeDist)
    ensures var V, P := [true, false, true], [1.0, 1.0, 1.0];
      TotalWeight(V, P, ZeroEdgeDist[0]) == 0.0 && Choose(V, P, ZeroEdgeDist[0], u) == 1
  {
    var d := ZeroEdgeDist;
    forall t | IsTour(t, 3)
      ensures TourLength(d, t) > 0.0
    {
      var p := t[..2];
      assert p[..1] == [t[0]] && p[0] == t[0] && p[1] == t[1];
      assert PathLength(d, p) == d[t[0]][t[1]];
      assert PathLength(d, t) == PathLength(d, p) + d[t[1]][t[2]];
      assert t[1] != 0 || t[2] != 0;
    }
    assert d[0][1] == 0.0;
  }

  /** The draws of one ant's tour: one u in [0, 1] for each of the n - 1 steps. */
  predicate StepDraws(draws: seq<real>, n: nat)
  {
    |draws| == n - 1 && forall k :: 0 <= k < |draws| ==> 0.0 <= draws[k] <= 1.0
  }

  /** The draws of one iteration: the step draws of each of count ants. */
  predicate AntDraws(draws: seq<seq<real>>, count: nat, n: nat)
  {
    |draws| == count && forall a :: 0 <= a < count ==> StepDraws(draws[a], n)
  }

  /** The ants of a run: pairwise different, each with n visited flags. */
  predicate Crew(ants: seq<Ant>, n: nat)
  {
    (forall a, b :: 0 <= a < b < |ants| ==> ants[a] != ants[b]) &&
    forall a :: 0 <= a < |ants| ==> ants[a].visited.Length == n
  }

  /** The ants and their visited flags: what one iteration may change besides the colony. */
  function Footprint(ants: seq<Ant>): (f: set<object>)
    ensures forall a :: 0 <= a < |ants| ==> ants[a] in f && ants[a].visited in f
    ensures forall o :: o in f ==> o is Ant || o is array<bool>
  {
    if ants == [] then {}
    else Footprint(ants[..|ants| - 1]) + {ants[|ants| - 1], ants[|ants| - 1].visited}
  }

  /** One more ant adds itself and its flags to the footprint. */
  lemma FootprintSnoc(ants: seq<Ant>, ant: Ant)
    ensures Footprint(ants + [ant]) == Footprint(ants) + {ant, ant.visited}
  {
    assert (ants + [ant])[..|ants|] == ants;
  }

  /** The ant loop after the ants with the given tours and lengths, from the best length best0
      and tour tour0: every one of them holds a finished tour no shorter than the best length,
      the best length did not grow, an unchanged best kept its tour, and a changed best is the
      length and tour of ant setter, the first one that reached it. */
  ghost predicate Standing(dist: Matrix, tours: seq<seq<int>>, lengths: seq<real>, best: Bound, tour: seq<int>,
                           starts: seq<nat>, draws: seq<seq<real>>, T: Matrix, setter: int, best0: Bound, tour0: seq<int>)
    requires |dist| >= 1 && IsSquare(dist, |dist|) && IsSquare(T, |dist|) && |tours| == |lengths| <= |starts| == |draws|
  {
    (forall b :: 0 <= b < |tours| ==>
      Finished(dist, tours[b], lengths[b], starts[b], T, draws[b]) && AtMost(best, Finite(lengths[b]))) &&
    AtMost(best, best0) &&
    (best == best0 ==> tour == tour0) &&
    (best != best0 ==>
      0 <= setter < |tours| && best == Finite(lengths[setter]) && tour == tours[setter] &&
      forall b :: 0 <= b < setter ==> best.value < lengths[b])
  }

  /** One turn of the ant loop: the next ant finished its tour and, by the strict comparison,
      either left the best alone or replaced it with its own length and tour. */
  lemma StandingStep(dist: Matrix, tours: seq<seq<int>>, lengths: seq<real>, best: Bound, tour: seq<int>,
                     t: seq<int>, len: real, best': Bound, tour': seq<int>,
                     starts: seq<nat>, draws: seq<seq<real>>, T: Matrix, setter: int, best0: Bound, tour0: seq<int>)
    requires |dist| >= 1 && IsSquare(dist, |dist|) && IsSquare(T, |dist|) && |tours| == |lengths| < |starts| == |draws|
    requires Standing(dist, tours, lengths, best, tour, starts, draws, T, setter, best0, tour0)
    requires Finished(dist, t, len, starts[|tours|], T, draws[|tours|])
    requires AtMost(best', best) && AtMost(best', Finite(len))
    requires best' == best ==> tour' == tour
    requires best' != best ==> best' == Finite(len) && tour' == t
    ensures Standing(dist, tours + [t], lengths + [len], best', tour', starts, draws, T,
                     if best' != best then |tours| else setter, best0, tour0)
  {
  }

  class Ant {
    var tour: seq<int>
    const visited: array<bool>
    var tourLength: real

    /** A fresh ant: the tour is pre-sized to n zeros, no city is visited, the length is 0. */
    constructor (n: nat)
      ensures tour == seq(n, _ => 0) && tourLength == 0.0
      ensures fresh(visited) && visited.Length == n
      ensures forall j :: 0 <= j < n ==> !visited[j]
    {
      tour := seq(n, _ => 0);
      visited := new bool[n](_ => false);
      tourLength := 0.0;
    }

    /** No city visited, empty tour, zero length. */
    ghost predicate IsReset()
      reads this, visited
    {
      tour == [] && tourLength == 0.0 && forall j :: 0 <= j < visited.Length ==> !visited[j]
    }

    method Reset()
      modifies this, visited
      ensures IsReset()
    {
      for j := 0 to visited.Length
        invariant forall k :: 0 <= k < j ==> !visited[k]
      {
        visited[j] := false;
      }
      tour := [];
      tourLength := 0.0;
    }
  }

  class Colony {
    /** Number of cities. */
    const n: nat
    const dist: Matrix
    const pheromone: array2<real>
    var bestLength: Bound
    var bestTour: seq<int>

    /** The pheromone table as a value. */
    ghost function Table(): (m: Matrix)
      reads pheromone
      ensures |m| == pheromone.Length0 && forall i :: 0 <= i < |m| ==> |m[i]| == pheromone.Length1
      ensures forall i, j :: 0 <= i < pheromone.Length0 && 0 <= j < pheromone.Length1 ==> m[i][j] == pheromone[i, j]
    {
      seq(pheromone.Length0, i requires 0 <= i < pheromone.Length0 reads pheromone =>
        seq(pheromone.Length1, j requires 0 <= j < pheromone.Length1 reads pheromone => pheromone[i, j]))
    }

    /** The best length is that of the best tour, a tour of all cities, once one was found. */
    ghost predicate BestConsistent()
      reads this
      requires n >= 1 && IsSquare(dist, n)
    {
      (bestLength == Infinite && bestTour == []) ||
      (bestLength.Finite? && IsTour(bestTour, n) && bestLength.value == TourLength(dist, bestTour))
    }

    /** The tables have n rows and columns. */
    ghost predicate Shaped()
    {
      n >= 1 && IsSquare(dist, n) && pheromone.Length0 == n && pheromone.Length1 == n
    }

    /** Symmetric(Table()) stated on the array itself: the object invariant and the loops
        that rewrite the array speak of its entries, not of the sequence Table() builds from
        them; TableFacts carries Symmetric and NonNegative of the value over. */
    ghost predicate TableSymmetric()
      reads pheromone
      requires Shaped()
    {
      forall i, j :: 0 <= i < n && 0 <= j < n ==> pheromone[i, j] == pheromone[j, i]
    }

    /** NonNegative(Table()) stated on the array itself, for the same reason. */
    ghost predicate TableNonNegative()
      reads pheromone
      requires Shaped()
    {
      forall i, j :: 0 <= i < n && 0 <= j < n ==> pheromone[i, j] >= 0.0
    }

    /** The object invariant: table shapes, non-negative distances, a symmetric non-negative
        pheromone table and a consistent best tour. */
    ghost predicate Valid()
      reads this, pheromone
    {
      Shaped() && NonNegative(dist) && TableSymmetric() && TableNonNegative() && BestConsistent()
    }

    /** The program's globals before initialize(): a zero pheromone table and no best tour. */
    constructor (dist: Matrix)
      requires |dist| >= 1 && IsSquare(dist, |dist|) && NonNegative(dist)
      ensures Valid() && fresh(pheromone)
      ensures this.dist == dist && n == |dist|
      ensures forall i, j :: 0 <= i < n && 0 <= j < n ==> pheromone[i, j] == 0.0
      ensures bestLength == Infinite && bestTour == []
    {
      n := |dist|;
      this.dist := dist;
      pheromone := new real[|dist|, |dist|]((i, j) => 0.0);
      bestLength := Infinite;
      bestTour := [];
    }

    /** Every entry of the pheromone table becomes 1.0. */
    method Initialize()
      requires Valid()
      modifies pheromone
      ensures Valid()
      ensures forall i, j :: 0 <= i < n && 0 <= j < n ==> pheromone[i, j] == 1.0
      ensures Positive(Table())
    {
      for i := 0 to n
        invariant forall a, b :: 0 <= a < i && 0 <= b < n ==> pheromone[a, b] == 1.0
      {
        for j := 0 to n
          invariant forall a, b :: 0 <= a < i && 0 <= b < n ==> pheromone[a, b] == 1.0
          invariant forall b :: 0 <= b < j ==> pheromone[i, b] == 1.0
        {
          pheromone[i, j] := 1.0;
        }
      }
    }

    /** The unnormalised probability of every city for an ant standing at currentCity
        (zero for the cities it cannot move to) and their sum. */
    method Weights(currentCity: int, ant: Ant) returns (probabilities: seq<real>, sum: real)
      requires Shaped() && 0 <= currentCity < n && ant.visited.Length == n
      ensures |probabilities| == n
      ensures forall k :: 0 <= k < n ==> probabilities[k] == Prob(ant.visited[..], Table()[currentCity], dist[currentCity], k)
      ensures sum == TotalWeight(ant.visited[..], Table()[currentCity], dist[currentCity])
    {
      ghost var V, P, D := ant.visited[..], Table()[currentCity], dist[currentCity];
      probabilities := seq(n, _ => 0.0);
      sum := 0.0;
      for j := 0 to n
        invariant sum == CumWeight(V, P, D, j)
        invariant |probabilities| == n
        invariant forall k :: 0 <= k < j ==> probabilities[k] == Prob(V, P, D, k)
        invariant forall k :: j <= k < n ==> probabilities[k] == 0.0
      {
        if !ant.visited[j] && dist[currentCity][j] > 0.0 {
          probabilities := probabilities[j := Weight(pheromone[currentCity, j], dist[currentCity][j])];
          sum := sum + probabilities[j];
        }
      }
    }

    /** The next city of an ant standing at currentCity, for the draw u: the lowest-index
        unvisited city when no city has weight, otherwise the first city whose cumulative
        weight reaches u times the total. */
    method SelectNextCity(currentCity: int, ant: Ant, u: real) returns (next: int)
      requires Shaped() && 0 <= currentCity < n && ant.visited.Length == n && 0.0 <= u <= 1.0
      ensures next == Choose(ant.visited[..], Table()[currentCity], dist[currentCity], u)
    {
      ghost var V, P, D := ant.visited[..], Table()[currentCity], dist[currentCity];
      var probabilities, sum := Weights(currentCity, ant);
      ChooseCases(V, P, D, u, u * sum);
      if sum == 0.0 {
        next := FirstUnvisitedCity(ant);
        if next != -1 {
          return;
        }
      }
      var r := u * sum;
      next := CumulativeWalk(currentCity, ant, probabilities, r);
    }

    /** The fallback scan: the lowest-index unvisited city, or -1. */
    method FirstUnvisitedCity(ant: Ant) returns (next: int)
      requires ant.visited.Length == n
      ensures next == FirstUnvisited(ant.visited[..], 0)
    {
      ghost var V := ant.visited[..];
      for j := 0 to n
        invariant FirstUnvisited(V, j) == FirstUnvisited(V, 0)
      {
        if !ant.visited[j] {
          return j;
        }
      }
      return -1;
    }

    /** The cumulative walk: the first city that can be moved to and whose cumulative
        weight reaches r, or -1. */
    method CumulativeWalk(currentCity: int, ant: Ant, probabilities: seq<real>, r: real) returns (next: int)
      requires Shaped() && 0 <= currentCity < n && ant.visited.Length == n && |probabilities| == n
      requires forall k :: 0 <= k < n ==>
        probabilities[k] == Prob(ant.visited[..], Table()[currentCity], dist[currentCity], k)
      ensures next == FirstReaching(ant.visited[..], Table()[currentCity], dist[currentCity], r, 0)
    {
      ghost var V, P, D := ant.visited[..], Table()[currentCity], dist[currentCity];
      var cumulative := 0.0;
      for j := 0 to n
        invariant cumulative == CumWeight(V, P, D, j)
        invariant FirstReaching(V, P, D, r, j) == FirstReaching(V, P, D, r, 0)
      {
        if !ant.visited[j] && dist[currentCity][j] > 0.0 {
          cumulative := cumulative + probabilities[j];
          if cumulative >= r {
            assert Reaches(V, P, D, r, j);
            return j;
          }
        }
      }
      return -1;
    }

    /** Builds the tour of a reset ant from the start city startDraw % n, choosing every
        further city with SelectNextCity and the next draw, and adds up the edge lengths
        including the edge back to the start. */
    method ConstructTour(ant: Ant, startDraw: nat, draws: seq<real>)
      requires Shaped() && TableNonNegative() && ant.visited.Length == n && ant.IsReset()
      requires StepDraws(draws, n)
      modifies ant, ant.visited
      ensures IsTour(ant.tour, n) && ant.tour[0] == startDraw % n
      ensures forall j :: 0 <= j < n ==> ant.visited[j]
      ensures ant.tourLength == TourLength(dist, ant.tour)
      ensures FollowsRule(ant.tour, old(Table()), dist, draws)
    {
      ghost var T, V0 := Table(), ant.visited[..];
      var startCity := startDraw % n;
      ant.tour := ant.tour + [startCity];
      ant.visited[startCity] := true;
      assert ant.visited[..] == V0[startCity := true];
      PartialTourStart(startCity, V0, ant.visited[..], T, dist, draws);
      var currentCity := startCity;
      for step := 1 to n
        invariant Building(ant, T, draws) && |ant.tour| == step
        invariant ant.tour[0] == startCity && currentCity == ant.tour[step - 1]
      {
        currentCity := Advance(ant, T, currentCity, draws);
      }
      PartialTourDone(ant.tour, ant.visited[..], ant.tourLength, T, dist, draws);
      ant.tourLength := ant.tourLength + dist[currentCity][startCity];
    }

    /** The ant holds a tour under construction over the table snapshot T. */
    ghost predicate Building(ant: Ant, T: Matrix, draws: seq<real>)
      reads ant, ant.visited
    {
      ant.visited.Length == n && PartialTour(ant.tour, ant.visited[..], ant.tourLength, T, dist, draws)
    }

    /** One step of the tour construction: move the ant from its last city to the city the
        transition rule chooses with the next draw, mark it visited and add the edge. */
    method Advance(ant: Ant, ghost T: Matrix, currentCity: int, draws: seq<real>) returns (nextCity: int)
      requires Shaped() && TableNonNegative() && T == Table() && Building(ant, T, draws)
      requires |ant.tour| < n && currentCity == ant.tour[|ant.tour| - 1]
      requires StepDraws(draws, n)
      modifies ant, ant.visited
      ensures Building(ant, T, draws) && ant.tour == old(ant.tour) + [nextCity]
      ensures nextCity == Choose(VisitedBy(old(ant.tour), n), T[currentCity], dist[currentCity], draws[|old(ant.tour)| - 1])
    {
      ghost var before, V, len := ant.tour, ant.visited[..], ant.tourLength;
      var u := draws[|ant.tour| - 1];
      nextCity := SelectNextCity(currentCity, ant, u);
      PartialTourStep(before, V, len, T, dist, draws, u, nextCity);
      ant.tour := ant.tour + [nextCity];
      ant.visited[nextCity] := true;
      ant.tourLength := ant.tourLength + dist[currentCity][nextCity];
      assert ant.visited[..] == V[nextCity := true];
    }

    /** The tours and lengths of the ants, as values. */
    function ToursOf(ants: seq<Ant>): seq<seq<int>>
      reads set a | a in ants
    {
      seq(|ants|, k requires 0 <= k < |ants| reads set a | a in ants => ants[k].tour)
    }

    function LengthsOf(ants: seq<Ant>): seq<real>
      reads set a | a in ants
    {
      seq(|ants|, k requires 0 <= k < |ants| reads set a | a in ants => ants[k].tourLength)
    }

    /** Every ant holds n in-range cities and, when there are edges to reinforce, a positive length. */
    ghost predicate AntsReady(ants: seq<Ant>)
      reads set a | a in ants
    {
      forall a :: 0 <= a < |ants| ==>
        |ants[a].tour| == n && InRange(ants[a].tour, n) && (n >= 2 ==> ants[a].tourLength > 0.0)
    }

    /** Evaporates every entry, then lets each ant deposit Q / tourLength on each consecutive
        pair of its tour and copies the sum into the mirrored entry. */
    method UpdatePheromones(ants: seq<Ant>)
      requires Valid() && AntsReady(ants)
      modifies pheromone
      ensures Valid()
      ensures ValidTours(ToursOf(ants), LengthsOf(ants), n)
      ensures Table() == Update(old(Table()), ToursOf(ants), LengthsOf(ants))
      ensures Positive(old(Table())) ==> Positive(Table())
    {
      ghost var m0 := Table();
      var tours, lengths := ToursOf(ants), LengthsOf(ants);
      assert ValidTours(tours, lengths, n);
      Evaporation();
      DepositTours(tours, lengths);
      UpdateEntries(m0, tours, lengths);
      UpdateSign(m0, tours, lengths);
      TableFacts();
    }

    /** The symmetry and sign of the table, read off its value. */
    lemma TableFacts()
      requires Shaped()
      ensures Symmetric(Table()) ==> TableSymmetric()
      ensures NonNegative(Table()) ==> TableNonNegative()
    {
    }

    /** The evaporation pass: every entry is multiplied by 1 - Rho. */
    method Evaporation()
      requires Shaped()
      modifies pheromone
      ensures Table() == Evaporate(old(Table()))
    {
      ghost var m0 := Table();
      for i := 0 to n
        invariant forall a, b :: 0 <= a < n && 0 <= b < n ==>
          pheromone[a, b] == if a < i then m0[a][b] * (1.0 - Rho) else m0[a][b]
      {
        for j := 0 to n
          invariant forall a, b :: 0 <= a < n && 0 <= b < n ==>
            pheromone[a, b] == if a < i || (a == i && b < j) then m0[a][b] * (1.0 - Rho) else m0[a][b]
        {
          pheromone[i, j] := pheromone[i, j] * (1.0 - Rho);
        }
      }
      EvaporateEffect(m0);
      SameEntries(Table(), Evaporate(m0), n);
    }

    /** The deposit pass: the ants deposit one after the other. */
    method DepositTours(tours: seq<seq<int>>, lengths: seq<real>)
      requires Shaped() && ValidTours(tours, lengths, n)
      modifies pheromone
      ensures Table() == DepositAll(old(Table()), tours, lengths, |tours|)
    {
      ghost var m0 := Table();
      for a := 0 to |tours|
        invariant Table() == DepositAll(m0, tours, lengths, a)
      {
        Deposit(tours[a], lengths[a]);
      }
    }

    /** The deposit of one ant: Q / tourLength on each of its n - 1 consecutive pairs, each
        written to (from, to) and mirrored to (to, from). */
    method Deposit(tour: seq<int>, tourLength: real)
      requires Shaped() && |tour| == n && InRange(tour, n) && (n >= 2 ==> tourLength > 0.0)
      modifies pheromone
      ensures Table() == DepositTour(old(Table()), tour, tourLength, n - 1)
    {
      ghost var m0 := Table();
      for i := 0 to n - 1
        invariant Table() == DepositTour(m0, tour, tourLength, i)
      {
        var from := tour[i];
        var to := tour[i + 1];
        Reinforce(from, to, Q / tourLength);
      }
    }

    /** pheromone[from][to] grows by amount and is copied to pheromone[to][from]. */
    method Reinforce(from: int, to: int, amount: real)
      requires Shaped() && 0 <= from < n && 0 <= to < n
      modifies pheromone
      ensures Table() == DepositEdge(old(Table()), from, to, amount)
    {
      ghost var next := DepositEdge(Table(), from, to, amount);
      pheromone[from, to] := pheromone[from, to] + amount;
      pheromone[to, from] := pheromone[from, to];
      SameEntries(Table(), next, n);
    }

    /** The outcome of the ant loop over table T, from the best length best0 and tour tour0:
        every ant holds a finished tour no shorter than the best length, the best length did
        not grow, an unchanged best kept its tour, and a changed best is the length and the
        tour of the first ant that reached it (a later ant of equal length does not replace it).
        This is the value record Standing read off the ants' fields, for the contracts of the
        methods that change the ants; StandingDone and CompetedStanding pass between the two. */
    ghost predicate Competed(ants: seq<Ant>, starts: seq<nat>, draws: seq<seq<real>>, T: Matrix, best0: Bound, tour0: seq<int>)
      reads this, ants
      requires Shaped() && IsSquare(T, n) && |starts| == |ants| && |draws| == |ants|
    {
      (forall a :: 0 <= a < |ants| ==>
        Finished(dist, ants[a].tour, ants[a].tourLength, starts[a], T, draws[a]) && AtMost(bestLength, Finite(ants[a].tourLength))) &&
      AtMost(bestLength, best0) &&
      (bestLength == best0 ==> bestTour == tour0) &&
      (bestLength != best0 ==>
        exists a :: 0 <= a < |ants| && bestLength == Finite(ants[a].tourLength) && bestTour == ants[a].tour &&
          forall b :: 0 <= b < a ==> bestLength.value < ants[b].tourLength)
    }

    /** Finished tours are ready for the pheromone update: each has n in-range cities and,
        when every tour over the table is positive, a positive length. */
    lemma FinishedReady(ants: seq<Ant>, starts: seq<nat>, draws: seq<seq<real>>, T: Matrix, best0: Bound, tour0: seq<int>)
      requires Shaped() && IsSquare(T, n) && |starts| == |ants| && |draws| == |ants| && PositiveTours(dist)
      requires Competed(ants, starts, draws, T, best0, tour0)
      ensures AntsReady(ants)
    {
      forall b | 0 <= b < |ants|
        ensures n >= 2 ==> ants[b].tourLength > 0.0
      {
        assert Finished(dist, ants[b].tour, ants[b].tourLength, starts[b], T, draws[b]);
        assert IsTour(ants[b].tour, n);
      }
    }

    /** The outcome of the ant loop read off as values: with the tours ts and lengths ls of
        the ants, the loop record Standing holds for the ant that set the best (the converse
        of StandingDone). */
    lemma CompetedStanding(ants: seq<Ant>, starts: seq<nat>, draws: seq<seq<real>>, T: Matrix, best0: Bound, tour0: seq<int>,
                           ts: seq<seq<int>>, ls: seq<real>)
      requires Shaped() && IsSquare(T, n) && |starts| == |ants| && |draws| == |ants|
      requires Competed(ants, starts, draws, T, best0, tour0)
      requires ts == ToursOf(ants) && ls == LengthsOf(ants)
      ensures |ts| == |ls| == |ants|
      ensures exists setter :: Standing(dist, ts, ls, bestLength, bestTour, starts, draws, T, setter, best0, tour0)
    {
      assert forall b :: 0 <= b < |ants| ==> ts[b] == ants[b].tour && ls[b] == ants[b].tourLength;
      var setter := -1;
      if bestLength != best0 {
        setter :| 0 <= setter < |ants| && bestLength == Finite(ants[setter].tourLength) && bestTour == ants[setter].tour &&
          forall b :: 0 <= b < setter ==> bestLength.value < ants[b].tourLength;
      }
      assert Standing(dist, ts, ls, bestLength, bestTour, starts, draws, T, setter, best0, tour0);
    }

    /** One iteration of the main loop: every ant is reset and builds a tour, a strictly shorter
        tour replaces the best one, then the pheromone table is updated with all the tours. */
    method Iterate(ants: seq<Ant>, starts: seq<nat>, draws: seq<seq<real>>)
      requires Valid() && PositiveTours(dist)
      requires Crew(ants, n) && |starts| == |ants| && AntDraws(draws, |ants|, n)
      modifies this, pheromone, Footprint(ants)
      ensures Valid() && Competed(ants, starts, draws, old(Table()), old(bestLength), old(bestTour))
      ensures ValidTours(ToursOf(ants), LengthsOf(ants), n)
      ensures Table() == Update(old(Table()), ToursOf(ants), LengthsOf(ants))
      ensures Positive(old(Table())) ==> Positive(Table())
    {
      BuildTours(ants, starts, draws);
      FinishedReady(ants, starts, draws, old(Table()), old(bestLength), old(bestTour));
      UpdatePheromones(ants);
    }

    /** The ant loop of one iteration: each ant in turn builds its tour and competes for the
        best one; the pheromone table is not touched. */
    method BuildTours(ants: seq<Ant>, starts: seq<nat>, draws: seq<seq<real>>)
      requires Valid()
      requires Crew(ants, n) && |starts| == |ants| && AntDraws(draws, |ants|, n)
      modifies this, Footprint(ants)
      ensures Valid() && Table() == old(Table())
      ensures Competed(ants, starts, draws, old(Table()), old(bestLength), old(bestTour))
    {
      ghost var T := Table();
      ghost var setter := -1;
      ghost var tours: seq<seq<int>>, lengths: seq<real> := [], [];
      for a := 0 to |ants|
        invariant Valid()
        invariant |tours| == |lengths| == a
        invariant forall b :: 0 <= b < a ==> ants[b].tour == tours[b] && ants[b].tourLength == lengths[b]
        invariant Standing(dist, tours, lengths, bestLength, bestTour, starts, draws, T, setter, old(bestLength), old(bestTour))
      {
        setter := Turn(ants, starts, draws, a, T, tours, lengths, setter, old(bestLength), old(bestTour));
        tours, lengths := tours + [ants[a].tour], lengths + [ants[a].tourLength];
      }
      StandingDone(ants, tours, lengths, starts, draws, T, setter, old(bestLength), old(bestTour));
    }

    /** The turn of ant a in the ant loop: RunAnt on it, with the loop's record of the finished
        ants (their tours and lengths, and the index of the ant that set the best) extended by it. */
    method Turn(ants: seq<Ant>, starts: seq<nat>, draws: seq<seq<real>>, a: nat, ghost T: Matrix,
                ghost tours: seq<seq<int>>, ghost lengths: seq<real>, ghost setter: int, ghost best0: Bound, ghost tour0: seq<int>)
      returns (ghost setter': int)
      requires Valid() && Table() == T && Crew(ants, n) && |starts| == |ants| && AntDraws(draws, |ants|, n) && a < |ants|
      requires |tours| == |lengths| == a
      requires forall b :: 0 <= b < a ==> ants[b].tour == tours[b] && ants[b].tourLength == lengths[b]
      requires Standing(dist, tours, lengths, bestLength, bestTour, starts, draws, T, setter, best0, tour0)
      modifies this, ants[a], ants[a].visited
      ensures Valid() && Table() == T
      ensures forall b :: 0 <= b < a ==> ants[b].tour == tours[b] && ants[b].tourLength == lengths[b]
      ensures Standing(dist, tours + [ants[a].tour], lengths + [ants[a].tourLength], bestLength, bestTour,
                       starts, draws, T, setter', best0, tour0)
    {
      ghost var best, tour := bestLength, bestTour;
      assert forall b :: 0 <= b < a ==> ants[b] != ants[a];
      RunAnt(ants[a], starts[a], draws[a]);
      StandingStep(dist, tours, lengths, best, tour, ants[a].tour, ants[a].tourLength, bestLength, bestTour,
                   starts, draws, T, setter, best0, tour0);
      setter' := if bestLength != best then a else setter;
    }

    /** The finished ant loop has the outcome Competed. */
    lemma StandingDone(ants: seq<Ant>, tours: seq<seq<int>>, lengths: seq<real>, starts: seq<nat>, draws: seq<seq<real>>,
                       T: Matrix, setter: int, best0: Bound, tour0: seq<int>)
      requires Shaped() && IsSquare(T, n) && |tours| == |lengths| == |ants| == |starts| == |draws|
      requires forall b :: 0 <= b < |ants| ==> ants[b].tour == tours[b] && ants[b].tourLength == lengths[b]
      requires Standing(dist, tours, lengths, bestLength, bestTour, starts, draws, T, setter, best0, tour0)
      ensures Competed(ants, starts, draws, T, best0, tour0)
    {
    }

    /** The body of the ant loop: reset the ant, let it build its tour, and keep its tour as
        the best one when it is strictly shorter. */
    method RunAnt(ant: Ant, startDraw: nat, draws: seq<real>)
      requires Valid() && ant.visited.Length == n && StepDraws(draws, n)
      modifies this, ant, ant.visited
      ensures Valid() && Table() == old(Table()) && Finished(dist, ant.tour, ant.tourLength, startDraw, Table(), draws)
      ensures AtMost(bestLength, old(bestLength)) && AtMost(bestLength, Finite(ant.tourLength))
      ensures bestLength == old(bestLength) ==> bestTour == old(bestTour)
      ensures bestLength != old(bestLength) ==> bestLength == Finite(ant.tourLength) && bestTour == ant.tour
    {
      ant.Reset();
      ConstructTour(ant, startDraw, draws);
      if Improves(ant.tourLength, bestLength) {
        bestLength := Finite(ant.tourLength);
        bestTour := ant.tour;
      }
    }
  }

  /** Each entry of p is at most the one before it. */
  predicate NonIncreasing(p: seq<real>)
  {
    forall i, j :: 0 <= i < j < |p| ==> p[j] <= p[i]
  }

  /** The first |tours| iterations of a run over dist, as values: tables[i] is the pheromone
      table iteration i starts from (every entry 1.0 at first); in iteration i every ant a
      finished the tour tours[i][a] of length lengths[i][a] over that table, from its start
      draw and its step draws; and the next table is the update with those tours. */
  ghost predicate History(dist: Matrix, starts: seq<seq<nat>>, draws: seq<seq<seq<real>>>,
                          tables: seq<Matrix>, tours: seq<seq<seq<int>>>, lengths: seq<seq<real>>)
    requires |dist| >= 1 && IsSquare(dist, |dist|)
  {
    |tables| == |tours| + 1 && |lengths| == |tours| && |tours| <= |starts| && |tours| <= |draws| &&
    (forall i :: 0 <= i < |tables| ==> IsSquare(tables[i], |dist|)) &&
    (forall i, j :: 0 <= i < |dist| && 0 <= j < |dist| ==> tables[0][i][j] == 1.0) &&
    forall i :: 0 <= i < |tours| ==>
      |tours[i]| == |starts[i]| && |lengths[i]| == |starts[i]| && |draws[i]| == |starts[i]| &&
      (forall a :: 0 <= a < |tours[i]| ==>
        Finished(dist, tours[i][a], lengths[i][a], starts[i][a], tables[i], draws[i][a])) &&
      ValidTours(tours[i], lengths[i], |dist|) && tables[i + 1] == Update(tables[i], tours[i], lengths[i])
  }

  /** One more iteration: its ants finished the tours ts of lengths ls over the last table,
      and T is the update of that table with them. */
  lemma HistoryStep(dist: Matrix, starts: seq<seq<nat>>, draws: seq<seq<seq<real>>>,
                    tables: seq<Matrix>, tours: seq<seq<seq<int>>>, lengths: seq<seq<real>>,
                    ts: seq<seq<int>>, ls: seq<real>, T: Matrix)
    requires |dist| >= 1 && IsSquare(dist, |dist|)
    requires History(dist, starts, draws, tables, tours, lengths)
    requires |tours| < |starts| && |tours| < |draws|
    requires |ts| == |starts[|tours|]| && |ls| == |ts| && |draws[|tours|]| == |ts|
    requires forall a :: 0 <= a < |ts| ==>
      Finished(dist, ts[a], ls[a], starts[|tours|][a], tables[|tours|], draws[|tours|][a])
    requires ValidTours(ts, ls, |dist|) && T == Update(tables[|tours|], ts, ls)
    ensures History(dist, starts, draws, tables + [T], tours + [ts], lengths + [ls])
  {
    var tables', tours', lengths' := tables + [T], tours + [ts], lengths + [ls];
    forall i | 0 <= i < |tours'|
      ensures |tours'[i]| == |starts[i]| && |lengths'[i]| == |starts[i]| && |draws[i]| == |starts[i]|
      ensures forall a :: 0 <= a < |tours'[i]| ==>
        Finished(dist, tours'[i][a], lengths'[i][a], starts[i][a], tables'[i], draws[i][a])
      ensures ValidTours(tours'[i], lengths'[i], |dist|) && tables'[i + 1] == Update(tables'[i], tours'[i], lengths'[i])
    {
      if i < |tours| {
        assert tours'[i] == tours[i] && lengths'[i] == lengths[i] && tables'[i] == tables[i] && tables'[i + 1] == tables[i + 1];
      }
    }
  }

  /** The best lengths reported after each iteration against the lengths of the tours built:
      after iteration k the best is at most every tour of iterations 0..k, and it is the
      length of one of them. */
  ghost predicate Record(progress: seq<real>, lengths: seq<seq<real>>)
  {
    |progress| == |lengths| &&
    (forall k, i, a :: 0 <= i <= k < |progress| && 0 <= a < |lengths[i]| ==> progress[k] <= lengths[i][a]) &&
    forall k :: 0 <= k < |progress| ==> Attained(progress[k], lengths, k)
  }

  /** x is the length of a tour built in one of the iterations 0..k. */
  ghost predicate Attained(x: real, lengths: seq<seq<real>>, k: int)
  {
    exists i, a :: 0 <= i <= k && i < |lengths| && 0 <= a < |lengths[i]| && x == lengths[i][a]
  }

  /** One more iteration with tour lengths L, which moved the best from best0 (the last
      reported value, none before the first iteration) to x. */
  lemma RecordStep(progress: seq<real>, lengths: seq<seq<real>>, best0: Bound, x: real, L: seq<real>)
    requires Record(progress, lengths)
    requires |progress| == 0 ==> best0 == Infinite
    requires |progress| > 0 ==> best0 == Finite(progress[|progress| - 1])
    requires AtMost(Finite(x), best0) && forall a :: 0 <= a < |L| ==> x <= L[a]
    requires Finite(x) == best0 || exists a :: 0 <= a < |L| && x == L[a]
    ensures Record(progress + [x], lengths + [L])
  {
    var p, ls, m := progress + [x], lengths + [L], |progress|;
    forall k, i, a | 0 <= i <= k < |p| && 0 <= a < |ls[i]|
      ensures p[k] <= ls[i][a]
    {
      if k < m {
        assert p[k] == progress[k] && ls[i] == lengths[i];
      } else if i < m {
        assert progress[m - 1] <= lengths[i][a];
      }
    }
    forall k | 0 <= k < |p|
      ensures Attained(p[k], ls, k)
    {
      if k < m {
        assert Attained(progress[k], lengths, k);
        var i, a :| 0 <= i <= k && i < |lengths| && 0 <= a < |lengths[i]| && progress[k] == lengths[i][a];
        assert ls[i] == lengths[i];
      } else if Finite(x) == best0 {
        assert Attained(progress[m - 1], lengths, m - 1);
        var i, a :| 0 <= i <= m - 1 && i < |lengths| && 0 <= a < |lengths[i]| && progress[m - 1] == lengths[i][a];
        assert ls[i] == lengths[i];
      } else {
        var a :| 0 <= a < |L| && x == L[a];
        assert ls[m] == L;
      }
    }
  }

  /** A recorded run reports best lengths that never increase. */
  lemma RecordNonIncreasing(progress: seq<real>, lengths: seq<seq<real>>)
    requires Record(progress, lengths)
    ensures NonIncreasing(progress)
  {
    forall j, k | 0 <= j < k < |progress|
      ensures progress[k] <= progress[j]
    {
      assert Attained(progress[j], lengths, j);
      var i, a :| 0 <= i <= j && i < |lengths| && 0 <= a < |lengths[i]| && progress[j] == lengths[i][a];
      assert progress[k] <= lengths[i][a];
    }
  }

  /** tour is one of the recorded tours, and length its recorded length. */
  ghost predicate Among(tour: seq<int>, length: real, tours: seq<seq<seq<int>>>, lengths: seq<seq<real>>)
  {
    exists i, a :: 0 <= i < |tours| && i < |lengths| && 0 <= a < |tours[i]| && a < |lengths[i]| &&
      tour == tours[i][a] && length == lengths[i][a]
  }

  /** One more iteration with tours ts of lengths ls: a best that stayed keeps its tour, and
      a best that changed is one of the new tours. */
  lemma AmongStep(tour0: seq<int>, best0: Bound, tour: seq<int>, x: real,
                  tours: seq<seq<seq<int>>>, lengths: seq<seq<real>>, ts: seq<seq<int>>, ls: seq<real>)
    requires |tours| == |lengths| && (best0.Finite? ==> Among(tour0, best0.value, tours, lengths))
    requires Finite(x) == best0 ==> tour == tour0
    requires Finite(x) != best0 ==> exists a :: 0 <= a < |ts| && a < |ls| && x == ls[a] && tour == ts[a]
    ensures Among(tour, x, tours + [ts], lengths + [ls])
  {
    var tours', lengths' := tours + [ts], lengths + [ls];
    if Finite(x) == best0 {
      var i, a :| 0 <= i < |tours| && i < |lengths| && 0 <= a < |tours[i]| && a < |lengths[i]| &&
        tour0 == tours[i][a] && best0.value == lengths[i][a];
      assert tours'[i] == tours[i] && lengths'[i] == lengths[i];
    } else {
      var a :| 0 <= a < |ts| && a < |ls| && x == ls[a] && tour == ts[a];
      assert tours'[|tours|] == ts && lengths'[|tours|] == ls;
    }
  }

  /** The program's vector of count ants over n cities, each freshly constructed. */
  method NewAnts(count: nat, n: nat) returns (ants: seq<Ant>)
    ensures |ants| == count && Crew(ants, n) && fresh(Footprint(ants))
  {
    ants := [];
    for k := 0 to count
      invariant |ants| == k && Crew(ants, n) && fresh(Footprint(ants))
    {
      var ant := new Ant(n);
      FootprintSnoc(ants, ant);
      ants := ants + [ant];
    }
  }

  /** The record of a run after |tours| iterations, as values: the history, the best length
      reported after each iteration, and the current best and its tour, which are the last
      reported length (none before the first iteration) and one of the recorded tours. */
  ghost predicate Log(dist: Matrix, starts: seq<seq<nat>>, draws: seq<seq<seq<real>>>,
                      progress: seq<real>, tables: seq<Matrix>, tours: seq<seq<seq<int>>>, lengths: seq<seq<real>>,
                      best: Bound, bestTour: seq<int>)
    requires |dist| >= 1 && IsSquare(dist, |dist|)
  {
    |progress| == |tours| && History(dist, starts, draws, tables, tours, lengths) && Record(progress, lengths) &&
    (|tours| == 0 ==> best == Infinite) &&
    (|tours| > 0 ==> best == Finite(progress[|tours| - 1])) &&
    (best.Finite? ==> Among(bestTour, best.value, tours, lengths))
  }

  /** One more iteration, from best best0 with tour tour0: its ants finished the tours ts of
      lengths ls over the last table, which moved the best to best with tour bestTour as the
      ant loop moves it (Standing), and the next table is T'. */
  lemma LogStep(dist: Matrix, starts: seq<seq<nat>>, draws: seq<seq<seq<real>>>,
                progress: seq<real>, tables: seq<Matrix>, tours: seq<seq<seq<int>>>, lengths: seq<seq<real>>,
                best0: Bound, tour0: seq<int>, ts: seq<seq<int>>, ls: seq<real>, T': Matrix, best: Bound, bestTour: seq<int>,
                setter: int)
    requires |dist| >= 1 && IsSquare(dist, |dist|)
    requires Log(dist, starts, draws, progress, tables, tours, lengths, best0, tour0)
    requires |tours| < |starts| && |tours| < |draws|
    requires |ts| == |starts[|tours|]| && |ls| == |ts| && |draws[|tours|]| == |ts| && |ts| >= 1
    requires Standing(dist, ts, ls, best, bestTour, starts[|tours|], draws[|tours|], tables[|tours|], setter, best0, tour0)
    requires ValidTours(ts, ls, |dist|) && T' == Update(tables[|tours|], ts, ls)
    ensures best.Finite?
    ensures Log(dist, starts, draws, progress + [best.value], tables + [T'], tours + [ts], lengths + [ls], best, bestTour)
  {
    assert AtMost(best, Finite(ls[0]));
    HistoryStep(dist, starts, draws, tables, tours, lengths, ts, ls, T');
    RecordStep(progress, lengths, best0, best.value, ls);
    AmongStep(tour0, best0, bestTour, best.value, tours, lengths, ts, ls);
  }

  /** A run after |tours| iterations: the colony is valid over dist, holds the last table of
      the history, and its best length and tour are those of the record. */
  ghost predicate Reported(colony: Colony, dist: Matrix, starts: seq<seq<nat>>, draws: seq<seq<seq<real>>>,
                           progress: seq<real>, tables: seq<Matrix>, tours: seq<seq<seq<int>>>, lengths: seq<seq<real>>)
    reads colony, colony.pheromone
    requires |dist| >= 1 && IsSquare(dist, |dist|)
  {
    colony.Valid() && colony.n == |dist| && colony.dist == dist &&
    Log(dist, starts, draws, progress, tables, tours, lengths, colony.bestLength, colony.bestTour) &&
    colony.Table() == tables[|tours|]
  }

  /** One pass of the main loop: the iteration, then the report of the best length so far. */
  method IterateAndReport(colony: Colony, ants: seq<Ant>, dist: Matrix, starts: seq<seq<nat>>, draws: seq<seq<seq<real>>>,
                          progress: seq<real>, ghost tables: seq<Matrix>, ghost tours: seq<seq<seq<int>>>, ghost lengths: seq<seq<real>>)
    returns (progress': seq<real>, ghost tables': seq<Matrix>, ghost tours': seq<seq<seq<int>>>, ghost lengths': seq<seq<real>>)
    requires |dist| >= 1 && IsSquare(dist, |dist|) && PositiveTours(dist)
    requires Reported(colony, dist, starts, draws, progress, tables, tours, lengths)
    requires |tours| < |starts| && |tours| < |draws|
    requires Crew(ants, |dist|) && |ants| >= 1 && |starts[|tours|]| == |ants| && AntDraws(draws[|tours|], |ants|, |dist|)
    modifies colony, colony.pheromone, Footprint(ants)
    ensures Reported(colony, dist, starts, draws, progress', tables', tours', lengths')
    ensures colony.bestLength.Finite? && progress' == progress + [colony.bestLength.value] && |tours'| == |tours| + 1
  {
    ghost var T, best0, tour0 := colony.Table(), colony.bestLength, colony.bestTour;
    var it := |progress|;
    colony.Iterate(ants, starts[it], draws[it]);
    ghost var ts, ls := colony.ToursOf(ants), colony.LengthsOf(ants);
    colony.CompetedStanding(ants, starts[it], draws[it], T, best0, tour0, ts, ls);
    ghost var setter :| Standing(dist, ts, ls, colony.bestLength, colony.bestTour, starts[it], draws[it], T, setter, best0, tour0);
    LogStep(dist, starts, draws, progress, tables, tours, lengths, best0, tour0, ts, ls, colony.Table(),
            colony.bestLength, colony.bestTour, setter);
    progress' := progress + [colony.bestLength.value];
    tables', tours', lengths' := tables + [colony.Table()], tours + [ts], lengths + [ls];
  }

  /** The program run: build the colony over dist, initialise the pheromone table, create the
      ants and run the iterations. Returns the best tour, its length and the best length after
      each iteration (the values the program reports), and, as ghost values, the history of the
      run: the pheromone table each iteration started from and the tours and lengths its ants
      built. */
  method Run(dist: Matrix, starts: seq<seq<nat>>, draws: seq<seq<seq<real>>>)
    returns (bestLength: real, bestTour: seq<int>, progress: seq<real>,
             ghost tables: seq<Matrix>, ghost tours: seq<seq<seq<int>>>, ghost lengths: seq<seq<real>>)
    requires |dist| >= 1 && IsSquare(dist, |dist|) && NonNegative(dist) && PositiveTours(dist)
    requires |starts| == Iterations && forall it :: 0 <= it < Iterations ==> |starts[it]| == NumAnts
    requires |draws| == Iterations && forall it :: 0 <= it < Iterations ==> AntDraws(draws[it], NumAnts, |dist|)
    ensures |tours| == Iterations && History(dist, starts, draws, tables, tours, lengths)
    ensures IsTour(bestTour, |dist|) && bestLength == TourLength(dist, bestTour)
    ensures Among(bestTour, bestLength, tours, lengths)
    ensures |progress| == Iterations && progress[Iterations - 1] == bestLength
    ensures Record(progress, lengths) && NonIncreasing(progress)
  {
    var colony := new Colony(dist);
    colony.Initialize();
    var ants := NewAnts(NumAnts, |dist|);
    progress := [];
    tables, tours, lengths := [colony.Table()], [], [];
    for it := 0 to Iterations
      invariant Reported(colony, dist, starts, draws, progress, tables, tours, lengths) && |tours| == it
      invariant fresh(colony) && fresh(colony.pheromone) && fresh(Footprint(ants))
    {
      progress, tables, tours, lengths := IterateAndReport(colony, ants, dist, starts, draws, progress, tables, tours, lengths);
    }
    RecordNonIncreasing(progress, lengths);
    bestLength := colony.bestLength.value;
    bestTour := colony.bestTour;
  }
}
