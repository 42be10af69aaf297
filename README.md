# Ant colony optimisation for the travelling salesman, in Dafny

This project models `DAA_miniproject.cpp`, a small Ant Colony Optimisation (ACO) heuristic for
the travelling-salesman problem on an N×N distance table. Each iteration of the program does two
things. First, every ant is reset and builds a closed tour. It starts at a random city and picks
each next city by a weighted random choice. A city's weight is its pheromone times (1/distance)^5.
A strictly shorter tour replaces the best one found so far. Second, the pheromone table is
evaporated by a factor 1 - RHO. Then every ant deposits Q / tourLength on each consecutive pair of
its tour, and each deposit is mirrored so the table stays symmetric.

The model follows the program's own form: it is imperative Dafny over shared state.

- `AntColony.Colony` holds the global state as fields:
  - the distance table `dist`;
  - the pheromone table, an `array2<real>` rewritten in place;
  - `bestLength` and `bestTour`.
- `AntColony.Ant` holds `tour`, the `visited` flags (an array) and `tourLength`.
- `initialize`, `selectNextCity`, `constructTour`, `updatePheromones` and the body of `main`'s
  loop are methods with loops and invariants.
- Each method is proved against a pure specification on values:
  - `Transition.Choose` is the choice rule, built from cumulative weights (`CumWeight`).
  - `Tours.PathLength` and `Tours.TourLength` are the edge sums.
  - `Pheromones.Update` is the table update, built from `Evaporate`, `DepositEdge`, `DepositTour`
    and `DepositAll`.
- The properties the program relies on are lemmas about those functions.

Some loops of the program are split into helper methods, each with its own contract:

| helper | loop it models | source lines |
|---|---|---|
| `Weights` | the weight loop of `selectNextCity` | 62-68 |
| `FirstUnvisitedCity` | the fallback scan of `selectNextCity` | 70-73 |
| `CumulativeWalk` | the cumulative walk of `selectNextCity` | 75-85 |
| `Advance` | one step of `constructTour` | 96-100 |
| `Evaporation` | the evaporation pass | 109-111 |
| `DepositTours`, `Deposit`, `Reinforce` | the deposit loops | 113-120 |
| `BuildTours`, `Turn`, `RunAnt` | the ant loop of `main` | 130-138 |
| `NewAnts` | `vector<Ant> ants(NUM_ANTS)` | 127 |
| `IterateAndReport` | one pass of `main`'s iteration loop, with its report | 129-143 |

Randomness is an input:

- a start draw `startDraw: nat`; the start city is `startDraw % n`, as `rand() % NUM_CITIES` does;
- for every step of a tour, a draw `u` in [0, 1], standing for `rand() / RAND_MAX`; the threshold
  is `r = u * sum`.

The initial `DBL_MAX` best length is `Bound.Infinite`.

Modules:

- `Config`: the constants and `Pow`;
- `Matrices`: square tables and their predicates;
- `Tours`: permutations and tour lengths;
- `Transition`: the choice rule;
- `Pheromones`: the update as a function;
- `AntColony`: the classes and the run.

## Model

| member | source | states |
|---|---|---|
| Config.Pow | DAA_miniproject.cpp:64-65 | `pow` with the integer exponents ALPHA = 1 and BETA = 5: the power of a non-negative base is non-negative, and of a positive base positive |
| Tours.UnvisitedExists | DAA_miniproject.cpp:95-96 | pigeonhole: a partial tour of distinct in-range cities shorter than N leaves some city unvisited, so every step has a city to move to |
| Tours.TourCoversAll | DAA_miniproject.cpp:89-101 | a tour of N distinct cities below N contains every city, so all visited flags end true |
| Tours.PathLength | DAA_miniproject.cpp:99 | the sum of `dist[t[k]][t[k+1]]` over consecutive pairs is non-negative on a non-negative table |
| Tours.PathLengthSnoc | DAA_miniproject.cpp:97-99 | appending a city adds exactly the edge from the previous last city to the path length |
| Tours.TourLength | DAA_miniproject.cpp:99-104 | definition: the path length plus the closing edge back to the first city; it has no contract of its own, and `TourLengthSign`, `PartialTourDone` and `ConstructTour` state its properties |
| Tours.TourLengthSign | DAA_miniproject.cpp:99-104 | a closed tour's length is non-negative; with N >= 2 and positive off-diagonal distances it is positive, so `Q / tourLength` is defined |
| Tours.OffDiagonalPositiveTours | DAA_miniproject.cpp:99-117 | positive distances between different cities make every closed tour positive (`PositiveTours`), which is all that the division `Q / tourLength` needs |
| Transition.Weight | DAA_miniproject.cpp:64-65 | pheromone^ALPHA * (1/dist)^BETA is non-negative for non-negative pheromone and positive distance, and positive for positive pheromone |
| Transition.Prob | DAA_miniproject.cpp:62-68 | `probabilities[j]` is 0 for a visited city or one at distance 0, and non-negative when the pheromone is non-negative |
| Transition.CumWeight | DAA_miniproject.cpp:66-80 | the running sum of the weights of the first k cities is non-negative on a non-negative pheromone row |
| Transition.FirstUnvisited | DAA_miniproject.cpp:70-73 | the fallback scan returns the lowest-index unvisited city at or after j, and -1 exactly when there is none |
| Transition.FirstReaching | DAA_miniproject.cpp:78-85 | the cumulative walk returns the first eligible city at or after j whose cumulative weight reaches r, none before it reaches r, and -1 exactly when no city reaches r |
| Transition.Choose | DAA_miniproject.cpp:58-86 | definition of the choice rule: the fallback scan when the total weight is 0, the cumulative walk against `u * sum` otherwise; it has no contract of its own, and `ChooseCases`, `ChooseFallback`, `ChooseFirstReaching` and `ChooseUnvisited` state its properties |
| Transition.ChooseCases | DAA_miniproject.cpp:70-85 | the choice is the fallback scan when the total weight is 0, and the cumulative walk against `u * sum` otherwise |
| Transition.LastEligible | DAA_miniproject.cpp:78-84 | a non-zero cumulative weight is reached at its full value by some eligible city below k |
| Transition.ChooseFallback | DAA_miniproject.cpp:70-73 | with total weight 0 the choice does not depend on the draw; it is the lowest-index unvisited city, and -1 only when every city is visited |
| Transition.FirstReachingFound | DAA_miniproject.cpp:75-85 | with positive total weight every threshold up to the total is reached by some city |
| Transition.ChooseFirstReaching | DAA_miniproject.cpp:62-85 | with positive total and u in [0, 1] the choice is an in-range city that is eligible, whose cumulative weight reaches `u * sum`, and no city before it does so; the `return -1` is unreachable |
| Transition.ChooseUnvisited | DAA_miniproject.cpp:58-86 | with a non-negative pheromone row and u in [0, 1] the choice is -1 exactly when every city is visited, and otherwise an unvisited city below N |
| Pheromones.Evaporate | DAA_miniproject.cpp:109-111 | definition: every entry times 1 - RHO; its contract gives only the shape, and `EvaporateEffect` states its effect |
| Pheromones.DepositEdge | DAA_miniproject.cpp:117-118 | after `+= amount` on (from, to) and the copy into (to, from), both entries hold the old (from, to) value plus the amount, and every other entry is unchanged |
| Pheromones.DepositTour | DAA_miniproject.cpp:114-119 | definition: one ant's `DepositEdge` on its first k consecutive pairs, in order; its contract gives only the shape, and `DepositTourSymmetric`, `DepositTourEffect` and `DepositTourSign` state its properties |
| Pheromones.DepositAll | DAA_miniproject.cpp:113-120 | definition: the deposits of the first a ants, in ant order; its contract gives only the shape, and `DepositAllSymmetric`, `DepositAllEffect` and `DepositAllSign` state its properties |
| Pheromones.Update | DAA_miniproject.cpp:108-121 | definition: evaporation followed by the deposits of all ants; its contract gives only the shape, and `UpdateEntries`, `UpdateUntouched`, `UpdateSign` and `NoAntsEvaporates` state its properties |
| Pheromones.EvaporateEffect | DAA_miniproject.cpp:109-111 | every entry is multiplied by 1 - RHO; symmetry, positivity and non-negativity are kept |
| Pheromones.DepositTourSymmetric | DAA_miniproject.cpp:114-119 | one ant's deposits keep a symmetric table symmetric |
| Pheromones.DepositTourEffect | DAA_miniproject.cpp:114-119 | on a symmetric table one ant's deposits add to each entry `Q / tourLength` once per consecutive pair of its tour joining the two cities |
| Pheromones.DepositAllSymmetric | DAA_miniproject.cpp:113-120 | the deposits of all ants keep a symmetric table symmetric |
| Pheromones.DepositAllEffect | DAA_miniproject.cpp:113-120 | on a symmetric table the deposits of the first a ants add their total gain to each entry |
| Pheromones.UpdateEntries | DAA_miniproject.cpp:108-121 | entry by entry, the update gives the evaporated old value plus the gain of all ants, and a symmetric table stays symmetric |
| Pheromones.TourGainZero | DAA_miniproject.cpp:114-118 | an ant none of whose consecutive pairs joins i and j deposits nothing there |
| Pheromones.GainZero | DAA_miniproject.cpp:113-120 | ants none of whose consecutive pairs join i and j deposit nothing there |
| Pheromones.UpdateUntouched | DAA_miniproject.cpp:109-120 | an entry that no ant traverses between consecutive cities is only evaporated |
| Pheromones.ClosingEdgeNotReinforced | DAA_miniproject.cpp:114-118 | with three or more cities the closing edge of a tour is not one of its consecutive pairs, so that ant deposits nothing on it |
| Pheromones.DepositTourSign | DAA_miniproject.cpp:117 | adding `Q / tourLength` with a positive length keeps a non-negative (positive) table non-negative (positive) |
| Pheromones.DepositAllSign | DAA_miniproject.cpp:113-120 | the deposits of all ants keep a non-negative (positive) table non-negative (positive) |
| Pheromones.UpdateSign | DAA_miniproject.cpp:109-120 | with positive tour lengths the whole update keeps a positive table positive and a non-negative one non-negative |
| Pheromones.NoAntsEvaporates | DAA_miniproject.cpp:108-121 | with no ant the update is the evaporation alone |
| Pheromones.IdleDecay | DAA_miniproject.cpp:109-111 | the evaporation law: after k updates without deposits every entry is its initial value times (1 - RHO)^k |
| Pheromones.IdleDecayAt | DAA_miniproject.cpp:109-111 | the evaporation law for one entry, by induction on the number of updates |
| Pheromones.IdleStep | DAA_miniproject.cpp:109-111 | one update without deposits multiplies an entry by 1 - RHO |
| AntColony.Improves | DAA_miniproject.cpp:134 | definition of the strict test `ant.tourLength < bestLength`, with `DBL_MAX` as `Infinite`; it has no contract of its own, and `RunAnt` and `StandingStep` state what follows from it |
| AntColony.VisitedBySnoc | DAA_miniproject.cpp:97-98 | visiting one more city sets exactly its flag |
| AntColony.FollowsRuleExtend | DAA_miniproject.cpp:95-97 | appending the city the rule chooses keeps every city of the tour the rule's choice from its predecessor |
| AntColony.PartialTourStart | DAA_miniproject.cpp:90-93 | a reset ant with its start city pushed and flagged and length 0 holds a one-city partial tour |
| AntColony.PartialTourStep | DAA_miniproject.cpp:95-100 | from a partial tour shorter than N, the chosen city is in range and not yet on the tour, and appending it, flagging it and adding its edge gives a longer partial tour |
| AntColony.PartialTourDone | DAA_miniproject.cpp:95-104 | after N - 1 steps the partial tour is a permutation of the cities, every flag is true, and the closing edge of line 104 completes the closed tour's length |
| AntColony.ExampleDistIsValid | DAA_miniproject.cpp:19-25 | the program's 5×5 table is square and non-negative, and every closed tour over it is positive, as `Run` requires |
| AntColony.ZeroEdgeReachesFallback | DAA_miniproject.cpp:63-73 | a 3-city table with a zero edge between different cities still has only positive tours, so `Run` accepts it, and there an ant at city 0 with city 1 left has total weight 0 and takes city 1 by the fallback scan, whatever the draw |
| AntColony.NewAnts | DAA_miniproject.cpp:127 | NUM_ANTS freshly constructed ants, pairwise different, each with N visited flags |
| AntColony.Ant.constructor | DAA_miniproject.cpp:37-41 | a new ant has a tour pre-sized to N zeros, N false visited flags and length 0 |
| AntColony.Ant.Reset | DAA_miniproject.cpp:43-47 | afterwards every visited flag is false, the tour is empty and the length is 0 |
| AntColony.Colony.constructor | DAA_miniproject.cpp:27-29 | the globals before `initialize`: a zero pheromone table, no best length (`DBL_MAX`) and an empty best tour |
| AntColony.Colony.Initialize | DAA_miniproject.cpp:51-55 | every pheromone entry becomes 1.0, so the table is symmetric and strictly positive |
| AntColony.Colony.Weights | DAA_miniproject.cpp:59-68 | every `probabilities[j]` equals the city's weight or 0, and `sum` is their total |
| AntColony.Colony.FirstUnvisitedCity | DAA_miniproject.cpp:70-73 | the scan returns `FirstUnvisited` of the visited flags: the lowest-index unvisited city, or -1 when there is none |
| AntColony.Colony.CumulativeWalk | DAA_miniproject.cpp:75-85 | given the weights of `Weights`, the walk returns `FirstReaching` of the threshold: the first eligible city whose cumulative weight reaches r, or -1 when none does |
| AntColony.Colony.SelectNextCity | DAA_miniproject.cpp:58-86 | returns `Choose` of the visited flags, the pheromone row and the distance row at the draw |
| AntColony.Colony.Advance | DAA_miniproject.cpp:96-100 | one step appends the chosen city to the tour, flags it and adds its edge, keeping a partial tour |
| AntColony.Colony.ConstructTour | DAA_miniproject.cpp:89-105 | on a reset ant the tour ends as a permutation of 0..N-1 starting at `startDraw % N`, every flag true, the length the sum of its N - 1 edges plus the closing edge, and each city the rule's choice for its draw |
| AntColony.Colony.Evaporation | DAA_miniproject.cpp:109-111 | the table becomes `Evaporate` of the old table |
| AntColony.Colony.Reinforce | DAA_miniproject.cpp:117-118 | the table becomes `DepositEdge` of the old table |
| AntColony.Colony.Deposit | DAA_miniproject.cpp:114-119 | the table becomes the old table with one ant's N - 1 consecutive pairs reinforced |
| AntColony.Colony.DepositTours | DAA_miniproject.cpp:113-120 | the table becomes the old table with every ant's deposits, in ant order |
| AntColony.Colony.UpdatePheromones | DAA_miniproject.cpp:108-121 | the table becomes `Update` of the old table with the ants' tours and lengths; it stays symmetric and non-negative, and a positive table stays positive |
| AntColony.Colony.RunAnt | DAA_miniproject.cpp:131-137 | after reset and tour construction, `bestLength` never grows, is at most the ant's length, and changes only to the ant's length with `bestTour` the ant's tour |
| AntColony.Colony.Turn | DAA_miniproject.cpp:131-137 | one ant's turn extends the loop's record: the ant holds a finished tour, and the best is unchanged or is that ant's length and tour, so the index of the first ant that set the best is kept |
| AntColony.StandingStep | DAA_miniproject.cpp:134-137 | with the strict `<`, an ant that does not improve leaves the best and its setter alone, and one that improves becomes the setter, no earlier ant reaching its length |
| AntColony.Colony.StandingDone | DAA_miniproject.cpp:130-138 | after the last ant the loop's record is the iteration's outcome `Competed` |
| AntColony.Colony.BuildTours | DAA_miniproject.cpp:130-138 | every ant holds a finished tour built over the unchanged table; the best length never grows and is at most every ant's length; an unchanged best keeps its tour; a changed best is the length and tour of the FIRST ant that reached it, every earlier ant being strictly longer |
| AntColony.Colony.FinishedReady | DAA_miniproject.cpp:113-117 | the finished tours have N in-range cities and, when every tour over the table is positive, positive lengths, as the deposit loop needs |
| AntColony.Colony.CompetedStanding | DAA_miniproject.cpp:130-138 | the outcome of the ant loop on the ants' fields gives the loop record over their tours and lengths as values, for the ant that set the best: the converse of `StandingDone` |
| AntColony.Colony.Iterate | DAA_miniproject.cpp:129-140 | one iteration, requiring only that every tour over the table is positive: the outcome of `BuildTours` (first-shortest ant kept), and the table becomes `Update` of the old table with the ants' tours, staying symmetric and non-negative, and positive when it was positive |
| AntColony.HistoryStep | DAA_miniproject.cpp:129-140 | one more iteration extends the run's history: its ants' finished tours over the last table, and the next table as `Update` of that table with them |
| AntColony.RecordStep | DAA_miniproject.cpp:134-143 | one more iteration keeps the record: the newly reported best is at most every tour built so far and is the length of one of them |
| AntColony.RecordNonIncreasing | DAA_miniproject.cpp:142-143 | the best lengths of a record never increase from one report to the next |
| AntColony.AmongStep | DAA_miniproject.cpp:134-137 | after one more iteration the best tour is still one of the tours built, with its recorded length |
| AntColony.LogStep | DAA_miniproject.cpp:129-143 | one iteration whose ant loop ended as `Standing` extends history, record and best tour together |
| AntColony.IterateAndReport | DAA_miniproject.cpp:129-143 | one pass of the main loop: the colony's table, best length and best tour stay those of the run's record, extended by this iteration, and the reported value is the new best |
| AntColony.Run | DAA_miniproject.cpp:124-144 | on any square non-negative table whose closed tours are all positive, the run's history is determined: iteration i starts from the previous table updated with the previous tours (all 1.0 at first), and every ant finishes a tour from its start draw by the rule over that table. The best length reported after iteration k is at most every tour built in iterations 0..k and is the length of one of them, so the reports never increase. The final best tour is one of the tours built, a permutation of the cities with `bestLength` its closed length |

## Left out

- Console output (lines 142-153) is not modelled. `Run` returns, as values, the best length after each iteration and the final best tour.
- `srand(time(0))` and `rand()` are not modelled; their values are inputs to the model.
  - The model takes one draw for every step of a tour.
  - The program calls `rand()` at line 75 only when the total weight is not zero.
  - Any sequence of `rand()` values therefore maps to the model's draws by filling in unused draws.
- IEEE `double` rounding and `pow` on doubles are not modelled: the model computes in exact reals.
  - In exact arithmetic the `return -1` at line 85 is unreachable (`Transition.ChooseUnvisited`).
  - A rounded cumulative sum could make it reachable in the program.
- `DBL_MAX` as the initial best length is modelled as `Bound.Infinite`, which any tour length improves.
- The program divides by `tourLength` without a guard.
  - The model follows the code: it does not skip a zero-length ant.
  - Instead it requires positive lengths wherever `Q / tourLength` is taken. `UpdatePheromones` requires this through `AntsReady`; `Iterate` and `Run` require that every closed tour over the table is positive (`Tours.PositiveTours`), which admits zero distances between different cities and so the zero-weight fallback (`AntColony.ZeroEdgeReachesFallback`).
  - A zero length would give an infinite deposit in the program; that case is not modelled.
- The fixed `NUM_CITIES = 5` is not modelled: the number of cities is the size of the given table. The program's table is `AntColony.ExampleDist`.
- AntColony.Run: over the whole run, the best is stated as one of the tours built and at most every one of them. The first-ant tie-break of the strict `<` at line 134 is stated per iteration (`AntColony.Colony.BuildTours`, `AntColony.StandingStep`), but not carried over across iterations.
- No convergence or optimality claim about the heuristic is modelled or proved. The program promises none.
