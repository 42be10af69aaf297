/** Run-wide configuration constants of the colony and the integer power used by the
    transition rule and by the evaporation law. */
module Config {
  /** Number of ants per iteration. */
  const NumAnts: nat := 10
  /** Exponent of the pheromone term in a transition weight. */
  const Alpha: nat := 1
  /** Exponent of the visibility term (1 / distance) in a transition weight. */
  const Beta: nat := 5
  /** Evaporation rate: every entry is scaled by 1 - Rho once per iteration. */
  const Rho: real := 0.5
  /** Deposit factor: an ant with tour length L deposits Q / L on each reinforced edge. */
  const Q: real := 100.0
  /** Number of iterations of the colony loop. */
  const Iterations: nat := 100

  /** x raised to the natural power k; models pow with the integral exponents above. */
  function Pow(x: real, k: nat): (p: real)
    ensures x >= 0.0 ==> p >= 0.0
    ensures x > 0.0 ==> p > 0.0
  {
    if k == 0 then 1.0 else x * Pow(x, k - 1)
  }
}
