/** The entity record and the behaviour rules every variant applies: the
    arrest-risk factor, the activation threshold, the neighbour blend of
    hardship, the legitimacy decay, and the population counts computed at
    construction. */
module Rules {
  import opened Wrappers
  import opened Torus

  datatype Kind = Agent | Cop

  /** One `Turtle`. Its `agent_id` is its index in the model's list of
      turtles. For cops the source leaves `risk_aversion` and `hardship` as
      None; here they hold 0.0 and are never read. */
  datatype Turtle = Turtle(
    kind: Kind,
    riskAversion: real,
    hardship: real,
    adjustedHardship: real,
    active: bool,
    jailTerm: nat,
    pos: Cell)

  /** A turtle as `Turtle.__init__` leaves it: quiet, free, and with its
      adjusted hardship equal to its hardship. */
  function NewTurtle(kind: Kind, riskAversion: real, hardship: real, pos: Cell): Turtle
  {
    Turtle(kind, riskAversion, hardship, hardship, false, 0, pos)
  }

  /** Entity `i` as construction creates it: the first `agents` entities are
      agents with the traits drawn for them, the rest are cops. */
  function Newcomer(i: nat, agents: nat, traits: nat -> (real, real), pos: Cell): (t: Turtle)
    ensures t.kind == Agent <==> i < agents
    ensures t.pos == pos && !t.active && t.jailTerm == 0
  {
    if i < agents then NewTurtle(Agent, traits(i).0, traits(i).1, pos) else NewTurtle(Cop, 0.0, 0.0, pos)
  }

  /** `random.choice(xs)` when the random number drawn is `r`. */
  function Pick<T>(xs: seq<T>, r: nat): (x: T)
    requires xs != []
    ensures x in xs
  {
    xs[r % |xs|]
  }

  // ---------------------------------------------------------------------
  // Arrest risk

  /** What an agent sees around a cell: cops, and active agents. */
  datatype Sighting = Sighting(cops: nat, active: nat)

  /** `math.floor(cops_count / (active_agents_count + 1))`: the denominator is
      at least 1, and the result is the floor of the quotient. */
  function ArrestFactor(cops: nat, active: nat): (n: nat)
    ensures n * (active + 1) <= cops < (n + 1) * (active + 1)
  {
    cops / (active + 1)
  }

  /** The factor is zero exactly when the cops do not outnumber the active
      agents (counting one extra active agent): 1 cop against 2 active gives
      0, 3 cops against 2 active give 1. */
  lemma ArrestFactorZero(cops: nat, active: nat)
    ensures ArrestFactor(cops, active) == 0 <==> cops <= active
    ensures ArrestFactor(1, 2) == 0 && ArrestFactor(3, 2) == 1
  {
    var n := ArrestFactor(cops, active);
    if n >= 1 {
      assert n * (active + 1) >= active + 1;
    }
  }

  /** `1 - math.exp(-k * factor)`. The exponential is not modelled: `curve`
      stands for `n => 1 - exp(-k * n)` and is only assumed to be 0 at 0. */
  function ArrestProbability(curve: nat -> real, cops: nat, active: nat): real
  {
    curve(ArrestFactor(cops, active))
  }

  /** The estimated arrest probability is exactly 0 whenever cops <= active. */
  lemma NoRiskUnlessOutnumbered(curve: nat -> real, cops: nat, active: nat)
    requires curve(0) == 0.0
    ensures cops <= active ==> ArrestProbability(curve, cops, active) == 0.0
    ensures active < cops ==> ArrestProbability(curve, cops, active) == curve(ArrestFactor(cops, active))
                              && 1 <= ArrestFactor(cops, active)
  {
    ArrestFactorZero(cops, active);
  }

  // ---------------------------------------------------------------------
  // Activation

  /** The fixed threshold of `determine_behavior`. */
  const ActivationThreshold: real := 0.1

  function Grievance(hardship: real, legitimacy: real): real
  {
    hardship * (1.0 - legitimacy)
  }

  /** `grievance - risk_aversion * arrest_probability > 0.1`. */
  predicate Activates(grievance: real, riskAversion: real, probability: real)
  {
    grievance - riskAversion * probability > ActivationThreshold
  }

  /** A higher arrest probability never turns a risk-averse agent active:
      an agent active under a higher probability is active under a lower
      one, and with no risk at all it is active exactly when its grievance
      exceeds the threshold. */
  lemma ActivationMonotone(grievance: real, riskAversion: real, p: real, q: real)
    requires 0.0 <= riskAversion && p <= q
    ensures Activates(grievance, riskAversion, q) ==> Activates(grievance, riskAversion, p)
    ensures Activates(grievance, riskAversion, 0.0) <==> grievance > ActivationThreshold
  {
    assert riskAversion * p <= riskAversion * q by {
      assert riskAversion * (q - p) >= 0.0;
    }
  }

  // ---------------------------------------------------------------------
  // Neighbour influence on hardship

  /** `average_hardship * p + hardship * (1 - p)`. */
  function Blend(average: real, own: real, influence: real): real
  {
    average * influence + own * (1.0 - influence)
  }

  /** For an influence in [0, 1] the blend lies between the neighbours'
      average and the agent's own hardship, so it stays in [0, 1] when both do. */
  lemma BlendBetween(average: real, own: real, influence: real)
    requires 0.0 <= influence <= 1.0
    ensures influence == 0.0 ==> Blend(average, own, influence) == own
    ensures influence == 1.0 ==> Blend(average, own, influence) == average
    ensures average <= own ==> average <= Blend(average, own, influence) <= own
    ensures own <= average ==> own <= Blend(average, own, influence) <= average
    ensures 0.0 <= average <= 1.0 && 0.0 <= own <= 1.0 ==> 0.0 <= Blend(average, own, influence) <= 1.0
  {
    var b := Blend(average, own, influence);
    var lo, hi := if average <= own then average else own, if average <= own then own else average;
    var d := hi - lo;
    ProductNonNegative(d, influence);
    ProductNonNegative(d, 1.0 - influence);
    if average <= own {
      assert b == hi - d * influence;
    } else {
      assert b == lo + d * influence;
    }
  }

  lemma ProductNonNegative(a: real, b: real)
    requires 0.0 <= a && 0.0 <= b
    ensures 0.0 <= a * b
  {
  }

  /** `total / count`: the mean of `count` hardships summing to `total`. */
  function Average(total: real, count: nat): real
    requires 0 < count
  {
    total / count as real
  }

  /** The mean of hardships that all lie in [0, 1] lies in [0, 1]. */
  lemma AverageInUnit(total: real, count: nat)
    requires 0 < count && 0.0 <= total <= count as real
    ensures 0.0 <= Average(total, count) <= 1.0
  {
    var c := count as real;
    assert total / c * c == total;
  }

  // ---------------------------------------------------------------------
  // Legitimacy decay

  /** The amount legitimacy drops per tick when decay is on. */
  const LegitimacyStep: real := 0.0045

  /** `if gov_legitimacy > 0: gov_legitimacy -= 0.0045`: no floor at 0. */
  function Decayed(legitimacy: real): real
  {
    if legitimacy > 0.0 then legitimacy - LegitimacyStep else legitimacy
  }

  function DecayedAfter(legitimacy: real, ticks: nat): real
  {
    if ticks == 0 then legitimacy else Decayed(DecayedAfter(legitimacy, ticks - 1))
  }

  /** Decay is not floored at 0: a small positive legitimacy ends below 0. */
  lemma DecayOvershoots()
    ensures Decayed(0.003) < 0.0
    ensures Decayed(0.003) == 0.003 - LegitimacyStep
  {
  }

  /** Over any number of ticks legitimacy never increases and never drops
      to -0.0045 or below, and once it is at most 0 it stays put. */
  lemma {:induction false} DecayBounded(legitimacy: real, ticks: nat)
    requires -LegitimacyStep < legitimacy
    ensures -LegitimacyStep < DecayedAfter(legitimacy, ticks) <= legitimacy
    ensures legitimacy <= 0.0 ==> DecayedAfter(legitimacy, ticks) == legitimacy
  {
    if ticks > 0 {
      DecayBounded(legitimacy, ticks - 1);
    }
  }

  // ---------------------------------------------------------------------
  // Construction

  datatype ConfigError = DensityAbove100

  datatype Counts = Counts(agents: nat, cops: nat)

  /** `int((density / 100) * total_cells)`: for a non-negative percentage the
      truncation is the floor. */
  function Truncated(density: nat, cells: nat): (n: nat)
    ensures n * 100 <= density * cells < (n + 1) * 100
  {
    density * cells / 100
  }

  /** The density check of `Model.__init__` and the two population counts.
      Densities are whole percentages. */
  function Populations(agentDensity: nat, copDensity: nat, cells: nat): (r: Result<Counts, ConfigError>)
    ensures r.Failure? <==> agentDensity + copDensity > 100
    ensures r.Failure? ==> r.error == DensityAbove100
    ensures r.Success? ==> r.value.agents * 100 <= agentDensity * cells < (r.value.agents + 1) * 100
    ensures r.Success? ==> r.value.cops * 100 <= copDensity * cells < (r.value.cops + 1) * 100
  {
    if agentDensity + copDensity > 100 then Failure(DensityAbove100)
    else Success(Counts(Truncated(agentDensity, cells), Truncated(copDensity, cells)))
  }

  /** The truncated counts together never exceed the number of cells, so
      every entity finds a free cell. */
  lemma PopulationsFit(agentDensity: nat, copDensity: nat, cells: nat)
    requires Populations(agentDensity, copDensity, cells).Success?
    ensures var c := Populations(agentDensity, copDensity, cells).value;
            c.agents + c.cops <= cells
  {
    var c := Populations(agentDensity, copDensity, cells).value;
    var total := agentDensity + copDensity;
    assert agentDensity * cells + copDensity * cells == total * cells;
    MulMonotone(total, 100, cells);
    assert c.agents * 100 + c.cops * 100 <= 100 * cells;
  }

  lemma MulMonotone(x: nat, y: nat, k: nat)
    requires x <= y
    ensures x * k <= y * k
  {
    assert y * k - x * k == (y - x) * k;
  }
}
