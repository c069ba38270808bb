/** The grid-based civil-violence model: a torus of cells, each holding at
    most one entity, and a list of entities that take turns once per tick.
    One class covers the four grid-based scripts; `Variant` says which of
    their differences is switched on. */
module GridModel {
  import opened Wrappers
  import opened Torus
  import opened Rules
  import opened Census

  /** The differences between the grid-based scripts. */
  datatype Variant = Variant(
    adjustHardship: bool,   // neighbours' hardship blended into each agent's own
    fixedJailTerm: bool,    // every arrest jails for `FixedJailTerm` ticks
    legitimacyDecay: bool,  // legitimacy drops by 0.0045 per tick while positive
    withdrawCops: bool)     // one cop leaves per tick, and cop counts are recorded

  /** `src/model_v4_lc_extension2.py` and `scripts/extension1/extension1.py`. */
  const NeighbourInfluence := Variant(true, false, false, false)
  /** `scripts/replication/rep2.py`. */
  const Replication := Variant(false, true, true, false)
  /** `scripts/extension2/extension2.py`. */
  const CopWithdrawal := Variant(false, true, false, true)

  /** The jail term of the variants that do not draw one at random. */
  const FixedJailTerm: nat := 1000

  /** The recorded series `data`; `cop` stays empty except under cop withdrawal. */
  datatype History = History(quiet: seq<nat>, jail: seq<nat>, active: seq<nat>, cop: seq<nat>)

  /** The series a freshly built model starts with. */
  function InitialHistory(variant: Variant, agents: nat): History
  {
    if variant.withdrawCops then History([agents], [0], [0], []) else History([], [], [], [])
  }

  /** The random numbers one entity's turn consumes: the index of the cell
      it moves to, the index of the agent it arrests, and the jail term. */
  datatype Draw = Draw(move: nat, arrest: nat, term: nat)

  predicate InGrid(s: Space, cells: seq<Cell>)
  {
    forall c :: c in cells ==> s.InBounds(c)
  }

  /** What a turn never changes about an entity: its kind and the traits
      its decisions are made from. */
  function Traits(t: Turtle): (Kind, real, real, real)
  {
    (t.kind, t.riskAversion, t.hardship, t.adjustedHardship)
  }

  /** An arrest changes the target and the cop and no one else, and
      changes nobody's kind. */
  lemma ArrestKeepsOthers(ts: seq<Turtle>, t: nat, cop: nat, us: seq<Turtle>)
    requires t < |ts| && cop < |ts| && t != cop && ts[t].active
    requires |us| == |ts| && us[t].kind == ts[t].kind && us[cop].kind == ts[cop].kind
    requires forall j :: 0 <= j < |ts| && j != t && j != cop ==> us[j] == ts[j]
    ensures forall j :: 0 <= j < |us| ==> us[j].kind == ts[j].kind
    ensures forall j :: 0 <= j < |us| && j != cop && !ts[j].active ==> us[j] == ts[j]
  {
  }

  class Simulation {
    const variant: Variant
    const space: Space
    /** `n => 1 - exp(-k * n)`. */
    const curve: nat -> real
    const maxJailTerm: nat
    const influence: real
    /** The number of agents created; agents are never added or removed. */
    const numAgents: nat
    const neighborhoods: array2<seq<Cell>>
    /** The id of the entity on each cell, if any. */
    const grid: array2<Option<nat>>
    /** Every entity ever created, indexed by id. */
    var turtles: seq<Turtle>
    /** The ids of the entities that take part, in turn order. */
    var entities: seq<nat>
    var legitimacy: real
    var tick: nat
    var data: History

    // -------------------------------------------------------------------
    // Invariants

    ghost predicate Shaped()
    {
      space.Valid() && curve(0) == 0.0
      && grid.Length0 == space.width && grid.Length1 == space.height
      && neighborhoods.Length0 == space.width && neighborhoods.Length1 == space.height
    }

    /** The table holds the disk neighbourhood of every cell. No method
        writes to the table, so this holds from construction on. */
    ghost predicate Tabled()
      reads neighborhoods
      requires Shaped()
    {
      forall x, y :: 0 <= x < space.width && 0 <= y < space.height ==>
        neighborhoods[x, y] == space.Neighborhood(Cell(x, y))
    }

    /** Every cell the table lists lies on the grid. */
    ghost predicate Indexed()
      reads neighborhoods
      requires Shaped()
    {
      forall x, y :: 0 <= x < space.width && 0 <= y < space.height ==> InGrid(space, neighborhoods[x, y])
    }

    function At(c: Cell): Option<nat>
      reads grid
      requires Shaped() && space.InBounds(c)
    {
      grid[c.x, c.y]
    }

    ghost predicate Occupants(ts: seq<Turtle>)
      reads grid
      requires Shaped()
    {
      forall x, y :: 0 <= x < space.width && 0 <= y < space.height && grid[x, y].Some? ==>
        grid[x, y].value < |ts|
    }

    /** Whoever occupies a cell is located at that cell. The converse does
        not hold: an entity can stand where the grid no longer shows it. */
    ghost predicate Placed()
      reads this`turtles, grid
      requires Shaped()
    {
      forall x, y :: 0 <= x < space.width && 0 <= y < space.height && grid[x, y].Some? ==>
        grid[x, y].value < |turtles| && turtles[grid[x, y].value].pos == Cell(x, y)
    }

    function JailCap(): nat
    {
      if variant.fixedJailTerm then FixedJailTerm else maxJailTerm
    }

    function Sentence(term: nat): nat
    {
      if variant.fixedJailTerm then FixedJailTerm else term
    }

    /** What holds of every entity at all times: cops are never active or
        jailed, jailed agents are quiet, no term exceeds the maximum, and an
        agent's traits lie in [0, 1] (its adjusted hardship too, whenever the
        influence share does). */
    ghost predicate Sound(t: Turtle)
    {
      space.InBounds(t.pos)
      && (t.kind == Cop ==> !t.active && t.jailTerm == 0)
      && (t.jailTerm > 0 ==> !t.active)
      && t.jailTerm <= JailCap()
      && (t.kind == Agent ==> 0.0 <= t.riskAversion <= 1.0 && 0.0 <= t.hardship <= 1.0)
      && (t.kind == Agent && 0.0 <= influence <= 1.0 ==> 0.0 <= t.adjustedHardship <= 1.0)
    }

    ghost predicate Consistent()
      reads this`turtles, grid, neighborhoods
    {
      Shaped() && Indexed() && Placed() && forall i :: 0 <= i < |turtles| ==> Sound(turtles[i])
    }

    /** Every recorded tick accounts for every agent exactly once. */
    ghost predicate Recorded(h: History)
    {
      |h.jail| == |h.quiet| && |h.active| == |h.quiet|
      && (forall k :: 0 <= k < |h.quiet| ==> h.quiet[k] + h.jail[k] + h.active[k] == numAgents)
      && (if variant.withdrawCops then |h.cop| + 1 == |h.quiet| else h.cop == [])
    }

    ghost predicate Valid()
      reads this`turtles, this`entities, this`data, grid, neighborhoods
    {
      Consistent() && IdsIn(entities, turtles) && Unique(entities)
      && Agents(turtles, entities) == numAgents && Recorded(data)
    }

    twostate predicate GridKeptExcept(p: Cell, q: Cell)
      reads grid
      requires Shaped()
    {
      forall x, y :: 0 <= x < space.width && 0 <= y < space.height && Cell(x, y) != p && Cell(x, y) != q ==>
        grid[x, y] == old(grid[x, y])
    }

    /** Where `move_agent` takes a free entity `e` with draw `r`: the `r`-th
        open cell of its neighbourhood, or its own cell when none is open. */
    function Landing(ts: seq<Turtle>, e: nat, r: nat): (q: Cell)
      reads grid, neighborhoods
      requires Shaped() && Indexed() && Occupants(ts) && e < |ts| && space.InBounds(ts[e].pos)
      ensures q == ts[e].pos || q in neighborhoods[ts[e].pos.x, ts[e].pos.y]
    {
      var p := ts[e].pos;
      var open := OpenCells(ts, neighborhoods[p.x, p.y], p);
      if open == [] then p else Pick(open, r)
    }

    /** The grid after `move_agent` took entity `e` from `p` to `q`: it shows
        `e` at `q` (or nowhere, when nothing was open and `q` is `p`), `p` is
        cleared, and every other cell is as it was. */
    twostate predicate MovedOnGrid(e: nat, p: Cell, q: Cell, open: bool)
      reads grid
      requires Shaped() && space.InBounds(p) && space.InBounds(q)
    {
      (if open then grid[q.x, q.y] == Some(e) else grid[p.x, p.y] == None)
      && (q != p ==> grid[p.x, p.y] == None)
      && GridKeptExcept(p, q)
    }

    /** A free agent's turn: it moves to its landing cell, then takes the
        decision `determine_behavior` makes from what it sees there, counted
        with its own flag as it was before deciding. */
    twostate predicate AgentTurned(e: nat, d: Draw)
      reads this`turtles, this`legitimacy, grid, neighborhoods
      requires old(Consistent()) && Consistent() && e < |old(turtles)| == |turtles|
    {
      var p := old(turtles)[e].pos;
      var q := old(Landing(turtles, e, d.move));
      var moved := old(turtles)[e := old(turtles)[e].(pos := q)];
      turtles == moved[e := moved[e].(active := Decision(moved, e, neighborhoods[q.x, q.y]))]
      && MovedOnGrid(e, p, q, old(OpenCells(turtles, neighborhoods[p.x, p.y], p)) != [])
    }

    /** A free cop's turn: it moves to its landing cell; then either nobody
        active is in sight there and nothing else happens (`arrested` is
        None), or it arrests the active entity `t` standing on a cell of that
        neighbourhood, which turns quiet and serves its sentence, and takes
        that cell. */
    twostate predicate CopTurned(e: nat, d: Draw, new arrested: Option<nat>)
      reads this`turtles, grid, neighborhoods
      requires old(Consistent()) && Consistent() && e < |old(turtles)| == |turtles|
    {
      var p := old(turtles)[e].pos;
      var q := old(Landing(turtles, e, d.move));
      var moved := old(turtles)[e := old(turtles)[e].(pos := q)];
      match arrested
      case None =>
        turtles == moved && Targets(moved, neighborhoods[q.x, q.y]) == []
        && MovedOnGrid(e, p, q, old(OpenCells(turtles, neighborhoods[p.x, p.y], p)) != [])
      case Some(t) =>
        t < |moved| && t != e && old(turtles)[t].active
        && var c := old(turtles)[t].pos;
        c in neighborhoods[q.x, q.y]
        && turtles == moved[t := moved[t].(active := false, jailTerm := Sentence(d.term))][e := moved[e].(pos := c)]
        && grid[c.x, c.y] == Some(e) && (c != q ==> grid[q.x, q.y] == None) && (q != p ==> grid[p.x, p.y] == None)
        && forall x, y :: 0 <= x < space.width && 0 <= y < space.height && Cell(x, y) !in {p, q, c} ==>
             grid[x, y] == old(grid[x, y])
    }

    // -------------------------------------------------------------------
    // What each scan over a neighbourhood finds

    /** Total hardship and number of the agents on `cells`. */
    function HardshipNear(ts: seq<Turtle>, cells: seq<Cell>): (r: (real, nat))
      reads grid
      requires Shaped() && Occupants(ts) && InGrid(space, cells)
      ensures r.1 <= |cells|
      ensures (forall j :: 0 <= j < |ts| && ts[j].kind == Agent ==> 0.0 <= ts[j].hardship <= 1.0) ==>
                0.0 <= r.0 <= r.1 as real
    {
      if cells == [] then (0.0, 0)
      else
        var front := cells[..|cells| - 1];
        assert forall c :: c in front ==> c in cells;
        var (total, count) := HardshipNear(ts, front);
        var o := At(cells[|cells| - 1]);
        if o.Some? && ts[o.value].kind == Agent then (total + ts[o.value].hardship, count + 1)
        else (total, count)
    }

    /** The record `compute_adjusted_hardship` leaves for entity `i`: only
        the adjusted hardship of an agent that sees at least one agent changes. */
    function AdjustedTurtle(ts: seq<Turtle>, i: nat): (t: Turtle)
      reads grid, neighborhoods
      requires Shaped() && Indexed() && Occupants(ts) && i < |ts| && space.InBounds(ts[i].pos)
      ensures t == ts[i].(adjustedHardship := t.adjustedHardship)
    {
      var own := ts[i];
      if own.kind == Cop then own
      else
        var (total, count) := HardshipNear(ts, neighborhoods[own.pos.x, own.pos.y]);
        if count == 0 then own
        else own.(adjustedHardship := Blend(Average(total, count), own.hardship, influence))
    }

    /** A cell is open to a mover that has just left `vacated` when it is
        that cell, is empty, or holds a jailed entity. */
    predicate Open(ts: seq<Turtle>, c: Cell, vacated: Cell)
      reads grid
      requires Shaped() && Occupants(ts) && space.InBounds(c)
    {
      c == vacated || At(c).None? || ts[At(c).value].jailTerm > 0
    }

    function OpenCells(ts: seq<Turtle>, cells: seq<Cell>, vacated: Cell): (r: seq<Cell>)
      reads grid
      requires Shaped() && Occupants(ts) && InGrid(space, cells)
      ensures forall c :: c in r <==> c in cells && Open(ts, c, vacated)
    {
      if cells == [] then []
      else
        var front := cells[..|cells| - 1];
        var c := cells[|cells| - 1];
        assert cells == front + [c];
        if Open(ts, c, vacated) then OpenCells(ts, front, vacated) + [c] else OpenCells(ts, front, vacated)
    }

    function Nearby(ts: seq<Turtle>, cells: seq<Cell>): (n: Sighting)
      reads grid
      requires Shaped() && Occupants(ts) && InGrid(space, cells)
      ensures n.cops + n.active <= |cells|
    {
      if cells == [] then Sighting(0, 0)
      else
        var front := cells[..|cells| - 1];
        assert forall c :: c in front ==> c in cells;
        var n := Nearby(ts, front);
        var o := At(cells[|cells| - 1]);
        if o.None? then n
        else if ts[o.value].kind == Cop then n.(cops := n.cops + 1)
        else if ts[o.value].active then n.(active := n.active + 1)
        else n
    }

    /** The active entities on `cells`, with the cell each stands on. */
    function Targets(ts: seq<Turtle>, cells: seq<Cell>): (r: seq<(nat, Cell)>)
      reads grid
      requires Shaped() && Occupants(ts) && InGrid(space, cells)
      ensures forall k :: 0 <= k < |r| ==>
                r[k].1 in cells && At(r[k].1) == Some(r[k].0) && ts[r[k].0].active
      ensures forall c :: c in cells && At(c).Some? && ts[At(c).value].active ==> (At(c).value, c) in r
    {
      if cells == [] then []
      else
        var front := cells[..|cells| - 1];
        var c := cells[|cells| - 1];
        assert cells == front + [c];
        var o := At(c);
        if o.Some? && ts[o.value].active then Targets(ts, front) + [(o.value, c)] else Targets(ts, front)
    }

    function VacantCells(cells: seq<Cell>): (r: seq<Cell>)
      reads grid
      requires Shaped() && InGrid(space, cells)
      ensures forall c :: c in r <==> c in cells && At(c).None?
    {
      if cells == [] then []
      else
        var front := cells[..|cells| - 1];
        var c := cells[|cells| - 1];
        assert cells == front + [c];
        if At(c).None? then VacantCells(front) + [c] else VacantCells(front)
    }

    /** The empty cells, in the order of `AllCells`. */
    function Vacancies(): (r: seq<Cell>)
      reads grid
      requires Shaped()
      ensures forall c :: c in r <==> space.InBounds(c) && At(c).None?
    {
      AllCellsExact(space);
      VacantCells(space.AllCells())
    }

    /** The hardship an agent's grievance is computed from. */
    function Felt(t: Turtle): real
    {
      if variant.adjustHardship then t.adjustedHardship else t.hardship
    }

    /** Whether `determine_behavior` makes agent `a` active, given what it
        sees on `cells`. */
    function Decision(ts: seq<Turtle>, a: nat, cells: seq<Cell>): bool
      reads this`legitimacy, grid
      requires Shaped() && Occupants(ts) && a < |ts| && InGrid(space, cells)
    {
      var n := Nearby(ts, cells);
      Activates(Grievance(Felt(ts[a]), legitimacy), ts[a].riskAversion, ArrestProbability(curve, n.cops, n.active))
    }

    // -------------------------------------------------------------------
    // Facts about the scans

    /** Unless the cops nearby outnumber the active agents, an agent turns
        active exactly when its grievance exceeds the threshold. */
    lemma UnpolicedAgentRises(ts: seq<Turtle>, a: nat, cells: seq<Cell>)
      requires Shaped() && Occupants(ts) && a < |ts| && InGrid(space, cells)
      requires Nearby(ts, cells).cops <= Nearby(ts, cells).active
      ensures Decision(ts, a, cells) <==> Grievance(Felt(ts[a]), legitimacy) > ActivationThreshold
    {
      var n := Nearby(ts, cells);
      NoRiskUnlessOutnumbered(curve, n.cops, n.active);
    }

    /** With a non-negative arrest curve, an agent whose grievance does not
        exceed the threshold stays quiet whatever it sees. */
    lemma ContentAgentStaysQuiet(ts: seq<Turtle>, a: nat, cells: seq<Cell>)
      requires Shaped() && Occupants(ts) && a < |ts| && InGrid(space, cells)
      requires forall n :: 0.0 <= curve(n)
      requires 0.0 <= ts[a].riskAversion
      requires Grievance(Felt(ts[a]), legitimacy) <= ActivationThreshold
      ensures !Decision(ts, a, cells)
    {
      var n := Nearby(ts, cells);
      ActivationMonotone(Grievance(Felt(ts[a]), legitimacy), ts[a].riskAversion, 0.0,
                         ArrestProbability(curve, n.cops, n.active));
    }

    /** Once the table holds the true neighbourhoods, a mover always has
        somewhere to go: the cell it vacates is in its own neighbourhood
        (dx = dy = 0) and counts as open. */
    lemma OwnCellOpen(a: nat)
      requires Consistent() && Tabled() && a < |turtles|
      ensures var p := turtles[a].pos;
              p in OpenCells(turtles, neighborhoods[p.x, p.y], p)
    {
      var p := turtles[a].pos;
      assert Sound(turtles[a]);
      NeighborhoodWellFormed(space, p);
    }

    /** Blending keeps an agent sound: its adjusted hardship stays in [0, 1]
        when every hardship does and the influence share lies in [0, 1]. */
    lemma AdjustedSound(ts: seq<Turtle>, i: nat)
      requires Shaped() && Indexed() && Occupants(ts) && i < |ts| && Sound(ts[i])
      requires forall j :: 0 <= j < |ts| && ts[j].kind == Agent ==> 0.0 <= ts[j].hardship <= 1.0
      ensures Sound(AdjustedTurtle(ts, i))
    {
      var own := ts[i];
      if own.kind == Agent && 0.0 <= influence <= 1.0 {
        var (total, count) := HardshipNear(ts, neighborhoods[own.pos.x, own.pos.y]);
        if count != 0 {
          AverageInUnit(total, count);
          BlendBetween(Average(total, count), own.hardship, influence);
        }
      }
    }

    // -------------------------------------------------------------------
    // The operations

    /** The part of `Model.__init__` before any entity exists: the
        parameters, an empty grid, the neighbourhood table of
        `compute_neighborhoods`, and the initial series. */
    constructor Init(variant: Variant, space: Space, curve: nat -> real, maxJailTerm: nat, influence: real,
                     legitimacy: real, numAgents: nat)
      requires space.Valid() && curve(0) == 0.0
      ensures this.variant == variant && this.space == space && this.curve == curve
      ensures this.maxJailTerm == maxJailTerm && this.influence == influence && this.numAgents == numAgents
      ensures this.legitimacy == legitimacy && fresh(grid) && fresh(neighborhoods)
      ensures Consistent() && Tabled()
      ensures forall x, y :: 0 <= x < space.width && 0 <= y < space.height ==> grid[x, y] == None
      ensures turtles == [] && entities == [] && tick == 0
      ensures data == InitialHistory(variant, numAgents) && Recorded(data)
    {
      this.variant := variant;
      this.space := space;
      this.curve := curve;
      this.maxJailTerm := maxJailTerm;
      this.influence := influence;
      this.numAgents := numAgents;
      var table := ComputeNeighborhoods(space);
      forall x, y | 0 <= x < space.width && 0 <= y < space.height
        ensures InGrid(space, table[x, y])
      {
        NeighborhoodWellFormed(space, Cell(x, y));
      }
      this.neighborhoods := table;
      this.legitimacy := legitimacy;
      grid := new Option<nat>[space.width, space.height]((x, y) => None);
      turtles := [];
      entities := [];
      tick := 0;
      data := InitialHistory(variant, numAgents);
    }

    /** `Model.__init__`: the density check, then the neighbourhood table,
        then `num_agents` agents and `num_cops` cops, each placed on a free
        cell. Agent `i` takes `traits(i)` as its risk aversion and hardship
        (two draws in [0, 1)); entity `i` is placed by the number `spots(i)`. */
    static method Create(variant: Variant, space: Space, curve: nat -> real, maxJailTerm: nat, influence: real,
                         legitimacy: real, agentDensity: nat, copDensity: nat,
                         traits: nat -> (real, real), spots: nat -> nat)
      returns (r: Result<Simulation, ConfigError>)
      requires space.Valid() && curve(0) == 0.0
      requires forall i :: 0.0 <= traits(i).0 < 1.0 && 0.0 <= traits(i).1 < 1.0
      ensures r.Failure? <==> agentDensity + copDensity > 100
      ensures r.Success? ==>
        var m := r.value;
        var n := Populations(agentDensity, copDensity, space.width * space.height).value;
        fresh(m) && fresh(m.grid) && fresh(m.neighborhoods) && m.Valid() && m.Tabled()
        && m.variant == variant && m.space == space && m.curve == curve && m.maxJailTerm == maxJailTerm
        && m.influence == influence && m.legitimacy == legitimacy && m.tick == 0
        && m.numAgents == n.agents && m.Enrolled(n.agents + n.cops, n.agents, traits)
        && m.data == InitialHistory(variant, n.agents)
    {
      var cells := space.width * space.height;
      var counts := Populations(agentDensity, copDensity, cells);
      if counts.Failure? {
        return Failure(counts.error);
      }
      var n := counts.value;
      PopulationsFit(agentDensity, copDensity, cells);
      var m := new Simulation.Init(variant, space, curve, maxJailTerm, influence, legitimacy, n.agents);
      m.CreateEntities(n.agents, n.cops, traits, spots);
      r := Success(m);
    }

    /** The first `n` entities have been created: entity `k` has id `k`, is
        the `k`-th in turn order, is an agent with the traits drawn for it
        exactly when `k < agents`, and is shown on the cell it stands on. */
    ghost predicate Enrolled(n: nat, agents: nat, traits: nat -> (real, real))
      reads this`turtles, this`entities, grid
      requires Shaped()
    {
      |turtles| == n && |entities| == n && IdsIn(entities, turtles) && Unique(entities)
      && Agents(turtles, entities) == (if n < agents then n else agents)
      && forall k :: 0 <= k < n ==> Seated(k, agents, traits)
    }

    /** Entity `k` is the `k`-th newcomer, standing on the cell it occupies. */
    ghost predicate Seated(k: nat, agents: nat, traits: nat -> (real, real))
      reads this`turtles, this`entities, grid
      requires Shaped()
    {
      k < |turtles| && k < |entities|
      && entities[k] == k && turtles[k] == Newcomer(k, agents, traits, turtles[k].pos)
      && space.InBounds(turtles[k].pos) && At(turtles[k].pos) == Some(k)
    }

    /** `create_entities`: `agents` agents, then `cops` cops, appended to the
        entity list in id order and each placed on a free cell. Agent `i`
        takes `traits(i)` as its risk aversion and hardship; entity `i` is
        placed by the number `spots(i)`. */
    method CreateEntities(agents: nat, cops: nat, traits: nat -> (real, real), spots: nat -> nat)
      requires Consistent() && turtles == [] && entities == []
      requires agents + cops <= space.width * space.height
      requires forall i :: 0.0 <= traits(i).0 < 1.0 && 0.0 <= traits(i).1 < 1.0
      modifies this`turtles, this`entities, grid
      ensures Consistent() && Enrolled(agents + cops, agents, traits)
    {
      for i: nat := 0 to agents + cops
        invariant Consistent() && Enrolled(i, agents, traits)
      {
        CreateEntity(i, agents, traits, spots(i));
      }
    }

    /** One round of `create_entities`: entity `i` is created and placed by
        the number `spot`. */
    method CreateEntity(i: nat, agents: nat, traits: nat -> (real, real), spot: nat)
      requires Consistent() && Enrolled(i, agents, traits) && i < space.width * space.height
      requires 0.0 <= traits(i).0 < 1.0 && 0.0 <= traits(i).1 < 1.0
      modifies this`turtles, this`entities, grid
      ensures Consistent() && Enrolled(i + 1, agents, traits)
    {
      ghost var ts, free := turtles, Vacancies();
      if i < agents {
        AddEntity(Agent, traits(i).0, traits(i).1, spot);
      } else {
        AddEntity(Cop, 0.0, 0.0, spot);
      }
      ghost var c := Pick(free, spot);
      forall k | 0 <= k < i
        ensures Seated(k, agents, traits)
      {
        assert old(Seated(k, agents, traits));
        var p := ts[k].pos;
        assert old(grid[p.x, p.y]) == Some(k);
      }
      assert turtles[i].pos == c && At(c) == Some(i);
      assert turtles[i] == Newcomer(i, agents, traits, c);
      assert entities == old(entities) + [i] && |turtles| == i + 1;
    }

    /** `place_entity_randomly` followed by the append to `entities`. The
        source redraws a uniform cell until it finds an empty one, which
        picks uniformly among the empty cells; here `r` picks among them. */
    method AddEntity(kind: Kind, riskAversion: real, hardship: real, r: nat)
      requires Consistent() && |turtles| < space.width * space.height
      requires IdsIn(entities, turtles) && Unique(entities)
      requires kind == Agent ==> 0.0 <= riskAversion <= 1.0 && 0.0 <= hardship <= 1.0
      modifies this`turtles, this`entities, grid
      ensures Consistent() && IdsIn(entities, turtles) && Unique(entities)
      ensures Agents(turtles, entities) == Agents(old(turtles), old(entities)) + if kind == Agent then 1 else 0
      ensures forall x, y :: 0 <= x < space.width && 0 <= y < space.height && old(grid[x, y]).Some? ==>
                grid[x, y] == old(grid[x, y])
      ensures var free := old(Vacancies());
              |free| > 0
              && var c := Pick(free, r);
              turtles == old(turtles) + [NewTurtle(kind, riskAversion, hardship, c)]
              && entities == old(entities) + [|old(turtles)|]
              && grid[c.x, c.y] == Some(|old(turtles)|)
              && GridKeptExcept(c, c)
    {
      var free := FreeCells();
      FreeCellAvailable();
      var c := Pick(free, r);
      var t := NewTurtle(kind, riskAversion, hardship, c);
      var id := Enlist(t);
      Occupy(id, c);
      assert turtles == old(turtles) + [t];
    }

    /** Appends a new entity, which no cell shows yet, to the turtles and to
        the turn order. */
    method Enlist(t: Turtle) returns (id: nat)
      requires Consistent() && Sound(t) && IdsIn(entities, turtles) && Unique(entities)
      modifies this`turtles, this`entities
      ensures id == |old(turtles)| && turtles == old(turtles) + [t] && entities == old(entities) + [id]
      ensures Consistent() && OffGrid(id) && IdsIn(entities, turtles) && Unique(entities)
      ensures Agents(turtles, entities) == Agents(old(turtles), old(entities)) + if t.kind == Agent then 1 else 0
    {
      id := |turtles|;
      turtles := turtles + [t];
      AgentsSameKinds(old(turtles), turtles, entities);
      assert id !in multiset(entities);
      entities := entities + [id];
      assert entities[..|entities| - 1] == old(entities);
    }

    /** The empty cells, scanned in the order of `AllCells`. */
    method FreeCells() returns (free: seq<Cell>)
      requires Shaped()
      ensures free == Vacancies()
    {
      var all := space.AllCells();
      AllCellsExact(space);
      free := [];
      for i := 0 to |all|
        invariant free == VacantCells(all[..i])
      {
        var c := all[i];
        assert c in all;
        if grid[c.x, c.y].None? {
          free := free + [c];
        }
        assert all[..i + 1][..i] == all[..i];
      }
      assert all[..|all|] == all;
    }

    /** While fewer entities exist than there are cells, some cell is empty:
        every occupied cell is the position of a distinct entity. */
    lemma FreeCellAvailable()
      requires Consistent() && |turtles| < space.width * space.height
      ensures Vacancies() != []
    {
      var ts := turtles;
      var positions := seq(|ts|, j requires 0 <= j < |ts| => ts[j].pos);
      FreeCellExists(space, positions);
      var spare :| space.InBounds(spare) && spare !in positions;
      forall j | 0 <= j < |ts|
        ensures ts[j].pos != spare
      {
        assert positions[j] == ts[j].pos;
      }
      assert At(spare).None?;
      assert spare in Vacancies();
    }

    /** `compute_adjusted_hardship`: the total and count over one
        neighbourhood. */
    method NeighbourHardship(ts: seq<Turtle>, cells: seq<Cell>) returns (total: real, count: nat)
      requires Shaped() && Occupants(ts) && InGrid(space, cells)
      ensures (total, count) == HardshipNear(ts, cells)
    {
      total, count := 0.0, 0;
      for i := 0 to |cells|
        invariant (total, count) == HardshipNear(ts, cells[..i])
      {
        var c := cells[i];
        assert c in cells;
        var o := grid[c.x, c.y];
        if o.Some? && ts[o.value].kind == Agent {
          total := total + ts[o.value].hardship;
          count := count + 1;
        }
        assert cells[..i + 1][..i] == cells[..i];
      }
      assert cells[..|cells|] == cells;
    }

    /** `compute_adjusted_hardship`: every listed agent's adjusted hardship
        becomes the blend of its neighbours' mean hardship and its own. The
        mean is taken over every agent the grid shows in the neighbourhood,
        the agent itself included. Hardship is never written, so reading it
        from the records as they were before the pass is the same as reading
        it as the pass goes. */
    method ComputeAdjustedHardship()
      requires Consistent() && IdsIn(entities, turtles)
      modifies this`turtles
      ensures Consistent() && |turtles| == |old(turtles)|
      ensures forall i :: 0 <= i < |turtles| ==>
                turtles[i] == if i in entities then AdjustedTurtle(old(turtles), i) else old(turtles)[i]
    {
      forall i | 0 <= i < |turtles|
        ensures space.InBounds(turtles[i].pos)
      {
        assert Sound(turtles[i]);
      }
      AdjustAll();
      forall i | 0 <= i < |turtles|
        ensures Sound(turtles[i])
      {
        AdjustedSound(old(turtles), i);
      }
    }

    /** The loop of `compute_adjusted_hardship`, over the records as they
        were before the pass. */
    method AdjustAll()
      requires Shaped() && Indexed() && Occupants(turtles) && IdsIn(entities, turtles)
      requires forall i :: 0 <= i < |turtles| ==> space.InBounds(turtles[i].pos)
      modifies this`turtles
      ensures |turtles| == |old(turtles)|
      ensures forall i :: 0 <= i < |turtles| ==>
                turtles[i] == if i in entities then AdjustedTurtle(old(turtles), i) else old(turtles)[i]
    {
      var before := turtles;
      for k := 0 to |entities|
        invariant |turtles| == |before|
        invariant forall i :: 0 <= i < |turtles| ==>
                    turtles[i] == if i in entities[..k] then AdjustedTurtle(before, i) else before[i]
      {
        var e := entities[k];
        var adjusted := AdjustEntity(before, e);
        ghost var prev := turtles;
        turtles := turtles[e := adjusted];
        assert entities[..k + 1] == entities[..k] + [e];
        forall i | 0 <= i < |turtles|
          ensures turtles[i] == if i in entities[..k + 1] then AdjustedTurtle(before, i) else before[i]
        {
          if i != e {
            assert turtles[i] == prev[i];
          }
        }
      }
      assert entities[..|entities|] == entities;
    }

    /** One pass of the loop of `compute_adjusted_hardship`: entity `e` as
        the state `ts` before the pass leaves it. */
    method AdjustEntity(ts: seq<Turtle>, e: nat) returns (t: Turtle)
      requires Shaped() && Indexed() && Occupants(ts) && e < |ts| && space.InBounds(ts[e].pos)
      ensures t == AdjustedTurtle(ts, e)
    {
      t := ts[e];
      if t.kind == Agent {
        var p := t.pos;
        var total, count := NeighbourHardship(ts, neighborhoods[p.x, p.y]);
        if count > 0 {
          t := t.(adjustedHardship := Blend(Average(total, count), t.hardship, influence));
        }
      }
    }

    /** `move_agent`: a jailed entity stays put; any other leaves its cell
        and moves to the `r`-th open cell of its neighbourhood, or drops off
        the grid where it stands when no cell is open. */
    method MoveAgent(a: nat, r: nat)
      requires Consistent() && a < |turtles|
      modifies this`turtles, grid
      ensures Consistent() && |turtles| == |old(turtles)|
      ensures turtles[a] == old(turtles)[a].(pos := turtles[a].pos)
      ensures forall j :: 0 <= j < |turtles| && j != a ==> turtles[j] == old(turtles)[j]
      ensures old(turtles)[a].jailTerm > 0 ==> turtles == old(turtles) && unchanged(grid)
      ensures old(turtles)[a].jailTerm == 0 ==>
        var p := old(turtles)[a].pos;
        var open := old(OpenCells(turtles, neighborhoods[p.x, p.y], p));
        if open == [] then
          turtles == old(turtles) && grid[p.x, p.y] == None && GridKeptExcept(p, p)
        else
          var q := Pick(open, r);
          q in neighborhoods[p.x, p.y] && old(Open(turtles, q, p))
          && turtles == old(turtles)[a := old(turtles)[a].(pos := q)]
          && grid[q.x, q.y] == Some(a) && (q != p ==> grid[p.x, p.y] == None)
          && GridKeptExcept(p, q)
    {
      var agent := turtles[a];
      if agent.jailTerm > 0 {
        return;
      }
      var p := agent.pos;
      var open := OpenNeighbours(neighborhoods[p.x, p.y], p);
      Vacate(p);
      if open != [] {
        var q := Pick(open, r);
        assert q in neighborhoods[p.x, p.y];
        assert OffGrid(a);
        Occupy(a, q);
      }
    }

    /** No cell shows entity `a`. */
    ghost predicate OffGrid(a: nat)
      reads grid
      requires Shaped()
    {
      forall x, y :: 0 <= x < space.width && 0 <= y < space.height ==> grid[x, y] != Some(a)
    }

    /** `grid[x][y] = None`. */
    method Vacate(p: Cell)
      requires Consistent() && space.InBounds(p)
      modifies grid
      ensures Consistent() && grid[p.x, p.y] == None && GridKeptExcept(p, p)
    {
      grid[p.x, p.y] := None;
    }

    /** `grid[x][y] = entity` and `entity.position = (x, y)`, for an entity
        no cell shows any more. */
    method Occupy(a: nat, q: Cell)
      requires Consistent() && a < |turtles| && space.InBounds(q) && OffGrid(a)
      modifies this`turtles, grid
      ensures Consistent() && grid[q.x, q.y] == Some(a) && GridKeptExcept(q, q)
      ensures turtles == old(turtles)[a := old(turtles)[a].(pos := q)]
    {
      grid[q.x, q.y] := Some(a);
      turtles := turtles[a := turtles[a].(pos := q)];
    }

    /** The scan of `move_agent` for cells to move to. The source scans after
        clearing the mover's cell; scanning before gives the same list,
        because the mover's own cell counts as open. */
    method OpenNeighbours(nb: seq<Cell>, p: Cell) returns (open: seq<Cell>)
      requires Consistent() && InGrid(space, nb)
      ensures open == OpenCells(turtles, nb, p)
    {
      open := [];
      for i := 0 to |nb|
        invariant open == OpenCells(turtles, nb[..i], p)
      {
        var c := nb[i];
        assert c in nb;
        var o := grid[c.x, c.y];
        if c == p || o.None? || turtles[o.value].jailTerm > 0 {
          open := open + [c];
        }
        assert nb[..i + 1][..i] == nb[..i];
      }
      assert nb[..|nb|] == nb;
    }

    /** `estimate_arrest_probability`: the curve applied to the floor of
        cops over active agents plus one, counted on the neighbourhood of
        `c`; zero unless the cops outnumber the active agents. */
    method EstimateArrestProbability(c: Cell) returns (p: real)
      requires Consistent() && space.InBounds(c)
      ensures var n := Nearby(turtles, neighborhoods[c.x, c.y]);
              p == ArrestProbability(curve, n.cops, n.active)
              && (n.cops <= n.active ==> p == 0.0)
    {
      var nb := neighborhoods[c.x, c.y];
      var cops: nat, active: nat := 0, 0;
      for i := 0 to |nb|
        invariant Sighting(cops, active) == Nearby(turtles, nb[..i])
      {
        var d := nb[i];
        assert d in nb;
        var o := grid[d.x, d.y];
        if o.Some? {
          var t := turtles[o.value];
          if t.kind == Cop {
            cops := cops + 1;
          } else if t.active {
            active := active + 1;
          }
        }
        assert nb[..i + 1][..i] == nb[..i];
      }
      assert nb[..|nb|] == nb;
      p := curve(ArrestFactor(cops, active));
      NoRiskUnlessOutnumbered(curve, cops, active);
    }

    /** `determine_behavior`: a free agent becomes active exactly when its
        grievance, less its risk aversion times the estimated arrest
        probability, exceeds 0.1; nothing else changes. */
    method DetermineBehavior(a: nat)
      requires Consistent() && a < |turtles| && turtles[a].kind == Agent && turtles[a].jailTerm == 0
      modifies this`turtles
      ensures Consistent()
      ensures var p := old(turtles)[a].pos;
              turtles == old(turtles)[a := old(turtles)[a].(active := Decision(old(turtles), a, neighborhoods[p.x, p.y]))]
    {
      var agent := turtles[a];
      var grievance := Grievance(Felt(agent), legitimacy);
      var p := EstimateArrestProbability(agent.pos);
      var active := Activates(grievance, agent.riskAversion, p);
      turtles := turtles[a := agent.(active := active)];
    }

    /** `enforce`: the cop picks the `r`-th active entity of its
        neighbourhood, makes it quiet, jails it (for `term` ticks, or for
        `FixedJailTerm` under the fixed-term variants) and takes its cell;
        with nobody active in sight nothing happens. */
    method Enforce(cop: nat, r: nat, term: nat)
      requires Consistent() && cop < |turtles| && turtles[cop].kind == Cop
      requires term <= maxJailTerm
      modifies this`turtles, grid
      ensures Consistent() && |turtles| == |old(turtles)|
      ensures forall j :: 0 <= j < |turtles| ==> turtles[j].kind == old(turtles)[j].kind
      ensures forall j :: 0 <= j < |turtles| && j != cop && !old(turtles)[j].active ==> turtles[j] == old(turtles)[j]
      ensures var p := old(turtles)[cop].pos;
              var targets := old(Targets(turtles, neighborhoods[p.x, p.y]));
              if targets == [] then turtles == old(turtles) && unchanged(grid)
              else
                var (t, c) := Pick(targets, r);
                t != cop && c in neighborhoods[p.x, p.y] && old(grid[c.x, c.y]) == Some(t) && old(turtles)[t].active
                && turtles == old(turtles)[t := old(turtles)[t].(active := false, jailTerm := Sentence(term))]
                                          [cop := old(turtles)[cop].(pos := c)]
                && grid[c.x, c.y] == Some(cop) && (c != p ==> grid[p.x, p.y] == None)
                && GridKeptExcept(p, c)
    {
      var p := turtles[cop].pos;
      var targets := ActiveTargets(neighborhoods[p.x, p.y]);
      if targets != [] {
        var (t, c) := Pick(targets, r);
        assert c in neighborhoods[p.x, p.y];
        assert Sound(turtles[t]);
        Jail(t, term);
        Vacate(p);
        assert OffGrid(cop);
        Occupy(cop, c);
        ArrestKeepsOthers(old(turtles), t, cop, turtles);
      }
    }

    /** The arrest itself: the target turns quiet and serves its sentence. */
    method Jail(t: nat, term: nat)
      requires Consistent() && t < |turtles| && turtles[t].kind == Agent && term <= maxJailTerm
      modifies this`turtles
      ensures Consistent()
      ensures turtles == old(turtles)[t := old(turtles)[t].(active := false, jailTerm := Sentence(term))]
    {
      turtles := turtles[t := turtles[t].(active := false, jailTerm := Sentence(term))];
    }

    /** The scan of `enforce` for active entities in sight. */
    method ActiveTargets(nb: seq<Cell>) returns (targets: seq<(nat, Cell)>)
      requires Consistent() && InGrid(space, nb)
      ensures targets == Targets(turtles, nb)
    {
      targets := [];
      for i := 0 to |nb|
        invariant targets == Targets(turtles, nb[..i])
      {
        var c := nb[i];
        assert c in nb;
        var o := grid[c.x, c.y];
        if o.Some? && turtles[o.value].active {
          targets := targets + [(o.value, c)];
        }
        assert nb[..i + 1][..i] == nb[..i];
      }
      assert nb[..|nb|] == nb;
    }

    /** One entity's turn in the main loop of `step`: a jailed entity only
        serves one tick of its term; any other moves, then an agent decides
        whether to rebel and a cop tries an arrest. */
    method TakeTurn(e: nat, d: Draw) returns (ghost arrested: Option<nat>)
      requires Consistent() && e < |turtles| && d.term <= maxJailTerm
      modifies this`turtles, grid
      ensures Consistent() && |turtles| == |old(turtles)|
      ensures forall j :: 0 <= j < |turtles| ==> turtles[j].kind == old(turtles)[j].kind
      ensures forall j :: 0 <= j < |turtles| ==> Traits(turtles[j]) == Traits(old(turtles)[j])
      ensures old(turtles)[e].jailTerm > 0 ==>
                turtles == old(turtles)[e := old(turtles)[e].(jailTerm := old(turtles)[e].jailTerm - 1)]
                && unchanged(grid)
      ensures forall j :: 0 <= j < |turtles| && j != e && !old(turtles)[j].active ==> turtles[j] == old(turtles)[j]
      ensures old(turtles)[e].jailTerm == 0 && old(turtles)[e].kind == Agent ==> AgentTurned(e, d)
      ensures old(turtles)[e].jailTerm == 0 && old(turtles)[e].kind == Cop ==> CopTurned(e, d, arrested)
    {
      arrested := None;
      if turtles[e].jailTerm > 0 {
        turtles := turtles[e := turtles[e].(jailTerm := turtles[e].jailTerm - 1)];
        return;
      }
      if turtles[e].kind == Agent {
        AgentTurn(e, d);
      } else {
        arrested := CopTurn(e, d);
      }
    }

    /** A free agent's turn: `move_agent`, then `determine_behavior`. */
    method AgentTurn(e: nat, d: Draw)
      requires Consistent() && e < |turtles| && turtles[e].kind == Agent && turtles[e].jailTerm == 0
      modifies this`turtles, grid
      ensures Consistent() && |turtles| == |old(turtles)|
      ensures forall j :: 0 <= j < |turtles| ==> Traits(turtles[j]) == Traits(old(turtles)[j])
      ensures forall j :: 0 <= j < |turtles| && j != e ==> turtles[j] == old(turtles)[j]
      ensures AgentTurned(e, d)
    {
      assert Sound(turtles[e]);
      var p := turtles[e].pos;
      ghost var open := OpenCells(turtles, neighborhoods[p.x, p.y], p) != [];
      ghost var q := Landing(turtles, e, d.move);
      ghost var moved := turtles[e := turtles[e].(pos := q)];
      MoveAgent(e, d.move);
      assert turtles == moved;
      assert MovedOnGrid(e, p, q, open);
      DetermineBehavior(e);
    }

    /** A free cop's turn: `move_agent`, then `enforce`; `arrested` names
        the entity it jailed, if any. */
    method CopTurn(e: nat, d: Draw) returns (ghost arrested: Option<nat>)
      requires Consistent() && e < |turtles| && turtles[e].kind == Cop && d.term <= maxJailTerm
      modifies this`turtles, grid
      ensures Consistent() && |turtles| == |old(turtles)|
      ensures forall j :: 0 <= j < |turtles| ==> turtles[j].kind == old(turtles)[j].kind
      ensures forall j :: 0 <= j < |turtles| ==> Traits(turtles[j]) == Traits(old(turtles)[j])
      ensures forall j :: 0 <= j < |turtles| && j != e && !old(turtles)[j].active ==> turtles[j] == old(turtles)[j]
      ensures CopTurned(e, d, arrested)
    {
      assert Sound(turtles[e]);
      var p := turtles[e].pos;
      ghost var open := OpenCells(turtles, neighborhoods[p.x, p.y], p) != [];
      ghost var q := Landing(turtles, e, d.move);
      ghost var moved := turtles[e := turtles[e].(pos := q)];
      MoveAgent(e, d.move);
      assert turtles == moved;
      assert MovedOnGrid(e, p, q, open);
      arrested := Arrest(e, d);
      if arrested.Some? {
        assert old(turtles)[arrested.value] == moved[arrested.value];
      }
    }

    /** `enforce`, with `arrested` naming the entity it jailed, if any. */
    method Arrest(e: nat, d: Draw) returns (ghost arrested: Option<nat>)
      requires Consistent() && e < |turtles| && turtles[e].kind == Cop && d.term <= maxJailTerm
      modifies this`turtles, grid
      ensures Consistent() && |turtles| == |old(turtles)|
      ensures forall j :: 0 <= j < |turtles| ==> turtles[j].kind == old(turtles)[j].kind
      ensures forall j :: 0 <= j < |turtles| ==> Traits(turtles[j]) == Traits(old(turtles)[j])
      ensures forall j :: 0 <= j < |turtles| && j != e && !old(turtles)[j].active ==> turtles[j] == old(turtles)[j]
      ensures var q := old(turtles)[e].pos;
              match arrested
              case None =>
                turtles == old(turtles) && unchanged(grid) && Targets(turtles, neighborhoods[q.x, q.y]) == []
              case Some(t) =>
                t < |turtles| && t != e && old(turtles)[t].active
                && var c := old(turtles)[t].pos;
                c in neighborhoods[q.x, q.y] && old(grid[c.x, c.y]) == Some(t)
                && turtles == old(turtles)[t := old(turtles)[t].(active := false, jailTerm := Sentence(d.term))]
                                          [e := old(turtles)[e].(pos := c)]
                && grid[c.x, c.y] == Some(e) && (c != q ==> grid[q.x, q.y] == None) && GridKeptExcept(q, c)
    {
      var q := turtles[e].pos;
      ghost var targets := Targets(turtles, neighborhoods[q.x, q.y]);
      if targets == [] {
        arrested := None;
      } else {
        ghost var picked := Pick(targets, d.arrest);
        assert At(picked.1) == Some(picked.0);
        assert turtles[picked.0].pos == picked.1;
        arrested := Some(picked.0);
      }
      Enforce(e, d.arrest, d.term);
    }

    /** The counting loop at the end of `step`. */
    method CountEntities() returns (t: Tally)
      requires IdsIn(entities, turtles)
      ensures t == Count(turtles, entities)
    {
      t := Tally(0, 0, 0, 0);
      for i := 0 to |entities|
        invariant t == Count(turtles, entities[..i])
      {
        var e := turtles[entities[i]];
        if e.jailTerm > 0 {
          t := t.(jail := t.jail + 1);
        } else if e.kind == Agent {
          if e.active {
            t := t.(active := t.active + 1);
          } else {
            t := t.(quiet := t.quiet + 1);
          }
        } else {
          t := t.(cop := t.cop + 1);
        }
        assert entities[..i + 1][..i] == entities[..i];
      }
      assert entities[..|entities|] == entities;
    }

    /** The counting loop of `step`, which accounts for every agent once. */
    method TallyAgents() returns (t: Tally)
      requires Consistent() && IdsIn(entities, turtles) && Agents(turtles, entities) == numAgents
      ensures t == Count(turtles, entities) && t.quiet + t.jail + t.active == numAgents
    {
      t := CountEntities();
      assert CopsFree(turtles, entities) by {
        forall k | 0 <= k < |entities| && turtles[entities[k]].kind == Cop
          ensures turtles[entities[k]].jailTerm == 0
        {
          assert Sound(turtles[entities[k]]);
        }
      }
      CountConserves(turtles, entities);
    }

    /** The cop-withdrawal loop of `step`: the first cop in turn order leaves
        the list and its cell is cleared. */
    method WithdrawCop()
      requires Consistent() && IdsIn(entities, turtles)
      modifies this`entities, grid
      ensures Consistent()
      ensures entities == WithoutFirstCop(turtles, old(entities))
      ensures match FirstCop(turtles, old(entities))
              case None => unchanged(grid)
              case Some(i) =>
                var p := turtles[old(entities)[i]].pos;
                grid[p.x, p.y] == None && GridKeptExcept(p, p)
    {
      var i := 0;
      while i < |entities| && turtles[entities[i]].kind != Cop
        invariant 0 <= i <= |entities|
        invariant forall k :: 0 <= k < i ==> turtles[entities[k]].kind == Agent
      {
        i := i + 1;
      }
      if i < |entities| {
        var cop := entities[i];
        entities := entities[..i] + entities[i + 1..];
        var p := turtles[cop].pos;
        grid[p.x, p.y] := None;
      }
    }

    /** The turn loop of `step`: every entity takes its turn, in turn order,
        with its own draws. A jailed entity only serves one tick of its term,
        and nothing else touches it before or after its turn. */
    method TakeTurns(draws: seq<Draw>)
      requires Valid() && Distinct(entities) && |draws| == |entities|
      requires forall k :: 0 <= k < |draws| ==> draws[k].term <= maxJailTerm
      modifies this`turtles, grid
      ensures Valid() && |turtles| == |old(turtles)|
      ensures forall j :: 0 <= j < |turtles| ==> Traits(turtles[j]) == Traits(old(turtles)[j])
      ensures forall k :: 0 <= k < |entities| && old(turtles)[entities[k]].jailTerm > 0 ==>
                turtles[entities[k]] == old(turtles)[entities[k]].(jailTerm := old(turtles)[entities[k]].jailTerm - 1)
    {
      var order := entities;
      forall k | 0 <= k < |order| && turtles[order[k]].jailTerm > 0
        ensures !turtles[order[k]].active
      {
        assert Sound(turtles[order[k]]);
      }
      for i := 0 to |order|
        invariant Consistent()
        invariant |turtles| == |old(turtles)|
        invariant forall j :: 0 <= j < |turtles| ==> Traits(turtles[j]) == Traits(old(turtles)[j])
        invariant forall k :: i <= k < |order| && old(turtles)[order[k]].jailTerm > 0 ==>
                    turtles[order[k]] == old(turtles)[order[k]]
        invariant forall k :: 0 <= k < i && old(turtles)[order[k]].jailTerm > 0 ==>
                    turtles[order[k]] == old(turtles)[order[k]].(jailTerm := old(turtles)[order[k]].jailTerm - 1)
      {
        TurnAt(old(turtles), order, i, draws[i]);
      }
      forall j | 0 <= j < |turtles|
        ensures turtles[j].kind == old(turtles)[j].kind
      {
        assert Traits(turtles[j]) == Traits(old(turtles)[j]);
      }
      AgentsSameKinds(old(turtles), turtles, entities);
    }

    /** The `i`-th turn of the loop of `step`, from the records `before` the
        loop: a jailed entity's turn only counts its term down, no turn
        touches any other jailed entity, and no turn changes anyone's traits. */
    method TurnAt(ghost before: seq<Turtle>, order: seq<nat>, i: nat, d: Draw)
      requires Consistent() && IdsIn(order, turtles) && Distinct(order) && i < |order| && d.term <= maxJailTerm
      requires |turtles| == |before|
      requires forall k :: 0 <= k < |order| && before[order[k]].jailTerm > 0 ==> !before[order[k]].active
      requires forall j :: 0 <= j < |turtles| ==> Traits(turtles[j]) == Traits(before[j])
      requires forall k :: i <= k < |order| && before[order[k]].jailTerm > 0 ==> turtles[order[k]] == before[order[k]]
      requires forall k :: 0 <= k < i && before[order[k]].jailTerm > 0 ==>
                 turtles[order[k]] == before[order[k]].(jailTerm := before[order[k]].jailTerm - 1)
      modifies this`turtles, grid
      ensures Consistent() && |turtles| == |before|
      ensures forall j :: 0 <= j < |turtles| ==> Traits(turtles[j]) == Traits(before[j])
      ensures forall k :: i + 1 <= k < |order| && before[order[k]].jailTerm > 0 ==> turtles[order[k]] == before[order[k]]
      ensures forall k :: 0 <= k < i + 1 && before[order[k]].jailTerm > 0 ==>
                turtles[order[k]] == before[order[k]].(jailTerm := before[order[k]].jailTerm - 1)
    {
      ghost var arrested := TakeTurn(order[i], d);
      forall k | 0 <= k < |order| && k != i && before[order[k]].jailTerm > 0
        ensures turtles[order[k]] == old(turtles)[order[k]]
      {
        assert order[k] != order[i];
      }
    }

    /** The end of `step`'s bookkeeping: count the entities in turn order,
        withdraw the first cop (where the variant does), and append the counts
        to the series. */
    method RecordTick()
      requires Consistent() && IdsIn(entities, turtles) && Unique(entities)
      requires Agents(turtles, entities) == numAgents && Recorded(data)
      modifies this`entities, this`data, grid
      ensures Valid() && turtles == old(turtles)
      ensures var t := Count(turtles, old(entities));
              data == Logged(old(data), t) && t.quiet + t.jail + t.active == numAgents
      ensures entities == if variant.withdrawCops then WithoutFirstCop(turtles, old(entities)) else old(entities)
      ensures !variant.withdrawCops ==> unchanged(grid)
      ensures variant.withdrawCops ==>
                match FirstCop(turtles, old(entities))
                case None => unchanged(grid)
                case Some(i) =>
                  var p := turtles[old(entities)[i]].pos;
                  grid[p.x, p.y] == None && GridKeptExcept(p, p)
    {
      var t := TallyAgents();
      LoggedRecorded(data, t);
      if variant.withdrawCops {
        ghost var listed := entities;
        WithdrawCop();
        WithoutFirstCopKeepsAgents(turtles, listed);
      }
      data := Logged(data, t);
    }

    /** The series after one more tick is recorded. */
    function Logged(h: History, t: Tally): (r: History)
      ensures |r.quiet| == |h.quiet| + 1
    {
      History(h.quiet + [t.quiet], h.jail + [t.jail], h.active + [t.active],
              if variant.withdrawCops then h.cop + [t.cop] else h.cop)
    }

    /** Recording a tally that accounts for every agent keeps the series
        recorded. */
    lemma LoggedRecorded(h: History, t: Tally)
      requires Recorded(h) && t.quiet + t.jail + t.active == numAgents
      ensures Recorded(Logged(h, t))
    {
      var r := Logged(h, t);
      forall k | 0 <= k < |r.quiet|
        ensures r.quiet[k] + r.jail[k] + r.active[k] == numAgents
      {
        if k < |h.quiet| {
          assert r.quiet[k] == h.quiet[k] && r.jail[k] == h.jail[k] && r.active[k] == h.active[k];
        }
      }
    }

    /** The start of `step`: adjust hardship (where the variant does), then
        take the shuffled turn order `order`. Only adjusted hardships change. */
    method Prepare(order: seq<nat>)
      requires Valid() && multiset(order) == multiset(entities)
      modifies this`turtles, this`entities
      ensures Valid() && entities == order && Distinct(order) && |turtles| == |old(turtles)|
      ensures forall j :: 0 <= j < |turtles| ==>
                turtles[j] == old(turtles)[j].(adjustedHardship := turtles[j].adjustedHardship)
      ensures !variant.adjustHardship ==> turtles == old(turtles)
      ensures variant.adjustHardship ==> forall i :: 0 <= i < |turtles| ==>
                turtles[i] == if i in old(entities) then AdjustedTurtle(old(turtles), i) else old(turtles)[i]
    {
      if variant.adjustHardship {
        ComputeAdjustedHardship();
      }
      AgentsSameKinds(old(turtles), turtles, entities);
      IdsInPermutation(turtles, entities, order);
      AgentsPermutation(turtles, entities, order);
      entities := order;
      UniqueDistinct(order);
    }

    /** `step`: adjust hardship (where the variant does), take turns in the
        shuffled order `order`, append the counts, withdraw a cop (where the
        variant does), decay legitimacy (where the variant does), and count
        the tick. Every recorded tick accounts for every agent. */
    method Step(order: seq<nat>, draws: seq<Draw>)
      requires Valid()
      requires multiset(order) == multiset(entities)
      requires |draws| == |order|
      requires forall k :: 0 <= k < |draws| ==> draws[k].term <= maxJailTerm
      modifies this`turtles, this`entities, this`data, this`legitimacy, this`tick, grid
      ensures Valid()
      ensures IdsIn(order, turtles) && |turtles| == |old(turtles)|
      ensures var t := Count(turtles, order);
              data == Logged(old(data), t) && t.quiet + t.jail + t.active == numAgents
      ensures entities == if variant.withdrawCops then WithoutFirstCop(turtles, order) else order
      ensures legitimacy == if variant.legitimacyDecay then Decayed(old(legitimacy)) else old(legitimacy)
      ensures tick == old(tick) + 1
      ensures forall k :: 0 <= k < |order| && old(turtles)[order[k]].jailTerm > 0 ==>
                turtles[order[k]].jailTerm == old(turtles)[order[k]].jailTerm - 1
                && turtles[order[k]].pos == old(turtles)[order[k]].pos && !turtles[order[k]].active
      ensures forall i :: 0 <= i < |turtles| ==>
                Traits(turtles[i]) == Traits(if variant.adjustHardship && i in old(entities)
                                             then old(AdjustedTurtle(turtles, i)) else old(turtles)[i])
      ensures variant.withdrawCops && FirstCop(turtles, order).Some? ==>
                var p := turtles[order[FirstCop(turtles, order).value]].pos;
                grid[p.x, p.y] == None
    {
      Turns(order, draws);
      Conclude();
    }

    /** The last part of `step`: append the counts, withdraw a cop (where
        the variant does), then decay legitimacy and count the tick. */
    method Conclude()
      requires Valid()
      modifies this`entities, this`data, this`legitimacy, this`tick, grid
      ensures Valid() && turtles == old(turtles)
      ensures var t := Count(turtles, old(entities));
              data == Logged(old(data), t) && t.quiet + t.jail + t.active == numAgents
      ensures entities == if variant.withdrawCops then WithoutFirstCop(turtles, old(entities)) else old(entities)
      ensures !variant.withdrawCops ==> unchanged(grid)
      ensures variant.withdrawCops ==>
                match FirstCop(turtles, old(entities))
                case None => unchanged(grid)
                case Some(i) =>
                  var p := turtles[old(entities)[i]].pos;
                  grid[p.x, p.y] == None && GridKeptExcept(p, p)
      ensures legitimacy == if variant.legitimacyDecay then Decayed(old(legitimacy)) else old(legitimacy)
      ensures tick == old(tick) + 1
    {
      RecordTick();
      Advance();
    }

    /** The first half of `step`: adjust hardship, shuffle into `order`, and
        let every entity take its turn. */
    method Turns(order: seq<nat>, draws: seq<Draw>)
      requires Valid()
      requires multiset(order) == multiset(entities)
      requires |draws| == |order|
      requires forall k :: 0 <= k < |draws| ==> draws[k].term <= maxJailTerm
      modifies this`turtles, this`entities, grid
      ensures Valid() && entities == order && |turtles| == |old(turtles)|
      ensures forall k :: 0 <= k < |order| && old(turtles)[order[k]].jailTerm > 0 ==>
                turtles[order[k]].jailTerm == old(turtles)[order[k]].jailTerm - 1
                && turtles[order[k]].pos == old(turtles)[order[k]].pos && !turtles[order[k]].active
      ensures forall i :: 0 <= i < |turtles| ==>
                Traits(turtles[i]) == Traits(if variant.adjustHardship && i in old(entities)
                                             then old(AdjustedTurtle(turtles, i)) else old(turtles)[i])
    {
      Prepare(order);
      TakeTurns(draws);
    }

    /** The last lines of `step`: legitimacy decays (where the variant does)
        and the tick counter moves on. */
    method Advance()
      requires Valid()
      modifies this`legitimacy, this`tick
      ensures Valid() && turtles == old(turtles) && entities == old(entities) && data == old(data)
      ensures legitimacy == if variant.legitimacyDecay then Decayed(old(legitimacy)) else old(legitimacy)
      ensures tick == old(tick) + 1
    {
      if variant.legitimacyDecay && legitimacy > 0.0 {
        legitimacy := legitimacy - LegitimacyStep;
      }
      tick := tick + 1;
    }
  }
}
