/** The grid-less engine of `src/model_v4.5_lwz.py`: entities carry their
    own positions on a 40 x 40 torus, every neighbourhood query scans the
    whole entity list with a toroidal Chebyshev test, entities are visited
    in list order, and a move retries random offsets until one lands on an
    allowed cell. */
module ScanModel {
  import opened Wrappers
  import opened Torus
  import opened Rules

  /** The side of the square torus the script hard-codes. */
  const Side: int := 40

  /** The recorded series `data`. */
  datatype Series = Series(quiet: seq<nat>, jail: seq<nat>, active: seq<nat>)

  /** The random numbers one entity's turn consumes: the offsets its move
      tries in order, the index of the agent it arrests, and the jail term. */
  datatype Draw = Draw(tries: seq<Offset>, arrest: nat, term: nat)

  // ---------------------------------------------------------------------
  // The toroidal Chebyshev neighbourhood

  function Abs(n: int): nat
  {
    if n < 0 then -n else n
  }

  function Min(a: int, b: int): int
  {
    if a <= b then a else b
  }

  /** `min(abs(a - b), n - abs(a - b))`: the distance along one wrapped axis. */
  function AxisDistance(a: int, b: int, n: int): int
  {
    Min(Abs(a - b), n - Abs(a - b))
  }

  /** `is_neighbor`: both wrapped distances are within vision. */
  predicate IsNeighbor(s: Space, c: Cell, d: Cell)
  {
    AxisDistance(c.x, d.x, s.width) <= s.vision && AxisDistance(c.y, d.y, s.height) <= s.vision
  }

  /** Every cell neighbours itself. */
  lemma NeighborReflexive(s: Space, c: Cell)
    requires s.Valid()
    ensures IsNeighbor(s, c, c)
  {
  }

  /** The test does not depend on which cell asks. */
  lemma NeighborSymmetric(s: Space, c: Cell, d: Cell)
    ensures IsNeighbor(s, c, d) <==> IsNeighbor(s, d, c)
  {
    assert Abs(c.x - d.x) == Abs(d.x - c.x) && Abs(c.y - d.y) == Abs(d.y - c.y);
  }

  /** Opposite corners touch across both seams once vision is at least 1. */
  lemma CornersTouch(s: Space)
    requires s.Valid() && 1 <= s.vision
    ensures IsNeighbor(s, Cell(0, 0), Cell(s.width - 1, s.height - 1))
  {
  }

  /** One wrapped step of at most `v` along an axis stays within distance `v`. */
  lemma AxisReach(a: int, o: int, n: int, v: int)
    requires 0 < n && 0 <= a < n && -v <= o <= v
    ensures AxisDistance(a, (a + o) % n, n) <= v
  {
    var b := (a + o) % n;
    if o <= -n || n <= o {
      assert n - Abs(a - b) <= n;
    } else if a + o < 0 {
      DivModUnique(a + o, n, -1, a + o + n);
      assert n - Abs(a - b) == -o;
    } else if a + o < n {
      WrapInRange(a + o, n);
    } else {
      DivModUnique(a + o, n, 1, a + o - n);
      assert n - Abs(a - b) == o;
    }
  }

  /** Conversely, a cell within distance `v` along an axis is one wrapped
      step of at most `v` away. */
  lemma AxisOffset(a: int, b: int, n: int, v: int) returns (o: int)
    requires 0 < n && 0 <= a < n && 0 <= b < n && AxisDistance(a, b, n) <= v
    ensures -v <= o <= v && (a + o) % n == b
  {
    if Abs(a - b) <= v {
      o := b - a;
      WrapInRange(b, n);
    } else if a < b {
      o := b - a - n;
      DivModUnique(b - n, n, -1, b);
    } else {
      o := b - a + n;
      DivModUnique(b + n, n, 1, b);
    }
  }

  /** A move by an offset within vision always lands on a neighbour. */
  lemma OffsetReachesNeighbor(s: Space, c: Cell, o: Offset)
    requires s.Valid() && s.InBounds(c) && -s.vision <= o.dx <= s.vision && -s.vision <= o.dy <= s.vision
    ensures IsNeighbor(s, c, s.Wrap(c.x + o.dx, c.y + o.dy))
  {
    AxisReach(c.x, o.dx, s.width, s.vision);
    AxisReach(c.y, o.dy, s.height, s.vision);
  }

  /** Every neighbour is reached by some offset within vision, so the cells a
      move can try are exactly the neighbours of the mover's cell. */
  lemma NeighborOffset(s: Space, c: Cell, d: Cell) returns (o: Offset)
    requires s.Valid() && s.InBounds(c) && s.InBounds(d) && IsNeighbor(s, c, d)
    ensures -s.vision <= o.dx <= s.vision && -s.vision <= o.dy <= s.vision
    ensures s.Wrap(c.x + o.dx, c.y + o.dy) == d
  {
    var dx := AxisOffset(c.x, d.x, s.width, s.vision);
    var dy := AxisOffset(c.y, d.y, s.height, s.vision);
    o := Offset(dx, dy);
  }

  // ---------------------------------------------------------------------
  // Scans over the entity list

  /** `is_position_valid`: no cop and no free agent stands on `c`. */
  predicate Allowed(ts: seq<Turtle>, c: Cell)
  {
    forall k :: 0 <= k < |ts| && ts[k].pos == c ==> ts[k].kind == Agent && ts[k].jailTerm > 0
  }

  /** A free entity never moves onto its own cell: it blocks that cell itself. */
  lemma MoverLeaves(ts: seq<Turtle>, i: nat, c: Cell)
    requires i < |ts| && ts[i].jailTerm == 0 && Allowed(ts, c)
    ensures c != ts[i].pos
  {
  }

  /** The cell the retry loop of `move_agent` settles on: the first try that
      lands on an allowed cell, if any. */
  function Destination(s: Space, ts: seq<Turtle>, c: Cell, tries: seq<Offset>): Option<Cell>
    requires s.Valid()
  {
    if tries == [] then None
    else if Lands(s, ts, c, tries[0]) then Some(s.Wrap(c.x + tries[0].dx, c.y + tries[0].dy))
    else Destination(s, ts, c, tries[1..])
  }

  /** Whether the offset `o` from `c` reaches an allowed cell. */
  predicate Lands(s: Space, ts: seq<Turtle>, c: Cell, o: Offset)
    requires s.Valid()
  {
    Allowed(ts, s.Wrap(c.x + o.dx, c.y + o.dy))
  }

  /** The destination is an allowed neighbour of the mover's cell. */
  lemma {:induction false} DestinationAllowed(s: Space, ts: seq<Turtle>, c: Cell, tries: seq<Offset>)
    requires s.Valid() && s.InBounds(c)
    requires forall k :: 0 <= k < |tries| ==> -s.vision <= tries[k].dx <= s.vision && -s.vision <= tries[k].dy <= s.vision
    ensures Destination(s, ts, c, tries).Some? ==>
              var d := Destination(s, ts, c, tries).value;
              Allowed(ts, d) && IsNeighbor(s, c, d) && s.InBounds(d)
  {
    if tries != [] {
      if Lands(s, ts, c, tries[0]) {
        OffsetReachesNeighbor(s, c, tries[0]);
      } else {
        DestinationAllowed(s, ts, c, tries[1..]);
      }
    }
  }

  /** The retry loop settles exactly when some try lands on an allowed cell. */
  lemma {:induction false} DestinationFound(s: Space, ts: seq<Turtle>, c: Cell, tries: seq<Offset>)
    requires s.Valid()
    ensures Destination(s, ts, c, tries).Some? <==>
              exists k :: 0 <= k < |tries| && Lands(s, ts, c, tries[k])
  {
    if tries == [] {
    } else if Lands(s, ts, c, tries[0]) {
      assert Destination(s, ts, c, tries).Some?;
    } else {
      var rest := tries[1..];
      assert Destination(s, ts, c, tries) == Destination(s, ts, c, rest);
      DestinationFound(s, ts, c, rest);
      forall k | 0 <= k < |tries| && Lands(s, ts, c, tries[k])
        ensures Destination(s, ts, c, rest).Some?
      {
        assert rest[k - 1] == tries[k];
      }
      if Destination(s, ts, c, rest).Some? {
        var k :| 0 <= k < |rest| && Lands(s, ts, c, rest[k]);
        assert tries[k + 1] == rest[k];
      }
    }
  }

  /** What `estimate_arrest_probability` counts around `c`: cops, and active
      agents, among the entities within the Chebyshev neighbourhood. */
  function Seen(s: Space, ts: seq<Turtle>, c: Cell): (n: Sighting)
    ensures n.cops + n.active <= |ts|
  {
    if ts == [] then Sighting(0, 0)
    else
      var n := Seen(s, ts[..|ts| - 1], c);
      var e := ts[|ts| - 1];
      if !IsNeighbor(s, c, e.pos) then n
      else if e.kind == Cop then n.(cops := n.cops + 1)
      else if e.active then n.(active := n.active + 1)
      else n
  }

  /** An active agent counts itself among the active agents around its own cell. */
  lemma {:induction false} SelfCounted(s: Space, ts: seq<Turtle>, a: nat)
    requires s.Valid() && a < |ts| && ts[a].kind == Agent && ts[a].active
    ensures Seen(s, ts, ts[a].pos).active >= 1
  {
    var c := ts[a].pos;
    NeighborReflexive(s, c);
    if a < |ts| - 1 {
      SelfCounted(s, ts[..|ts| - 1], a);
    }
  }

  /** `enforce`'s scan of `entities[:num_agents]`: the ids of the active
      agents within the cop's neighbourhood, in list order. */
  function Suspects(s: Space, ts: seq<Turtle>, c: Cell, n: nat): (r: seq<nat>)
    requires n <= |ts|
    ensures forall k :: k in r ==> k < n && ts[k].kind == Agent && ts[k].active && IsNeighbor(s, c, ts[k].pos)
    ensures forall k :: 0 <= k < n && ts[k].kind == Agent && ts[k].active && IsNeighbor(s, c, ts[k].pos) ==> k in r
  {
    if n == 0 then []
    else
      var e := ts[n - 1];
      if e.kind == Agent && e.active && IsNeighbor(s, c, e.pos) then Suspects(s, ts, c, n - 1) + [n - 1]
      else Suspects(s, ts, c, n - 1)
  }

  /** Taking the `j`-th element out of a list without repeats removes that
      element and keeps every other one. */
  lemma RemoveAtMembers<T>(s: seq<T>, j: nat)
    requires Distinct(s) && j < |s|
    ensures var rest := s[..j] + s[j + 1..];
            |rest| == |s| - 1 && Distinct(rest) && forall x :: x in rest <==> x in s && x != s[j]
  {
    var rest := s[..j] + s[j + 1..];
    forall x | x in s && x != s[j]
      ensures x in rest
    {
      var i :| 0 <= i < |s| && s[i] == x;
      if i < j {
        assert rest[i] == x;
      } else {
        assert rest[i - 1] == x;
      }
    }
    forall x | x in rest
      ensures x in s && x != s[j]
    {
      var i :| 0 <= i < |rest| && rest[i] == x;
      if i < j {
        assert s[i] == x;
      } else {
        assert s[i + 1] == x;
      }
    }
    forall a, b | 0 <= a < b < |rest|
      ensures rest[a] != rest[b]
    {
      var a', b' := if a < j then a else a + 1, if b < j then b else b + 1;
      assert rest[a] == s[a'] && rest[b] == s[b'];
    }
  }

  /** The agents among the first `n` entities. */
  function AgentsUpTo(numAgents: nat, n: nat): nat
  {
    if n < numAgents then n else numAgents
  }

  class Scan {
    const space: Space
    /** `n => 1 - exp(-k * n)`. */
    const curve: nat -> real
    const legitimacy: real
    const maxJailTerm: nat
    /** The first `numAgents` entities are the agents, the rest the cops. */
    const numAgents: nat
    var entities: seq<Turtle>
    var data: Series

    // -------------------------------------------------------------------
    // Invariants

    /** What holds of every entity at all times: it stands on the torus,
        cops are never active or jailed, jailed agents are quiet, no term
        exceeds the maximum, and an agent's traits lie in [0, 1]. */
    ghost predicate Sound(t: Turtle)
    {
      space.InBounds(t.pos)
      && (t.kind == Cop ==> !t.active && t.jailTerm == 0)
      && (t.jailTerm > 0 ==> !t.active)
      && t.jailTerm <= maxJailTerm
      && (t.kind == Agent ==> 0.0 <= t.riskAversion <= 1.0 && 0.0 <= t.hardship <= 1.0)
    }

    ghost predicate Staffed(ts: seq<Turtle>)
    {
      numAgents <= |ts| && forall k :: 0 <= k < |ts| ==> (ts[k].kind == Agent <==> k < numAgents)
    }

    /** Every recorded tick accounts for every agent exactly once. */
    ghost predicate Recorded(h: Series)
    {
      |h.jail| == |h.quiet| && |h.active| == |h.quiet|
      && forall k :: 0 <= k < |h.quiet| ==> h.quiet[k] + h.jail[k] + h.active[k] == numAgents
    }

    ghost predicate Valid()
      reads this
    {
      space.Valid() && curve(0) == 0.0 && Staffed(entities)
      && (forall k :: 0 <= k < |entities| ==> Sound(entities[k]))
      && Recorded(data)
    }

    // -------------------------------------------------------------------
    // Construction

    /** `Model.__init__`: the density check, then `num_agents` agents and
        `num_cops` cops, placed on pairwise distinct cells. Agent `i` takes
        `traits(i)` as its risk aversion and hardship (two draws in [0, 1));
        entity `i` takes the `spots(i)`-th of the cells still unused. */
    static method Create(agentDensity: nat, copDensity: nat, vision: int, curve: nat -> real, legitimacy: real,
                         maxJailTerm: nat, traits: nat -> (real, real), spots: nat -> nat)
      returns (r: Result<Scan, ConfigError>)
      requires 0 <= vision && curve(0) == 0.0
      requires forall i :: 0.0 <= traits(i).0 < 1.0 && 0.0 <= traits(i).1 < 1.0
      ensures r.Failure? <==> agentDensity + copDensity > 100
      ensures r.Success? ==>
        var m := r.value;
        var n := Populations(agentDensity, copDensity, Side * Side).value;
        fresh(m) && m.Valid() && m.space == Space(Side, Side, vision) && m.numAgents == n.agents
        && m.curve == curve && m.legitimacy == legitimacy && m.maxJailTerm == maxJailTerm
        && |m.entities| == n.agents + n.cops && m.data == Series([], [], [])
        && m.Spread(m.entities)
        && forall k :: 0 <= k < |m.entities| ==> m.entities[k] == Newcomer(k, n.agents, traits, m.entities[k].pos)
    {
      var cells := Side * Side;
      var counts := Populations(agentDensity, copDensity, cells);
      if counts.Failure? {
        return Failure(counts.error);
      }
      var n := counts.value;
      PopulationsFit(agentDensity, copDensity, cells);
      var m := new Scan.Init(Space(Side, Side, vision), curve, legitimacy, maxJailTerm, n.agents, n.cops, traits, spots);
      r := Success(m);
    }

    /** No two entities share a cell. */
    ghost predicate Spread(ts: seq<Turtle>)
    {
      forall j, k :: 0 <= j < k < |ts| ==> ts[j].pos != ts[k].pos
    }

    constructor Init(space: Space, curve: nat -> real, legitimacy: real, maxJailTerm: nat,
                     agents: nat, cops: nat, traits: nat -> (real, real), spots: nat -> nat)
      requires space.Valid() && curve(0) == 0.0 && agents + cops <= space.width * space.height
      requires forall i :: 0.0 <= traits(i).0 < 1.0 && 0.0 <= traits(i).1 < 1.0
      ensures this.space == space && this.curve == curve && this.legitimacy == legitimacy
      ensures this.maxJailTerm == maxJailTerm && numAgents == agents
      ensures Valid() && |entities| == agents + cops && data == Series([], [], []) && Spread(entities)
      ensures forall k :: 0 <= k < |entities| ==> entities[k] == Newcomer(k, agents, traits, entities[k].pos)
    {
      this.space := space;
      this.curve := curve;
      this.legitimacy := legitimacy;
      this.maxJailTerm := maxJailTerm;
      numAgents := agents;
      data := Series([], [], []);
      var ts: seq<Turtle> := [];
      for i := 0 to agents + cops
        invariant |ts| == i
        invariant forall k :: 0 <= k < i ==> ts[k] == Newcomer(k, agents, traits, Cell(0, 0))
      {
        ts := ts + [Newcomer(i, agents, traits, Cell(0, 0))];
      }
      entities := ts;
      new;
      PlaceEntitiesRandomly(spots);
      forall k | 0 <= k < |entities|
        ensures entities[k] == Newcomer(k, agents, traits, entities[k].pos)
      {
        assert ts[k] == Newcomer(k, agents, traits, Cell(0, 0));
      }
    }

    /** `place_entities_randomly`: each entity in turn takes a cell drawn
        from those no earlier entity took; nothing but the positions changes. */
    method PlaceEntitiesRandomly(spots: nat -> nat)
      requires space.Valid() && |entities| <= space.width * space.height
      modifies this`entities
      ensures |entities| == |old(entities)| && Spread(entities)
      ensures forall k :: 0 <= k < |entities| ==>
                space.InBounds(entities[k].pos) && entities[k] == old(entities)[k].(pos := entities[k].pos)
    {
      var cells := space.AllCells();
      AllCellsExact(space);
      var free := cells;
      for i := 0 to |entities|
        invariant |entities| == |old(entities)|
        invariant |free| == space.width * space.height - i && Distinct(free)
        invariant forall c :: c in free ==> space.InBounds(c)
        invariant forall k :: 0 <= k < i ==> space.InBounds(entities[k].pos) && entities[k].pos !in free
        invariant forall j, k :: 0 <= j < k < i ==> entities[j].pos != entities[k].pos
        invariant forall k :: 0 <= k < |entities| ==> entities[k] == old(entities)[k].(pos := entities[k].pos)
      {
        var j := spots(i) % |free|;
        var c := free[j];
        entities := entities[i := entities[i].(pos := c)];
        RemoveAtMembers(free, j);
        free := free[..j] + free[j + 1..];
      }
    }

    // -------------------------------------------------------------------
    // One tick

    /** `step`: every entity in list order either serves a tick of its
        sentence (counted as jailed), or moves and then decides (an agent,
        counted as active or quiet) or arrests (a cop). The counts are
        appended to the series and account for every agent once. The
        result says whether some move ran out of tries, where the script
        would keep drawing offsets for ever. */
    method Step(draws: seq<Draw>) returns (stuck: bool)
      requires Valid() && |draws| == |entities|
      requires forall i :: 0 <= i < |draws| ==> Drawn(draws[i])
      modifies this`entities, this`data
      ensures Valid() && |entities| == |old(entities)|
      ensures |data.quiet| == |old(data.quiet)| + 1
              && data.quiet[..|old(data.quiet)|] == old(data.quiet)
              && data.jail[..|old(data.jail)|] == old(data.jail)
              && data.active[..|old(data.active)|] == old(data.active)
      ensures forall k :: 0 <= k < |entities| && old(entities)[k].jailTerm > 0 ==>
                entities[k] == old(entities)[k].(jailTerm := old(entities)[k].jailTerm - 1)
    {
      var quiet, jail, active: nat := 0, 0, 0;
      stuck := false;
      for i := 0 to |entities|
        invariant Valid() && |entities| == |old(entities)| && data == old(data)
        invariant quiet + jail + active == AgentsUpTo(numAgents, i)
        invariant forall k :: 0 <= k < i && old(entities)[k].jailTerm > 0 ==>
                    entities[k] == old(entities)[k].(jailTerm := old(entities)[k].jailTerm - 1)
        invariant forall k :: i <= k < |entities| && old(entities)[k].jailTerm > 0 ==>
                    entities[k] == old(entities)[k]
      {
        ghost var before := entities;
        var outcome, done := TakeTurn(i, draws[i]);
        stuck := stuck || !done;
        match outcome {
          case Served => jail := jail + 1;
          case Decided(a) => if a { active := active + 1; } else { quiet := quiet + 1; }
          case Patrolled =>
        }
        forall k | 0 <= k < |entities| && k != i && old(entities)[k].jailTerm > 0
          ensures entities[k] == before[k]
        {
          assert Sound(old(entities)[k]);
        }
      }
      data := Series(data.quiet + [quiet], data.jail + [jail], data.active + [active]);
      assert Recorded(data) by {
        forall k | 0 <= k < |data.quiet|
          ensures data.quiet[k] + data.jail[k] + data.active[k] == numAgents
        {
          if k < |old(data.quiet)| {
            assert data.quiet[k] == old(data.quiet)[k] && data.jail[k] == old(data.jail)[k]
                   && data.active[k] == old(data.active)[k];
          }
        }
      }
    }

    /** The offsets of a draw lie within vision, and its term within the maximum. */
    predicate Drawn(d: Draw)
    {
      d.term <= maxJailTerm
      && forall k :: 0 <= k < |d.tries| ==>
           -space.vision <= d.tries[k].dx <= space.vision && -space.vision <= d.tries[k].dy <= space.vision
    }

    /** The records after entity `i` moves with `tries`: onto the first
        allowed landing, or nowhere when none is allowed. */
    function Moved(es: seq<Turtle>, i: nat, tries: seq<Offset>): seq<Turtle>
      requires space.Valid() && i < |es|
    {
      match Destination(space, es, es[i].pos, tries)
      case None => es
      case Some(c) => es[i := es[i].(pos := c)]
    }

    /** The records after agent `a` decides from what it sees in `es`. */
    function Judged(es: seq<Turtle>, a: nat): seq<Turtle>
      requires a < |es|
    {
      var e := es[a];
      var n := Seen(space, es, e.pos);
      es[a := e.(active := Activates(Grievance(e.hardship, legitimacy), e.riskAversion,
                                     ArrestProbability(curve, n.cops, n.active)))]
    }

    /** The records after cop `cop` picks the `r`-th suspect in sight, if
        any, jails it for `term` ticks and takes its cell. */
    function Policed(es: seq<Turtle>, cop: nat, r: nat, term: nat): seq<Turtle>
      requires cop < |es| && numAgents <= |es|
    {
      var suspects := Suspects(space, es, es[cop].pos, numAgents);
      if suspects == [] then es
      else
        var t := Pick(suspects, r);
        es[t := es[t].(active := false, jailTerm := term)][cop := es[cop].(pos := es[t].pos)]
    }

    /** One iteration of the loop of `step` on entity `i`. The outcome says
        how it was counted; `done` is false when its move ran out of tries.
        Only entity `i`, and whoever it arrests, changes. */
    method TakeTurn(i: nat, d: Draw) returns (outcome: Turn, done: bool)
      requires Valid() && i < |entities| && Drawn(d)
      modifies this`entities
      ensures Valid() && |entities| == |old(entities)|
      ensures outcome == Served <==> old(entities)[i].jailTerm > 0
      ensures outcome.Decided? <==> old(entities)[i].jailTerm == 0 && i < numAgents
      ensures outcome == Served ==> entities == old(entities)[i := old(entities)[i].(jailTerm := old(entities)[i].jailTerm - 1)]
      ensures forall k :: 0 <= k < |entities| && k != i && !old(entities)[k].active ==> entities[k] == old(entities)[k]
      ensures old(entities)[i].jailTerm == 0 ==>
                done == Destination(space, old(entities), old(entities)[i].pos, d.tries).Some?
                && var moved := Moved(old(entities), i, d.tries);
                if old(entities)[i].kind == Agent then
                  entities == Judged(moved, i) && outcome == Decided(entities[i].active)
                else
                  entities == Policed(moved, i, d.arrest, d.term) && outcome == Patrolled
    {
      var e := entities[i];
      if e.jailTerm > 0 {
        entities := entities[i := e.(jailTerm := e.jailTerm - 1)];
        return Served, true;
      }
      done := MoveAgent(i, d.tries);
      if entities[i].kind == Agent {
        DetermineBehavior(i);
        outcome := Decided(entities[i].active);
      } else {
        Enforce(i, d.arrest, d.term);
        outcome := Patrolled;
      }
    }

    /** `move_agent`: a jailed entity stays put; otherwise the entity moves
        to the first try that lands on an allowed cell, and with none it
        stays put and reports that the tries ran out. */
    method MoveAgent(i: nat, tries: seq<Offset>) returns (done: bool)
      requires Valid() && i < |entities|
      requires forall k :: 0 <= k < |tries| ==> -space.vision <= tries[k].dx <= space.vision && -space.vision <= tries[k].dy <= space.vision
      modifies this`entities
      ensures Valid()
      ensures var e := old(entities)[i];
              if e.jailTerm > 0 then entities == old(entities) && done
              else match Destination(space, old(entities), e.pos, tries)
                case None => entities == old(entities) && !done
                case Some(c) => entities == old(entities)[i := e.(pos := c)] && done
                                && c != e.pos && IsNeighbor(space, e.pos, c)
    {
      var e := entities[i];
      if e.jailTerm > 0 {
        return true;
      }
      DestinationAllowed(space, entities, e.pos, tries);
      for k := 0 to |tries|
        invariant entities == old(entities)
        invariant Destination(space, entities, e.pos, tries) == Destination(space, entities, e.pos, tries[k..])
      {
        var c := space.Wrap(e.pos.x + tries[k].dx, e.pos.y + tries[k].dy);
        var ok := IsPositionValid(c);
        if ok {
          assert tries[k..][0] == tries[k];
          assert Destination(space, entities, e.pos, tries) == Some(c);
          MoverLeaves(entities, i, c);
          entities := entities[i := e.(pos := c)];
          return true;
        }
        assert tries[k..][1..] == tries[k + 1..];
      }
      return false;
    }

    /** `is_position_valid`: the scan stops at the first cop or free agent
        standing on `c`. */
    method IsPositionValid(c: Cell) returns (ok: bool)
      ensures ok == Allowed(entities, c)
    {
      for k := 0 to |entities|
        invariant forall j :: 0 <= j < k && entities[j].pos == c ==> entities[j].kind == Agent && entities[j].jailTerm > 0
      {
        var e := entities[k];
        if e.pos == c && (e.kind == Cop || e.jailTerm == 0) {
          return false;
        }
      }
      return true;
    }

    /** `determine_behavior`: the agent turns active exactly when its
        grievance, less its risk aversion times the estimated arrest
        probability, exceeds 0.1; nothing else changes. */
    method DetermineBehavior(a: nat)
      requires Valid() && a < |entities| && entities[a].kind == Agent && entities[a].jailTerm == 0
      modifies this`entities
      ensures Valid()
      ensures entities == Judged(old(entities), a)
    {
      var e := entities[a];
      var p := EstimateArrestProbability(e.pos);
      entities := entities[a := e.(active := Activates(Grievance(e.hardship, legitimacy), e.riskAversion, p))];
    }

    /** `estimate_arrest_probability`: the curve applied to the floor of
        cops over active agents plus one, counted over the whole list with
        the Chebyshev test; zero unless the cops outnumber the active agents. */
    method EstimateArrestProbability(c: Cell) returns (p: real)
      requires curve(0) == 0.0
      ensures var n := Seen(space, entities, c);
              p == ArrestProbability(curve, n.cops, n.active) && (n.cops <= n.active ==> p == 0.0)
    {
      var cops: nat, active: nat := 0, 0;
      for i := 0 to |entities|
        invariant Sighting(cops, active) == Seen(space, entities[..i], c)
      {
        var e := entities[i];
        if IsNeighbor(space, c, e.pos) {
          if e.kind == Cop {
            cops := cops + 1;
          } else if e.active {
            active := active + 1;
          }
        }
        assert entities[..i + 1][..i] == entities[..i];
      }
      assert entities[..|entities|] == entities;
      p := curve(ArrestFactor(cops, active));
      NoRiskUnlessOutnumbered(curve, cops, active);
    }

    /** `enforce`: the cop picks the `r`-th active agent within its
        neighbourhood, makes it quiet, jails it for `term` ticks and moves
        onto its cell, sharing it; with nobody active in sight nothing
        happens. */
    method Enforce(cop: nat, r: nat, term: nat)
      requires Valid() && cop < |entities| && entities[cop].kind == Cop && term <= maxJailTerm
      modifies this`entities
      ensures Valid()
      ensures var suspects := Suspects(space, old(entities), old(entities)[cop].pos, numAgents);
              suspects != [] ==> Pick(suspects, r) != cop
      ensures entities == Policed(old(entities), cop, r, term)
    {
      var c := entities[cop].pos;
      var suspects := [];
      for k := 0 to numAgents
        invariant suspects == Suspects(space, entities, c, k)
      {
        var e := entities[k];
        if e.kind == Agent && e.active && IsNeighbor(space, c, e.pos) {
          suspects := suspects + [k];
        }
      }
      if suspects != [] {
        var t := Pick(suspects, r);
        var target := entities[t];
        entities := entities[t := target.(active := false, jailTerm := term)];
        entities := entities[cop := entities[cop].(pos := target.pos)];
      }
    }
  }

  /** How an entity's turn was counted: jailed, an agent's decision, or a cop's patrol. */
  datatype Turn = Served | Decided(active: bool) | Patrolled
}
