/** The counting pass at the end of every tick, and the bookkeeping facts
    about which entities are agents that make the counts add up. Entities
    are referred to by id; `ts[id]` is the entity's current record. */
module Census {
  import opened Wrappers
  import opened Torus
  import opened Rules

  datatype Tally = Tally(quiet: nat, jail: nat, active: nat, cop: nat)

  predicate IdsIn(ids: seq<nat>, ts: seq<Turtle>)
  {
    forall k :: 0 <= k < |ids| ==> ids[k] < |ts|
  }

  /** No entity is listed twice. */
  predicate Unique(ids: seq<nat>)
  {
    forall x | x in multiset(ids) :: multiset(ids)[x] <= 1
  }

  lemma UniqueDistinct(ids: seq<nat>)
    requires Unique(ids)
    ensures Distinct(ids)
  {
    forall i, j | 0 <= i < j < |ids|
      ensures ids[i] != ids[j]
    {
      var x := ids[j];
      assert ids == ids[..j] + [x] + ids[j + 1..];
      assert multiset(ids)[x] == multiset(ids[..j])[x] + 1 + multiset(ids[j + 1..])[x];
      assert ids[..j][i] == ids[i];
    }
  }

  lemma MultisetRemoveAt(s: seq<nat>, i: nat)
    requires i < |s|
    ensures multiset(s[..i] + s[i + 1..]) == multiset(s) - multiset{s[i]}
  {
    assert s == s[..i] + [s[i]] + s[i + 1..];
  }

  lemma IdsInPermutation(ts: seq<Turtle>, a: seq<nat>, b: seq<nat>)
    requires IdsIn(a, ts) && multiset(a) == multiset(b)
    ensures IdsIn(b, ts)
  {
    forall k | 0 <= k < |b|
      ensures b[k] < |ts|
    {
      assert b[k] in multiset(a);
    }
  }

  /** Jailed entities are counted first, whatever their kind; a free agent
      is active or quiet; a free cop adds to `cop` (only the variant that
      withdraws cops records that count). Every entity lands in exactly one
      of the four counters. */
  function Count(ts: seq<Turtle>, ids: seq<nat>): (t: Tally)
    requires IdsIn(ids, ts)
    ensures t.quiet + t.jail + t.active + t.cop == |ids|
  {
    if ids == [] then Tally(0, 0, 0, 0)
    else
      var t := Count(ts, ids[..|ids| - 1]);
      var e := ts[ids[|ids| - 1]];
      if e.jailTerm > 0 then t.(jail := t.jail + 1)
      else if e.kind == Agent then
        if e.active then t.(active := t.active + 1) else t.(quiet := t.quiet + 1)
      else t.(cop := t.cop + 1)
  }

  /** The number of agents among `ids`. */
  function Agents(ts: seq<Turtle>, ids: seq<nat>): (n: nat)
    requires IdsIn(ids, ts)
    ensures n <= |ids|
  {
    if ids == [] then 0
    else Agents(ts, ids[..|ids| - 1]) + (if ts[ids[|ids| - 1]].kind == Agent then 1 else 0)
  }

  predicate CopsFree(ts: seq<Turtle>, ids: seq<nat>)
    requires IdsIn(ids, ts)
  {
    forall k :: 0 <= k < |ids| && ts[ids[k]].kind == Cop ==> ts[ids[k]].jailTerm == 0
  }

  /** As long as no cop is ever jailed, quiet + jailed + active is the number
      of agents and the cop counter is the number of cops. */
  lemma {:induction false} CountConserves(ts: seq<Turtle>, ids: seq<nat>)
    requires IdsIn(ids, ts) && CopsFree(ts, ids)
    ensures Count(ts, ids).quiet + Count(ts, ids).jail + Count(ts, ids).active == Agents(ts, ids)
    ensures Count(ts, ids).cop == |ids| - Agents(ts, ids)
  {
    if ids != [] {
      var front := ids[..|ids| - 1];
      assert IdsIn(front, ts) && CopsFree(ts, front) by {
        forall k | 0 <= k < |front|
          ensures front[k] == ids[k]
        {
        }
      }
      CountConserves(ts, front);
    }
  }

  lemma {:induction false} AgentsConcat(ts: seq<Turtle>, a: seq<nat>, b: seq<nat>)
    requires IdsIn(a, ts) && IdsIn(b, ts)
    ensures IdsIn(a + b, ts)
    ensures Agents(ts, a + b) == Agents(ts, a) + Agents(ts, b)
    decreases |b|
  {
    if b == [] {
      assert a + b == a;
    } else {
      var front := b[..|b| - 1];
      assert (a + b)[..|a + b| - 1] == a + front;
      AgentsConcat(ts, a, front);
    }
  }

  /** Taking one entry out of a list removes exactly that entry's share
      of the agent count. */
  lemma AgentsRemoveAt(ts: seq<Turtle>, ids: seq<nat>, i: nat)
    requires IdsIn(ids, ts) && i < |ids|
    ensures IdsIn(ids[..i] + ids[i + 1..], ts)
    ensures Agents(ts, ids) == Agents(ts, ids[..i] + ids[i + 1..]) + (if ts[ids[i]].kind == Agent then 1 else 0)
  {
    var x := ids[i];
    assert ids == ids[..i] + [x] + ids[i + 1..];
    AgentsConcat(ts, ids[..i], [x]);
    AgentsConcat(ts, ids[..i] + [x], ids[i + 1..]);
    AgentsConcat(ts, ids[..i], ids[i + 1..]);
    assert [x][..0] == [];
  }

  /** Reordering the entity list (the shuffle at the start of a tick) does
      not change how many agents it holds. */
  lemma {:induction false} AgentsPermutation(ts: seq<Turtle>, a: seq<nat>, b: seq<nat>)
    requires IdsIn(a, ts) && IdsIn(b, ts)
    requires multiset(a) == multiset(b)
    ensures Agents(ts, a) == Agents(ts, b)
    decreases |a|
  {
    if a == [] {
      assert |b| == |multiset(b)| == 0;
    } else {
      var last := |a| - 1;
      var x := a[last];
      assert x in multiset(b);
      var i :| 0 <= i < |b| && b[i] == x;
      AgentsRemoveAt(ts, a, last);
      AgentsRemoveAt(ts, b, i);
      MultisetRemoveAt(a, last);
      MultisetRemoveAt(b, i);
      AgentsPermutation(ts, a[..last] + a[last + 1..], b[..i] + b[i + 1..]);
    }
  }

  /** Only kinds matter: any update that leaves every entity's kind alone
      leaves the agent count alone. */
  lemma {:induction false} AgentsSameKinds(ts: seq<Turtle>, us: seq<Turtle>, ids: seq<nat>)
    requires IdsIn(ids, ts) && |ts| <= |us|
    requires forall i :: 0 <= i < |ts| ==> ts[i].kind == us[i].kind
    ensures IdsIn(ids, us)
    ensures Agents(ts, ids) == Agents(us, ids)
  {
    if ids != [] {
      var front := ids[..|ids| - 1];
      assert IdsIn(front, ts) by {
        forall k | 0 <= k < |front|
          ensures front[k] == ids[k]
        {
        }
      }
      AgentsSameKinds(ts, us, front);
    }
  }

  /** The position of the first cop in `ids`, if there is one. */
  function FirstCop(ts: seq<Turtle>, ids: seq<nat>): (r: Option<nat>)
    requires IdsIn(ids, ts)
    ensures r.Some? ==> r.value < |ids| && ts[ids[r.value]].kind == Cop
    ensures r.Some? ==> forall k :: 0 <= k < r.value ==> ts[ids[k]].kind == Agent
    ensures r.None? ==> forall k :: 0 <= k < |ids| ==> ts[ids[k]].kind == Agent
  {
    if ids == [] then None
    else if ts[ids[0]].kind == Cop then Some(0)
    else
      var tail := ids[1..];
      assert ts[ids[0]].kind == Agent;
      assert forall k :: 1 <= k < |ids| ==> ts[ids[k]] == ts[tail[k - 1]];
      match FirstCop(ts, tail)
      case None => None
      case Some(i) => Some(i + 1)
  }

  /** `entities.remove(first cop)`: the list without its first cop, or
      unchanged when it holds none. */
  function WithoutFirstCop(ts: seq<Turtle>, ids: seq<nat>): seq<nat>
    requires IdsIn(ids, ts)
  {
    match FirstCop(ts, ids)
    case None => ids
    case Some(i) => ids[..i] + ids[i + 1..]
  }

  /** Withdrawing a cop keeps every agent, and the list shrinks by one
      exactly when it held a cop. */
  lemma WithoutFirstCopKeepsAgents(ts: seq<Turtle>, ids: seq<nat>)
    requires IdsIn(ids, ts)
    ensures IdsIn(WithoutFirstCop(ts, ids), ts)
    ensures Agents(ts, WithoutFirstCop(ts, ids)) == Agents(ts, ids)
    ensures |WithoutFirstCop(ts, ids)| == if Agents(ts, ids) < |ids| then |ids| - 1 else |ids|
    ensures multiset(WithoutFirstCop(ts, ids)) <= multiset(ids)
    ensures Unique(ids) ==> Unique(WithoutFirstCop(ts, ids))
  {
    match FirstCop(ts, ids)
    case None =>
      AllAgents(ts, ids);
    case Some(i) =>
      AgentsRemoveAt(ts, ids, i);
      assert ids == ids[..i] + [ids[i]] + ids[i + 1..];
    var rest := WithoutFirstCop(ts, ids);
    if Unique(ids) {
      forall x | x in multiset(rest)
        ensures multiset(rest)[x] <= 1
      {
        assert multiset(rest)[x] <= multiset(ids)[x];
      }
    }
  }

  /** A list of agents only has as many agents as entries. */
  lemma {:induction false} AllAgents(ts: seq<Turtle>, ids: seq<nat>)
    requires IdsIn(ids, ts)
    requires forall k :: 0 <= k < |ids| ==> ts[ids[k]].kind == Agent
    ensures Agents(ts, ids) == |ids|
  {
    if ids != [] {
      var front := ids[..|ids| - 1];
      assert IdsIn(front, ts) && forall k :: 0 <= k < |front| ==> ts[front[k]].kind == Agent by {
        forall k | 0 <= k < |front|
          ensures front[k] == ids[k]
        {
        }
      }
      AllAgents(ts, front);
    }
  }
}
