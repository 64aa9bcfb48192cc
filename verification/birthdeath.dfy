/** The birth-death process of evo0_Bd.h (Simulator::simulate). Two
    inverse permutations keep the population sorted by type: `iton` maps
    an index to a node and `ntoi` a node to its index, and the wild-type
    nodes occupy indices 0 .. pop0-1 with the mutants after them. The
    fitness-weighted choice of the birth index is an argument of each step
    (it is floating-point arithmetic on the fitness values), as is the
    uniform draw that picks the neighbour to replace. */
module BirthDeath {
  import opened Common
  import BdGraph

  /* ---------------------------------------------------------------------
     permute.
     --------------------------------------------------------------------- */

  /** `iton` and `ntoi` are inverse permutations of 0 .. |iton|-1. */
  ghost predicate Inverse(iton: seq<int>, ntoi: seq<int>) {
    && |iton| == |ntoi|
    && (forall i :: 0 <= i < |iton| ==> 0 <= iton[i] < |iton| && ntoi[iton[i]] == i)
    && (forall v :: 0 <= v < |ntoi| ==> 0 <= ntoi[v] < |ntoi| && iton[ntoi[v]] == v)
  }

  /** permute: exchange the nodes at two indices and record their new
      indices. The two stay inverse to each other, only the two indices
      change, and equal indices change nothing. */
  function Permute(iton: seq<int>, ntoi: seq<int>, index1: int, index2: int): (r: (seq<int>, seq<int>))
    requires Inverse(iton, ntoi) && 0 <= index1 < |iton| && 0 <= index2 < |iton|
    ensures |r.0| == |iton| && Inverse(r.0, r.1)
    ensures r.0[index1] == iton[index2] && r.0[index2] == iton[index1]
    ensures forall i :: 0 <= i < |iton| && i != index1 && i != index2 ==> r.0[i] == iton[i]
    ensures index1 == index2 ==> r == (iton, ntoi)
  {
    var node1 := iton[index1];
    var node2 := iton[index2];
    assert index1 == index2 ==>
      iton[index1 := node2][index2 := node1] == iton && ntoi[node1 := index2][node2 := index1] == ntoi;
    (iton[index1 := node2][index2 := node1], ntoi[node1 := index2][node2 := index1])
  }

  /* ---------------------------------------------------------------------
     The state of one trial.
     --------------------------------------------------------------------- */

  /** `populations` is (pop0, pop1); `mutant[v]` is 1 for a mutant node
      and 0 for a wild-type one; `t` counts passes of the loop. */
  datatype State = State(iton: seq<int>, ntoi: seq<int>, mutant: seq<int>, pop0: int, pop1: int, t: nat)

  /** The partition invariant: the wild-type nodes sit at indices below
      pop0 and the mutants at the others, the two counts add up to the
      population size, and pop1 is the number of mutant nodes. */
  ghost predicate Valid(s: State, popsize: nat) {
    && |s.iton| == popsize && |s.mutant| == popsize
    && Inverse(s.iton, s.ntoi)
    && 0 <= s.pop0 <= popsize && s.pop0 + s.pop1 == popsize
    && (forall i :: 0 <= i < popsize ==> s.mutant[s.iton[i]] == (if i < s.pop0 then 0 else 1))
    && s.pop1 == multiset(s.mutant)[1]
  }

  /** Every node is of one of the two types, and it is a mutant exactly
      when its index is at least pop0. */
  lemma TypesFromIndex(s: State, popsize: nat, v: int)
    requires Valid(s, popsize) && 0 <= v < popsize
    ensures s.mutant[v] == 0 || s.mutant[v] == 1
    ensures s.mutant[v] == 1 <==> s.ntoi[v] >= s.pop0
  {
    assert s.iton[s.ntoi[v]] == v;
  }

  /** The start of a trial: identity permutations, the node at index
      floor(u * popsize) made the one mutant, and that node swapped to
      the last index, so populations = (popsize - 1, 1). */
  function Init(popsize: nat, u: real): (s: State)
    requires popsize >= 1 && 0.0 <= u < 1.0
    ensures Valid(s, popsize)
    ensures s.pop0 == popsize - 1 && s.pop1 == 1 && s.t == 0
    ensures s.iton[popsize - 1] == Scale(u, popsize)
    ensures forall v :: 0 <= v < popsize ==> (s.mutant[v] == 1 <==> v == Scale(u, popsize))
  {
    var index2 := Scale(u, popsize);
    var id := seq(popsize, i => i);
    var mutant := seq(popsize, _ => 0)[id[index2] := 1];
    assert multiset(mutant)[1] == 1 by {
      OnlyOne(popsize, index2);
    }
    var perm := Permute(id, id, popsize - 1, index2);
    var iton, ntoi := perm.0, perm.1;
    State(iton, ntoi, mutant, popsize - 1, 1, 0)
  }

  lemma OnlyOne(n: nat, k: nat)
    requires k < n
    ensures multiset(seq(n, _ => 0)[k := 1])[1] == 1
  {
    var zeros: seq<int> := seq(n, _ => 0);
    assert multiset(zeros)[1] == 0 by {
      assert 1 !in zeros;
    }
  }

  /* ---------------------------------------------------------------------
     One pass of the loop.
     --------------------------------------------------------------------- */

  /** The node replaced: the neighbour at position
      floor(deathDraw * degree) of the birth node's neighbour array. */
  function DeathNode(g: BdGraph.Graph, birthNode: int, deathDraw: real): (d: int)
    requires BdGraph.WellFormed(g) && 0 <= birthNode < g.popsize && g.degrees[birthNode] > 0
    requires 0.0 <= deathDraw < 1.0
    ensures 0 <= d < g.popsize && d in g.edgelist[birthNode]
  {
    g.edgelist[birthNode][Scale(deathDraw, g.degrees[birthNode])]
  }

  /** One pass: the node at `birthIndex` reproduces into a neighbour. A
      pair of the same type changes nothing but the counter; otherwise the
      dead node moves to the boundary between the two index ranges, the
      boundary moves past it, and it takes the parent's type. A birth node
      without neighbours is an error (the source reads slot 0 of an empty
      array). */
  function Step(g: BdGraph.Graph, s: State, birthIndex: int, deathDraw: real): (r: Option<State>)
    requires BdGraph.WellFormed(g) && Valid(s, g.popsize)
    requires 0 <= birthIndex < g.popsize && 0.0 <= deathDraw < 1.0
    ensures r.None? <==> g.degrees[s.iton[birthIndex]] == 0
  {
    var birthNode := s.iton[birthIndex];
    if g.degrees[birthNode] == 0 then None
    else
      var deathNode := DeathNode(g, birthNode, deathDraw);
      TypesFromIndex(s, g.popsize, birthNode);
      TypesFromIndex(s, g.popsize, deathNode);
      if s.mutant[deathNode] == s.mutant[birthNode] then Some(s.(t := s.t + 1))
      else
        var wildGrows := s.mutant[birthNode] == 0 && s.mutant[deathNode] == 1;
        var index2 := if wildGrows then s.pop0 else s.pop0 - 1;
        var perm := Permute(s.iton, s.ntoi, s.ntoi[deathNode], index2);
        var pop0 := if wildGrows then s.pop0 + 1 else s.pop0;
        var pop1 := if wildGrows then s.pop1 else s.pop1 + 1;
        var pop0' := if s.mutant[deathNode] == 0 then pop0 - 1 else pop0;
        var pop1' := if s.mutant[deathNode] == 0 then pop1 else pop1 - 1;
        Some(State(perm.0, perm.1, s.mutant[deathNode := s.mutant[birthNode]], pop0', pop1', s.t + 1))
  }

  /** A pass keeps the partition invariant and advances the counter; the
      dead node takes the parent's type and nothing else changes type; a
      same-type pair changes nothing but the counter; and the mutant count
      moves by one towards the parent's type when the types differ. */
  lemma StepKeepsPartition(g: BdGraph.Graph, s: State, birthIndex: int, deathDraw: real)
    requires BdGraph.WellFormed(g) && Valid(s, g.popsize)
    requires 0 <= birthIndex < g.popsize && 0.0 <= deathDraw < 1.0
    requires g.degrees[s.iton[birthIndex]] > 0
    ensures var r := Step(g, s, birthIndex, deathDraw).value;
            var b := s.iton[birthIndex];
            var d := DeathNode(g, b, deathDraw);
            && Valid(r, g.popsize)
            && r.t == s.t + 1
            && r.mutant == s.mutant[d := s.mutant[b]]
            && (s.mutant[d] == s.mutant[b] ==> r == s.(t := s.t + 1))
            && (s.mutant[d] != s.mutant[b] ==> r.pop1 == s.pop1 + (if s.mutant[b] == 1 then 1 else -1))
  {
    var P := g.popsize;
    var b := s.iton[birthIndex];
    var d := DeathNode(g, b, deathDraw);
    TypesFromIndex(s, P, b);
    TypesFromIndex(s, P, d);
    var r := Step(g, s, birthIndex, deathDraw).value;
    if s.mutant[d] != s.mutant[b] {
      var p := Permute(s.iton, s.ntoi, s.ntoi[d], if s.mutant[b] == 0 then s.pop0 else s.pop0 - 1);
      if s.mutant[b] == 0 {
        assert r == State(p.0, p.1, s.mutant[d := 0], s.pop0 + 1, s.pop1 - 1, s.t + 1);
        MutantDies(s, P, d, r);
      } else {
        assert r == State(p.0, p.1, s.mutant[d := 1], s.pop0 - 1, s.pop1 + 1, s.t + 1);
        WildDies(s, P, d, r);
      }
    } else {
      assert s.mutant[d := s.mutant[b]] == s.mutant;
    }
  }

  /** A wild-type parent replaces mutant `d`: `d` is swapped to index
      pop0, the first mutant index, which then joins the wild range. */
  lemma MutantDies(s: State, popsize: nat, d: int, r: State)
    requires Valid(s, popsize) && 0 <= d < popsize && s.mutant[d] == 1
    requires r == State(Permute(s.iton, s.ntoi, s.ntoi[d], s.pop0).0, Permute(s.iton, s.ntoi, s.ntoi[d], s.pop0).1,
                        s.mutant[d := 0], s.pop0 + 1, s.pop1 - 1, s.t + 1)
    ensures Valid(r, popsize)
  {
    TypesFromIndex(s, popsize, d);
    var k := s.ntoi[d];
    assert multiset(r.mutant) == multiset(s.mutant) - multiset{1} + multiset{0};
    forall i | 0 <= i < popsize ensures r.mutant[r.iton[i]] == (if i < r.pop0 then 0 else 1) {
      if i == s.pop0 {
        assert r.iton[i] == d;
      } else if i == k {
        assert r.iton[i] == s.iton[s.pop0];
        assert s.iton[s.pop0] != d;
      } else {
        assert r.iton[i] == s.iton[i];
        assert s.iton[i] != d;
      }
    }
  }

  /** A mutant parent replaces wild-type `d`: `d` is swapped to index
      pop0 - 1, the last wild index, which then joins the mutant range. */
  lemma WildDies(s: State, popsize: nat, d: int, r: State)
    requires Valid(s, popsize) && 0 <= d < popsize && s.mutant[d] == 0
    requires r == State(Permute(s.iton, s.ntoi, s.ntoi[d], s.pop0 - 1).0, Permute(s.iton, s.ntoi, s.ntoi[d], s.pop0 - 1).1,
                        s.mutant[d := 1], s.pop0 - 1, s.pop1 + 1, s.t + 1)
    ensures Valid(r, popsize)
  {
    TypesFromIndex(s, popsize, d);
    var k := s.ntoi[d];
    assert multiset(r.mutant) == multiset(s.mutant) - multiset{0} + multiset{1};
    forall i | 0 <= i < popsize ensures r.mutant[r.iton[i]] == (if i < r.pop0 then 0 else 1) {
      if i == s.pop0 - 1 {
        assert r.iton[i] == d;
      } else if i == k {
        assert r.iton[i] == s.iton[s.pop0 - 1];
        assert s.iton[s.pop0 - 1] != d;
      } else {
        assert r.iton[i] == s.iton[i];
        assert s.iton[i] != d;
      }
    }
  }

  /* ---------------------------------------------------------------------
     One trial.
     --------------------------------------------------------------------- */

  /** The loop's condition: neither type has taken over and the step limit
      max_gen * popsize has not been reached. */
  predicate Running(s: State, popsize: nat, maxGen: int) {
    s.pop0 != popsize && s.pop1 != popsize && s.t < maxGen * popsize
  }

  predicate StepsOk(steps: seq<(int, real)>, popsize: nat) {
    forall i :: 0 <= i < |steps| ==> 0 <= steps[i].0 < popsize && 0.0 <= steps[i].1 < 1.0
  }

  datatype TrialFailure =
    | DrawsExhausted  // the stream of birth indices and death draws ended
    | NoNeighbour     // a birth node of degree 0 was chosen

  /** The while loop of a trial, one (birth index, death draw) pair per
      pass. */
  function Evolve(g: BdGraph.Graph, maxGen: int, s: State, steps: seq<(int, real)>): (r: Result<State, TrialFailure>)
    requires BdGraph.WellFormed(g) && Valid(s, g.popsize) && StepsOk(steps, g.popsize)
    ensures r.Ok? ==> Valid(r.value, g.popsize) && !Running(r.value, g.popsize, maxGen)
    ensures r.Ok? ==> s.t <= r.value.t <= s.t + |steps|
    ensures !Running(s, g.popsize, maxGen) ==> r == Ok(s)
    decreases |steps|
  {
    if !Running(s, g.popsize, maxGen) then Ok(s)
    else if steps == [] then Err(DrawsExhausted)
    else
      var birthIndex, deathDraw := steps[0].0, steps[0].1;
      if g.degrees[s.iton[birthIndex]] == 0 then Err(NoNeighbour)
      else
        StepKeepsPartition(g, s, birthIndex, deathDraw);
        Evolve(g, maxGen, Step(g, s, birthIndex, deathDraw).value, steps[1..])
  }

  /** A finished trial keeps the partition invariant and has stopped for
      one of the loop's reasons: one type holds every node, or the counter
      reached max_gen * popsize, each pass having added one to it. */
  lemma {:induction false} EvolveEnds(g: BdGraph.Graph, maxGen: int, s: State, steps: seq<(int, real)>)
    requires BdGraph.WellFormed(g) && Valid(s, g.popsize) && StepsOk(steps, g.popsize)
    ensures var r := Evolve(g, maxGen, s, steps);
            r.Ok? ==> && Valid(r.value, g.popsize)
                      && !Running(r.value, g.popsize, maxGen)
                      && s.t <= r.value.t <= s.t + |steps|
                      && (s.t <= maxGen * g.popsize ==> r.value.t <= maxGen * g.popsize)
    decreases |steps|
  {
    if Running(s, g.popsize, maxGen) && steps != [] {
      var birthIndex, deathDraw := steps[0].0, steps[0].1;
      if g.degrees[s.iton[birthIndex]] > 0 {
        StepKeepsPartition(g, s, birthIndex, deathDraw);
        var s1 := Step(g, s, birthIndex, deathDraw).value;
        assert StepsOk(steps[1..], g.popsize) by {
          assert forall i :: 0 <= i < |steps[1..]| ==> steps[1..][i] == steps[i + 1];
        }
        EvolveEnds(g, maxGen, s1, steps[1..]);
      }
    }
  }

  /** A partition in which one type holds every node: all nodes have the
      type of node 0. */
  lemma FixedIsUniform(s: State, popsize: nat)
    requires Valid(s, popsize) && popsize > 0 && (s.pop0 == popsize || s.pop1 == popsize)
    ensures s.pop1 == 0 || s.pop1 == popsize
    ensures forall v :: 0 <= v < popsize ==> s.mutant[v] == s.mutant[0]
  {
    forall v | 0 <= v < popsize ensures s.mutant[v] == s.mutant[0] {
      TypesFromIndex(s, popsize, v);
      TypesFromIndex(s, popsize, 0);
    }
  }

  /** A trial that ends before the step limit ends in fixation: every node
      wild-type (pop1 == 0) or every node mutant (pop1 == popsize). */
  lemma EvolveFixation(g: BdGraph.Graph, maxGen: int, s: State, steps: seq<(int, real)>, f: State)
    requires BdGraph.WellFormed(g) && g.popsize > 0 && Valid(s, g.popsize) && StepsOk(steps, g.popsize)
    requires Evolve(g, maxGen, s, steps) == Ok(f) && f.t < maxGen * g.popsize
    ensures Valid(f, g.popsize)
    ensures f.pop1 == 0 || f.pop1 == g.popsize
    ensures forall v :: 0 <= v < g.popsize ==> f.mutant[v] == f.mutant[0]
  {
    EvolveEnds(g, maxGen, s, steps);
    FixedIsUniform(f, g.popsize);
  }

  /* ---------------------------------------------------------------------
     The Simulator object.
     --------------------------------------------------------------------- */

  /** The constructed graph, the index of the next trial to record and the
      two result arrays, sized by the constructor's trial count. */
  datatype Simulator = Simulator(graph: BdGraph.Graph, runIdx: int, freq2: seq<int>, tfix: seq<int>)

  /** The constructor: the graph from the file's integers and result arrays
      for `trials` trials. */
  function NewSimulator(trials: nat, tokens: seq<int>): (r: Result<Simulator, BdGraph.Failure>)
    requires forall i :: 0 <= i < |tokens| ==> tokens[i] >= 0
    ensures r.Err? <==> |tokens| % 2 == 1
    ensures r.Ok? ==> |r.value.freq2| == |r.value.tfix| == trials && r.value.graph.popsize >= 1
    ensures r.Ok? ==> BdGraph.WellFormed(r.value.graph)
  {
    match BdGraph.Construct(tokens)
    case Err(e) => Err(e)
    case Ok(g) =>
      BdGraph.ConstructWellFormed(tokens);
      Ok(Simulator(g, 0, seq(trials, _ => 0), seq(trials, _ => 0)))
  }

  /** What a trial leaves behind: its final state, reached from the single
      mutant, which holds one type everywhere unless the step limit cut it
      short. */
  function RunTrial(g: BdGraph.Graph, maxGen: int, u: real, steps: seq<(int, real)>): (r: Result<State, TrialFailure>)
    requires BdGraph.WellFormed(g) && g.popsize >= 1 && 0.0 <= u < 1.0 && StepsOk(steps, g.popsize)
    ensures r.Ok? ==> Valid(r.value, g.popsize) && r.value.t <= |steps|
    ensures r.Ok? ==> (r.value.pop1 == 0 || r.value.pop1 == g.popsize || r.value.t >= maxGen * g.popsize)
  {
    Evolve(g, maxGen, Init(g.popsize, u), steps)
  }

  /** Entries `f` of freq2 and `tf` of tfix record trial (u, steps): it
      finished, with `f` mutants after `tf` passes. */
  ghost predicate Recorded(g: BdGraph.Graph, maxGen: int, u: real, steps: seq<(int, real)>, f: int, tf: int) {
    && BdGraph.WellFormed(g) && g.popsize >= 1 && 0.0 <= u < 1.0 && StepsOk(steps, g.popsize)
    && var s := RunTrial(g, maxGen, u, steps);
       s.Ok? && f == s.value.pop1 && tf == s.value.t
  }

  /** simulate(max_gen, ...): one trial from the single-mutant start, whose
      final mutant count and step count are written at run_idx, which then
      advances; no other entry changes. */
  function SimulateOnce(sim: Simulator, maxGen: int, u: real, steps: seq<(int, real)>): (r: Result<Simulator, TrialFailure>)
    requires BdGraph.WellFormed(sim.graph) && sim.graph.popsize >= 1
    requires 0 <= sim.runIdx < |sim.freq2| && |sim.freq2| == |sim.tfix|
    requires 0.0 <= u < 1.0 && StepsOk(steps, sim.graph.popsize)
    ensures r.Err? <==> RunTrial(sim.graph, maxGen, u, steps).Err?
    ensures r.Ok? ==>
              var s := RunTrial(sim.graph, maxGen, u, steps).value;
              && r.value.runIdx == sim.runIdx + 1
              && r.value.graph == sim.graph
              && |r.value.freq2| == |sim.freq2| && |r.value.tfix| == |sim.tfix|
              && r.value.freq2[sim.runIdx] == s.pop1 && r.value.tfix[sim.runIdx] == s.t
              && (forall i :: 0 <= i < |sim.freq2| && i != sim.runIdx ==>
                    r.value.freq2[i] == sim.freq2[i] && r.value.tfix[i] == sim.tfix[i])
  {
    match RunTrial(sim.graph, maxGen, u, steps)
    case Err(e) => Err(e)
    case Ok(s) =>
      Ok(sim.(freq2 := sim.freq2[sim.runIdx := s.pop1], tfix := sim.tfix[sim.runIdx := s.t], runIdx := sim.runIdx + 1))
  }

  /** simulate(trials, max_gen, ...): run_idx restarts at 0 and each trial
      is recorded in turn, so entry i holds trial i's final mutant count
      and step count and the entries beyond the trials keep their values. */
  method SimulateTrials(sim: Simulator, maxGen: int, trials: seq<(real, seq<(int, real)>)>) returns (r: Result<Simulator, TrialFailure>)
    requires BdGraph.WellFormed(sim.graph) && sim.graph.popsize >= 1
    requires |trials| <= |sim.freq2| && |sim.freq2| == |sim.tfix|
    requires forall k :: 0 <= k < |trials| ==> 0.0 <= trials[k].0 < 1.0 && StepsOk(trials[k].1, sim.graph.popsize)
    ensures r.Ok? ==> && r.value.runIdx == |trials| && r.value.graph == sim.graph
                      && |r.value.freq2| == |sim.freq2| && |r.value.tfix| == |sim.tfix|
    ensures r.Ok? ==> forall k :: 0 <= k < |trials| ==>
              Recorded(sim.graph, maxGen, trials[k].0, trials[k].1, r.value.freq2[k], r.value.tfix[k])
    ensures r.Ok? ==> forall k :: |trials| <= k < |sim.freq2| ==>
              r.value.freq2[k] == sim.freq2[k] && r.value.tfix[k] == sim.tfix[k]
    ensures r.Err? ==> exists k :: 0 <= k < |trials| && RunTrial(sim.graph, maxGen, trials[k].0, trials[k].1).Err?
  {
    var cur := sim.(runIdx := 0);
    var k := 0;
    while k < |trials|
      invariant k <= |trials| && cur.runIdx == k && cur.graph == sim.graph
      invariant |cur.freq2| == |sim.freq2| && |cur.tfix| == |sim.tfix|
      invariant forall j :: 0 <= j < k ==>
                  Recorded(sim.graph, maxGen, trials[j].0, trials[j].1, cur.freq2[j], cur.tfix[j])
      invariant forall j :: k <= j < |sim.freq2| ==> cur.freq2[j] == sim.freq2[j] && cur.tfix[j] == sim.tfix[j]
    {
      var next := SimulateOnce(cur, maxGen, trials[k].0, trials[k].1);
      if next.Err? {
        return Err(next.error);
      }
      assert Recorded(sim.graph, maxGen, trials[k].0, trials[k].1, next.value.freq2[k], next.value.tfix[k]);
      cur := next.value;
      k := k + 1;
    }
    r := Ok(cur);
  }
}
