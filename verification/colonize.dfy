/** One trial of the colonization in spatialsoft2d.cpp's main: starting
    from an empty pool, each step either mutates (a random unoccupied site
    gets the next fresh colour) or copies (a random occupied site's colour
    is offered to a random neighbour of it, which takes it only if it is
    unoccupied), until every site is occupied.

    The random source is a stream of draws, each three reals in [0,1): the
    draw compared with the mutation probability, and the two draws that
    pick a site and a neighbour (scaled to an index by Common.Scale). A
    finite stream may run out before the pool is full; Run then stops. */
module Colonize {
  import opened Common
  import Pool
  import Lattice
  import Network

  datatype Draw = Draw(coin: real, pick: real, nbr: real)

  predicate DrawOk(d: Draw) {
    0.0 <= d.coin < 1.0 && 0.0 <= d.pick < 1.0 && 0.0 <= d.nbr < 1.0
  }

  predicate DrawsOk(ds: seq<Draw>) {
    forall i :: 0 <= i < |ds| ==> DrawOk(ds[i])
  }

  /** What one pass of the loop did. */
  datatype Event = Mutated | Copied | Collided

  /** The per-trial state: the simulation and the next fresh colour. */
  datatype Trial = Trial(sim: Lattice.Sim, lastColor: int)

  function N(st: Trial): nat {
    Lattice.N(st.sim)
  }

  /** Every colour present was handed out by an earlier mutation. */
  ghost predicate ColorsIssued(st: Trial) {
    forall s :: s in Pool.OccupiedSites(st.sim.sites) ==> 0 <= st.sim.sites.colors[s] < st.lastColor
  }

  /** What holds between steps of a trial on graph `net` with n sites. */
  ghost predicate Inv(st: Trial, net: Network.Adj, n: nat) {
    && Network.WellFormed(net, n)
    && Lattice.Valid(st.sim)
    && st.sim.network == net
    && Pool.Capacity(st.sim.sites) == n
    && st.lastColor >= 0
    && ColorsIssued(st)
  }

  /** The state main sets up for a trial: a fresh simulation on n sites
      carrying the network, and lastcolor reset to 0. */
  function Start(net: Network.Adj, n: nat): (st: Trial)
    requires Network.WellFormed(net, n)
    ensures Inv(st, net, n) && N(st) == 0 && st.lastColor == 0
    ensures Pool.EmptySites(st.sim.sites) == Below(n)
  {
    var p := Pool.Pool(seq(n, _ => Pool.EMPTY_CELL), seq(n, i => i), seq(n, i => i), 0);
    assert Pool.EmptySites(p) == Below(n);
    Trial(Lattice.Sim(p, [], [], net, map[]), 0)
  }

  /** The mutate-or-copy decision. The source compares the draw with
      mutrate*(n-N)/N in double precision; at N == 0 (with N < n) the
      quotient is +infinity for a positive rate, so the step always mutates,
      and -infinity or NaN otherwise, so it never does. */
  function MutateNotJump(mutrate: real, n: nat, occupied: nat, u: real): (b: bool)
    requires 0.0 <= u < 1.0 && occupied < n
    ensures occupied == 0 ==> (b <==> mutrate > 0.0)
    ensures occupied > 0 && mutrate * (n - occupied) as real >= occupied as real ==> b
    ensures occupied > 0 && mutrate <= 0.0 ==> !b
  {
    if occupied == 0 then mutrate > 0.0
    else
      var p := mutrate * (n - occupied) as real / occupied as real;
      assert mutrate * (n - occupied) as real >= occupied as real ==> p >= 1.0;
      assert mutrate <= 0.0 ==> p <= 0.0;
      Lattice.RandomTwoColor(p, u) == 1
  }

  /** One pass of the while loop. */
  function Step(st: Trial, net: Network.Adj, n: nat, mutrate: real, d: Draw): (r: (Trial, Event))
    requires Inv(st, net, n) && N(st) < n && DrawOk(d) && mutrate > 0.0
    ensures Inv(r.0, net, n)
    ensures r.1 == Mutated <==> MutateNotJump(mutrate, n, N(st), d.coin)
    ensures N(st) == 0 ==> r.1 == Mutated
    ensures N(r.0) == N(st) + (if r.1 == Collided then 0 else 1)
    ensures r.0.lastColor == st.lastColor + (if r.1 == Mutated then 1 else 0)
    ensures r.1 == Mutated ==> r.0.sim.sites.colors[r.0.sim.siteIdxs[N(st)]] == st.lastColor
    ensures r.1 == Mutated ==>
              && r.0.sim.sites.colors == st.sim.sites.colors[MutSite(st, net, n, d) := st.lastColor]
              && r.0.sim.siteIdxs == st.sim.siteIdxs + [MutSite(st, net, n, d)]
    ensures r.1 == Collided ==> r.0.sim.sites == st.sim.sites && r.0.sim.siteIdxs == st.sim.siteIdxs
    ensures r.1 != Mutated ==> (r.1 == Copied <==> Target(st, net, n, d) in Pool.EmptySites(st.sim.sites))
    ensures r.1 == Copied ==>
              && r.0.sim.sites.colors == st.sim.sites.colors[Target(st, net, n, d) := st.sim.sites.colors[Source(st, d)]]
              && r.0.sim.siteIdxs == st.sim.siteIdxs + [Target(st, net, n, d)]
    ensures Pool.OccupiedSites(st.sim.sites) <= Pool.OccupiedSites(r.0.sim.sites)
    ensures r.0.sim.siteIdxs[..N(st)] == st.sim.siteIdxs
  {
    if MutateNotJump(mutrate, n, N(st), d.coin) then (Mutate(st, net, n, d), Mutated)
    else
      var copied := Copy(st, net, n, d);
      var st1, ok := copied.0, copied.1;
      (st1, if ok then Copied else Collided)
  }

  /** The site the mutation branch draws: the unoccupied site that
      randomEmptyPoint returns at the scaled pick position. */
  function MutSite(st: Trial, net: Network.Adj, n: nat, d: Draw): (pt: int)
    requires Inv(st, net, n) && N(st) < n && DrawOk(d)
    ensures 0 <= pt < n && pt in Pool.EmptySites(st.sim.sites)
  {
    Pool.ValidPartition(st.sim.sites);
    Lattice.RandomEmptyPoint(st.sim, Scale(d.pick, Pool.NEmpty(st.sim.sites)))
  }

  /** The mutation branch: a new colour at an empty site picked with the
      draw. */
  function Mutate(st: Trial, net: Network.Adj, n: nat, d: Draw): (r: Trial)
    requires Inv(st, net, n) && N(st) < n && DrawOk(d)
    ensures Inv(r, net, n)
    ensures N(r) == N(st) + 1 && r.lastColor == st.lastColor + 1
    ensures r.sim.sites.colors[r.sim.siteIdxs[N(st)]] == st.lastColor
    ensures r.sim.siteIdxs == st.sim.siteIdxs + [MutSite(st, net, n, d)]
    ensures r.sim.sites.colors == st.sim.sites.colors[MutSite(st, net, n, d) := st.lastColor]
    ensures Pool.OccupiedSites(st.sim.sites) <= Pool.OccupiedSites(r.sim.sites)
    ensures r.sim.siteIdxs[..N(st)] == st.sim.siteIdxs
  {
    Pool.ValidPartition(st.sim.sites);
    var k := Scale(d.pick, Pool.NEmpty(st.sim.sites));
    var pt := Lattice.RandomEmptyPoint(st.sim, k);
    var added := Lattice.AddPoint(st.sim, pt, st.lastColor, 0.0);
    var sim1 := added.1;
    assert sim1.siteIdxs[..N(st)] == st.sim.siteIdxs;
    Trial(sim1, st.lastColor + 1)
  }

  /** The site the copy branch draws: the occupied site at the scaled pick
      position in the order sites were occupied. */
  function Source(st: Trial, d: Draw): (pt: int)
    requires Lattice.Valid(st.sim) && 0 < N(st) && DrawOk(d)
    ensures pt in Pool.OccupiedSites(st.sim.sites)
  {
    Lattice.SiteIdxsAreOccupied(st.sim);
    st.sim.siteIdxs[Scale(d.pick, N(st))]
  }

  /** The neighbour of Source that the copy branch offers its colour to:
      the entry of its adjacency list at the scaled neighbour draw. */
  function Target(st: Trial, net: Network.Adj, n: nat, d: Draw): (t: int)
    requires Inv(st, net, n) && 0 < N(st) && DrawOk(d)
    ensures 0 <= t < n && t in net[Source(st, d)]
  {
    var pt := Source(st, d);
    net[pt][Scale(d.nbr, |net[pt]|)]
  }

  /** The copy branch: an occupied site picked with the draw passes its
      colour to a neighbour, which fails (false) when the neighbour is
      already occupied. */
  function Copy(st: Trial, net: Network.Adj, n: nat, d: Draw): (r: (Trial, bool))
    requires Inv(st, net, n) && 0 < N(st) < n && DrawOk(d)
    ensures Inv(r.0, net, n)
    ensures N(r.0) == N(st) + (if r.1 then 1 else 0) && r.0.lastColor == st.lastColor
    ensures r.1 <==> Target(st, net, n, d) in Pool.EmptySites(st.sim.sites)
    ensures r.1 ==> && r.0.sim.sites.colors == st.sim.sites.colors[Target(st, net, n, d) := st.sim.sites.colors[Source(st, d)]]
                    && r.0.sim.siteIdxs == st.sim.siteIdxs + [Target(st, net, n, d)]
    ensures !r.1 ==> r.0.sim.sites == st.sim.sites && r.0.sim.siteIdxs == st.sim.siteIdxs
    ensures Pool.OccupiedSites(st.sim.sites) <= Pool.OccupiedSites(r.0.sim.sites)
    ensures r.0.sim.siteIdxs[..N(st)] == st.sim.siteIdxs
  {
    var occupied := N(st);
    var k := Scale(d.pick, occupied);
    var picked := Lattice.RandomPoint(st.sim, k);
    var pt, c := picked.0, picked.1;
    var j := Scale(d.nbr, |net[pt]|);
    var moved := Lattice.RandomNeighbor(st.sim, pt, j);
    var t, sim1 := moved.0, moved.1;
    assert Lattice.Valid(sim1);
    assert 0 <= t < n by {
      var i :| 0 <= i < |net[pt]| && net[pt][i] == t;
    }
    var added := Lattice.AddPoint(sim1, t, c, 0.0);
    var ok, sim2 := added.0, added.1;
    assert sim2.siteIdxs[..occupied] == st.sim.siteIdxs;
    (Trial(sim2, st.lastColor), ok)
  }

  /** Number of steps in a log that occupied a site. */
  function Filled(log: seq<Event>): nat {
    multiset(log)[Mutated] + multiset(log)[Copied]
  }

  /** The while loop: steps until every site is occupied or the draws run
      out. Returns the final state and the log of what each step did. */
  function Run(st: Trial, net: Network.Adj, n: nat, mutrate: real, draws: seq<Draw>): (r: (Trial, seq<Event>))
    requires Inv(st, net, n) && DrawsOk(draws) && mutrate > 0.0
    ensures Inv(r.0, net, n)
    ensures |r.1| <= |draws|
    decreases |draws|
  {
    if N(st) == n || draws == [] then (st, [])
    else
      var step := Step(st, net, n, mutrate, draws[0]);
      var st1, ev := step.0, step.1;
      var rest := Run(st1, net, n, mutrate, draws[1..]);
      var st2, log := rest.0, rest.1;
      (st2, [ev] + log)
  }

  /** The loop ends exactly when every site is occupied, unless the draws
      run out first; a full pool takes no step. */
  lemma {:induction false} RunStopsWhenFull(st: Trial, net: Network.Adj, n: nat, mutrate: real, draws: seq<Draw>)
    requires Inv(st, net, n) && DrawsOk(draws) && mutrate > 0.0
    ensures var r := Run(st, net, n, mutrate, draws);
            && (N(r.0) == n || |r.1| == |draws|)
            && (N(st) == n ==> r.1 == [])
    decreases |draws|
  {
    if N(st) != n && draws != [] {
      var step := Step(st, net, n, mutrate, draws[0]);
      var st1, ev := step.0, step.1;
      RunStopsWhenFull(st1, net, n, mutrate, draws[1..]);
    }
  }

  /** The colour counter grows by the number of mutations and the occupied
      count by the number of steps that filled a site. */
  lemma {:induction false} RunCounts(st: Trial, net: Network.Adj, n: nat, mutrate: real, draws: seq<Draw>)
    requires Inv(st, net, n) && DrawsOk(draws) && mutrate > 0.0
    ensures var r := Run(st, net, n, mutrate, draws);
            && r.0.lastColor == st.lastColor + multiset(r.1)[Mutated]
            && N(r.0) == N(st) + Filled(r.1)
    decreases |draws|
  {
    if N(st) != n && draws != [] {
      var step := Step(st, net, n, mutrate, draws[0]);
      var st1, ev := step.0, step.1;
      RunCounts(st1, net, n, mutrate, draws[1..]);
      LogCons(ev, Run(st1, net, n, mutrate, draws[1..]).1);
    }
  }

  /** Counting over a log that starts with ev: ev's own contribution plus
      the rest's. */
  lemma LogCons(ev: Event, log: seq<Event>)
    ensures multiset([ev] + log)[Mutated] == (if ev == Mutated then 1 else 0) + multiset(log)[Mutated]
    ensures Filled([ev] + log) == (if ev == Collided then 0 else 1) + Filled(log)
    ensures Filled([ev]) == (if ev == Collided then 0 else 1)
  {
    assert multiset([ev] + log) == multiset{ev} + multiset(log);
    assert multiset([ev]) == multiset{ev};
  }

  /** Every step was taken from a state with an unoccupied site: before
      step i the occupied count, the start's plus the sites filled by the
      first i steps, is below n. */
  lemma {:induction false} RunStepsOnlyWhileNotFull(st: Trial, net: Network.Adj, n: nat, mutrate: real, draws: seq<Draw>)
    requires Inv(st, net, n) && DrawsOk(draws) && mutrate > 0.0
    ensures StepsBelow(N(st), Run(st, net, n, mutrate, draws).1, n)
    decreases |draws|
  {
    if N(st) != n && draws != [] {
      var step := Step(st, net, n, mutrate, draws[0]);
      var st1, ev := step.0, step.1;
      RunStepsOnlyWhileNotFull(st1, net, n, mutrate, draws[1..]);
      var log := Run(st1, net, n, mutrate, draws[1..]).1;
      LogCons(ev, log);
      PrefixesOfCons(ev, log, N(st), n);
    }
  }

  /** Before each step of the log, the occupied count (base plus the sites
      filled by the earlier steps) was below n. */
  ghost predicate StepsBelow(base: nat, log: seq<Event>, n: nat) {
    forall i :: 0 <= i < |log| ==> base + Filled(log[..i]) < n
  }

  lemma PrefixesOfCons(ev: Event, log: seq<Event>, base: nat, n: nat)
    requires base < n
    requires StepsBelow(base + Filled([ev]), log, n)
    ensures StepsBelow(base, [ev] + log, n)
  {
    var r := [ev] + log;
    forall i | 0 <= i < |r| ensures base + Filled(r[..i]) < n {
      if i > 0 {
        assert r[..i] == [ev] + log[..i - 1];
        assert multiset(r[..i]) == multiset([ev]) + multiset(log[..i - 1]);
      } else {
        assert r[..i] == [];
      }
    }
  }

  /** One step adds the fresh colour to the colours present when it
      mutates, and no new colour otherwise: a copy spreads a colour that is
      already present. */
  lemma StepPalette(st: Trial, net: Network.Adj, n: nat, mutrate: real, d: Draw)
    requires Inv(st, net, n) && N(st) < n && DrawOk(d) && mutrate > 0.0
    ensures var r := Step(st, net, n, mutrate, d);
            Elems(Lattice.ColorsInOrder(r.0.sim)) ==
            Elems(Lattice.ColorsInOrder(st.sim)) + (if r.1 == Mutated then {st.lastColor} else {})
  {
    var step := Step(st, net, n, mutrate, d);
    var st1, ev := step.0, step.1;
    var prev := Lattice.ColorsInOrder(st.sim);
    var cur := Lattice.ColorsInOrder(st1.sim);
    if ev != Collided {
      var newColor := st1.sim.sites.colors[st1.sim.siteIdxs[N(st)]];
      StepAppendsColour(st, st1, net, n, mutrate, d);
      if ev == Copied {
        CopiedColourPresent(st, net, n, mutrate, d);
      }
      PaletteOfAppend(prev, cur, newColor, ev, st.lastColor);
    } else {
      assert cur == prev;
    }
  }

  /** The set form of one step's effect on the colours in order. */
  lemma PaletteOfAppend(prev: seq<int>, cur: seq<int>, newColor: int, ev: Event, issued: int)
    requires ev != Collided && cur == prev + [newColor]
    requires ev == Copied ==> newColor in prev
    requires ev == Mutated ==> newColor == issued
    ensures Elems(cur) == Elems(prev) + (if ev == Mutated then {issued} else {})
  {
    ElemsSnoc(prev, newColor);
  }

  /** A step that fills a site appends that site's colour to the colours in
      insertion order and leaves the earlier entries alone. */
  lemma StepAppendsColour(st: Trial, st1: Trial, net: Network.Adj, n: nat, mutrate: real, d: Draw)
    requires Inv(st, net, n) && N(st) < n && DrawOk(d) && mutrate > 0.0
    requires st1 == Step(st, net, n, mutrate, d).0 && Step(st, net, n, mutrate, d).1 != Collided
    ensures Lattice.ColorsInOrder(st1.sim) ==
            Lattice.ColorsInOrder(st.sim) + [st1.sim.sites.colors[st1.sim.siteIdxs[N(st)]]]
  {
    var prev := Lattice.ColorsInOrder(st.sim);
    var cur := Lattice.ColorsInOrder(st1.sim);
    forall i | 0 <= i < N(st) ensures cur[i] == prev[i] {
      SameColourKept(st, st1, net, n, mutrate, d, i);
    }
  }

  /** A step never recolours a site that was already occupied. */
  lemma SameColourKept(st: Trial, st1: Trial, net: Network.Adj, n: nat, mutrate: real, d: Draw, i: nat)
    requires Inv(st, net, n) && N(st) < n && DrawOk(d) && mutrate > 0.0
    requires st1 == Step(st, net, n, mutrate, d).0
    requires i < N(st)
    ensures Lattice.ColorsInOrder(st1.sim)[i] == Lattice.ColorsInOrder(st.sim)[i]
  {
    var occupied := N(st);
    assert st1.sim.siteIdxs[..occupied] == st.sim.siteIdxs;
    var s := st.sim.siteIdxs[i];
    assert st1.sim.siteIdxs[i] == s;
    assert s in Pool.OccupiedSites(st.sim.sites);
    assert s in Pool.OccupiedSites(st1.sim.sites);
    StepKeepsOccupiedColours(st, net, n, mutrate, d, s);
  }

  /** The colour of an occupied site survives a step. */
  lemma StepKeepsOccupiedColours(st: Trial, net: Network.Adj, n: nat, mutrate: real, d: Draw, s: int)
    requires Inv(st, net, n) && N(st) < n && DrawOk(d) && mutrate > 0.0
    requires s in Pool.OccupiedSites(st.sim.sites)
    ensures Step(st, net, n, mutrate, d).0.sim.sites.colors[s] == st.sim.sites.colors[s]
  {
  }

  /** A successful copy appends a colour already present. */
  lemma CopiedColourPresent(st: Trial, net: Network.Adj, n: nat, mutrate: real, d: Draw)
    requires Inv(st, net, n) && N(st) < n && DrawOk(d) && mutrate > 0.0
    requires Step(st, net, n, mutrate, d).1 == Copied
    ensures var st1 := Step(st, net, n, mutrate, d).0;
            st1.sim.sites.colors[st1.sim.siteIdxs[N(st)]] in Lattice.ColorsInOrder(st.sim)
  {
    var occupied := N(st);
    Pool.ValidPartition(st.sim.sites);
    var k := Scale(d.pick, occupied);
    var picked := Lattice.RandomPoint(st.sim, k);
    var pt, c := picked.0, picked.1;
    var j := Scale(d.nbr, |net[pt]|);
    var moved := Lattice.RandomNeighbor(st.sim, pt, j);
    var t, sim1 := moved.0, moved.1;
    assert 0 <= t < n by {
      var i :| 0 <= i < |net[pt]| && net[pt][i] == t;
    }
    var added := Lattice.AddPoint(sim1, t, c, 0.0);
    var ok, sim2 := added.0, added.1;
    assert Lattice.ColorsInOrder(st.sim)[k] == c;
  }

  /** The colours present are exactly those handed out so far: each
      mutation's colour stays on the lattice, and nothing else appears. */
  ghost predicate PaletteExact(st: Trial)
    requires Lattice.Valid(st.sim)
  {
    Elems(Lattice.ColorsInOrder(st.sim)) == Below(st.lastColor)
  }

  lemma {:induction false} RunPalette(st: Trial, net: Network.Adj, n: nat, mutrate: real, draws: seq<Draw>)
    requires Inv(st, net, n) && DrawsOk(draws) && mutrate > 0.0
    requires PaletteExact(st)
    ensures PaletteExact(Run(st, net, n, mutrate, draws).0)
    decreases |draws|
  {
    if N(st) != n && draws != [] {
      var step := Step(st, net, n, mutrate, draws[0]);
      var st1, ev := step.0, step.1;
      StepPalette(st, net, n, mutrate, draws[0]);
      assert Below(st1.lastColor) == Below(st.lastColor) + (if ev == Mutated then {st.lastColor} else {});
      RunPalette(st1, net, n, mutrate, draws[1..]);
    }
  }

  /** A whole trial from the empty start. */
  function Colonize(net: Network.Adj, n: nat, mutrate: real, draws: seq<Draw>): (r: (Trial, seq<Event>))
    requires Network.WellFormed(net, n) && DrawsOk(draws) && mutrate > 0.0
    ensures Inv(r.0, net, n)
  {
    Run(Start(net, n), net, n, mutrate, draws)
  }

  /** The loop's counters: the colour counter equals the number of
      mutations, and the occupied count equals the number of successful
      steps and never exceeds n. */
  lemma ColonizeCounts(net: Network.Adj, n: nat, mutrate: real, draws: seq<Draw>)
    requires Network.WellFormed(net, n) && DrawsOk(draws) && mutrate > 0.0
    ensures var run := Colonize(net, n, mutrate, draws);
            && run.0.lastColor == multiset(run.1)[Mutated]
            && N(run.0) == Filled(run.1) <= n
  {
    RunCounts(Start(net, n), net, n, mutrate, draws);
    Pool.ValidPartition(Colonize(net, n, mutrate, draws).0.sim.sites);
  }

  /** The loop only stepped while some site was unoccupied, and it stopped
      because all sites were occupied unless the draws ran out. */
  lemma ColonizeSteps(net: Network.Adj, n: nat, mutrate: real, draws: seq<Draw>)
    requires Network.WellFormed(net, n) && DrawsOk(draws) && mutrate > 0.0
    ensures var run := Colonize(net, n, mutrate, draws);
            && StepsBelow(0, run.1, n)
            && (N(run.0) == n || |run.1| == |draws|)
  {
    var st0 := Start(net, n);
    RunStopsWhenFull(st0, net, n, mutrate, draws);
    RunStepsOnlyWhileNotFull(st0, net, n, mutrate, draws);
  }

  /** On a non-empty graph with at least one draw, the trial takes a step,
      and its first step is a mutation. */
  lemma ColonizeStartsWithMutation(net: Network.Adj, n: nat, mutrate: real, draws: seq<Draw>)
    requires Network.WellFormed(net, n) && DrawsOk(draws) && mutrate > 0.0
    ensures var log := Colonize(net, n, mutrate, draws).1;
            n > 0 && |draws| > 0 ==> |log| > 0 && log[0] == Mutated
  {
    var st0 := Start(net, n);
    if n > 0 && |draws| > 0 {
      var step := Step(st0, net, n, mutrate, draws[0]);
      assert step.1 == Mutated;
      assert Colonize(net, n, mutrate, draws).1 == [step.1] + Run(step.0, net, n, mutrate, draws[1..]).1;
    }
  }

  /** At the end of a trial the colours on the lattice are exactly the
      colours 0 .. lastcolor-1: lastcolor counts the clones present. */
  lemma ColonizePalette(net: Network.Adj, n: nat, mutrate: real, draws: seq<Draw>)
    requires Network.WellFormed(net, n) && DrawsOk(draws) && mutrate > 0.0
    ensures var st := Colonize(net, n, mutrate, draws).0;
            Elems(Lattice.ColorsInOrder(st.sim)) == Below(st.lastColor)
  {
    var st0 := Start(net, n);
    assert Lattice.ColorsInOrder(st0.sim) == [];
    RunPalette(st0, net, n, mutrate, draws);
  }
}
