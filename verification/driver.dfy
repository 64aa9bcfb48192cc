/** The trial loop of spatialsoft2d.cpp's main: every trial reloads the
    edge list, checks the node labels, rejects a non-starting mutation rate,
    colonizes the graph and folds the trial's match probability and clone
    count into running means; the summary reports the soft-sweep
    probability 1 - mean match probability and the mean clone count.

    Each trial's random stream is an argument, and the number of trials is
    the number of streams given. */
module Driver {
  import opened Common
  import Network
  import Lattice
  import Colonize
  import Stats

  datatype Failure =
    | GapInGraph      // node labels are not exactly 0 .. n-1 (the assert)
    | NonStarter      // the mutation rate cannot start a clone
    | DrawsExhausted  // a trial's random stream ended before the graph filled

  /** What one completed trial contributes: its match probability and its
      final colour counter. */
  datatype Outcome = Outcome(matchProb: real, clones: nat)

  /** The two figures written to the summary file. */
  datatype Summary = Summary(softSweep: real, avgClones: real)

  predicate AllDrawsOk(trials: seq<seq<Colonize.Draw>>) {
    forall i :: 0 <= i < |trials| ==> Colonize.DrawsOk(trials[i])
  }

  /** One trial: colonize until every node is occupied, then the match
      probability of the final colouring and lastcolor. None when the
      stream ran out first. */
  function TrialOutcome(net: Network.Adj, n: nat, mutrate: real, draws: seq<Colonize.Draw>): (o: Option<Outcome>)
    requires Network.WellFormed(net, n) && Colonize.DrawsOk(draws) && mutrate > 0.0
    ensures o.None? <==> Colonize.N(Colonize.Colonize(net, n, mutrate, draws).0) < n
  {
    var run := Colonize.Colonize(net, n, mutrate, draws);
    var st := run.0;
    if Colonize.N(st) < n then None
    else Some(Outcome(Stats.MatchProb(Lattice.ColorsInOrder(st.sim)), st.lastColor))
  }

  /** A trial on a non-empty graph ends with at least one clone and a match
      probability in (0, 1] that is 1 exactly when a single clone is left;
      a trial stops early only when its stream has been used up. */
  lemma TrialOutcomeBounds(net: Network.Adj, n: nat, mutrate: real, draws: seq<Colonize.Draw>)
    requires Network.WellFormed(net, n) && Colonize.DrawsOk(draws) && mutrate > 0.0
    ensures var o := TrialOutcome(net, n, mutrate, draws);
            && (o.Some? && n > 0 ==> 0.0 < o.value.matchProb <= 1.0 && o.value.clones >= 1)
            && (o.Some? && n > 0 ==> (o.value.matchProb == 1.0 <==> o.value.clones == 1))
            && (o.None? ==> |Colonize.Colonize(net, n, mutrate, draws).1| == |draws|)
  {
    var run := Colonize.Colonize(net, n, mutrate, draws);
    var st, log := run.0, run.1;
    Colonize.ColonizeCounts(net, n, mutrate, draws);
    Colonize.ColonizeSteps(net, n, mutrate, draws);
    if Colonize.N(st) == n && n > 0 {
      var cs := Lattice.ColorsInOrder(st.sim);
      Colonize.ColonizePalette(net, n, mutrate, draws);
      NoDupCard(Stats.FirstSeen(cs));
      BelowCard(st.lastColor);
      Stats.MatchProbBounds(cs);
    }
  }

  /** The outcomes of the trials in order; None as soon as one trial's
      stream runs out. */
  function Outcomes(net: Network.Adj, n: nat, mutrate: real, trials: seq<seq<Colonize.Draw>>): (r: Option<seq<Outcome>>)
    requires Network.WellFormed(net, n) && AllDrawsOk(trials) && mutrate > 0.0
    ensures r.Some? ==> |r.value| == |trials|
  {
    if trials == [] then Some([])
    else
      var pre := trials[..|trials| - 1];
      match Outcomes(net, n, mutrate, pre)
      case None => None
      case Some(os) =>
        match TrialOutcome(net, n, mutrate, trials[|trials| - 1])
        case None => None
        case Some(o) => Some(os + [o])
  }

  /** A trial that runs out of draws spoils every longer run of trials. */
  lemma {:induction false} OutcomesPrefixNone(net: Network.Adj, n: nat, mutrate: real, trials: seq<seq<Colonize.Draw>>, j: nat)
    requires Network.WellFormed(net, n) && AllDrawsOk(trials) && mutrate > 0.0
    requires j <= |trials| && Outcomes(net, n, mutrate, trials[..j]).None?
    ensures Outcomes(net, n, mutrate, trials).None?
    decreases |trials| - j
  {
    if j < |trials| {
      assert trials[..j + 1][..j] == trials[..j];
      OutcomesPrefixNone(net, n, mutrate, trials, j + 1);
    } else {
      assert trials[..j] == trials;
    }
  }

  function MatchProbs(os: seq<Outcome>): (ps: seq<real>)
    ensures |ps| == |os| && forall i :: 0 <= i < |os| ==> ps[i] == os[i].matchProb
  {
    seq(|os|, i requires 0 <= i < |os| => os[i].matchProb)
  }

  function CloneCounts(os: seq<Outcome>): (cs: seq<real>)
    ensures |cs| == |os| && forall i :: 0 <= i < |os| ==> cs[i] == os[i].clones as real
  {
    seq(|os|, i requires 0 <= i < |os| => os[i].clones as real)
  }

  /** The outcomes of the first i+1 trials extend those of the first i by
      the outcome of trial i. */
  lemma OutcomesStep(net: Network.Adj, n: nat, mutrate: real, trials: seq<seq<Colonize.Draw>>, i: nat)
    requires Network.WellFormed(net, n) && AllDrawsOk(trials) && mutrate > 0.0 && i < |trials|
    ensures var pre := Outcomes(net, n, mutrate, trials[..i]);
            var o := TrialOutcome(net, n, mutrate, trials[i]);
            && (pre.Some? && o.Some? ==> Outcomes(net, n, mutrate, trials[..i + 1]) == Some(pre.value + [o.value]))
            && (o.None? ==> Outcomes(net, n, mutrate, trials[..i + 1]).None?)
  {
    var t := trials[..i + 1];
    assert t[..i] == trials[..i] && t[i] == trials[i];
    assert AllDrawsOk(t) by {
      forall j | 0 <= j < |t| ensures Colonize.DrawsOk(t[j]) {
        assert t[j] == trials[j];
      }
    }
  }

  /** One more outcome advances both running means by one update step. */
  lemma MeansSnoc(os: seq<Outcome>, o: Outcome)
    ensures Stats.RunningMean(MatchProbs(os + [o])) ==
            Stats.MeanStep(Stats.RunningMean(MatchProbs(os)), |os| + 1, o.matchProb)
    ensures Stats.RunningMean(CloneCounts(os + [o])) ==
            Stats.MeanStep(Stats.RunningMean(CloneCounts(os)), |os| + 1, o.clones as real)
  {
    assert MatchProbs(os + [o])[..|os|] == MatchProbs(os);
    assert CloneCounts(os + [o])[..|os|] == CloneCounts(os);
  }

  /** The rate test of main as corrected: a rate that is not positive never
      mutates on the empty lattice, so no trial could start. */
  predicate NonStarting(mutrate: real) {
    mutrate <= 0.0
  }

  /** The rate test of main as written: only a rate of exactly 0 is
      rejected. */
  predicate NonStartingAsWritten(mutrate: real) {
    mutrate == 0.0
  }

  /** What main reports, stated with plain arithmetic means over the
      trials: the checks of the first trial decide the failures (every
      trial repeats them on the same input), and otherwise the summary is
      one minus the mean match probability and the mean clone count. With
      no trial at all the averages keep their initial value 0. */
  ghost function Expected(lines: seq<string>, mutrate: real, trials: seq<seq<Colonize.Draw>>): Result<Summary, Failure>
    requires AllDrawsOk(trials)
  {
    LoadedGraphChecked(lines);
    ExpectedFor(Network.InitializeNetwork(lines), mutrate, trials)
  }

  /** Expected on the graph the edge list loads to. */
  ghost function ExpectedFor(net: Network.Adj, mutrate: real, trials: seq<seq<Colonize.Draw>>): Result<Summary, Failure>
    requires AllDrawsOk(trials) && (Network.NoGap(net) ==> Network.WellFormed(net, |net|))
  {
    if |trials| == 0 then Ok(Summary(1.0, 0.0))
    else if !Network.NoGap(net) then Err(GapInGraph)
    else if NonStarting(mutrate) then Err(NonStarter)
    else
      match Outcomes(net, |net|, mutrate, trials)
      case None => Err(DrawsExhausted)
      case Some(os) => Ok(SummaryOf(os))
  }

  /** A loaded graph that passes the no-gap check is one the colonization
      can run on. */
  lemma LoadedGraphChecked(lines: seq<string>)
    ensures var net := Network.InitializeNetwork(lines);
            Network.NoGap(net) ==> Network.WellFormed(net, |net|)
  {
    if Network.NoGap(Network.InitializeNetwork(lines)) {
      Network.LoadedGraphWellFormed(lines);
    }
  }

  /** The summary of completed trials: one minus the mean match
      probability, and the mean clone count. */
  function SummaryOf(os: seq<Outcome>): Summary {
    Summary(1.0 - Stats.Mean(MatchProbs(os)), Stats.Mean(CloneCounts(os)))
  }

  /** main: load the edge list, then run the trials on the graph. Every
      trial reloads the same edge list, so the graph is loaded once. */
  method RunMain(lines: seq<string>, mutrate: real, trials: seq<seq<Colonize.Draw>>) returns (r: Result<Summary, Failure>)
    requires AllDrawsOk(trials)
    ensures r == Expected(lines, mutrate, trials)
  {
    var net := Network.InitializeNetwork(lines);
    LoadedGraphChecked(lines);
    r := RunOn(net, mutrate, trials);
  }

  /** The checks every trial makes, then the trial loop with its running
      means; the result is the summary of plain means over all trials.
      Every trial repeats the same checks on the same graph, so they are
      made once, before the first trial; with no trial at all nothing is
      checked. */
  method RunOn(net: Network.Adj, mutrate: real, trials: seq<seq<Colonize.Draw>>) returns (r: Result<Summary, Failure>)
    requires AllDrawsOk(trials) && (Network.NoGap(net) ==> Network.WellFormed(net, |net|))
    ensures r == ExpectedFor(net, mutrate, trials)
  {
    if |trials| == 0 {
      return Ok(Summary(1.0 - 0.0, 0.0));
    }
    var noGap := Network.CheckNoGap(net);
    if !noGap {
      return Err(GapInGraph);
    }
    if NonStarting(mutrate) {
      return Err(NonStarter);
    }
    var means := TrialLoop(net, |net|, mutrate, trials);
    ghost var oo := Outcomes(net, |net|, mutrate, trials);
    if means.None? {
      assert oo.None?;
      r := Err(DrawsExhausted);
    } else {
      assert SummaryOf(oo.value) == Summary(1.0 - means.value.0, means.value.1);
      r := Ok(Summary(1.0 - means.value.0, means.value.1));
    }
  }

  /** The trial loop once the checks have passed: each trial's match
      probability and lastcolor are folded into the two running means; the
      result is the pair of plain means over all trials, or None as soon as
      a trial's stream runs out. */
  method TrialLoop(net: Network.Adj, n: nat, mutrate: real, trials: seq<seq<Colonize.Draw>>)
      returns (r: Option<(real, real)>)
    requires Network.WellFormed(net, n) && AllDrawsOk(trials) && mutrate > 0.0
    ensures var oo := Outcomes(net, n, mutrate, trials);
            && (r.None? <==> oo.None?)
            && (r.Some? ==> r.value.0 == Stats.Mean(MatchProbs(oo.value)))
            && (r.Some? ==> r.value.1 == Stats.Mean(CloneCounts(oo.value)))
  {
    var avgMatchProb := 0.0;
    var avgLastColor := 0.0;
    var avgCount := 0;
    ghost var outs: seq<Outcome> := [];
    var i := 0;
    assert trials[..0] == [];
    while i < |trials|
      invariant i <= |trials| && avgCount == i == |outs|
      invariant Outcomes(net, n, mutrate, trials[..i]) == Some(outs)
      invariant avgMatchProb == Stats.RunningMean(MatchProbs(outs))
      invariant avgLastColor == Stats.RunningMean(CloneCounts(outs))
    {
      OutcomesStep(net, n, mutrate, trials, i);
      var o := TrialOutcome(net, n, mutrate, trials[i]);
      if o.None? {
        OutcomesPrefixNone(net, n, mutrate, trials, i + 1);
        return None;
      }
      avgCount := avgCount + 1;
      avgMatchProb := Stats.MeanStep(avgMatchProb, avgCount, o.value.matchProb);
      avgLastColor := Stats.MeanStep(avgLastColor, avgCount, o.value.clones as real);
      MeansSnoc(outs, o.value);
      outs := outs + [o.value];
      i := i + 1;
    }
    assert trials[..i] == trials;
    Stats.RunningMeanIsMeanAll(MatchProbs(outs));
    Stats.RunningMeanIsMeanAll(CloneCounts(outs));
    r := Some((avgMatchProb, avgLastColor));
  }

  /** The figures main reports lie where they should: on a non-empty graph
      the soft-sweep probability is in [0, 1), the mean clone count is at
      least one, and the soft-sweep probability is 0 exactly when every
      trial ended with a single clone. */
  lemma SummaryBounds(lines: seq<string>, mutrate: real, trials: seq<seq<Colonize.Draw>>)
    requires AllDrawsOk(trials) && |trials| > 0
    requires |Network.InitializeNetwork(lines)| > 0
    ensures var r := Expected(lines, mutrate, trials);
            r.Ok? ==> && 0.0 <= r.value.softSweep < 1.0
                      && r.value.avgClones >= 1.0
                      && (r.value.softSweep == 0.0 <==> r.value.avgClones == 1.0)
  {
    LoadedGraphChecked(lines);
    SummaryBoundsFor(Network.InitializeNetwork(lines), mutrate, trials);
  }

  lemma SummaryBoundsFor(net: Network.Adj, mutrate: real, trials: seq<seq<Colonize.Draw>>)
    requires AllDrawsOk(trials) && |trials| > 0 && |net| > 0
    requires Network.NoGap(net) ==> Network.WellFormed(net, |net|)
    ensures var r := ExpectedFor(net, mutrate, trials);
            r.Ok? ==> && 0.0 <= r.value.softSweep < 1.0
                      && r.value.avgClones >= 1.0
                      && (r.value.softSweep == 0.0 <==> r.value.avgClones == 1.0)
  {
    var n := |net|;
    if Network.NoGap(net) && !NonStarting(mutrate) {
      var oo := Outcomes(net, n, mutrate, trials);
      if oo.Some? {
        OutcomesSound(net, n, mutrate, trials);
        SummaryOfSound(oo.value);
      }
    }
  }

  /** The outcomes of finished trials on a non-empty graph are all sound. */
  lemma OutcomesSound(net: Network.Adj, n: nat, mutrate: real, trials: seq<seq<Colonize.Draw>>)
    requires Network.WellFormed(net, n) && AllDrawsOk(trials) && mutrate > 0.0
    requires Outcomes(net, n, mutrate, trials).Some? && n > 0
    ensures forall k :: 0 <= k < |trials| ==> Sound(Outcomes(net, n, mutrate, trials).value[k])
  {
    forall k | 0 <= k < |trials|
      ensures Sound(Outcomes(net, n, mutrate, trials).value[k])
    {
      OutcomeOfTrial(net, n, mutrate, trials, k);
    }
  }

  /** The summary of sound outcomes: the soft-sweep probability is in
      [0, 1), the mean clone count at least 1, and the probability is 0
      exactly when the mean count is 1. */
  lemma SummaryOfSound(os: seq<Outcome>)
    requires |os| > 0 && forall k :: 0 <= k < |os| ==> Sound(os[k])
    ensures var s := SummaryOf(os);
            && 0.0 <= s.softSweep < 1.0 && s.avgClones >= 1.0
            && (s.softSweep == 0.0 <==> s.avgClones == 1.0)
  {
    MeanBounds(MatchProbs(os), CloneCounts(os));
  }

  /** The figures of one finished trial: a match probability in (0, 1]
      that is 1 exactly when a single clone is left. */
  predicate Sound(o: Outcome) {
    0.0 < o.matchProb <= 1.0 && o.clones >= 1 && (o.matchProb == 1.0 <==> o.clones == 1)
  }

  /** A finished trial on a non-empty graph is sound. */
  lemma TrialSound(net: Network.Adj, n: nat, mutrate: real, draws: seq<Colonize.Draw>)
    requires Network.WellFormed(net, n) && Colonize.DrawsOk(draws) && mutrate > 0.0
    requires TrialOutcome(net, n, mutrate, draws).Some? && n > 0
    ensures Sound(TrialOutcome(net, n, mutrate, draws).value)
  {
    TrialOutcomeBounds(net, n, mutrate, draws);
  }

  /** Every outcome in the list is the outcome of a finished trial, so it
      is sound. */
  lemma {:induction false} OutcomeOfTrial(net: Network.Adj, n: nat, mutrate: real, trials: seq<seq<Colonize.Draw>>, k: nat)
    requires Network.WellFormed(net, n) && AllDrawsOk(trials) && mutrate > 0.0
    requires Outcomes(net, n, mutrate, trials).Some? && k < |trials| && n > 0
    ensures Sound(Outcomes(net, n, mutrate, trials).value[k])
  {
    var last := |trials| - 1;
    var pre := trials[..last];
    OutcomesSnoc(net, n, mutrate, trials);
    if k == last {
      TrialSound(net, n, mutrate, trials[k]);
    } else {
      OutcomeOfTrial(net, n, mutrate, pre, k);
    }
  }

  /** A complete list of outcomes is the complete list of all but the last
      trial followed by the last trial's outcome. */
  lemma OutcomesSnoc(net: Network.Adj, n: nat, mutrate: real, trials: seq<seq<Colonize.Draw>>)
    requires Network.WellFormed(net, n) && AllDrawsOk(trials) && mutrate > 0.0
    requires Outcomes(net, n, mutrate, trials).Some? && |trials| > 0
    ensures AllDrawsOk(trials[..|trials| - 1])
    ensures var po := Outcomes(net, n, mutrate, trials[..|trials| - 1]);
            var to := TrialOutcome(net, n, mutrate, trials[|trials| - 1]);
            && po.Some? && to.Some?
            && Outcomes(net, n, mutrate, trials).value == po.value + [to.value]
  {
    var pre := trials[..|trials| - 1];
    assert AllDrawsOk(pre) by {
      forall i | 0 <= i < |pre| ensures Colonize.DrawsOk(pre[i]) {
        assert pre[i] == trials[i];
      }
    }
  }

  /** Means of match probabilities in (0, 1] and of clone counts >= 1,
      paired so that a probability is 1 exactly when its count is 1: the
      mean probability is in (0, 1], the mean count at least 1, and the
      mean probability is 1 exactly when the mean count is 1. */
  lemma MeanBounds(ps: seq<real>, cs: seq<real>)
    requires |ps| == |cs| > 0
    requires forall k :: 0 <= k < |ps| ==> 0.0 < ps[k] <= 1.0 && cs[k] >= 1.0
    requires forall k :: 0 <= k < |ps| ==> (ps[k] == 1.0 <==> cs[k] == 1.0)
    ensures 0.0 < Stats.Mean(ps) <= 1.0 && Stats.Mean(cs) >= 1.0
    ensures Stats.Mean(ps) == 1.0 <==> Stats.Mean(cs) == 1.0
  {
    var m := |ps| as real;
    SumBounds(ps, cs);
    var sp, sc := Stats.SumReal(ps), Stats.SumReal(cs);
    assert Stats.Mean(ps) == sp / m && Stats.Mean(cs) == sc / m;
    DivCompare(sp, m);
    DivCompare(sc, m);
    assert sp == m <==> sc == m;
  }

  /** Dividing by a positive m keeps the comparisons with 0 and with m. */
  lemma DivCompare(s: real, m: real)
    requires m > 0.0
    ensures s / m > 0.0 <==> s > 0.0
    ensures s / m <= 1.0 <==> s <= m
    ensures s / m >= 1.0 <==> s >= m
    ensures s / m == 1.0 <==> s == m
  {
    assert (s / m) * m == s;
  }

  /** The sums behind MeanBounds: each sum is between its extremes, and a
      sum reaches its extreme exactly when every term does. */
  lemma {:induction false} SumBounds(ps: seq<real>, cs: seq<real>)
    requires |ps| == |cs|
    requires forall k :: 0 <= k < |ps| ==> 0.0 < ps[k] <= 1.0 && cs[k] >= 1.0
    requires forall k :: 0 <= k < |ps| ==> (ps[k] == 1.0 <==> cs[k] == 1.0)
    ensures |ps| > 0 ==> 0.0 < Stats.SumReal(ps)
    ensures Stats.SumReal(ps) <= |ps| as real && Stats.SumReal(cs) >= |cs| as real
    ensures Stats.SumReal(ps) == |ps| as real <==> (forall k :: 0 <= k < |ps| ==> ps[k] == 1.0)
    ensures Stats.SumReal(cs) == |cs| as real <==> (forall k :: 0 <= k < |cs| ==> cs[k] == 1.0)
  {
    if ps != [] {
      var l := |ps| - 1;
      SumBounds(ps[..l], cs[..l]);
      assert forall k :: 0 <= k < l ==> ps[..l][k] == ps[k] && cs[..l][k] == cs[k];
    }
  }

  /* ---------------------------------------------------------------------
     The rate test.
     --------------------------------------------------------------------- */

  /** As written, a negative rate passes the test; on the empty lattice the
      mutate-or-copy draw then never mutates, so the first pass of the loop
      takes the copy branch and asks for a random occupied site while none
      exists (randomIndex over the empty range 0 .. -1). */
  lemma NegativeRatePassesWrittenTest(net: Network.Adj, n: nat, mutrate: real, u: real)
    requires Network.WellFormed(net, n) && n > 0 && 0.0 <= u < 1.0 && mutrate < 0.0
    ensures !NonStartingAsWritten(mutrate) && NonStarting(mutrate)
    ensures !Colonize.MutateNotJump(mutrate, n, Colonize.N(Colonize.Start(net, n)), u)
    ensures Colonize.N(Colonize.Start(net, n)) == 0
  {
  }

  /** With the corrected test, every rate that gets past it is positive, so
      the first pass on a non-empty graph always mutates and the copy
      branch only ever runs with an occupied site to copy from. */
  lemma CorrectedTestStartsWithMutation(net: Network.Adj, n: nat, mutrate: real, u: real)
    requires Network.WellFormed(net, n) && n > 0 && 0.0 <= u < 1.0
    requires !NonStarting(mutrate)
    ensures mutrate > 0.0
    ensures Colonize.MutateNotJump(mutrate, n, Colonize.N(Colonize.Start(net, n)), u)
  {
  }
}
