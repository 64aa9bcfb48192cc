/** The per-trial statistics and the running means of spatialsoft2d.cpp's
    main: the clone counts of the final colouring, the match probability
    (the chance that two sites drawn independently and uniformly carry the
    same colour) and the incremental mean update used across trials. Values
    the source holds in double are exact reals here. */
module Stats {
  import opened Common

  /* ---------------------------------------------------------------------
     Clone counts.
     --------------------------------------------------------------------- */

  /** Count of colour c in a count map; a missing key reads as 0, as
      std::map's operator[] makes it. */
  function CountOf(m: map<int, nat>, c: int): nat {
    if c in m then m[c] else 0
  }

  /** `for each occupied site: clonect[colour]++`, in insertion order. */
  function CloneCounts(colors: seq<int>): (m: map<int, nat>)
    ensures m.Keys == Elems(colors)
  {
    if colors == [] then map[]
    else
      var m := CloneCounts(colors[..|colors| - 1]);
      var c := colors[|colors| - 1];
      assert colors == colors[..|colors| - 1] + [c];
      m[c := CountOf(m, c) + 1]
  }

  /** The colours present, in order of first occurrence. */
  function FirstSeen(colors: seq<int>): (ks: seq<int>)
    ensures NoDup(ks) && Elems(ks) == Elems(colors)
  {
    if colors == [] then []
    else
      var ks := FirstSeen(colors[..|colors| - 1]);
      var c := colors[|colors| - 1];
      assert colors == colors[..|colors| - 1] + [c];
      if c in ks then ks
      else
        assert forall i :: 0 <= i < |ks| ==> ks[i] != c;
        assert Elems(ks + [c]) == Elems(ks) + {c};
        ks + [c]
  }

  /** The count of each colour is the number of sites carrying it. */
  lemma {:induction false} CloneCountsAreMultiplicities(colors: seq<int>, c: int)
    ensures CountOf(CloneCounts(colors), c) == multiset(colors)[c]
  {
    if colors != [] {
      var pre := colors[..|colors| - 1];
      CloneCountsAreMultiplicities(pre, c);
      assert colors == pre + [colors[|colors| - 1]];
    }
  }

  /** Sum of the counts of the listed colours. */
  function SumCounts(ks: seq<int>, m: map<int, nat>): nat {
    if ks == [] then 0 else CountOf(m, ks[0]) + SumCounts(ks[1..], m)
  }

  /** Sum of the squared counts of the listed colours. */
  function SumSquares(ks: seq<int>, m: map<int, nat>): nat {
    if ks == [] then 0 else CountOf(m, ks[0]) * CountOf(m, ks[0]) + SumSquares(ks[1..], m)
  }

  /** Raising the count of one listed colour by one raises the sum by one
      and the sum of squares by 2*count+1. */
  lemma {:induction false} BumpOne(ks: seq<int>, m: map<int, nat>, c: int)
    requires NoDup(ks) && c in ks
    ensures SumCounts(ks, m[c := CountOf(m, c) + 1]) == SumCounts(ks, m) + 1
    ensures SumSquares(ks, m[c := CountOf(m, c) + 1]) == SumSquares(ks, m) + 2 * CountOf(m, c) + 1
  {
    var k := CountOf(m, c);
    var m' := m[c := k + 1];
    if ks[0] == c {
      assert c !in ks[1..];
      SameOutside(ks[1..], m, m', c);
      assert CountOf(m', c) == k + 1;
      SquareSucc(k);
    } else {
      assert NoDup(ks[1..]);
      BumpOne(ks[1..], m, c);
      assert CountOf(m', ks[0]) == CountOf(m, ks[0]);
    }
  }

  lemma SquareSucc(k: int)
    ensures (k + 1) * (k + 1) == k * k + 2 * k + 1
  {
  }

  /** Changing the map at a colour not listed changes neither sum. */
  lemma {:induction false} SameOutside(ks: seq<int>, m: map<int, nat>, m': map<int, nat>, c: int)
    requires c !in ks
    requires forall x :: x != c ==> CountOf(m, x) == CountOf(m', x)
    ensures SumCounts(ks, m') == SumCounts(ks, m)
    ensures SumSquares(ks, m') == SumSquares(ks, m)
  {
    if ks != [] {
      SameOutside(ks[1..], m, m', c);
    }
  }

  lemma {:induction false} AppendKey(ks: seq<int>, m: map<int, nat>, c: int)
    ensures SumCounts(ks + [c], m) == SumCounts(ks, m) + CountOf(m, c)
    ensures SumSquares(ks + [c], m) == SumSquares(ks, m) + CountOf(m, c) * CountOf(m, c)
  {
    if ks != [] {
      assert (ks + [c])[1..] == ks[1..] + [c];
      AppendKey(ks[1..], m, c);
    }
  }

  /** Number of ordered pairs (i, j) of sites with the same colour: for each
      site i, the number of sites j that share its colour. */
  function SamePairs(colors: seq<int>, all: seq<int>): nat {
    if colors == [] then 0 else multiset(all)[colors[0]] + SamePairs(colors[1..], all)
  }

  /** Pairs counted against one more site of colour c: each listed site
      of colour c gains one partner. */
  lemma {:induction false} PairsShift(xs: seq<int>, all: seq<int>, c: int)
    ensures SamePairs(xs, all + [c]) == SamePairs(xs, all) + multiset(xs)[c]
  {
    if xs != [] {
      PairsShift(xs[1..], all, c);
      assert xs == [xs[0]] + xs[1..];
    }
  }

  lemma {:induction false} SamePairsSplit(xs: seq<int>, c: int, all: seq<int>)
    ensures SamePairs(xs + [c], all) == SamePairs(xs, all) + multiset(all)[c]
  {
    if xs != [] {
      assert (xs + [c])[1..] == xs[1..] + [c];
      SamePairsSplit(xs[1..], c, all);
    }
  }

  /** Appending a site of colour c adds 2*(earlier sites of colour c)+1
      same-colour ordered pairs. */
  lemma SamePairsSnoc(pre: seq<int>, c: int)
    ensures SamePairs(pre + [c], pre + [c]) == SamePairs(pre, pre) + 2 * multiset(pre)[c] + 1
  {
    SamePairsSplit(pre, c, pre + [c]);
    PairsShift(pre, pre, c);
    assert multiset(pre + [c]) == multiset(pre) + multiset{c};
  }

  /** The clone counts add up to the number of sites. */
  lemma {:induction false} CountsSumToSites(colors: seq<int>)
    ensures SumCounts(FirstSeen(colors), CloneCounts(colors)) == |colors|
  {
    if colors != [] {
      var pre := colors[..|colors| - 1];
      var c := colors[|colors| - 1];
      CountsSumToSites(pre);
      var ks := FirstSeen(pre);
      var m := CloneCounts(pre);
      if c in ks {
        BumpOne(ks, m, c);
      } else {
        SameOutside(ks, m, m[c := 1], c);
        AppendKey(ks, m[c := 1], c);
      }
    }
  }

  /** The squared clone counts add up to the number of same-colour ordered
      pairs of sites. */
  lemma {:induction false} SquaresArePairs(colors: seq<int>)
    ensures SumSquares(FirstSeen(colors), CloneCounts(colors)) == SamePairs(colors, colors)
  {
    if colors != [] {
      var pre := colors[..|colors| - 1];
      var c := colors[|colors| - 1];
      assert colors == pre + [c];
      SquaresArePairs(pre);
      SamePairsSnoc(pre, c);
      SquaresSnoc(pre, c);
    }
  }

  /** The sum of squared counts after one more site of colour c. */
  lemma SquaresSnoc(pre: seq<int>, c: int)
    ensures SumSquares(FirstSeen(pre + [c]), CloneCounts(pre + [c])) ==
            SumSquares(FirstSeen(pre), CloneCounts(pre)) + 2 * multiset(pre)[c] + 1
  {
    var colors := pre + [c];
    assert colors[..|colors| - 1] == pre;
    var ks := FirstSeen(pre);
    var m := CloneCounts(pre);
    CloneCountsAreMultiplicities(pre, c);
    assert CloneCounts(colors) == m[c := CountOf(m, c) + 1];
    if c in ks {
      assert FirstSeen(colors) == ks;
      BumpOne(ks, m, c);
      assert SumSquares(ks, m[c := CountOf(m, c) + 1]) == SumSquares(ks, m) + 2 * multiset(pre)[c] + 1;
    } else {
      assert FirstSeen(colors) == ks + [c];
      assert c !in Elems(pre);
      assert CountOf(m, c) == 0;
      var m1 := m[c := 1];
      assert CloneCounts(colors) == m1;
      assert CountOf(m1, c) == 1;
      SameOutside(ks, m, m1, c);
      AppendKey(ks, m1, c);
    }
  }

  /* ---------------------------------------------------------------------
     Match probability.
     --------------------------------------------------------------------- */

  /** `match_prob = sum over colours of (count/total)^2`, total being the
      number of occupied sites; the source sums in ascending colour order,
      this sums in order of first occurrence, which is the same real. With
      no site at all the sum is empty and the result is 0. */
  function MatchProb(colors: seq<int>): real {
    SumFreqSquares(FirstSeen(colors), CloneCounts(colors), |colors|)
  }

  function SumFreqSquares(ks: seq<int>, m: map<int, nat>, total: nat): real {
    if ks == [] || total == 0 then 0.0
    else
      var f := CountOf(m, ks[0]) as real / total as real;
      f * f + SumFreqSquares(ks[1..], m, total)
  }

  lemma DivSquare(a: nat, t: nat)
    requires t > 0
    ensures (a as real / t as real) * (a as real / t as real) == (a * a) as real / (t * t) as real
  {
    var x := a as real / t as real;
    assert x * t as real == a as real;
    assert (x * x) * (t * t) as real == (x * t as real) * (x * t as real);
  }

  lemma {:induction false} FreqSquaresScale(ks: seq<int>, m: map<int, nat>, total: nat)
    requires total > 0
    ensures SumFreqSquares(ks, m, total) == SumSquares(ks, m) as real / (total * total) as real
  {
    if ks != [] {
      FreqSquaresScale(ks[1..], m, total);
      var c := CountOf(m, ks[0]);
      var rest := SumSquares(ks[1..], m);
      var d := (total * total) as real;
      DivSquare(c, total);
      PosMul(total);
      assert SumSquares(ks, m) == c * c + rest;
      DivAdd((c * c) as real, rest as real, d);
    }
  }

  lemma PosMul(t: nat)
    requires t > 0
    ensures t * t > 0
  {
  }

  lemma DivAdd(x: real, y: real, d: real)
    requires d > 0.0
    ensures x / d + y / d == (x + y) / d
  {
    assert (x / d) * d == x && (y / d) * d == y;
  }

  /** The match probability is the fraction of same-colour pairs among all
      ordered pairs of sites: the chance that two independent uniform picks
      share a colour. */
  lemma MatchProbIsPairFraction(colors: seq<int>)
    requires |colors| > 0
    ensures MatchProb(colors) == SamePairs(colors, colors) as real / (|colors| * |colors|) as real
  {
    SquaresArePairs(colors);
    FreqSquaresScale(FirstSeen(colors), CloneCounts(colors), |colors|);
  }

  /** Each site shares its colour with at least itself and at most all. */
  lemma {:induction false} SamePairsBounds(xs: seq<int>, all: seq<int>)
    requires forall i :: 0 <= i < |xs| ==> xs[i] in all
    ensures |xs| <= SamePairs(xs, all) <= |xs| * |all|
  {
    if xs != [] {
      assert xs[0] in all;
      assert forall i :: 0 <= i < |xs[1..]| ==> xs[1..][i] == xs[i + 1];
      SamePairsBounds(xs[1..], all);
      assert multiset(all)[xs[0]] <= |all|;
      assert |xs| * |all| == |all| + |xs[1..]| * |all|;
    }
  }

  /** When every listed site has colour v, each has as many partners as
      there are sites of colour v. */
  lemma {:induction false} SamePairsConst(xs: seq<int>, all: seq<int>, v: int)
    requires forall i :: 0 <= i < |xs| ==> xs[i] == v
    ensures SamePairs(xs, all) == |xs| * multiset(all)[v]
  {
    if xs != [] {
      assert forall i :: 0 <= i < |xs[1..]| ==> xs[1..][i] == xs[i + 1];
      SamePairsConst(xs[1..], all, v);
      assert |xs| * multiset(all)[v] == multiset(all)[v] + |xs[1..]| * multiset(all)[v];
    }
  }

  /** A listed site sharing its colour with fewer than all sites makes the
      pair count fall short of the maximum. */
  lemma {:induction false} SamePairsShort(xs: seq<int>, all: seq<int>, i: nat)
    requires forall j :: 0 <= j < |xs| ==> xs[j] in all
    requires i < |xs| && multiset(all)[xs[i]] < |all|
    ensures SamePairs(xs, all) < |xs| * |all|
  {
    assert forall j :: 0 <= j < |xs[1..]| ==> xs[1..][j] == xs[j + 1];
    assert |xs| * |all| == |all| + |xs[1..]| * |all|;
    assert multiset(all)[xs[0]] <= |all|;
    if i == 0 {
      SamePairsBounds(xs[1..], all);
    } else {
      SamePairsShort(xs[1..], all, i - 1);
    }
  }

  lemma {:induction false} SingleValue(s: seq<int>, v: int)
    requires forall i :: 0 <= i < |s| ==> s[i] == v
    ensures multiset(s)[v] == |s|
  {
    if s != [] {
      SingleValue(s[1..], v);
      assert s == [s[0]] + s[1..];
    }
  }

  lemma {:induction false} TwoCounts(s: seq<int>, a: int, b: int)
    requires a != b
    ensures multiset(s)[a] + multiset(s)[b] <= |s|
  {
    if s != [] {
      TwoCounts(s[1..], a, b);
      assert s == [s[0]] + s[1..];
    }
  }

  lemma FracBounds(p: nat, d: nat)
    requires 0 < p <= d
    ensures 0.0 < p as real / d as real <= 1.0
    ensures p as real / d as real == 1.0 <==> p == d
  {
    var q := p as real / d as real;
    assert q * d as real == p as real;
  }

  /** For a non-empty colouring, the match probability lies in (0, 1], and
      it is 1 exactly when a single colour is present. */
  lemma MatchProbBounds(colors: seq<int>)
    requires |colors| > 0
    ensures 0.0 < MatchProb(colors) <= 1.0
    ensures MatchProb(colors) == 1.0 <==> |FirstSeen(colors)| == 1
  {
    var n := |colors|;
    MatchProbIsPairFraction(colors);
    SamePairsBounds(colors, colors);
    var p := SamePairs(colors, colors);
    OneColorIffOneKey(colors);
    if forall i :: 0 <= i < n ==> colors[i] == colors[0] {
      SingleValue(colors, colors[0]);
      SamePairsConst(colors, colors, colors[0]);
    } else {
      var i :| 0 <= i < n && colors[i] != colors[0];
      TwoCounts(colors, colors[0], colors[i]);
      SamePairsShort(colors, colors, 0);
    }
    assert n <= n * n;
    FracBounds(p, n * n);
  }

  lemma OneColorIffOneKey(colors: seq<int>)
    requires |colors| > 0
    ensures |FirstSeen(colors)| == 1 <==> forall i :: 0 <= i < |colors| ==> colors[i] == colors[0]
  {
    var ks := FirstSeen(colors);
    assert colors[0] in Elems(ks);
    if |ks| == 1 {
      forall i | 0 <= i < |colors| ensures colors[i] == colors[0] {
        assert colors[i] in Elems(ks);
      }
    }
    if forall i :: 0 <= i < |colors| ==> colors[i] == colors[0] {
      assert Elems(ks) == {colors[0]};
      NoDupCard(ks);
    }
  }

  /* ---------------------------------------------------------------------
     Running mean.
     --------------------------------------------------------------------- */

  /** The running mean moves towards each new value by its distance over
      the number of values seen so far. */
  function MeanStep(avg: real, count: nat, x: real): (r: real)
    requires count > 0
    ensures r * count as real == avg * (count - 1) as real + x
  {
    avg + (x - avg) / count as real
  }

  /** The running mean after folding in all values, starting from 0. */
  function RunningMean(xs: seq<real>): (r: real)
    ensures r * |xs| as real == SumReal(xs)
  {
    if xs == [] then 0.0
    else MeanStep(RunningMean(xs[..|xs| - 1]), |xs|, xs[|xs| - 1])
  }

  function SumReal(xs: seq<real>): real {
    if xs == [] then 0.0 else SumReal(xs[..|xs| - 1]) + xs[|xs| - 1]
  }

  /** The running mean is the arithmetic mean of the values. */
  lemma {:induction false} RunningMeanIsMean(xs: seq<real>)
    requires |xs| > 0
    ensures RunningMean(xs) == SumReal(xs) / |xs| as real
  {
    var pre := xs[..|xs| - 1];
    var k := |xs| as real;
    var x := xs[|xs| - 1];
    if pre == [] {
      assert RunningMean(xs) == x;
    } else {
      RunningMeanIsMean(pre);
      var a := RunningMean(pre);
      var s := SumReal(pre);
      assert a * (k - 1.0) == s;
      assert a + (x - a) / k == (a * (k - 1.0) + x) / k;
    }
  }

  /** The arithmetic mean; 0 for no values, the running mean's start. */
  function Mean(xs: seq<real>): real {
    if xs == [] then 0.0 else SumReal(xs) / |xs| as real
  }

  /** The running mean equals the arithmetic mean, the empty case
      included. */
  lemma RunningMeanIsMeanAll(xs: seq<real>)
    ensures RunningMean(xs) == Mean(xs)
  {
    if xs != [] {
      RunningMeanIsMean(xs);
    }
  }
}
