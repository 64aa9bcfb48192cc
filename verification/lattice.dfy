/** The simulation state of lrd2d.h/lrd2d.cpp (class latticeLongRangeSim)
    as far as the colonization uses it: the occupancy pool, the occupied
    sites in insertion order with their insertion times, the contact
    network and the per-node access counters. Every random pick is an
    argument: an index in the range the source draws from. */
module Lattice {
  import opened Common
  import Pool

  datatype Sim = Sim(
    sites: Pool.Pool,
    siteIdxs: seq<int>,
    times: seq<real>,
    network: map<int, seq<int>>,
    accessCounts: map<int, int>)

  /** The pool invariant, plus: `siteIdxs` holds each occupied site once,
      one entry per occupied site, with one time per entry. */
  ghost predicate Valid(sim: Sim) {
    && Pool.Valid(sim.sites)
    && |sim.siteIdxs| == Pool.Size(sim.sites)
    && |sim.times| == |sim.siteIdxs|
    && NoDup(sim.siteIdxs)
    && (forall i :: 0 <= i < |sim.siteIdxs| ==>
          0 <= sim.siteIdxs[i] < Pool.Capacity(sim.sites) &&
          sim.sites.colors[sim.siteIdxs[i]] != Pool.EMPTY_CELL)
  }

  /** The constructor with `lattSize` sites: an empty pool, no occupied
      site, no network and no counters yet. */
  method Create(lattSize: nat) returns (sim: Sim)
    ensures Valid(sim)
    ensures Pool.Capacity(sim.sites) == lattSize && N(sim) == 0
    ensures Pool.EmptySites(sim.sites) == Below(lattSize)
    ensures sim.network == map[] && sim.accessCounts == map[]
  {
    var p := Pool.Create(lattSize);
    sim := Sim(p, [], [], map[], map[]);
  }

  /** Number of occupied sites. */
  function N(sim: Sim): nat {
    Pool.Size(sim.sites)
  }

  /** Every entry of `siteIdxs` is occupied and every occupied site is an
      entry: the insertion-order list and the pool agree. */
  lemma SiteIdxsAreOccupied(sim: Sim)
    requires Valid(sim)
    ensures Elems(sim.siteIdxs) == Pool.OccupiedSites(sim.sites)
  {
    Pool.ValidPartition(sim.sites);
    NoDupCard(sim.siteIdxs);
    SubsetSameCard(Elems(sim.siteIdxs), Pool.OccupiedSites(sim.sites));
  }

  /** Occupy `newpt` with `newColor` at `time`. Succeeds exactly when the
      site was unoccupied; then the site and the time are appended to the
      insertion-order lists. A refused site leaves everything unchanged. */
  function AddPoint(sim: Sim, newpt: int, newColor: int, time: real): (r: (bool, Sim))
    requires Valid(sim) && 0 <= newpt < Pool.Capacity(sim.sites)
    ensures r.0 <==> newpt in Pool.EmptySites(sim.sites)
    ensures !r.0 ==> r.1 == sim
    ensures r.0 ==> && r.1.siteIdxs == sim.siteIdxs + [newpt]
                    && r.1.times == sim.times + [time]
                    && r.1.sites.colors == sim.sites.colors[newpt := newColor]
                    && N(r.1) == N(sim) + 1
    ensures r.0 && newColor != Pool.EMPTY_CELL ==>
              Pool.EmptySites(r.1.sites) == Pool.EmptySites(sim.sites) - {newpt}
    ensures N(r.1) == |r.1.siteIdxs|
    ensures newColor != Pool.EMPTY_CELL ==> Valid(r.1)
    ensures r.1.network == sim.network && r.1.accessCounts == sim.accessCounts
    ensures Pool.Capacity(r.1.sites) == Pool.Capacity(sim.sites)
  {
    var inserted := Pool.Insert(sim.sites, newpt, newColor);
    var ok, sites := inserted.0, inserted.1;
    Pool.InsertKeepsValid(sim.sites, newpt, newColor);
    if ok then
      (true, sim.(sites := sites, siteIdxs := sim.siteIdxs + [newpt], times := sim.times + [time]))
    else
      (false, sim)
  }

  /** The site occupied `idx`-th. */
  function PointByIdx(sim: Sim, idx: int): (pt: int)
    requires Valid(sim) && 0 <= idx < N(sim)
    ensures pt in Pool.OccupiedSites(sim.sites)
  {
    sim.siteIdxs[idx]
  }

  /** The colour of the site occupied `idx`-th; never EMPTY_CELL. */
  function ColorByIdx(sim: Sim, idx: int): (c: int)
    requires Valid(sim) && 0 <= idx < N(sim)
    ensures c != Pool.EMPTY_CELL
    ensures c == Pool.ColorAt(sim.sites, PointByIdx(sim, idx))
  {
    Pool.ColorAt(sim.sites, sim.siteIdxs[idx])
  }

  /** randomPoint with the draw of randomIndex given as `k` in [0, N-1]:
      an occupied site paired with its colour. */
  function RandomPoint(sim: Sim, k: int): (r: (int, int))
    requires Valid(sim) && N(sim) >= 1 && 0 <= k < N(sim)
    ensures r.0 in Pool.OccupiedSites(sim.sites) && r.0 in sim.siteIdxs
    ensures r.1 == sim.sites.colors[r.0] && r.1 != Pool.EMPTY_CELL
  {
    (PointByIdx(sim, k), ColorByIdx(sim, k))
  }

  /** Each occupied site is returned by RandomPoint for exactly one draw, so
      a uniform draw gives a uniform occupied site. */
  lemma RandomPointOneDrawEach(sim: Sim, s: int)
    requires Valid(sim)
    ensures s in Pool.OccupiedSites(sim.sites) <==>
            exists k :: 0 <= k < N(sim) && RandomPoint(sim, k).0 == s
    ensures forall k, j :: (0 <= k < N(sim) && 0 <= j < N(sim) &&
              RandomPoint(sim, k).0 == RandomPoint(sim, j).0) ==> k == j
  {
    SiteIdxsAreOccupied(sim);
    if s in Pool.OccupiedSites(sim.sites) {
      assert s in Elems(sim.siteIdxs);
      var k :| 0 <= k < |sim.siteIdxs| && sim.siteIdxs[k] == s;
      assert RandomPoint(sim, k).0 == s;
    }
  }

  /** randomEmptyPoint with the draw given as position `k` in [0, Nempty-1]:
      the site at that position of the empties list (idxtopt is the
      identity), an unoccupied site. */
  function RandomEmptyPoint(sim: Sim, k: int): (pt: int)
    requires Valid(sim) && Pool.NEmpty(sim.sites) >= 1 && 0 <= k < Pool.NEmpty(sim.sites)
    ensures 0 <= pt < Pool.Capacity(sim.sites)
    ensures pt in Pool.EmptySites(sim.sites)
  {
    Pool.EmptyAtPos(sim.sites, k)
  }

  /** Each unoccupied site is returned by RandomEmptyPoint for exactly one
      draw, so a uniform draw gives a uniform unoccupied site. */
  lemma RandomEmptyPointOneDrawEach(sim: Sim, s: int)
    requires Valid(sim)
    ensures s in Pool.EmptySites(sim.sites) <==>
            exists k :: 0 <= k < Pool.NEmpty(sim.sites) && RandomEmptyPoint(sim, k) == s
    ensures forall k, j :: (0 <= k < Pool.NEmpty(sim.sites) && 0 <= j < Pool.NEmpty(sim.sites) &&
              RandomEmptyPoint(sim, k) == RandomEmptyPoint(sim, j)) ==> k == j
  {
    Pool.ValidPartition(sim.sites);
    if s in Pool.EmptySites(sim.sites) {
      assert s in Elems(sim.sites.empties);
      var k :| 0 <= k < |sim.sites.empties| && sim.sites.empties[k] == s;
      assert RandomEmptyPoint(sim, k) == s;
    }
  }

  /** The access counter of a node; std::map's operator[] reads a missing
      key as 0. */
  function CountOf(counts: map<int, int>, node: int): int {
    if node in counts then counts[node] else 0
  }

  /** randomNeighbor with the draw given as `k` in [0, degree-1]: a member
      of the origin's neighbour list, whose access counter goes up by one;
      every other counter and the rest of the state stay as they were. */
  function RandomNeighbor(sim: Sim, origin: int, k: int): (r: (int, Sim))
    requires origin in sim.network && |sim.network[origin]| > 0
    requires 0 <= k < |sim.network[origin]|
    ensures r.0 in sim.network[origin]
    ensures CountOf(r.1.accessCounts, r.0) == CountOf(sim.accessCounts, r.0) + 1
    ensures r.1.accessCounts.Keys == sim.accessCounts.Keys + {r.0}
    ensures forall x :: x in sim.accessCounts && x != r.0 ==> r.1.accessCounts[x] == sim.accessCounts[x]
    ensures r.1 == sim.(accessCounts := r.1.accessCounts)
  {
    var pick := sim.network[origin][k];
    (pick, sim.(accessCounts := sim.accessCounts[pick := CountOf(sim.accessCounts, pick) + 1]))
  }

  /** randomTwoColor with the uniform draw `u` in [0,1): 1 when u < frac,
      else 0. */
  function RandomTwoColor(frac: real, u: real): (c: int)
    requires 0.0 <= u < 1.0
    ensures c == 0 || c == 1
    ensures frac >= 1.0 ==> c == 1
    ensures frac <= 0.0 ==> c == 0
  {
    if u < frac then 1 else 0
  }

  /** Every probability strictly between 0 and 1 can go either way. */
  lemma RandomTwoColorBothWays(frac: real)
    requires 0.0 < frac < 1.0
    ensures RandomTwoColor(frac, 0.0) == 1
    ensures RandomTwoColor(frac, frac) == 0
  {
  }

  /** The colours of the occupied sites, in insertion order. */
  function ColorsInOrder(sim: Sim): (cs: seq<int>)
    requires Valid(sim)
    ensures |cs| == N(sim)
    ensures forall i :: 0 <= i < N(sim) ==> cs[i] == ColorByIdx(sim, i)
  {
    seq(N(sim), i requires 0 <= i < N(sim) => ColorByIdx(sim, i))
  }

  /** Sum of a sequence of integers. */
  function Sum(s: seq<int>): int {
    if s == [] then 0 else Sum(s[..|s| - 1]) + s[|s| - 1]
  }

  /** netColor: the sum of the colours of all occupied sites. */
  method NetColor(sim: Sim) returns (nc: int)
    requires Valid(sim)
    ensures nc == Sum(ColorsInOrder(sim))
  {
    var cs := ColorsInOrder(sim);
    nc := 0;
    var i := 0;
    while i < N(sim)
      invariant i <= N(sim)
      invariant nc == Sum(cs[..i])
    {
      assert cs[..i + 1][..i] == cs[..i];
      nc := nc + ColorByIdx(sim, i);
      i := i + 1;
    }
    assert cs[..i] == cs;
  }
}
