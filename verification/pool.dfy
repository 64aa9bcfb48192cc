/** The occupancy pool of lrd2d.h (class quantizedPointArray): sites 0..n-1,
    a colour per site where EMPTY_CELL marks an unoccupied site, the compact
    list `empties` of currently unoccupied sites and the reverse index
    `posOf` from a site to its position in `empties` (-1 once occupied).
    Occupying a site removes it from `empties` in constant time by swapping
    it with the last entry and popping. */
module Pool {
  import opened Common

  /** Colour of an unoccupied site. */
  const EMPTY_CELL: int := -1

  datatype Pool = Pool(colors: seq<int>, empties: seq<int>, posOf: seq<int>, n: nat)

  /** Number of sites, occupied or not. */
  function Capacity(p: Pool): nat {
    |p.colors|
  }

  /** Number of occupied sites. */
  function Size(p: Pool): nat {
    p.n
  }

  /** Number of unoccupied sites. */
  function NEmpty(p: Pool): nat {
    |p.empties|
  }

  /** The sites whose colour is EMPTY_CELL. */
  ghost function EmptySites(p: Pool): set<int> {
    set s | 0 <= s < |p.colors| && p.colors[s] == EMPTY_CELL
  }

  /** The sites that carry a colour. */
  ghost function OccupiedSites(p: Pool): set<int> {
    set s | 0 <= s < |p.colors| && p.colors[s] != EMPTY_CELL
  }

  /** The representation invariant the class keeps: `empties` and `posOf`
      are inverse to each other on the unoccupied sites, `posOf` is -1
      exactly on the occupied ones, and the counter completes the count. */
  ghost predicate Valid(p: Pool) {
    && |p.posOf| == |p.colors|
    && p.n + |p.empties| == |p.colors|
    && (forall k :: 0 <= k < |p.empties| ==>
          0 <= p.empties[k] < |p.colors| && p.posOf[p.empties[k]] == k)
    && (forall s :: 0 <= s < |p.colors| ==>
          (p.colors[s] == EMPTY_CELL <==> p.posOf[s] != -1))
    && (forall s :: 0 <= s < |p.colors| && p.posOf[s] != -1 ==>
          0 <= p.posOf[s] < |p.empties| && p.empties[p.posOf[s]] == s)
  }

  /** The constructor: every site unoccupied, `empties` and `posOf` the
      identity, no occupied site. */
  method Create(total: nat) returns (p: Pool)
    ensures Capacity(p) == total && Size(p) == 0 && NEmpty(p) == total && |p.posOf| == total
    ensures forall s :: 0 <= s < total ==> p.colors[s] == EMPTY_CELL
    ensures forall k :: 0 <= k < total ==> p.empties[k] == k && p.posOf[k] == k
    ensures Valid(p)
  {
    var colors: seq<int> := [];
    var empties: seq<int> := [];
    var posOf: seq<int> := [];
    var i := 0;
    while i < total
      invariant i <= total
      invariant |colors| == |empties| == |posOf| == i
      invariant forall s :: 0 <= s < i ==> colors[s] == EMPTY_CELL
      invariant forall k :: 0 <= k < i ==> empties[k] == k && posOf[k] == k
    {
      colors := colors + [EMPTY_CELL];
      empties := empties + [i];
      posOf := posOf + [i];
      i := i + 1;
    }
    p := Pool(colors, empties, posOf, 0);
  }

  /** Colour of site `pt`; EMPTY_CELL exactly when the site is unoccupied. */
  function ColorAt(p: Pool, pt: int): (c: int)
    requires 0 <= pt < Capacity(p)
    ensures c == EMPTY_CELL <==> pt in EmptySites(p)
    ensures c != EMPTY_CELL <==> pt in OccupiedSites(p)
  {
    p.colors[pt]
  }

  /** The site stored at position `k` of the empties list; under the
      invariant it is an unoccupied site. */
  function EmptyAtPos(p: Pool, k: int): (s: int)
    requires Valid(p) && 0 <= k < NEmpty(p)
    ensures 0 <= s < Capacity(p)
    ensures s in EmptySites(p)
  {
    p.empties[k]
  }

  /** Exchange the entries at positions i and j. */
  function Swap(s: seq<int>, i: int, j: int): (r: seq<int>)
    requires 0 <= i < |s| && 0 <= j < |s|
    ensures |r| == |s| && r[i] == s[j] && r[j] == s[i]
    ensures forall k :: 0 <= k < |s| && k != i && k != j ==> r[k] == s[k]
  {
    s[i := s[j]][j := s[i]]
  }

  /** Occupy site `pt` with `newColor`. An occupied site is refused and the
      pool is returned unchanged; otherwise the colour is written, the site
      leaves `empties` by swap-with-last and pop, and the counter goes up. */
  function Insert(p: Pool, pt: int, newColor: int): (r: (bool, Pool))
    requires Valid(p) && 0 <= pt < Capacity(p)
    ensures r.0 <==> pt in EmptySites(p)
    ensures !r.0 ==> r.1 == p
    ensures r.0 ==> r.1.colors == p.colors[pt := newColor] && Size(r.1) == Size(p) + 1
    ensures Capacity(r.1) == Capacity(p)
  {
    if p.colors[pt] != EMPTY_CELL then
      (false, p)
    else
      var colors := p.colors[pt := newColor];
      // Under the invariant an unoccupied site always has a position in
      // `empties`, so the source's test `pos != -1` always succeeds here.
      var pos := p.posOf[pt];
      var lastIdx := |p.empties| - 1;
      var lastSite := p.empties[lastIdx];
      var empties := Swap(p.empties, pos, lastIdx);
      var posOf := p.posOf[lastSite := pos];
      (true, Pool(colors, empties[..lastIdx], posOf[pt := -1], p.n + 1))
  }

  /** Inserting a proper colour into an unoccupied site keeps the invariant,
      also when the site is already last in `empties`; the unoccupied sites
      lose exactly `pt`, and the empties list loses exactly `pt`. */
  lemma InsertKeepsValid(p: Pool, pt: int, newColor: int)
    requires Valid(p) && 0 <= pt < Capacity(p)
    ensures newColor != EMPTY_CELL ==> Valid(Insert(p, pt, newColor).1)
    ensures newColor != EMPTY_CELL ==> EmptySites(Insert(p, pt, newColor).1) == EmptySites(p) - {pt}
    ensures newColor != EMPTY_CELL ==> Elems(Insert(p, pt, newColor).1.empties) == Elems(p.empties) - {pt}
  {
    if p.colors[pt] == EMPTY_CELL && newColor != EMPTY_CELL {
      var q := Insert(p, pt, newColor).1;
      InsertPositions(p, pt, newColor);
      InsertIndex(p, pt, newColor);
      InsertEmpties(p, pt, newColor);
      assert forall s :: 0 <= s < |q.colors| ==> (q.colors[s] == EMPTY_CELL <==> q.posOf[s] != -1);
    }
  }

  /** After an insert every listed site still points back at its position. */
  lemma InsertPositions(p: Pool, pt: int, newColor: int)
    requires Valid(p) && 0 <= pt < Capacity(p) && p.colors[pt] == EMPTY_CELL
    ensures var q := Insert(p, pt, newColor).1;
            forall k :: 0 <= k < |q.empties| ==> 0 <= q.empties[k] < |q.colors| && q.posOf[q.empties[k]] == k
  {
    var q := Insert(p, pt, newColor).1;
    var pos := p.posOf[pt];
    var lastIdx := |p.empties| - 1;
    var lastSite := p.empties[lastIdx];
    assert p.empties[pos] == pt;
    assert q.empties == Swap(p.empties, pos, lastIdx)[..lastIdx];
    forall k | 0 <= k < |q.empties|
      ensures 0 <= q.empties[k] < |q.colors| && q.posOf[q.empties[k]] == k
    {
      if k == pos {
        assert q.empties[k] == lastSite;
      } else {
        assert q.empties[k] == p.empties[k];
      }
    }
  }

  /** After an insert every site with a position is listed there. */
  lemma InsertIndex(p: Pool, pt: int, newColor: int)
    requires Valid(p) && 0 <= pt < Capacity(p) && p.colors[pt] == EMPTY_CELL
    ensures var q := Insert(p, pt, newColor).1;
            forall s :: 0 <= s < |q.colors| && q.posOf[s] != -1 ==>
              0 <= q.posOf[s] < |q.empties| && q.empties[q.posOf[s]] == s
  {
    var q := Insert(p, pt, newColor).1;
    var pos := p.posOf[pt];
    var lastIdx := |p.empties| - 1;
    var lastSite := p.empties[lastIdx];
    assert p.empties[pos] == pt;
    assert q.empties == Swap(p.empties, pos, lastIdx)[..lastIdx];
    forall s | 0 <= s < |q.colors| && q.posOf[s] != -1
      ensures 0 <= q.posOf[s] < |q.empties| && q.empties[q.posOf[s]] == s
    {
      if s == lastSite {
        assert q.posOf[s] == pos;
      } else {
        assert q.posOf[s] == p.posOf[s];
      }
    }
  }

  /** An insert drops exactly the inserted site from the empties list. */
  lemma InsertEmpties(p: Pool, pt: int, newColor: int)
    requires Valid(p) && 0 <= pt < Capacity(p) && p.colors[pt] == EMPTY_CELL
    ensures Elems(Insert(p, pt, newColor).1.empties) == Elems(p.empties) - {pt}
  {
    var q := Insert(p, pt, newColor).1;
    var pos := p.posOf[pt];
    var lastIdx := |p.empties| - 1;
    var lastSite := p.empties[lastIdx];
    assert p.empties[pos] == pt;
    assert q.empties == Swap(p.empties, pos, lastIdx)[..lastIdx];
    forall x | x in Elems(p.empties) - {pt} ensures x in Elems(q.empties) {
      var k := p.posOf[x];
      if x == lastSite {
        assert q.empties[pos] == x;
      } else {
        assert q.empties[k] == x;
      }
    }
    forall x | x in Elems(q.empties) ensures x in Elems(p.empties) - {pt} {
      var k :| 0 <= k < |q.empties| && q.empties[k] == x;
      if k == pos {
        assert x == lastSite && lastIdx != pos;
      } else {
        assert x == p.empties[k];
      }
    }
  }

  /** Under the invariant, `empties` lists exactly the unoccupied sites,
      each once, and the counter is the number of occupied sites. */
  lemma ValidPartition(p: Pool)
    requires Valid(p)
    ensures NoDup(p.empties)
    ensures Elems(p.empties) == EmptySites(p)
    ensures |EmptySites(p)| == NEmpty(p)
    ensures |OccupiedSites(p)| == Size(p)
    ensures Size(p) + NEmpty(p) == Capacity(p)
  {
    EmptiesNoDup(p);
    EmptiesAreEmptySites(p);
    NoDupCard(p.empties);
    SitesSplit(p);
  }

  /** `posOf` undoes `empties`, so no site is listed twice. */
  lemma EmptiesNoDup(p: Pool)
    requires Valid(p)
    ensures NoDup(p.empties)
  {
    forall i, j | 0 <= i < j < |p.empties| ensures p.empties[i] != p.empties[j] {
      assert p.posOf[p.empties[i]] == i && p.posOf[p.empties[j]] == j;
    }
  }

  /** The listed sites are exactly the unoccupied ones. */
  lemma EmptiesAreEmptySites(p: Pool)
    requires Valid(p)
    ensures Elems(p.empties) == EmptySites(p)
  {
    forall x | x in EmptySites(p) ensures x in Elems(p.empties) {
      assert p.empties[p.posOf[x]] == x;
    }
    forall x | x in Elems(p.empties) ensures x in EmptySites(p) {
      var k :| 0 <= k < |p.empties| && p.empties[k] == x;
      assert p.posOf[x] == k;
    }
  }

  /** Every site is unoccupied or occupied, not both. */
  lemma SitesSplit(p: Pool)
    ensures |EmptySites(p)| + |OccupiedSites(p)| == Capacity(p)
  {
    var all := Below(|p.colors|);
    assert all == EmptySites(p) + OccupiedSites(p);
    assert EmptySites(p) !! OccupiedSites(p);
    BelowCard(|p.colors|);
  }

  /** Why the colour must not be EMPTY_CELL: inserting it into a one-site
      pool counts the site as occupied while its colour still reads
      unoccupied, so the counts no longer add up. */
  lemma InsertEmptyColorBreaksCount()
    ensures var p := Pool([EMPTY_CELL], [0], [0], 0);
            Valid(p) &&
            var q := Insert(p, 0, EMPTY_CELL).1;
            q.colors[0] == EMPTY_CELL && Size(q) == 1 && |EmptySites(q)| == 1 && !Valid(q)
  {
    var p := Pool([EMPTY_CELL], [0], [0], 0);
    var q := Insert(p, 0, EMPTY_CELL).1;
    assert EmptySites(q) == {0};
  }
}
