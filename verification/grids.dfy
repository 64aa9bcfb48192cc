/** The grid builders of generate_grids.py and generate_tree.py. A Python
    adjacency dict whose keys are 0 .. n-1, inserted in that order, is a
    sequence of neighbour lists indexed by node; a key is present exactly
    when it is an index of the sequence. */
module Grids {
  import opened Common

  /* ---------------------------------------------------------------------
     Cells of a height x width grid, numbered row by row.
     --------------------------------------------------------------------- */

  /** Node i*w + j is the cell in row i and column j. */
  lemma CellOf(i: int, j: int, w: int)
    requires 0 <= i && 0 <= j < w
    ensures (i * w + j) / w == i && (i * w + j) % w == j
  {
    var q := (i * w + j) / w;
    var r := (i * w + j) % w;
    assert q * w + r == i * w + j;
    if q < i {
      assert (i - q) * w == i * w - q * w;
      MulAtLeast(i - q, w);
    } else if q > i {
      assert (q - i) * w == q * w - i * w;
      MulAtLeast(q - i, w);
    }
  }

  lemma MulAtLeast(a: int, w: int)
    requires a >= 1 && w > 0
    ensures a * w >= w
  {
    assert a * w == (a - 1) * w + w;
  }

  /** A node of the grid lies in a row below the height. */
  lemma RowInRange(h: nat, w: nat, v: int)
    requires 0 <= v < h * w
    ensures w > 0 && 0 <= v / w < h && 0 <= v % w < w
  {
  }

  /** The reference definition: two in-range cells are adjacent when they
      share a row and their columns differ by one, or share a column and
      their rows differ by one. */
  ghost predicate Adjacent(h: nat, w: nat, a: int, b: int) {
    && 0 <= a < h * w && 0 <= b < h * w
    && ((a / w == b / w && (a % w == b % w + 1 || b % w == a % w + 1))
        || (a % w == b % w && (a / w == b / w + 1 || b / w == a / w + 1)))
  }

  /** The neighbours of cell (i, j) in the order the loop appends them: up,
      down, left, right, each only when it is inside the grid. */
  function CellNeighbours(h: nat, w: nat, i: nat, j: nat): (ns: seq<int>)
    requires i < h && j < w
    ensures |ns| <= 4
  {
    (if i > 0 then [(i - 1) * w + j] else [])
    + (if i < h - 1 then [(i + 1) * w + j] else [])
    + (if j > 0 then [i * w + (j - 1)] else [])
    + (if j < w - 1 then [i * w + (j + 1)] else [])
  }

  /** generate_network_grid: one entry per node 0 .. h*w-1. */
  function GridAdj(h: nat, w: nat): (adj: seq<seq<int>>)
    ensures |adj| == h * w
    ensures forall v :: 0 <= v < h * w ==> |adj[v]| <= 4
  {
    seq(h * w, v requires 0 <= v < h * w =>
      RowInRange(h, w, v);
      CellNeighbours(h, w, v / w, v % w))
  }

  /** Cell (i, j) of an h x w grid is a node of it. */
  lemma CellInGrid(h: nat, w: nat, i: int, j: int)
    requires 0 <= i < h && 0 <= j < w
    ensures 0 <= i * w + j < h * w
  {
    MulNonNeg(i, w);
    MulNonNeg(h - i - 1, w);
    assert h * w == (i + 1) * w + (h - i - 1) * w;
  }

  lemma {:induction false} MulNonNeg(a: nat, w: nat)
    ensures a * w >= 0
  {
    if a > 0 {
      MulNonNeg(a - 1, w);
      assert a * w == (a - 1) * w + w;
    }
  }

  /** Every listed neighbour is adjacent. */
  lemma CellNeighboursAdjacent(h: nat, w: nat, i: nat, j: nat, u: int)
    requires i < h && j < w && u in CellNeighbours(h, w, i, j)
    ensures Adjacent(h, w, i * w + j, u)
  {
    CellOf(i, j, w);
    CellInGrid(h, w, i, j);
    if i > 0 && u == (i - 1) * w + j {
      CellOf(i - 1, j, w);
      CellInGrid(h, w, i - 1, j);
    } else if i < h - 1 && u == (i + 1) * w + j {
      CellOf(i + 1, j, w);
      CellInGrid(h, w, i + 1, j);
    } else if j > 0 && u == i * w + (j - 1) {
      CellOf(i, j - 1, w);
      CellInGrid(h, w, i, j - 1);
    } else {
      assert j < w - 1 && u == i * w + (j + 1);
      CellOf(i, j + 1, w);
      CellInGrid(h, w, i, j + 1);
    }
  }

  /** Every adjacent cell is listed. */
  lemma AdjacentCellListed(h: nat, w: nat, i: nat, j: nat, u: int)
    requires i < h && j < w && Adjacent(h, w, i * w + j, u)
    ensures u in CellNeighbours(h, w, i, j)
  {
    CellOf(i, j, w);
    RowInRange(h, w, u);
    var a, b := u / w, u % w;
    assert u == a * w + b;
    var vertical := b == j && (a == i + 1 || i == a + 1);
    assert vertical || (a == i && (b == j + 1 || j == b + 1));
    if vertical {
      ListedVertical(h, w, i, j, a, u);
    } else {
      ListedHorizontal(h, w, i, j, b, u);
    }
  }

  lemma ListedVertical(h: nat, w: nat, i: nat, j: nat, a: nat, u: int)
    requires i < h && j < w && a < h && (a == i + 1 || i == a + 1) && u == a * w + j
    ensures u in CellNeighbours(h, w, i, j)
  {
    if a == i + 1 {
      assert u in (if i < h - 1 then [(i + 1) * w + j] else []);
    } else {
      assert u in (if i > 0 then [(i - 1) * w + j] else []);
    }
  }

  lemma ListedHorizontal(h: nat, w: nat, i: nat, j: nat, b: nat, u: int)
    requires i < h && j < w && b < w && (b == j + 1 || j == b + 1) && u == i * w + b
    ensures u in CellNeighbours(h, w, i, j)
  {
    if b == j + 1 {
      assert u in (if j < w - 1 then [i * w + (j + 1)] else []);
    } else {
      assert u in (if j > 0 then [i * w + (j - 1)] else []);
    }
  }

  /** No cell is listed twice: the candidates are v - w, v + w, v - 1 and
      v + 1, and the last two exist only when w >= 2. */
  lemma CellNeighboursNoDup(h: nat, w: nat, i: nat, j: nat)
    requires i < h && j < w
    ensures NoDup(CellNeighbours(h, w, i, j))
  {
    var v := i * w + j;
    var up: seq<int> := if i > 0 then [v - w] else [];
    var down: seq<int> := if i < h - 1 then [v + w] else [];
    var left: seq<int> := if j > 0 then [v - 1] else [];
    var right: seq<int> := if j < w - 1 then [v + 1] else [];
    assert CellNeighbours(h, w, i, j) == up + down + left + right;
  }

  /** The list at a node holds exactly the cells adjacent to it, with no
      repeats. */
  lemma GridNeighbours(h: nat, w: nat, v: int)
    requires 0 <= v < h * w
    ensures NoDup(GridAdj(h, w)[v])
    ensures forall u :: u in GridAdj(h, w)[v] <==> Adjacent(h, w, v, u)
  {
    RowInRange(h, w, v);
    var i, j := v / w, v % w;
    assert v == i * w + j;
    assert GridAdj(h, w)[v] == CellNeighbours(h, w, i, j);
    CellNeighboursNoDup(h, w, i, j);
    forall u ensures u in GridAdj(h, w)[v] <==> Adjacent(h, w, v, u) {
      if u in CellNeighbours(h, w, i, j) {
        CellNeighboursAdjacent(h, w, i, j, u);
      }
      if Adjacent(h, w, v, u) {
        AdjacentCellListed(h, w, i, j, u);
      }
    }
  }

  /** The adjacency is symmetric, has no self-loops, and every degree is
      at most 4. */
  lemma GridSymmetric(h: nat, w: nat, v: int, u: int)
    requires 0 <= v < h * w && 0 <= u < h * w
    ensures u in GridAdj(h, w)[v] <==> v in GridAdj(h, w)[u]
    ensures v !in GridAdj(h, w)[v]
    ensures |GridAdj(h, w)[v]| <= 4
  {
    GridNeighbours(h, w, v);
    GridNeighbours(h, w, u);
  }

  /* ---------------------------------------------------------------------
     dict_to_list.
     --------------------------------------------------------------------- */

  /** tuple(sorted((a, b))). */
  function Sorted(a: int, b: int): (e: (int, int))
    ensures e.0 <= e.1 && ((e.0 == a && e.1 == b) || (e.0 == b && e.1 == a))
  {
    if a <= b then (a, b) else (b, a)
  }

  /** The normalised pairs of one node's list, in list order. */
  function NodePairs(node: int, ns: seq<int>): (ps: seq<(int, int)>)
    ensures |ps| == |ns|
  {
    seq(|ns|, k requires 0 <= k < |ns| => Sorted(node, ns[k]))
  }

  /** Every (node, neighbour) pair of the dict, normalised, in the order
      the two loops visit them. */
  function Flatten(adj: seq<seq<int>>): (ps: seq<(int, int)>)
  {
    if adj == [] then []
    else Flatten(adj[..|adj| - 1]) + NodePairs(|adj| - 1, adj[|adj| - 1])
  }

  /** The reference for the de-duplication: keep each element at its first
      occurrence. */
  function Dedup<T(==)>(xs: seq<T>): seq<T>
  {
    if xs == [] then []
    else
      var d := Dedup(xs[..|xs| - 1]);
      var x := xs[|xs| - 1];
      if x in d then d else d + [x]
  }

  /** The de-duplication has no repeats and the same elements. */
  lemma {:induction false} DedupProps<T>(xs: seq<T>)
    ensures NoDup(Dedup(xs)) && Elems(Dedup(xs)) == Elems(xs)
    decreases |xs|
  {
    if xs != [] {
      var pre := xs[..|xs| - 1];
      var x := xs[|xs| - 1];
      DedupProps(pre);
      var d := Dedup(pre);
      assert xs == pre + [x];
      assert Elems(xs) == Elems(pre) + {x};
      if x !in d {
        assert forall i :: 0 <= i < |d| ==> d[i] != x;
        assert Elems(d + [x]) == Elems(d) + {x};
      }
    }
  }

  /** dict_to_list: the two loops with the `seen` set, which yield the
      first-occurrence de-duplication of the visited pairs. */
  method DictToList(adj: seq<seq<int>>) returns (edges: seq<(int, int)>)
    ensures edges == Dedup(Flatten(adj))
  {
    edges := [];
    var seen: set<(int, int)> := {};
    for node := 0 to |adj|
      invariant edges == Dedup(Flatten(adj[..node])) && seen == Elems(edges)
    {
      edges, seen := AddNodePairs(edges, seen, node, adj[node], Flatten(adj[..node]));
      FlattenSnoc(adj, node);
    }
    assert adj[..|adj|] == adj;
  }

  /** The inner loop of dict_to_list over one node's neighbours. */
  method AddNodePairs(edges0: seq<(int, int)>, seen0: set<(int, int)>, node: int, ns: seq<int>, ghost pre: seq<(int, int)>)
    returns (edges: seq<(int, int)>, seen: set<(int, int)>)
    requires edges0 == Dedup(pre) && seen0 == Elems(edges0)
    ensures edges == Dedup(pre + NodePairs(node, ns[..|ns|])) && seen == Elems(edges)
  {
    edges, seen := edges0, seen0;
    assert pre + NodePairs(node, ns[..0]) == pre;
    for k := 0 to |ns|
      invariant edges == Dedup(pre + NodePairs(node, ns[..k])) && seen == Elems(edges)
    {
      var edge := Sorted(node, ns[k]);
      ghost var visited := pre + NodePairs(node, ns[..k]);
      PairsSnoc(pre, node, ns, k);
      DedupSnoc(visited, edge);
      if edge !in seen {
        ElemsSnoc(edges, edge);
        seen := seen + {edge};
        edges := edges + [edge];
      }
    }
  }

  lemma PairsSnoc(pre: seq<(int, int)>, node: int, ns: seq<int>, k: int)
    requires 0 <= k < |ns|
    ensures pre + NodePairs(node, ns[..k + 1]) == (pre + NodePairs(node, ns[..k])) + [Sorted(node, ns[k])]
  {
    assert NodePairs(node, ns[..k + 1]) == NodePairs(node, ns[..k]) + [Sorted(node, ns[k])];
  }

  lemma DedupSnoc<T>(xs: seq<T>, x: T)
    ensures Dedup(xs + [x]) == if x in Dedup(xs) then Dedup(xs) else Dedup(xs) + [x]
  {
    assert (xs + [x])[..|xs|] == xs;
  }

  lemma FlattenSnoc(adj: seq<seq<int>>, node: int)
    requires 0 <= node < |adj|
    ensures Flatten(adj[..node + 1]) == Flatten(adj[..node]) + NodePairs(node, adj[node][..|adj[node]|])
  {
    assert adj[..node + 1][..node] == adj[..node];
    assert adj[node][..|adj[node]|] == adj[node];
  }

  /** A visited pair is in the flattened list. */
  lemma {:induction false} FlattenHas(adj: seq<seq<int>>, v: int, u: int)
    requires 0 <= v < |adj| && u in adj[v]
    ensures Sorted(v, u) in Flatten(adj)
    decreases |adj|
  {
    var last := |adj| - 1;
    if v < last {
      assert adj[..last][v] == adj[v];
      FlattenHas(adj[..last], v, u);
    } else {
      var k :| 0 <= k < |adj[v]| && adj[v][k] == u;
      assert NodePairs(last, adj[last])[k] == Sorted(v, u);
    }
  }

  /** Every pair of the flattened list comes from one node's list. */
  lemma {:induction false} FlattenFrom(adj: seq<seq<int>>, e: (int, int))
    requires e in Flatten(adj)
    ensures exists v, u :: 0 <= v < |adj| && u in adj[v] && e == Sorted(v, u)
    decreases |adj|
  {
    var last := |adj| - 1;
    var pre := adj[..last];
    if e in Flatten(pre) {
      FlattenFrom(pre, e);
      var v, u :| 0 <= v < |pre| && u in pre[v] && e == Sorted(v, u);
      assert adj[v] == pre[v];
    } else {
      var k :| 0 <= k < |adj[last]| && NodePairs(last, adj[last])[k] == e;
      assert adj[last][k] in adj[last];
    }
  }

  /** generate_grid: each grid edge exactly once, as (smaller, larger). */
  method GenerateGrid(h: nat, w: nat) returns (edges: seq<(int, int)>)
    ensures NoDup(edges)
    ensures forall a, b :: (a, b) in edges <==> a < b && Adjacent(h, w, a, b)
  {
    edges := DictToList(GridAdj(h, w));
    DedupProps(Flatten(GridAdj(h, w)));
    forall a, b ensures (a, b) in edges <==> a < b && Adjacent(h, w, a, b) {
      GridEdgeAt(h, w, a, b);
    }
  }

  /** The de-duplicated pairs of a symmetric adjacency are its edges, each
      as (smaller, larger). */
  lemma EdgeListMembers(adj: seq<seq<int>>, a: int, b: int)
    requires Symmetric(adj)
    ensures (a, b) in Dedup(Flatten(adj)) <==> 0 <= a < |adj| && a <= b && b in adj[a]
  {
    DedupProps(Flatten(adj));
    if (a, b) in Dedup(Flatten(adj)) {
      assert (a, b) in Elems(Flatten(adj));
      FlattenFrom(adj, (a, b));
      var v, u :| 0 <= v < |adj| && u in adj[v] && (a, b) == Sorted(v, u);
      assert 0 <= u < |adj|;
      assert v in adj[u];
    }
    if 0 <= a < |adj| && a <= b && b in adj[a] {
      FlattenHas(adj, a, b);
      assert (a, b) in Elems(Flatten(adj));
    }
  }

  /** A pair is listed by generate_grid exactly when it is a grid edge,
      smaller end first. */
  lemma GridEdgeAt(h: nat, w: nat, a: int, b: int)
    ensures (a, b) in Dedup(Flatten(GridAdj(h, w))) <==> a < b && Adjacent(h, w, a, b)
  {
    GridSimpleSymmetric(h, w);
    EdgeListMembers(GridAdj(h, w), a, b);
    if 0 <= a < h * w {
      GridNeighbours(h, w, a);
    }
  }

  /* ---------------------------------------------------------------------
     remove_edge.
     --------------------------------------------------------------------- */

  /** list.remove: drop the first occurrence; an absent value leaves the
      list as it is. */
  function RemoveFirst(xs: seq<int>, x: int): (r: seq<int>)
    ensures x !in xs ==> r == xs
    ensures x in xs ==> |r| == |xs| - 1 && multiset(r) == multiset(xs) - multiset{x}
  {
    if xs == [] then []
    else if xs[0] == x then
      assert xs == [xs[0]] + xs[1..];
      xs[1..]
    else
      assert xs == [xs[0]] + xs[1..];
      [xs[0]] + RemoveFirst(xs[1..], x)
  }

  /** Without repeats, removing x leaves exactly the other elements, still
      without repeats. */
  lemma RemoveFirstElems(xs: seq<int>, x: int)
    requires NoDup(xs)
    ensures NoDup(RemoveFirst(xs, x))
    ensures Elems(RemoveFirst(xs, x)) == Elems(xs) - {x}
  {
    var r := RemoveFirst(xs, x);
    forall y ensures multiset(xs)[y] <= 1 {
      MultisetOfNoDup(xs, y);
    }
    if x in xs {
      forall y ensures y in r <==> y in xs && y != x {
        assert y in r <==> y in multiset(r);
        assert y in xs <==> y in multiset(xs);
      }
    }
    NoDupFromMultiset(r);
  }

  lemma {:induction false} MultisetOfNoDup(xs: seq<int>, x: int)
    requires NoDup(xs)
    ensures multiset(xs)[x] <= 1
    decreases |xs|
  {
    if xs != [] {
      var pre := xs[..|xs| - 1];
      assert xs == pre + [xs[|xs| - 1]];
      assert NoDup(pre);
      MultisetOfNoDup(pre, x);
      if x == xs[|xs| - 1] {
        assert x !in pre;
      }
    }
  }

  lemma NoDupFromMultiset(xs: seq<int>)
    requires forall y :: multiset(xs)[y] <= 1
    ensures NoDup(xs)
  {
    forall i, j | 0 <= i < j < |xs| ensures xs[i] != xs[j] {
      assert xs == xs[..j] + [xs[j]] + xs[j + 1..];
      assert xs[i] in multiset(xs[..j]) by {
        assert xs[..j][i] == xs[i];
      }
      assert multiset(xs)[xs[j]] >= multiset(xs[..j])[xs[j]] + 1;
    }
  }

  /** Every neighbour list is without repeats. */
  ghost predicate Simple(adj: seq<seq<int>>) {
    forall v :: 0 <= v < |adj| ==> NoDup(adj[v])
  }

  /** Neighbours are keys and the relation is symmetric. */
  ghost predicate Symmetric(adj: seq<seq<int>>) {
    && (forall v, u :: 0 <= v < |adj| && u in adj[v] ==> 0 <= u < |adj|)
    && (forall v, u :: 0 <= v < |adj| && 0 <= u < |adj| && u in adj[v] ==> v in adj[u])
  }

  /** remove_edge: drop node+1 from node's list and node from node+1's
      list, each only when the key and the value are present. No other
      list changes. */
  function RemoveEdge(node: int, adj: seq<seq<int>>): (r: seq<seq<int>>)
    ensures |r| == |adj|
    ensures forall k :: 0 <= k < |adj| && k != node && k != node + 1 ==> r[k] == adj[k]
  {
    RemoveFrom(RemoveFrom(adj, node, node + 1), node + 1, node)
  }

  /** One guarded removal: the first b leaves a's list, if both are there. */
  function RemoveFrom(adj: seq<seq<int>>, a: int, b: int): (r: seq<seq<int>>)
    ensures |r| == |adj|
    ensures forall k :: 0 <= k < |adj| && k != a ==> r[k] == adj[k]
  {
    if 0 <= a < |adj| && b in adj[a] then adj[a := RemoveFirst(adj[a], b)] else adj
  }

  /** On lists without repeats, one guarded removal deletes exactly b from
      a's list. */
  lemma RemoveFromEffect(adj: seq<seq<int>>, a: int, b: int)
    requires Simple(adj)
    ensures Simple(RemoveFrom(adj, a, b))
    ensures forall v, u :: 0 <= v < |adj| ==>
              (u in RemoveFrom(adj, a, b)[v] <==> u in adj[v] && !(v == a && u == b))
  {
    var r := RemoveFrom(adj, a, b);
    if 0 <= a < |adj| {
      RemoveFirstElems(adj[a], b);
    }
    forall v, u | 0 <= v < |adj|
      ensures u in r[v] <==> u in adj[v] && !(v == a && u == b)
    {
      if v == a && b in adj[a] {
        assert u in r[v] <==> u in Elems(r[v]);
        assert u in adj[v] <==> u in Elems(adj[v]);
      }
    }
  }

  /** On lists without repeats, remove_edge deletes exactly the pair
      {node, node+1} and keeps the lists without repeats. */
  lemma RemoveEdgeEffect(node: int, adj: seq<seq<int>>)
    requires Simple(adj)
    ensures Simple(RemoveEdge(node, adj))
    ensures forall v, u :: 0 <= v < |adj| ==>
              (u in RemoveEdge(node, adj)[v] <==>
                 u in adj[v] && !(v == node && u == node + 1) && !(v == node + 1 && u == node))
  {
    var adj1 := RemoveFrom(adj, node, node + 1);
    RemoveFromEffect(adj, node, node + 1);
    RemoveFromEffect(adj1, node + 1, node);
  }

  /** Removing an absent edge changes nothing, so a second removal is a
      no-op. */
  lemma RemoveEdgeIdempotent(node: int, adj: seq<seq<int>>)
    requires Simple(adj)
    ensures RemoveEdge(node, RemoveEdge(node, adj)) == RemoveEdge(node, adj)
  {
    RemoveEdgeEffect(node, adj);
  }

  /** remove_edge keeps the adjacency symmetric. */
  lemma RemoveEdgeSymmetric(node: int, adj: seq<seq<int>>)
    requires Simple(adj) && Symmetric(adj)
    ensures Simple(RemoveEdge(node, adj)) && Symmetric(RemoveEdge(node, adj))
  {
    RemoveEdgeEffect(node, adj);
  }

  /** The grid's lists are simple and its adjacency symmetric. */
  lemma GridSimpleSymmetric(h: nat, w: nat)
    ensures Simple(GridAdj(h, w)) && Symmetric(GridAdj(h, w))
  {
    var adj := GridAdj(h, w);
    forall v | 0 <= v < |adj| ensures NoDup(adj[v]) {
      GridNeighbours(h, w, v);
    }
    forall v, u | 0 <= v < |adj| && u in adj[v] ensures 0 <= u < |adj| {
      GridNeighbours(h, w, v);
    }
    forall v, u | 0 <= v < |adj| && 0 <= u < |adj| && u in adj[v] ensures v in adj[u] {
      GridSymmetric(h, w, v, u);
    }
  }

  /* ---------------------------------------------------------------------
     generate_tree.
     --------------------------------------------------------------------- */

  /** One level of the tree: rows startRow .. endRow-1 are cut at each of
      the given column positions. The positions are numpy's integer
      linspace of the width, which is an input here. */
  datatype Level = Level(startRow: int, endRow: int, positions: seq<int>)

  /** The nodes passed to remove_edge by the three loops, in loop order,
      with every position taken as given. */
  function CutNodesAsWritten(levels: seq<Level>, w: int): seq<int>
  {
    if levels == [] then []
    else
      var l := levels[|levels| - 1];
      CutNodesAsWritten(levels[..|levels| - 1], w) + RowCuts(l.startRow, l.endRow, l.positions, w)
  }

  /** Rows start .. end-1, each cut at every position. */
  function RowCuts(start: int, end: int, positions: seq<int>, w: int): (cs: seq<int>)
    decreases end - start
  {
    if end <= start then []
    else RowCuts(start, end - 1, positions, w) + RowCut(end - 1, positions, w)
  }

  /** Each of the rows start .. end-1 contributes one cut per position. */
  lemma {:induction false} RowCutsLength(start: int, end: int, positions: seq<int>, w: int)
    ensures |RowCuts(start, end, positions, w)| == if end <= start then 0 else (end - start) * |positions|
    decreases end - start
  {
    if start < end {
      RowCutsLength(start, end - 1, positions, w);
    }
  }

  /** The nodes one row is cut at: (row, j-1) for each position j. */
  function RowCut(row: int, positions: seq<int>, w: int): (cs: seq<int>)
    ensures |cs| == |positions|
    ensures forall k :: 0 <= k < |positions| ==> cs[k] == row * w + (positions[k] - 1)
  {
    seq(|positions|, k requires 0 <= k < |positions| => row * w + (positions[k] - 1))
  }

  /** The nodes that remove_edge is called on when only the positions the
      code means to cut (strictly between 0 and the width) are kept. Every
      such cut lies in a grid at least two columns wide
      (CutsNeedWidth). */
  function CutNodes(levels: seq<Level>, w: int): seq<int>
  {
    CutNodesAsWritten(Inside(levels, w), w)
  }

  /** The levels with each position list restricted to 0 < j < w. */
  function Inside(levels: seq<Level>, w: int): (ls: seq<Level>)
    ensures |ls| == |levels|
    ensures forall i :: 0 <= i < |ls| ==>
              && ls[i].startRow == levels[i].startRow && ls[i].endRow == levels[i].endRow
              && (forall j :: j in ls[i].positions <==> j in levels[i].positions && 0 < j < w)
  {
    seq(|levels|, i requires 0 <= i < |levels| =>
      levels[i].(positions := Filter(levels[i].positions, w)))
  }

  function Filter(ps: seq<int>, w: int): (r: seq<int>)
    ensures forall j :: j in r <==> j in ps && 0 < j < w
  {
    if ps == [] then []
    else (if 0 < ps[0] < w then [ps[0]] else []) + Filter(ps[1..], w)
  }

  /** With positions strictly inside the width, no cut exists in a grid
      narrower than two columns. */
  lemma {:induction false} CutsNeedWidth(levels: seq<Level>, w: int, c: int)
    requires forall i :: 0 <= i < |levels| ==> forall j :: j in levels[i].positions ==> 0 < j < w
    requires c in CutNodesAsWritten(levels, w)
    ensures w >= 2
    decreases |levels|
  {
    var pre := levels[..|levels| - 1];
    var l := levels[|levels| - 1];
    if c in CutNodesAsWritten(pre, w) {
      CutsNeedWidth(pre, w, c);
    } else {
      assert l.positions != [] by {
        RowCutsEmpty(l.startRow, l.endRow, l.positions, w, c);
      }
      assert l == levels[|levels| - 1];
      assert l.positions[0] in l.positions;
      assert 0 < l.positions[0] < w;
    }
  }

  lemma {:induction false} RowCutsEmpty(start: int, end: int, positions: seq<int>, w: int, c: int)
    requires c in RowCuts(start, end, positions, w)
    ensures positions != []
    decreases end - start
  {
    if c !in RowCuts(start, end - 1, positions, w) {
      var k :| 0 <= k < |positions| && c == (end - 1) * w + (positions[k] - 1);
    } else {
      RowCutsEmpty(start, end - 1, positions, w, c);
    }
  }

  /** remove_edge applied to each cut node in turn. */
  function RemoveAll(adj: seq<seq<int>>, cuts: seq<int>): (r: seq<seq<int>>)
    ensures |r| == |adj|
  {
    if cuts == [] then adj
    else RemoveEdge(cuts[|cuts| - 1], RemoveAll(adj, cuts[..|cuts| - 1]))
  }

  /** The neighbours a cut list takes from node v: v+1 when v is a cut,
      and v-1 when v-1 is. */
  function CutAt(v: int, cuts: seq<int>): set<int> {
    (if v in cuts then {v + 1} else {}) + (if v - 1 in cuts then {v - 1} else {})
  }

  /** `r` is `adj` without exactly the pairs {c, c+1} with c a cut. */
  ghost predicate CutsRemoved(adj: seq<seq<int>>, r: seq<seq<int>>, cuts: seq<int>)
    requires |r| == |adj|
  {
    forall v :: 0 <= v < |adj| ==> Elems(r[v]) == Elems(adj[v]) - CutAt(v, cuts)
  }

  /** Removing the cuts in turn deletes exactly the pairs {c, c+1} with c
      a cut, and keeps the lists simple and symmetric. */
  lemma {:induction false} RemoveAllEffect(adj: seq<seq<int>>, cuts: seq<int>)
    requires Simple(adj) && Symmetric(adj)
    ensures Simple(RemoveAll(adj, cuts)) && Symmetric(RemoveAll(adj, cuts))
    ensures CutsRemoved(adj, RemoveAll(adj, cuts), cuts)
    decreases |cuts|
  {
    if cuts != [] {
      var pre := cuts[..|cuts| - 1];
      RemoveAllEffect(adj, pre);
      var a := RemoveAll(adj, pre);
      RemoveEdgeSymmetric(cuts[|cuts| - 1], a);
      CutsRemovedSnoc(adj, a, cuts);
    } else {
      forall v | 0 <= v < |adj| ensures Elems(adj[v]) == Elems(adj[v]) - CutAt(v, cuts) {
      }
    }
  }

  /** One more remove_edge extends CutsRemoved by its cut. */
  lemma CutsRemovedSnoc(adj: seq<seq<int>>, a: seq<seq<int>>, cuts: seq<int>)
    requires cuts != [] && |a| == |adj| && Simple(a)
    requires CutsRemoved(adj, a, cuts[..|cuts| - 1])
    ensures CutsRemoved(adj, RemoveEdge(cuts[|cuts| - 1], a), cuts)
  {
    var c := cuts[|cuts| - 1];
    var r := RemoveEdge(c, a);
    forall v | 0 <= v < |adj| ensures Elems(r[v]) == Elems(adj[v]) - CutAt(v, cuts) {
      RemoveEdgeElems(c, a, v);
      CutAtSnoc(v, cuts);
    }
  }

  /** remove_edge in terms of each list's elements. */
  lemma RemoveEdgeElems(node: int, adj: seq<seq<int>>, v: int)
    requires Simple(adj) && 0 <= v < |adj|
    ensures Elems(RemoveEdge(node, adj)[v])
              == Elems(adj[v]) - (if v == node then {node + 1} else {}) - (if v == node + 1 then {node} else {})
  {
    RemoveEdgeEffect(node, adj);
    var r := RemoveEdge(node, adj);
    forall u ensures u in Elems(r[v]) <==> u in adj[v] && !(v == node && u == node + 1) && !(v == node + 1 && u == node) {
      assert u in Elems(r[v]) <==> u in r[v];
    }
  }

  /** The cut neighbours of v after one more cut. */
  lemma CutAtSnoc(v: int, cuts: seq<int>)
    requires cuts != []
    ensures var c := cuts[|cuts| - 1];
            CutAt(v, cuts) == CutAt(v, cuts[..|cuts| - 1]) + (if v == c then {c + 1} else {}) + (if v == c + 1 then {c} else {})
  {
    var pre := cuts[..|cuts| - 1];
    var c := cuts[|cuts| - 1];
    assert cuts == pre + [c];
    assert v in cuts <==> v in pre || v == c;
    assert v - 1 in cuts <==> v - 1 in pre || v - 1 == c;
  }

  /** The grid with the pairs {c, c+1} of a cut list removed in turn. */
  function CutGrid(h: nat, w: nat, cuts: seq<int>): (adj: seq<seq<int>>)
    ensures |adj| == h * w
  {
    RemoveAll(GridAdj(h, w), cuts)
  }

  /** The dict generate_tree ends with, with every position taken as
      given. */
  function TreeDictAsWritten(h: nat, w: nat, levels: seq<Level>): (adj: seq<seq<int>>)
    ensures |adj| == h * w
  {
    CutGrid(h, w, CutNodesAsWritten(levels, w))
  }

  /** The same with the cut positions restricted to the inside of the
      width. */
  function TreeDict(h: nat, w: nat, levels: seq<Level>): (adj: seq<seq<int>>)
    ensures |adj| == h * w
  {
    CutGrid(h, w, CutNodes(levels, w))
  }

  /** The tree's lists stay simple and symmetric, and lose exactly the
      cut pairs. */
  lemma TreeSimpleSymmetric(h: nat, w: nat, levels: seq<Level>)
    ensures Simple(TreeDict(h, w, levels)) && Symmetric(TreeDict(h, w, levels))
    ensures CutsRemoved(GridAdj(h, w), TreeDict(h, w, levels), CutNodes(levels, w))
  {
    GridSimpleSymmetric(h, w);
    RemoveAllEffect(GridAdj(h, w), CutNodes(levels, w));
  }

  /** In the grid with a cut list removed, a pair is adjacent exactly when
      it is adjacent in the grid and is not a cut pair {c, c+1}. */
  lemma CutGridAdjacency(h: nat, w: nat, cuts: seq<int>, v: int, u: int)
    requires 0 <= v < h * w
    ensures u in CutGrid(h, w, cuts)[v] <==>
              Adjacent(h, w, v, u) && !(u == v + 1 && v in cuts) && !(v == u + 1 && u in cuts)
  {
    var t := CutGrid(h, w, cuts);
    CutGridAt(h, w, cuts, v);
    assert u in t[v] <==> u in Elems(t[v]);
    assert u in GridAdj(h, w)[v] <==> u in Elems(GridAdj(h, w)[v]);
    GridNeighbours(h, w, v);
  }

  /** One list of CutGrid: the grid's list without the cut neighbours. */
  lemma CutGridAt(h: nat, w: nat, cuts: seq<int>, v: int)
    requires 0 <= v < h * w
    ensures Elems(CutGrid(h, w, cuts)[v]) == Elems(GridAdj(h, w)[v]) - CutAt(v, cuts)
  {
    GridSimpleSymmetric(h, w);
    RemoveAllEffect(GridAdj(h, w), cuts);
  }

  /** A pair is adjacent in the tree exactly when it is adjacent in the
      grid and is not a cut pair {c, c+1}. */
  lemma TreeAdjacency(h: nat, w: nat, levels: seq<Level>, v: int, u: int)
    requires 0 <= v < h * w
    ensures u in TreeDict(h, w, levels)[v] <==>
              Adjacent(h, w, v, u) && !(u == v + 1 && v in CutNodes(levels, w))
                && !(v == u + 1 && u in CutNodes(levels, w))
  {
    CutGridAdjacency(h, w, CutNodes(levels, w), v, u);
  }

  /** The same for generate_tree as written, whose cut list may hold nodes
      from positions 0 and w. */
  lemma TreeAdjacencyAsWritten(h: nat, w: nat, levels: seq<Level>, v: int, u: int)
    requires 0 <= v < h * w
    ensures u in TreeDictAsWritten(h, w, levels)[v] <==>
              Adjacent(h, w, v, u) && !(u == v + 1 && v in CutNodesAsWritten(levels, w))
                && !(v == u + 1 && u in CutNodesAsWritten(levels, w))
  {
    CutGridAdjacency(h, w, CutNodesAsWritten(levels, w), v, u);
  }

  /** The positions numpy's integer linspace of [0, w] can produce. */
  ghost predicate PositionsWithin(levels: seq<Level>, w: int) {
    forall i, j :: 0 <= i < |levels| && j in levels[i].positions ==> 0 <= j <= w
  }

  /** The last cell of one row and the first of the next are not adjacent
      once the grid is two or more columns wide. */
  lemma RowEndsNotAdjacent(h: nat, w: nat, m: int)
    requires w >= 2
    ensures !Adjacent(h, w, m * w - 1, m * w)
  {
  }

  /** A cut at position 0 or w of some row removes no grid edge, so for a
      grid pair {c, c+1} the row cuts as written and those with the
      positions kept inside agree. */
  lemma {:induction false} RowCutsAgree(h: nat, w: nat, start: int, end: int, ps: seq<int>, c: int)
    requires w >= 2 && forall j :: j in ps ==> 0 <= j <= w
    requires Adjacent(h, w, c, c + 1)
    ensures c in RowCuts(start, end, ps, w) <==> c in RowCuts(start, end, Filter(ps, w), w)
    decreases end - start
  {
    if end > start {
      RowCutsAgree(h, w, start, end - 1, ps, c);
      RowCutAgrees(h, w, end - 1, ps, c);
    }
  }

  /** One row of RowCutsAgree. */
  lemma RowCutAgrees(h: nat, w: nat, row: int, ps: seq<int>, c: int)
    requires w >= 2 && forall j :: j in ps ==> 0 <= j <= w
    requires Adjacent(h, w, c, c + 1)
    ensures c in RowCut(row, ps, w) <==> c in RowCut(row, Filter(ps, w), w)
  {
    var fs := Filter(ps, w);
    if c in RowCut(row, ps, w) {
      var k :| 0 <= k < |ps| && RowCut(row, ps, w)[k] == c;
      var j := ps[k];
      assert j in ps;
      if j == 0 {
        RowEndsNotAdjacent(h, w, row);
      } else if j == w {
        assert row * w + w == (row + 1) * w;
        RowEndsNotAdjacent(h, w, row + 1);
      }
      assert j in fs;
      var k' :| 0 <= k' < |fs| && fs[k'] == j;
      assert RowCut(row, fs, w)[k'] == c;
    }
    if c in RowCut(row, fs, w) {
      var k :| 0 <= k < |fs| && RowCut(row, fs, w)[k] == c;
      assert fs[k] in fs;
      var k' :| 0 <= k' < |ps| && ps[k'] == fs[k];
      assert RowCut(row, ps, w)[k'] == c;
    }
  }

  /** The same over all levels: on a grid at least two columns wide, and
      with positions between 0 and w, a grid pair {c, c+1} is cut as
      written exactly when it is cut with the positions kept inside. */
  lemma {:induction false} CutNodesAgree(h: nat, w: nat, levels: seq<Level>, c: int)
    requires w >= 2 && PositionsWithin(levels, w)
    requires Adjacent(h, w, c, c + 1)
    ensures c in CutNodesAsWritten(levels, w) <==> c in CutNodes(levels, w)
    decreases |levels|
  {
    if levels != [] {
      var pre := levels[..|levels| - 1];
      var l := levels[|levels| - 1];
      var ins := Inside(levels, w);
      assert ins[..|ins| - 1] == Inside(pre, w);
      assert ins[|ins| - 1] == l.(positions := Filter(l.positions, w));
      assert PositionsWithin(pre, w) by {
        forall i, j | 0 <= i < |pre| && j in pre[i].positions ensures 0 <= j <= w {
          assert pre[i] == levels[i];
        }
      }
      assert forall j :: j in l.positions ==> 0 <= j <= w;
      CutNodesAgree(h, w, pre, c);
      RowCutsAgree(h, w, l.startRow, l.endRow, l.positions, c);
    }
  }

  /** On a grid at least two columns wide, with positions between 0 and w
      (everything linspace yields), generate_tree as written builds the
      same neighbour sets as with the positions kept inside the width. */
  lemma TreeAsWrittenAgrees(h: nat, w: nat, levels: seq<Level>, v: int, u: int)
    requires w >= 2 && PositionsWithin(levels, w)
    requires 0 <= v < h * w
    ensures u in TreeDictAsWritten(h, w, levels)[v] <==> u in TreeDict(h, w, levels)[v]
  {
    CutGridAdjacency(h, w, CutNodesAsWritten(levels, w), v, u);
    CutGridAdjacency(h, w, CutNodes(levels, w), v, u);
    if Adjacent(h, w, v, u) {
      if u == v + 1 {
        CutNodesAgree(h, w, levels, v);
      } else if v == u + 1 {
        assert Adjacent(h, w, u, u + 1);
        CutNodesAgree(h, w, levels, u);
      }
    }
  }

  /** Every cut lies in a grid at least two columns wide. */
  lemma CutNodesNeedWidth(levels: seq<Level>, w: int, c: int)
    requires c in CutNodes(levels, w)
    ensures w >= 2
  {
    var ls := Inside(levels, w);
    forall i | 0 <= i < |ls| ensures forall j :: j in ls[i].positions ==> 0 < j < w {
    }
    CutsNeedWidth(ls, w, c);
  }

  /** The tree keeps every vertical edge, in both lists. */
  lemma TreeKeepsVertical(h: nat, w: nat, levels: seq<Level>, v: int)
    requires 0 <= v && v + w < h * w
    ensures v + w in TreeDict(h, w, levels)[v] && v in TreeDict(h, w, levels)[v + w]
  {
    VerticalAdjacent(h, w, v);
    TreeAdjacency(h, w, levels, v, v + w);
    TreeAdjacency(h, w, levels, v + w, v);
    if w == 1 && v in CutNodes(levels, w) {
      CutNodesNeedWidth(levels, w, v);
    }
  }

  /** A cell and the one below it are adjacent. */
  lemma VerticalAdjacent(h: nat, w: nat, v: int)
    requires 0 <= v && v + w < h * w
    ensures Adjacent(h, w, v, v + w) && Adjacent(h, w, v + w, v)
  {
    RowInRange(h, w, v);
    CellOf(v / w + 1, v % w, w);
    assert v + w == (v / w + 1) * w + v % w;
  }

  /** generate_tree with the cut positions kept strictly inside the width:
      each tree edge once, as (smaller, larger). */
  method GenerateTree(h: nat, w: nat, levels: seq<Level>) returns (edges: seq<(int, int)>)
    ensures NoDup(edges)
    ensures forall a, b :: (a, b) in edges <==>
              a < b && Adjacent(h, w, a, b) && !(b == a + 1 && a in CutNodes(levels, w))
  {
    edges := DictToList(TreeDict(h, w, levels));
    DedupProps(Flatten(TreeDict(h, w, levels)));
    forall a, b ensures (a, b) in edges <==>
                  a < b && Adjacent(h, w, a, b) && !(b == a + 1 && a in CutNodes(levels, w)) {
      TreeEdgeAt(h, w, levels, a, b);
    }
  }

  /** generate_tree as written: each edge of the grid minus the cut pairs
      once, as (smaller, larger); on a grid at least two columns wide with
      positions between 0 and w these are the edges GenerateTree lists. */
  method GenerateTreeAsWritten(h: nat, w: nat, levels: seq<Level>) returns (edges: seq<(int, int)>)
    ensures NoDup(edges)
    ensures forall a, b :: (a, b) in edges <==>
              a < b && Adjacent(h, w, a, b) && !(b == a + 1 && a in CutNodesAsWritten(levels, w))
    ensures w >= 2 && PositionsWithin(levels, w) ==>
              forall a, b :: (a, b) in edges <==>
                a < b && Adjacent(h, w, a, b) && !(b == a + 1 && a in CutNodes(levels, w))
  {
    var cuts := CutNodesAsWritten(levels, w);
    edges := DictToList(CutGrid(h, w, cuts));
    DedupProps(Flatten(CutGrid(h, w, cuts)));
    forall a, b ensures (a, b) in edges <==>
                  a < b && Adjacent(h, w, a, b) && !(b == a + 1 && a in cuts) {
      CutGridEdgeAt(h, w, cuts, a, b);
    }
    if w >= 2 && PositionsWithin(levels, w) {
      forall a, b ensures (a, b) in edges <==>
                    a < b && Adjacent(h, w, a, b) && !(b == a + 1 && a in CutNodes(levels, w)) {
        if b == a + 1 && Adjacent(h, w, a, b) {
          CutNodesAgree(h, w, levels, a);
        }
      }
    }
  }

  /** A pair is listed by generate_tree exactly when it is a grid edge that
      is not a cut pair, smaller end first. */
  lemma TreeEdgeAt(h: nat, w: nat, levels: seq<Level>, a: int, b: int)
    ensures (a, b) in Dedup(Flatten(TreeDict(h, w, levels))) <==>
              a < b && Adjacent(h, w, a, b) && !(b == a + 1 && a in CutNodes(levels, w))
  {
    CutGridEdgeAt(h, w, CutNodes(levels, w), a, b);
  }

  /** The edge list of the grid with a cut list removed. */
  lemma CutGridEdgeAt(h: nat, w: nat, cuts: seq<int>, a: int, b: int)
    ensures (a, b) in Dedup(Flatten(CutGrid(h, w, cuts))) <==>
              a < b && Adjacent(h, w, a, b) && !(b == a + 1 && a in cuts)
  {
    GridSimpleSymmetric(h, w);
    RemoveAllEffect(GridAdj(h, w), cuts);
    EdgeListMembers(CutGrid(h, w, cuts), a, b);
    if 0 <= a < h * w {
      CutGridAdjacency(h, w, cuts, a, b);
    }
  }

  /** As written, a one-column grid whose second level is cut at position
      0 (numpy's integer linspace of width 1 into two segments is
      [0, 0, 1], so the inner position is 0) loses its vertical edge
      between nodes 0 and 1. */
  lemma CutAtZeroRemovesVerticalEdge()
    ensures GridAdj(2, 1) == [[1], [0]]
    ensures TreeDictAsWritten(2, 1, [Level(0, 1, []), Level(1, 2, [0])]) == [[], []]
  {
    var grid := GridAdj(2, 1);
    OneColumnGrid();
    CutAtZeroNodes();
    assert RemoveAll(grid, [0]) == RemoveEdge(0, grid) by {
      assert [0][..0] == [];
    }
  }

  lemma CutAtZeroNodes()
    ensures CutNodesAsWritten([Level(0, 1, []), Level(1, 2, [0])], 1) == [0]
  {
    var levels := [Level(0, 1, []), Level(1, 2, [0])];
    assert RowCuts(0, 1, [], 1) == [];
    assert RowCuts(1, 2, [0], 1) == [0] by {
      assert RowCuts(1, 1, [0], 1) == [];
    }
    assert levels[..1] == [Level(0, 1, [])];
    assert levels[..1][..0] == [];
  }

  lemma OneColumnGrid()
    ensures GridAdj(2, 1) == [[1], [0]]
  {
    var grid := GridAdj(2, 1);
    assert grid[0] == CellNeighbours(2, 1, 0, 0) == [1];
    assert grid[1] == CellNeighbours(2, 1, 1, 0) == [0];
  }

  /** With the positions kept inside the width, the same input cuts
      nothing and the edge stays. */
  lemma CutAtZeroKeptInside()
    ensures TreeDict(2, 1, [Level(0, 1, []), Level(1, 2, [0])]) == [[1], [0]]
  {
    var levels := [Level(0, 1, []), Level(1, 2, [0])];
    var inside := Inside(levels, 1);
    assert Filter([0], 1) == [] by {
      assert Filter([], 1) == [];
    }
    assert inside[1] == Level(1, 2, []);
    assert inside[0] == Level(0, 1, []);
    assert RowCuts(1, 2, [], 1) == [] by {
      assert RowCuts(1, 1, [], 1) == [];
    }
    assert inside == [Level(0, 1, []), Level(1, 2, [])];
    assert CutNodesAsWritten(inside[..1], 1) == [] by {
      assert inside[..1] == [Level(0, 1, [])];
      assert inside[..1][..0] == [];
      assert RowCuts(0, 1, [], 1) == [];
    }
    assert CutNodesAsWritten(inside, 1) == CutNodesAsWritten(inside[..1], 1) + RowCuts(1, 2, [], 1);
    OneColumnGrid();
  }
}
