/** The "finger" graphs of fingers.py (generate_grid_generations): a
    rows x cols grid with every vertical edge, and in generation k the
    horizontal edges of rows 0 .. k-1 only. A networkx graph is its node
    set and its set of undirected edges; every edge here is stored as
    (smaller, larger). */
module Fingers {
  import opened Common
  import Grids

  /** node_id(r, c). */
  function NodeId(r: int, c: int, cols: int): int {
    r * cols + c
  }

  /** node_id is one-to-one on the grid: row and column come back by
      division by the column count. */
  lemma NodeIdInverse(r: nat, c: nat, cols: nat)
    requires c < cols
    ensures NodeId(r, c, cols) / cols == r && NodeId(r, c, cols) % cols == c
  {
    Grids.CellOf(r, c, cols);
  }

  /** The vertical edges (r, c) -- (r+1, c) for r < rows-1 and c < cols,
      row by row. */
  function Vertical(rows: nat, cols: nat): (es: seq<(int, int)>)
    ensures |es| == (if rows == 0 then 0 else (rows - 1) * cols)
  {
    if rows <= 1 then []
    else Vertical(rows - 1, cols) + seq(cols, c => (NodeId(rows - 2, c, cols), NodeId(rows - 1, c, cols)))
  }

  /** The horizontal edges (r, c) -- (r, c+1) of row r, c < cols-1. */
  function RowEdges(r: nat, cols: nat): (es: seq<(int, int)>)
    ensures |es| == (if cols == 0 then 0 else cols - 1)
  {
    var n := if cols == 0 then 0 else cols - 1;
    seq(n, c => (NodeId(r, c, cols), NodeId(r, c + 1, cols)))
  }

  /** The horizontal edges of rows 0 .. k-1, row by row. */
  function Horizontal(k: nat, cols: nat): (es: seq<(int, int)>)
    ensures |es| == k * (if cols == 0 then 0 else cols - 1)
  {
    if k == 0 then []
    else
      var n := if cols == 0 then 0 else cols - 1;
      assert k * n == (k - 1) * n + n;
      Horizontal(k - 1, cols) + RowEdges(k - 1, cols)
  }

  /** A vertical edge: a node of the first rows-1 rows and the node one
      row below it. */
  predicate IsVertical(rows: nat, cols: nat, e: (int, int)) {
    rows >= 1 && 0 <= e.0 < (rows - 1) * cols && e.1 == e.0 + cols
  }

  /** A horizontal edge of rows 0 .. k-1: a node that is not the last of
      its row and the node to its right. */
  predicate IsHorizontal(k: nat, cols: nat, e: (int, int)) {
    0 <= e.0 < k * cols && e.0 % cols < cols - 1 && e.1 == e.0 + 1
  }

  /** The list of vertical edges holds exactly the vertical edges. */
  lemma {:induction false} VerticalMembers(rows: nat, cols: nat, e: (int, int))
    ensures e in Vertical(rows, cols) <==> IsVertical(rows, cols, e)
    decreases rows
  {
    if rows > 1 {
      VerticalMembers(rows - 1, cols, e);
      var lo := (rows - 2) * cols;
      assert (rows - 1) * cols == lo + cols;
      assert lo >= 0;
      var block := seq(cols, c => (NodeId(rows - 2, c, cols), NodeId(rows - 1, c, cols)));
      if lo <= e.0 < lo + cols && e.1 == e.0 + cols {
        assert block[e.0 - lo] == e;
      }
      if e in block {
        var c :| 0 <= c < cols && block[c] == e;
        assert e.0 == lo + c;
      }
    }
  }

  /** The list of the first k rows' horizontal edges holds exactly those
      edges. */
  lemma {:induction false} HorizontalMembers(k: nat, cols: nat, e: (int, int))
    ensures e in Horizontal(k, cols) <==> IsHorizontal(k, cols, e)
    decreases k
  {
    if k == 0 {
      assert !IsHorizontal(k, cols, e);
    } else {
      HorizontalMembers(k - 1, cols, e);
      RowEdgesMembers(k - 1, cols, e);
      HorizontalSplit(k, cols, e);
    }
  }

  /** Row r's list holds exactly the horizontal edges leaving row r. */
  lemma RowEdgesMembers(r: nat, cols: nat, e: (int, int))
    ensures e in RowEdges(r, cols) <==> IsHorizontal(r + 1, cols, e) && e.0 >= r * cols
  {
    var lo := r * cols;
    assert (r + 1) * cols == lo + cols;
    var block := RowEdges(r, cols);
    if e in block {
      var c :| 0 <= c < |block| && block[c] == e;
      NodeIdInverse(r, c, cols);
      assert e.0 == lo + c;
    }
    if IsHorizontal(r + 1, cols, e) && e.0 >= lo {
      var c := e.0 - lo;
      NodeIdInverse(r, c, cols);
      assert block[c] == e;
    }
  }

  /** The horizontal edges of the first k rows are those of the first k-1
      rows and those leaving row k-1. */
  lemma HorizontalSplit(k: nat, cols: nat, e: (int, int))
    requires k > 0
    ensures IsHorizontal(k, cols, e) <==>
              IsHorizontal(k - 1, cols, e) || (IsHorizontal(k, cols, e) && e.0 >= (k - 1) * cols)
  {
    assert k * cols == (k - 1) * cols + cols;
  }

  /** A networkx graph: its node set and its undirected edges. */
  datatype Graph = Graph(nodes: set<int>, edges: set<(int, int)>)

  /** Generation k: every node, every vertical edge, and the horizontal
      edges of the first k rows. */
  function Generation(rows: nat, cols: nat, k: nat): Graph {
    Graph(Below(rows * cols), Elems(Vertical(rows, cols)) + Elems(Horizontal(k, cols)))
  }

  /** generate_grid_generations: generations 1 .. rows. */
  function Generations(rows: nat, cols: nat): (gs: seq<Graph>)
    ensures |gs| == rows
  {
    seq(rows, i requires 0 <= i < rows => Generation(rows, cols, i + 1))
  }

  /** The edges of a generation are exactly the vertical edges and the
      horizontal edges of rows 0 .. k-1. */
  lemma GenerationEdges(rows: nat, cols: nat, k: nat, e: (int, int))
    ensures e in Generation(rows, cols, k).edges <==> IsVertical(rows, cols, e) || IsHorizontal(k, cols, e)
  {
    VerticalMembers(rows, cols, e);
    HorizontalMembers(k, cols, e);
  }

  /** Generation i+1 of the list has all rows*cols nodes, every edge joins
      two of them, and every vertical edge is present. */
  lemma GenerationsShape(rows: nat, cols: nat, i: nat, e: (int, int))
    requires i < rows
    ensures Generations(rows, cols)[i].nodes == Below(rows * cols)
    ensures IsVertical(rows, cols, e) ==> e in Generations(rows, cols)[i].edges
    ensures e in Generations(rows, cols)[i].edges ==>
              e.0 in Generations(rows, cols)[i].nodes && e.1 in Generations(rows, cols)[i].nodes
  {
    var g := Generations(rows, cols)[i];
    assert g == Generation(rows, cols, i + 1);
    GenerationEdges(rows, cols, i + 1, e);
    if IsVertical(rows, cols, e) {
      assert rows * cols == (rows - 1) * cols + cols;
    }
    if IsHorizontal(i + 1, cols, e) {
      HorizontalEndpoint(i + 1, rows, cols, e);
    }
  }

  /** The right end of a horizontal edge of the first k rows lies in the
      grid. */
  lemma HorizontalEndpoint(k: nat, rows: nat, cols: nat, e: (int, int))
    requires k <= rows && IsHorizontal(k, cols, e)
    ensures e.1 < rows * cols
  {
    var q, r := e.0 / cols, e.0 % cols;
    assert e.0 == q * cols + r;
    assert q < k;
    assert e.1 == q * cols + (r + 1);
    Grids.CellInGrid(rows, cols, q, r + 1);
  }

  /** Each generation's edges include the previous one's, and generation
      k+1 adds exactly the horizontal edges of row k. */
  lemma GenerationsGrow(rows: nat, cols: nat, k: nat, e: (int, int))
    ensures e in Generation(rows, cols, k).edges ==> e in Generation(rows, cols, k + 1).edges
    ensures e in Generation(rows, cols, k + 1).edges && e !in Generation(rows, cols, k).edges ==>
              k * cols <= e.0 < (k + 1) * cols && e.1 == e.0 + 1
  {
    GenerationEdges(rows, cols, k, e);
    GenerationEdges(rows, cols, k + 1, e);
    assert (k + 1) * cols == k * cols + cols;
  }
}
