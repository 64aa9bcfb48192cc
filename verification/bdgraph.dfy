/** The graph the Simulator constructor of evo0_Bd.h builds from the
    integers of its input file: tokens at even positions are the `out` ends
    of the edges and tokens at odd positions the `in` ends; the population
    size is the largest node id plus one; each node's degree is the number
    of times it occurs; and each node gets an array of exactly that many
    neighbour slots, filled edge by edge. */
module BdGraph {
  import opened Common
  import Network

  datatype Failure = InvalidArgument  // "in and out should have same length"

  /** The constructed graph: `edgelist[v]` lists v's neighbours, in the
      order the edges were read. */
  datatype Graph = Graph(popsize: nat, degrees: seq<nat>, edgelist: seq<seq<int>>)

  /* ---------------------------------------------------------------------
     Reading the tokens.
     --------------------------------------------------------------------- */

  /** The largest token, or 0 when there is none or all are smaller: the
      running maximum the constructor keeps while reading. */
  function MaxNode(tokens: seq<int>): (m: nat)
    ensures forall i :: 0 <= i < |tokens| ==> tokens[i] <= m
    ensures m == 0 || m in tokens
  {
    if tokens == [] then 0
    else
      var m := MaxNode(tokens[..|tokens| - 1]);
      var node := tokens[|tokens| - 1];
      assert forall i :: 0 <= i < |tokens| - 1 ==> tokens[i] == tokens[..|tokens| - 1][i];
      if m < node then node else m
  }

  /** The tokens at even positions. */
  function Outs(tokens: seq<int>): (out: seq<int>)
    ensures |out| == (|tokens| + 1) / 2
    ensures forall i :: 0 <= i < |out| ==> out[i] == tokens[2 * i]
  {
    seq((|tokens| + 1) / 2, i requires 0 <= i < (|tokens| + 1) / 2 => tokens[2 * i])
  }

  /** The tokens at odd positions. */
  function Ins(tokens: seq<int>): (in_: seq<int>)
    ensures |in_| == |tokens| / 2
    ensures forall i :: 0 <= i < |in_| ==> in_[i] == tokens[2 * i + 1]
  {
    seq(|tokens| / 2, i requires 0 <= i < |tokens| / 2 => tokens[2 * i + 1])
  }

  /** Between them the two halves hold every token. */
  lemma {:induction false} HalvesCoverTokens(tokens: seq<int>)
    ensures multiset(Outs(tokens)) + multiset(Ins(tokens)) == multiset(tokens)
    decreases |tokens|
  {
    if |tokens| >= 2 {
      var pre := tokens[..|tokens| - 2];
      HalvesCoverTokens(pre);
      HalvesStep(tokens);
      assert tokens == pre + [tokens[|tokens| - 2]] + [tokens[|tokens| - 1]];
    } else if |tokens| == 1 {
      assert Outs(tokens) == tokens;
      assert Ins(tokens) == [];
    }
  }

  /** The last two tokens go one to each half. */
  lemma HalvesStep(tokens: seq<int>)
    requires |tokens| >= 2
    ensures var n := |tokens|;
            var pre := tokens[..n - 2];
            multiset(Outs(tokens)) + multiset(Ins(tokens)) ==
            multiset(Outs(pre)) + multiset(Ins(pre)) + multiset{tokens[n - 2]} + multiset{tokens[n - 1]}
  {
    OutsLast(tokens);
    InsLast(tokens);
  }

  lemma OutsLast(tokens: seq<int>)
    requires |tokens| >= 2
    ensures var n := |tokens|;
            multiset(Outs(tokens)) == multiset(Outs(tokens[..n - 2])) + multiset{tokens[if n % 2 == 0 then n - 2 else n - 1]}
  {
    OutsSnoc(tokens);
  }

  lemma InsLast(tokens: seq<int>)
    requires |tokens| >= 2
    ensures var n := |tokens|;
            multiset(Ins(tokens)) == multiset(Ins(tokens[..n - 2])) + multiset{tokens[if n % 2 == 0 then n - 1 else n - 2]}
  {
    InsSnoc(tokens);
  }

  /** Dropping the last two tokens drops the last `out` end: the
      second-to-last token for an even count, the last one for an odd
      count. */
  lemma OutsSnoc(tokens: seq<int>)
    requires |tokens| >= 2
    ensures var n := |tokens|;
            Outs(tokens) == Outs(tokens[..n - 2]) + [tokens[if n % 2 == 0 then n - 2 else n - 1]]
  {
    var n := |tokens|;
    var pre := tokens[..n - 2];
    var o, p := Outs(tokens), Outs(pre);
    assert |o| == |p| + 1;
    forall i | 0 <= i < |p| ensures o[i] == p[i] {
      assert p[i] == pre[2 * i];
    }
    assert 2 * (|o| - 1) == (if n % 2 == 0 then n - 2 else n - 1);
  }

  /** Dropping the last two tokens drops the last `in` end: the last token
      for an even count, the second-to-last one for an odd count. */
  lemma InsSnoc(tokens: seq<int>)
    requires |tokens| >= 2
    ensures var n := |tokens|;
            Ins(tokens) == Ins(tokens[..n - 2]) + [tokens[if n % 2 == 0 then n - 1 else n - 2]]
  {
    var n := |tokens|;
    var pre := tokens[..n - 2];
    var o, p := Ins(tokens), Ins(pre);
    assert |o| == |p| + 1;
    forall i | 0 <= i < |p| ensures o[i] == p[i] {
      assert p[i] == pre[2 * i + 1];
    }
    assert 2 * (|o| - 1) + 1 == (if n % 2 == 0 then n - 1 else n - 2);
  }

  /** Edge i joins `in[i]` and `out[i]`, in that order. */
  function Pairs(tokens: seq<int>): (es: seq<(int, int)>)
    ensures |es| == |tokens| / 2
    ensures forall i :: 0 <= i < |es| ==> es[i] == (tokens[2 * i + 1], tokens[2 * i])
  {
    seq(|tokens| / 2, i requires 0 <= i < |tokens| / 2 => (tokens[2 * i + 1], tokens[2 * i]))
  }

  /** A node is an edge end as often as it occurs among the tokens. */
  lemma {:induction false} PairsEndpoints(tokens: seq<int>, v: int)
    requires |tokens| % 2 == 0
    ensures Network.EndpointCount(Pairs(tokens), v) == multiset(tokens)[v]
    decreases |tokens|
  {
    if tokens != [] {
      var pre := tokens[..|tokens| - 2];
      PairsEndpoints(pre, v);
      var es := Pairs(tokens);
      assert es[..|es| - 1] == Pairs(pre);
      assert tokens == pre + [tokens[|tokens| - 2]] + [tokens[|tokens| - 1]];
    }
  }

  /* ---------------------------------------------------------------------
     Degrees.
     --------------------------------------------------------------------- */

  /** Each node in the list bumps its own counter by one. */
  function Tally(counts: seq<nat>, nodes: seq<int>): (r: seq<nat>)
    requires forall i :: 0 <= i < |nodes| ==> 0 <= nodes[i] < |counts|
    ensures |r| == |counts|
    ensures forall v :: 0 <= v < |counts| ==> r[v] == counts[v] + multiset(nodes)[v]
  {
    if nodes == [] then counts
    else
      var pre := nodes[..|nodes| - 1];
      var node := nodes[|nodes| - 1];
      assert nodes == pre + [node];
      var c := Tally(counts, pre);
      c[node := c[node] + 1]
  }

  /** The degrees: zero for every node, then one per occurrence among the
      `out` ends and one per occurrence among the `in` ends. */
  function Degrees(tokens: seq<int>, popsize: nat): (d: seq<nat>)
    requires forall i :: 0 <= i < |tokens| ==> 0 <= tokens[i] < popsize
    ensures |d| == popsize
    ensures forall v :: 0 <= v < popsize ==> d[v] == multiset(tokens)[v]
  {
    var outs := Outs(tokens);
    var ins := Ins(tokens);
    HalvesCoverTokens(tokens);
    assert forall i :: 0 <= i < |outs| ==> outs[i] == tokens[2 * i];
    assert forall i :: 0 <= i < |ins| ==> ins[i] == tokens[2 * i + 1];
    var zero := seq(popsize, _ => 0);
    var afterOuts := Tally(zero, outs);
    var d := Tally(afterOuts, ins);
    forall v | 0 <= v < popsize ensures d[v] == multiset(tokens)[v] {
      assert zero[v] == 0;
      assert (multiset(outs) + multiset(ins))[v] == multiset(outs)[v] + multiset(ins)[v];
    }
    d
  }

  /* ---------------------------------------------------------------------
     Filling the neighbour arrays.
     --------------------------------------------------------------------- */

  /** Each node's neighbours in the order the edges list them: for edge
      (in, out), `out` joins in's list and then `in` joins out's list. */
  function Neighbours(tokens: seq<int>, popsize: nat): (lists: seq<seq<int>>)
    ensures |lists| == popsize
  {
    var adj := Network.BuildFromEdges(Pairs(tokens));
    seq(popsize, v requires 0 <= v < popsize => Network.Get(adj, v))
  }

  /** The reference list of v's neighbours: walking the edges in order,
      edge (a, b) contributes b when a is v and then a when b is v, so a
      self-loop contributes v twice. */
  function EdgeEnds(es: seq<(int, int)>, v: int): (ns: seq<int>)
    ensures |ns| == Network.EndpointCount(es, v)
  {
    if es == [] then []
    else
      var a, b := es[|es| - 1].0, es[|es| - 1].1;
      EdgeEnds(es[..|es| - 1], v) + (if a == v then [b] else []) + (if b == v then [a] else [])
  }

  /** The adjacency built edge by edge holds at each node exactly the
      reference list. */
  lemma {:induction false} BuildIsEdgeEnds(es: seq<(int, int)>, v: int)
    ensures Network.Get(Network.BuildFromEdges(es), v) == EdgeEnds(es, v)
  {
    if es != [] {
      var pre := es[..|es| - 1];
      var e := es[|es| - 1];
      BuildIsEdgeEnds(pre, v);
      Network.GetAddEdge(Network.BuildFromEdges(pre), e.0, e.1, v);
    }
  }

  /** Each node's list holds its neighbours in edge order, one entry per
      edge end at the node; so its length is the node's number of
      occurrences among the tokens. */
  lemma NeighboursInEdgeOrder(tokens: seq<int>, popsize: nat, v: int)
    requires |tokens| % 2 == 0 && 0 <= v < popsize
    ensures Neighbours(tokens, popsize)[v] == EdgeEnds(Pairs(tokens), v)
    ensures |Neighbours(tokens, popsize)[v]| == multiset(tokens)[v]
  {
    BuildIsEdgeEnds(Pairs(tokens), v);
    PairsEndpoints(tokens, v);
  }

  /** The fill loop as written, seen from one node v with d slots, None
      standing for a slot never written; r.1 is v's counter `temp[v]`.
      Edge (a, b) writes b into a's next free slot and a into b's next free
      slot, and only then advances both counters: for a self-loop (v, v)
      both writes hit the same slot and the counter moves on by two. Edges
      not at v leave v's slots alone. */
  function FillNode(es: seq<(int, int)>, d: nat, v: int): (r: (seq<Option<int>>, nat))
    requires Network.EndpointCount(es, v) <= d
    ensures |r.0| == d && r.1 == Network.EndpointCount(es, v)
  {
    if es == [] then (Unwritten(d), 0)
    else
      var a, b := es[|es| - 1].0, es[|es| - 1].1;
      var prev := FillNode(es[..|es| - 1], d, v);
      var slots, t := prev.0, prev.1;
      if a == v && b == v then (slots[t := Some(b)][t := Some(a)], t + 2)
      else if a == v then (slots[t := Some(b)], t + 1)
      else if b == v then (slots[t := Some(a)], t + 1)
      else (slots, t)
  }

  /** The fill loop as written over every node's array of `degrees[v]`
      slots. */
  function FillAsWritten(es: seq<(int, int)>, degrees: seq<nat>): (slots: seq<seq<Option<int>>>)
    requires forall v :: 0 <= v < |degrees| ==> Network.EndpointCount(es, v) <= degrees[v]
    ensures |slots| == |degrees|
    ensures forall v :: 0 <= v < |degrees| ==> |slots[v]| == degrees[v]
  {
    seq(|degrees|, v requires 0 <= v < |degrees| => FillNode(es, degrees[v], v).0)
  }

  /** n slots never written. */
  function Unwritten(n: nat): (u: seq<Option<int>>)
    ensures |u| == n && forall k :: 0 <= k < n ==> u[k].None?
  {
    seq(n, _ => None)
  }

  function Wrap(s: seq<int>): (w: seq<Option<int>>)
    ensures |w| == |s| && forall k :: 0 <= k < |s| ==> w[k] == Some(s[k])
  {
    seq(|s|, k requires 0 <= k < |s| => Some(s[k]))
  }

  predicate NoSelfLoop(es: seq<(int, int)>) {
    forall i :: 0 <= i < |es| ==> es[i].0 != es[i].1
  }

  /** Without self-loops the fill as written stores each node's neighbours
      in edge order in its first slots and leaves the remaining slots
      unwritten. */
  lemma {:induction false} FillAsWrittenNoSelfLoop(es: seq<(int, int)>, d: nat, v: int)
    requires Network.EndpointCount(es, v) <= d && NoSelfLoop(es)
    ensures FillNode(es, d, v).0 ==
            Wrap(Network.Get(Network.BuildFromEdges(es), v)) + Unwritten(d - Network.EndpointCount(es, v))
  {
    if es == [] {
      assert Network.Get(Network.BuildFromEdges(es), v) == [];
      assert Network.EndpointCount(es, v) == 0;
      assert FillNode(es, d, v).0 == Unwritten(d);
      assert Wrap([]) + Unwritten(d) == Unwritten(d);
    } else {
      var pre := es[..|es| - 1];
      var a, b := es[|es| - 1].0, es[|es| - 1].1;
      assert NoSelfLoop(pre) by {
        forall i | 0 <= i < |pre| ensures pre[i].0 != pre[i].1 {
          assert pre[i] == es[i];
        }
      }
      assert a != b;
      FillAsWrittenNoSelfLoop(pre, d, v);
      Network.BuildDegrees(pre, v);
      assert Network.BuildFromEdges(es) == Network.AddEdge(Network.BuildFromEdges(pre), a, b);
      Network.GetAddEdge(Network.BuildFromEdges(pre), a, b, v);
      var prev := Network.Get(Network.BuildFromEdges(pre), v);
      var list := Network.Get(Network.BuildFromEdges(es), v);
      if v == a || v == b {
        var x := if v == a then b else a;
        var free := d - Network.EndpointCount(pre, v);
        assert FillNode(es, d, v).0 == FillNode(pre, d, v).0[|prev| := Some(x)];
        FillSlot(prev, free, x);
        assert d - Network.EndpointCount(es, v) == free - 1;
        assert list == prev + [x];
      } else {
        assert FillNode(es, d, v).0 == FillNode(pre, d, v).0;
        assert Network.EndpointCount(es, v) == Network.EndpointCount(pre, v);
        assert list == prev;
      }
    }
  }

  /** Writing x into the first unwritten slot extends the written prefix
      by x. */
  lemma FillSlot(prev: seq<int>, free: nat, x: int)
    requires free > 0
    ensures (Wrap(prev) + Unwritten(free))[|prev| := Some(x)] == Wrap(prev + [x]) + Unwritten(free - 1)
  {
    var l := (Wrap(prev) + Unwritten(free))[|prev| := Some(x)];
    var r := Wrap(prev + [x]) + Unwritten(free - 1);
    assert |l| == |r|;
    forall k | 0 <= k < |l| ensures l[k] == r[k] {
      if k < |prev| {
        assert l[k] == Some(prev[k]);
      } else if k > |prev| {
        assert l[k] == None;
      }
    }
  }

  /** Every slot is written exactly when no edge is a self-loop, given
      degrees that count the edge ends. */
  lemma AllSlotsWrittenWithoutSelfLoops(es: seq<(int, int)>, degrees: seq<nat>)
    requires forall w :: 0 <= w < |degrees| ==> Network.EndpointCount(es, w) == degrees[w]
    requires NoSelfLoop(es)
    ensures forall v :: 0 <= v < |degrees| ==>
              FillAsWritten(es, degrees)[v] == Wrap(Network.Get(Network.BuildFromEdges(es), v))
  {
    forall v | 0 <= v < |degrees|
      ensures FillAsWritten(es, degrees)[v] == Wrap(Network.Get(Network.BuildFromEdges(es), v))
    {
      FillAsWrittenNoSelfLoop(es, degrees[v], v);
      assert Unwritten(0) == [];
      assert Wrap(Network.Get(Network.BuildFromEdges(es), v)) + [] == Wrap(Network.Get(Network.BuildFromEdges(es), v));
    }
  }

  /** The self-loop case as written: the file "0 0" gives node 0 degree 2,
      but both writes go to slot 0 and slot 1 is never written. */
  lemma SelfLoopLeavesSlotUnwritten()
    ensures Pairs([0, 0]) == [(0, 0)]
    ensures Degrees([0, 0], 1) == [2]
    ensures FillAsWritten([(0, 0)], [2]) == [[Some(0), None]]
  {
    assert multiset([0, 0])[0] == 2;
    var es := [(0, 0)];
    assert es[..0] == [];
    assert Pairs([0, 0]) == es;
    assert Network.EndpointCount(es, 0) == 2;
    var none: Option<int> := None;
    assert Unwritten(2) == [none, none];
    var row := FillNode(es, 2, 0).0;
    assert row == [none, none][0 := Some(0)][0 := Some(0)];
    assert row == [Some(0), none];
  }

  /** The corrected fill lists node 0 twice for the same file, one entry
      per edge end, filling both of its slots. */
  lemma SelfLoopListedTwice()
    ensures Neighbours([0, 0], 1) == [[0, 0]]
  {
    var es := [(0, 0)];
    assert es[..0] == [];
    assert Pairs([0, 0]) == es;
    assert Network.BuildFromEdges(es) == Network.AddEdge(map[], 0, 0);
    var empty: Network.Adj := map[];
    assert Network.Get(empty, 0) == [];
    var nil: seq<int> := [];
    assert nil + [0] == [0];
    assert [0] + [0] == [0, 0];
    var built := Network.AddEdge(empty, 0, 0);
    assert built.Keys == {0} && built[0] == [0, 0];
    assert Network.Get(built, 0) == [0, 0];
  }

  /* ---------------------------------------------------------------------
     The constructor.
     --------------------------------------------------------------------- */

  /** The constructor on the integers of the input file (all node ids,
      hence non-negative). An odd count fails; otherwise popsize is one
      more than the largest id and each node's neighbours are filled in
      edge order, as many as its degree. */
  function Construct(tokens: seq<int>): (r: Result<Graph, Failure>)
    requires forall i :: 0 <= i < |tokens| ==> tokens[i] >= 0
    ensures r.Err? <==> |tokens| % 2 == 1
    ensures r.Ok? ==> r.value.popsize == MaxNode(tokens) + 1
    ensures r.Ok? ==> |r.value.degrees| == |r.value.edgelist| == r.value.popsize
    ensures r.Ok? ==> forall v :: 0 <= v < r.value.popsize ==> r.value.degrees[v] == multiset(tokens)[v]
  {
    if |Outs(tokens)| != |Ins(tokens)| then Err(InvalidArgument)
    else
      var popsize := MaxNode(tokens) + 1;
      Ok(Graph(popsize, Degrees(tokens, popsize), Neighbours(tokens, popsize)))
  }

  /** The graph is what the edges describe: every node id below popsize,
      each neighbour array exactly as long as the node's degree, neighbours
      in range, and b listed in a's array as often as a in b's. */
  predicate WellFormed(g: Graph) {
    && |g.degrees| == |g.edgelist| == g.popsize
    && (forall v :: 0 <= v < g.popsize ==> |g.edgelist[v]| == g.degrees[v])
    && (forall v, k :: 0 <= v < g.popsize && 0 <= k < |g.edgelist[v]| ==> 0 <= g.edgelist[v][k] < g.popsize)
  }

  lemma ConstructWellFormed(tokens: seq<int>)
    requires forall i :: 0 <= i < |tokens| ==> tokens[i] >= 0
    requires |tokens| % 2 == 0
    ensures var g := Construct(tokens).value;
            && WellFormed(g)
            && (forall a, b :: 0 <= a < g.popsize && 0 <= b < g.popsize ==>
                  multiset(g.edgelist[a])[b] == multiset(g.edgelist[b])[a])
  {
    var g := Construct(tokens).value;
    var es := Pairs(tokens);
    var adj := Network.BuildFromEdges(es);
    Network.BuildSymmetric(es);
    forall v | 0 <= v < g.popsize ensures |g.edgelist[v]| == g.degrees[v] {
      Network.BuildDegrees(es, v);
      PairsEndpoints(tokens, v);
    }
    forall v, k | 0 <= v < g.popsize && 0 <= k < |g.edgelist[v]|
      ensures 0 <= g.edgelist[v][k] < g.popsize
    {
      var w := g.edgelist[v][k];
      assert v in adj && w in adj[v];
      Network.BuildDegrees(es, w);
      PairsEndpoints(tokens, w);
      assert multiset(tokens)[w] > 0;
      assert w in tokens;
    }
    forall a, b | 0 <= a < g.popsize && 0 <= b < g.popsize
      ensures multiset(g.edgelist[a])[b] == multiset(g.edgelist[b])[a]
    {
      assert Network.Mult(adj, a, b) == Network.Mult(adj, b, a);
    }
  }

  /** On a file without self-loops the constructor's fill as written and
      the graph built here agree slot for slot: every slot is written, with
      the neighbour the corrected lists hold there. */
  lemma ConstructAgreesWithoutSelfLoops(tokens: seq<int>)
    requires forall i :: 0 <= i < |tokens| ==> tokens[i] >= 0
    requires |tokens| % 2 == 0 && NoSelfLoop(Pairs(tokens))
    ensures var g := Construct(tokens).value;
            var es := Pairs(tokens);
            (forall w :: 0 <= w < g.popsize ==> Network.EndpointCount(es, w) <= g.degrees[w]) &&
            forall v :: 0 <= v < g.popsize ==> FillAsWritten(es, g.degrees)[v] == Wrap(g.edgelist[v])
  {
    var g := Construct(tokens).value;
    var es := Pairs(tokens);
    forall w | 0 <= w < g.popsize ensures Network.EndpointCount(es, w) == g.degrees[w] {
      PairsEndpoints(tokens, w);
    }
    AllSlotsWrittenWithoutSelfLoops(es, g.degrees);
  }
}
