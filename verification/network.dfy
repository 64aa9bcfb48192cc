/** The contact-network loader of spatialsoft2d.cpp (initialize_network) and
    the no-gap check of its main: an edge-list text, one "u v" pair per
    line, becomes an adjacency map in which every accepted edge adds v to
    u's list and u to v's list. */
module Network {
  import opened Common

  type Adj = map<int, seq<int>>

  /* ---------------------------------------------------------------------
     Reading one line the way `std::istringstream >> u >> v` does: skip
     white space, an optional sign, one or more decimal digits, and a value
     that fits a 32-bit int; whatever follows the second number is ignored.
     --------------------------------------------------------------------- */

  const INT_MIN: int := -0x8000_0000
  const INT_MAX: int := 0x7fff_ffff

  /** The characters isspace accepts in the "C" locale. */
  predicate IsSpace(c: char) {
    c == ' ' || c == '\t' || c == '\n' || c == '\r' || c as int == 11 || c as int == 12
  }

  predicate IsDigit(c: char) {
    '0' as int <= c as int <= '9' as int
  }

  /** First position at or after i that is not white space. */
  function SkipSpace(s: string, i: nat): (j: nat)
    requires i <= |s|
    ensures i <= j <= |s|
    ensures forall k :: i <= k < j ==> IsSpace(s[k])
    ensures j == |s| || !IsSpace(s[j])
    decreases |s| - i
  {
    if i < |s| && IsSpace(s[i]) then SkipSpace(s, i + 1) else i
  }

  /** First position at or after i that is not a digit. */
  function SkipDigits(s: string, i: nat): (j: nat)
    requires i <= |s|
    ensures i <= j <= |s|
    ensures forall k :: i <= k < j ==> IsDigit(s[k])
    ensures j == |s| || !IsDigit(s[j])
    decreases |s| - i
  {
    if i < |s| && IsDigit(s[i]) then SkipDigits(s, i + 1) else i
  }

  /** The value of a string of decimal digits. */
  function DigitsValue(d: string): (v: nat)
    requires forall k :: 0 <= k < |d| ==> IsDigit(d[k])
  {
    if d == [] then 0
    else
      assert IsDigit(d[|d| - 1]);
      10 * DigitsValue(d[..|d| - 1]) + (d[|d| - 1] as int - '0' as int)
  }

  /** Where the digits of a read from i begin: after the leading white
      space and at most one sign character. */
  function DigitsStart(s: string, i: nat): (k: nat)
    requires i <= |s|
    ensures i <= SkipSpace(s, i) <= k <= SkipSpace(s, i) + 1 && k <= |s|
    ensures k == SkipSpace(s, i) + 1 <==> SkipSpace(s, i) < |s| && (s[SkipSpace(s, i)] == '-' || s[SkipSpace(s, i)] == '+')
  {
    var j := SkipSpace(s, i);
    if j < |s| && (s[j] == '-' || s[j] == '+') then j + 1 else j
  }

  /** Whether the sign read from i is a minus. */
  predicate Negative(s: string, i: nat)
    requires i <= |s|
  {
    var j := SkipSpace(s, i);
    j < |s| && s[j] == '-'
  }

  /** The int a magnitude denotes under a sign. */
  function Signed(mag: nat, neg: bool): int {
    if neg then -(mag as int) else mag
  }

  /** One `>> int` extraction starting at position i: the value read and the
      position after it, or None when the stream fails (no digits, or a value
      outside the int range). */
  function ReadInt(s: string, i: nat): (r: Option<(int, nat)>)
    requires i <= |s|
    ensures r.Some? ==> i < r.value.1 <= |s| && INT_MIN <= r.value.0 <= INT_MAX
    ensures r.Some? ==> && DigitsStart(s, i) < r.value.1 == SkipDigits(s, DigitsStart(s, i))
                        && r.value.0 == Signed(DigitsValue(s[DigitsStart(s, i)..r.value.1]), Negative(s, i))
    ensures SkipDigits(s, DigitsStart(s, i)) == DigitsStart(s, i) ==> r.None?
  {
    var neg := Negative(s, i);
    var k := DigitsStart(s, i);
    var e := SkipDigits(s, k);
    if e == k then None else SignedValue(s[k..e], neg, e)
  }

  /** The int a run of digits denotes under the sign, with the position
      after it, or None when it does not fit. */
  function SignedValue(d: string, neg: bool, e: nat): (r: Option<(int, nat)>)
    requires forall k :: 0 <= k < |d| ==> IsDigit(d[k])
    ensures r.Some? ==> r.value.1 == e && INT_MIN <= r.value.0 <= INT_MAX
    ensures r.Some? ==> r.value.0 == Signed(DigitsValue(d), neg)
    ensures r.None? <==> !(INT_MIN <= Signed(DigitsValue(d), neg) <= INT_MAX)
  {
    var v := Signed(DigitsValue(d), neg);
    if INT_MIN <= v <= INT_MAX then Some((v, e)) else None
  }

  /** The decimal text of a natural number, most significant digit first,
      as `<<` writes it. */
  function NatText(n: nat): (t: string)
    ensures |t| > 0 && forall k :: 0 <= k < |t| ==> IsDigit(t[k])
    decreases n
  {
    var last := [('0' as int + n % 10) as char];
    if n < 10 then last else NatText(n / 10) + last
  }

  /** The decimal text of an int, with a leading minus when negative. */
  function IntText(v: int): (t: string)
    ensures |t| > 0 && (IsDigit(t[0]) || t[0] == '-')
  {
    if v < 0 then "-" + NatText(-v) else NatText(v)
  }

  /** Reading back the digits of a number gives the number. */
  lemma {:induction false} NatTextValue(n: nat)
    ensures DigitsValue(NatText(n)) == n
    decreases n
  {
    var t := NatText(n);
    if n >= 10 {
      NatTextValue(n / 10);
      assert t[..|t| - 1] == NatText(n / 10);
    }
  }

  /** SkipSpace stops at the first non-space: at j, when every character
      from i up to j is white space and s[j] is not. */
  lemma SkipSpaceAt(s: string, i: nat, j: nat)
    requires i <= j <= |s| && forall k :: i <= k < j ==> IsSpace(s[k])
    requires j == |s| || !IsSpace(s[j])
    ensures SkipSpace(s, i) == j
  {
  }

  /** SkipDigits stops at the first non-digit. */
  lemma SkipDigitsAt(s: string, i: nat, j: nat)
    requires i <= j <= |s| && forall k :: i <= k < j ==> IsDigit(s[k])
    requires j == |s| || !IsDigit(s[j])
    ensures SkipDigits(s, i) == j
  {
  }

  /** t is a decimal text of v: an optional minus (present exactly when v
      is negative) followed by at least one digit spelling |v|. */
  ghost predicate Denotes(t: string, v: int) {
    var k := if v < 0 then 1 else 0;
    && k < |t|
    && (v < 0 ==> t[0] == '-')
    && (forall m :: k <= m < |t| ==> IsDigit(t[m]))
    && DigitsValue(t[k..]) == (if v < 0 then -v else v)
  }

  /** IntText writes a decimal text of its argument. */
  lemma IntTextDenotes(v: int)
    ensures Denotes(IntText(v), v)
  {
    var t := IntText(v);
    var mag: nat := if v < 0 then -v else v;
    NatTextValue(mag);
    if v < 0 {
      assert t[1..] == NatText(mag);
    } else {
      assert t[0..] == NatText(mag);
    }
  }

  /** A read from i recovers an int written in decimal at p, when only
      white space comes between i and p and no digit follows the text. */
  lemma ReadIntText(s: string, i: nat, p: nat, t: string, v: int)
    requires i <= p && p + |t| <= |s| && s[p..p + |t|] == t
    requires forall m :: i <= m < p ==> IsSpace(s[m])
    requires Denotes(t, v) && INT_MIN <= v <= INT_MAX
    requires p + |t| == |s| || !IsDigit(s[p + |t|])
    ensures ReadInt(s, i) == Some((v, p + |t|))
  {
    var e := p + |t|;
    var k := p + (if v < 0 then 1 else 0);
    assert s[k..e] == t[k - p..];
    forall m | k <= m < e
      ensures IsDigit(s[m])
    {
      assert s[m] == t[m - p];
    }
    assert v < 0 ==> s[p] == t[0];
    ReadIntAt(s, i, p, k, e, v < 0, if v < 0 then -v else v);
  }

  /** The read from i, on a string whose white space runs from i to p, whose
      optional minus sits at p and whose digits run from k to e. */
  lemma ReadIntAt(s: string, i: nat, p: nat, k: nat, e: nat, neg: bool, mag: nat)
    requires i <= p <= k < e <= |s| && k == p + (if neg then 1 else 0)
    requires forall m :: i <= m < p ==> IsSpace(s[m])
    requires neg ==> s[p] == '-'
    requires forall m :: k <= m < e ==> IsDigit(s[m])
    requires e == |s| || !IsDigit(s[e])
    requires DigitsValue(s[k..e]) == mag && INT_MIN <= Signed(mag, neg) <= INT_MAX
    ensures ReadInt(s, i) == Some((Signed(mag, neg), e))
  {
    assert IsDigit(s[k]);
    SkipSpaceAt(s, i, p);
    SkipDigitsAt(s, k, e);
  }

  /** A line holding two ints written in decimal, separated by a blank,
      parses to those two ints whatever text follows the second one (if that
      text does not continue its digits). */
  lemma ParseLineText(u: int, v: int, rest: string)
    requires INT_MIN <= u <= INT_MAX && INT_MIN <= v <= INT_MAX
    requires rest == [] || !IsDigit(rest[0])
    ensures ParseLine(IntText(u) + " " + IntText(v) + rest) == Some((u, v))
  {
    IntTextDenotes(u);
    IntTextDenotes(v);
    ParseLineDenoted(IntText(u), u, IntText(v), v, rest);
  }

  /** The same for any decimal texts of the two ints. */
  lemma ParseLineDenoted(a: string, u: int, b: string, v: int, rest: string)
    requires Denotes(a, u) && Denotes(b, v)
    requires INT_MIN <= u <= INT_MAX && INT_MIN <= v <= INT_MAX
    requires rest == [] || !IsDigit(rest[0])
    ensures ParseLine(a + " " + b + rest) == Some((u, v))
  {
    var line := a + " " + b + rest;
    var e, f := |a|, |a| + 1 + |b|;
    assert line[0..e] == a && line[e] == ' ';
    assert line[e + 1..f] == b;
    assert f < |line| ==> line[f] == rest[0];
    ParseLineAt(line, a, u, b, v);
  }

  /** A line whose text is a, a blank, b and no further digit. */
  lemma ParseLineAt(line: string, a: string, u: int, b: string, v: int)
    requires Denotes(a, u) && Denotes(b, v)
    requires INT_MIN <= u <= INT_MAX && INT_MIN <= v <= INT_MAX
    requires |a| + 1 + |b| <= |line| && line[0..|a|] == a && line[|a|] == ' '
    requires line[|a| + 1..|a| + 1 + |b|] == b
    requires |a| + 1 + |b| == |line| || !IsDigit(line[|a| + 1 + |b|])
    ensures ParseLine(line) == Some((u, v))
  {
    FirstRead(line, a, u);
    SecondRead(line, |a|, b, v);
    assert line[0] == a[0];
    ParseLineReads(line, u, |a|, v, |a| + 1 + |b|);
  }

  /** The first number of such a line. */
  lemma FirstRead(line: string, a: string, u: int)
    requires Denotes(a, u) && INT_MIN <= u <= INT_MAX
    requires |a| < |line| && line[0..|a|] == a && line[|a|] == ' '
    ensures ReadInt(line, 0) == Some((u, |a|))
  {
    assert !IsDigit(line[|a|]);
    ReadIntText(line, 0, 0, a, u);
  }

  /** The second number, read from the blank at e. */
  lemma SecondRead(line: string, e: nat, b: string, v: int)
    requires Denotes(b, v) && INT_MIN <= v <= INT_MAX
    requires e + 1 + |b| <= |line| && line[e] == ' ' && line[e + 1..e + 1 + |b|] == b
    requires e + 1 + |b| == |line| || !IsDigit(line[e + 1 + |b|])
    ensures ReadInt(line, e) == Some((v, e + 1 + |b|))
  {
    assert forall m :: e <= m < e + 1 ==> IsSpace(line[m]);
    ReadIntText(line, e, e + 1, b, v);
  }

  /** ParseLine from its two reads. */
  lemma ParseLineReads(line: string, u: int, e: nat, v: int, f: nat)
    requires |line| > 0 && line[0] != '#' && e <= |line|
    requires ReadInt(line, 0) == Some((u, e)) && ReadInt(line, e) == Some((v, f))
    ensures ParseLine(line) == Some((u, v))
  {
  }

  /** The edge a line contributes, or None when it is skipped: an empty
      line, a comment line starting with '#', or a line whose first two
      tokens do not both read as ints. */
  function ParseLine(line: string): (r: Option<(int, int)>)
    ensures (|line| == 0 || line[0] == '#') ==> r.None?
    ensures r.Some? ==> INT_MIN <= r.value.0 <= INT_MAX && INT_MIN <= r.value.1 <= INT_MAX
  {
    if |line| == 0 || line[0] == '#' then None
    else
      match ReadInt(line, 0)
      case None => None
      case Some((u, e)) =>
        match ReadInt(line, e)
        case None => None
        case Some((v, _)) => Some((u, v))
  }

  /** A line with two numbers keeps them whatever text follows: trailing
      tokens are ignored, not rejected. */
  lemma TrailingTextIgnored(line: string, rest: string)
    requires ParseLine(line).Some? && line[|line| - 1] == ' '
    ensures |line + rest| > 0
    ensures ParseLine(line + rest) == ParseLine(line)
  {
    var s := line + rest;
    var read := ReadInt(line, 0).value;
    var u, e := read.0, read.1;
    ReadIntPrefix(line, rest, 0);
    ReadIntPrefix(line, rest, e);
  }

  lemma SkipSpacePrefix(s: string, t: string, i: nat)
    requires i <= |s| && SkipSpace(s, i) < |s|
    ensures SkipSpace(s + t, i) == SkipSpace(s, i)
    decreases |s| - i
  {
    if i < |s| && IsSpace(s[i]) {
      SkipSpacePrefix(s, t, i + 1);
    }
  }

  lemma SkipDigitsPrefix(s: string, t: string, i: nat)
    requires i <= |s| && SkipDigits(s, i) < |s|
    ensures SkipDigits(s + t, i) == SkipDigits(s, i)
    decreases |s| - i
  {
    if i < |s| && IsDigit(s[i]) {
      SkipDigitsPrefix(s, t, i + 1);
    }
  }

  /** A successful read that stops before the last character of s, which is
      white space, reads the same in any extension of s. */
  lemma ReadIntPrefix(s: string, t: string, i: nat)
    requires i <= |s| && |s| > 0 && IsSpace(s[|s| - 1])
    requires ReadInt(s, i).Some?
    ensures ReadInt(s + t, i) == ReadInt(s, i)
  {
    var j := SkipSpace(s, i);
    var k := DigitsStart(s, i);
    var e := SkipDigits(s, k);
    SkipSpacePrefix(s, t, i);
    SkipDigitsPrefix(s, t, k);
    SliceOfAppend(s, t, k, e);
    assert (s + t)[j] == s[j];
  }

  lemma SliceOfAppend(s: string, t: string, k: nat, e: nat)
    requires k <= e <= |s|
    ensures (s + t)[k..e] == s[k..e]
  {
  }

  /** The accepted edges of a file, in line order. */
  function Edges(lines: seq<string>): (es: seq<(int, int)>)
    ensures |es| <= |lines|
  {
    if lines == [] then []
    else
      var es := Edges(lines[..|lines| - 1]);
      match ParseLine(lines[|lines| - 1])
      case None => es
      case Some(e) => es + [e]
  }

  /* ---------------------------------------------------------------------
     Building the adjacency map.
     --------------------------------------------------------------------- */

  /** The neighbour list of a node; a missing key reads as empty, as
      std::map's operator[] makes it. */
  function Get(adj: Adj, a: int): seq<int> {
    if a in adj then adj[a] else []
  }

  /** One edge: v is appended to u's list, then u to v's list. */
  function AddEdge(adj: Adj, u: int, v: int): (r: Adj)
    ensures r.Keys == adj.Keys + {u, v}
  {
    var adj1 := adj[u := Get(adj, u) + [v]];
    adj1[v := Get(adj1, v) + [u]]
  }

  /** The adjacency map built from a list of accepted edges, in order. */
  function BuildFromEdges(es: seq<(int, int)>): Adj {
    if es == [] then map[]
    else
      var e := es[|es| - 1];
      AddEdge(BuildFromEdges(es[..|es| - 1]), e.0, e.1)
  }

  /** initialize_network on the lines of an already opened file. */
  function InitializeNetwork(lines: seq<string>): (adj: Adj)
    ensures Symmetric(adj)
    ensures TotalLength(adj) == 2 * |Edges(lines)|
  {
    BuildSymmetric(Edges(lines));
    BuildTotalLength(Edges(lines));
    BuildFromEdges(Edges(lines))
  }

  /** Number of times node a is an endpoint of an edge in es (a self-loop
      counts twice). */
  function EndpointCount(es: seq<(int, int)>, a: int): nat {
    if es == [] then 0
    else
      var e := es[|es| - 1];
      EndpointCount(es[..|es| - 1], a) + (if e.0 == a then 1 else 0) + (if e.1 == a then 1 else 0)
  }

  /** Number of times b occurs in a's list. */
  function Mult(adj: Adj, a: int, b: int): nat {
    multiset(Get(adj, a))[b]
  }

  /** Every list is non-empty (so randomNeighbor's assertion holds for every
      key), every listed neighbour is itself a key, and b occurs in a's
      list exactly as often as a occurs in b's. */
  ghost predicate Symmetric(adj: Adj) {
    && NonEmptyLists(adj)
    && NeighboursKeyed(adj)
    && SameMult(adj)
  }

  ghost predicate NonEmptyLists(adj: Adj) {
    forall a :: a in adj ==> |adj[a]| > 0
  }

  ghost predicate NeighboursKeyed(adj: Adj) {
    forall a, b :: a in adj && b in adj[a] ==> b in adj
  }

  ghost predicate SameMult(adj: Adj) {
    forall a, b :: Mult(adj, a, b) == Mult(adj, b, a)
  }

  lemma AddEdgeMult(adj: Adj, u: int, v: int, a: int, b: int)
    ensures Mult(AddEdge(adj, u, v), a, b) ==
            Mult(adj, a, b) + (if a == u && b == v then 1 else 0) + (if a == v && b == u then 1 else 0)
  {
    var adj1 := adj[u := Get(adj, u) + [v]];
    assert Get(adj1, a) == if a == u then Get(adj, a) + [v] else Get(adj, a);
    assert multiset(Get(adj, u) + [v]) == multiset(Get(adj, u)) + multiset{v};
    assert multiset(Get(adj1, v) + [u]) == multiset(Get(adj1, v)) + multiset{u};
  }

  /** An edge appends w to u's list and then u to w's list. */
  lemma GetAddEdge(adj: Adj, u: int, w: int, a: int)
    ensures Get(AddEdge(adj, u, w), a) ==
            if a == u && a == w then Get(adj, a) + [w] + [u]
            else if a == u then Get(adj, a) + [w]
            else if a == w then Get(adj, a) + [u]
            else Get(adj, a)
  {
  }

  /** Each edge keeps the map symmetric, lists non-empty and neighbours
      keyed. */
  lemma AddEdgeKeepsSymmetric(adj: Adj, u: int, v: int)
    requires Symmetric(adj)
    ensures Symmetric(AddEdge(adj, u, v))
  {
    AddEdgeSameMult(adj, u, v);
    AddEdgeNonEmpty(adj, u, v);
    AddEdgeKeyed(adj, u, v);
  }

  lemma AddEdgeSameMult(adj: Adj, u: int, v: int)
    requires SameMult(adj)
    ensures SameMult(AddEdge(adj, u, v))
  {
    var r := AddEdge(adj, u, v);
    forall a, b ensures Mult(r, a, b) == Mult(r, b, a) {
      AddEdgeMult(adj, u, v, a, b);
      AddEdgeMult(adj, u, v, b, a);
    }
  }

  lemma AddEdgeNonEmpty(adj: Adj, u: int, v: int)
    requires NonEmptyLists(adj)
    ensures NonEmptyLists(AddEdge(adj, u, v))
  {
    var r := AddEdge(adj, u, v);
    forall a | a in r ensures |r[a]| > 0 {
      AddEdgeGrows(adj, u, v, a);
    }
  }

  lemma AddEdgeKeyed(adj: Adj, u: int, v: int)
    requires NeighboursKeyed(adj)
    ensures NeighboursKeyed(AddEdge(adj, u, v))
  {
    var r := AddEdge(adj, u, v);
    forall a, b | a in r && b in r[a] ensures b in r {
      AddEdgeGrows(adj, u, v, a);
    }
  }

  /** Each list of the new map is the old one with zero, one or two
      nodes among u and v appended; u and v gain at least one entry. */
  lemma AddEdgeGrows(adj: Adj, u: int, v: int, a: int)
    ensures var r := AddEdge(adj, u, v);
            a in r ==> |r[a]| >= |Get(adj, a)| && (a == u || a == v ==> |r[a]| > 0)
    ensures var r := AddEdge(adj, u, v);
            forall b :: a in r && b in r[a] ==> b in Get(adj, a) || b == u || b == v
  {
    var adj1 := adj[u := Get(adj, u) + [v]];
    assert Get(adj1, a) == if a == u then Get(adj, a) + [v] else Get(adj, a);
  }

  /** The built map is symmetric with multiplicity, every key has a
      non-empty list, and every neighbour is a key. */
  lemma {:induction false} BuildSymmetric(es: seq<(int, int)>)
    ensures Symmetric(BuildFromEdges(es))
  {
    if es != [] {
      BuildSymmetric(es[..|es| - 1]);
      var e := es[|es| - 1];
      AddEdgeKeepsSymmetric(BuildFromEdges(es[..|es| - 1]), e.0, e.1);
    }
  }

  /** The keys are exactly the endpoints of the accepted edges, and each
      node's list is as long as the number of edge ends at that node. */
  lemma {:induction false} BuildDegrees(es: seq<(int, int)>, a: int)
    ensures a in BuildFromEdges(es) <==> EndpointCount(es, a) > 0
    ensures |Get(BuildFromEdges(es), a)| == EndpointCount(es, a)
  {
    if es != [] {
      BuildDegrees(es[..|es| - 1], a);
    }
  }

  /* ---------------------------------------------------------------------
     Total list length: twice the number of accepted lines.
     --------------------------------------------------------------------- */

  ghost function Pick(s: set<int>): (x: int)
    requires s != {}
    ensures x in s
  {
    NonEmptyHasMember(s);
    var x :| x in s; x
  }

  lemma NonEmptyHasMember(s: set<int>)
    requires s != {}
    ensures exists x :: x in s
  {
    assert (forall x :: x !in s) ==> s == {};
  }

  /** Sum of the list lengths over all keys. */
  ghost function TotalLength(adj: Adj): nat
    decreases |adj|
  {
    if adj == map[] then 0
    else
      var k := Pick(adj.Keys);
      |adj[k]| + TotalLength(adj - {k})
  }

  lemma {:induction false} TotalLengthAt(adj: Adj, k: int)
    requires k in adj
    ensures TotalLength(adj) == |adj[k]| + TotalLength(adj - {k})
    decreases |adj|
  {
    var k0 := Pick(adj.Keys);
    if k0 != k {
      var rest := adj - {k0};
      TotalLengthAt(rest, k);
      TotalLengthAt(adj - {k}, k0);
      assert rest - {k} == (adj - {k}) - {k0};
    }
  }

  lemma TotalLengthUpdate(adj: Adj, k: int, s: seq<int>)
    ensures TotalLength(adj[k := s]) == TotalLength(adj) - |Get(adj, k)| + |s|
  {
    var r := adj[k := s];
    TotalLengthAt(r, k);
    assert r - {k} == adj - {k};
    if k in adj {
      TotalLengthAt(adj, k);
    } else {
      assert adj - {k} == adj;
    }
  }

  /** The list lengths add up to twice the number of accepted edges. */
  lemma {:induction false} BuildTotalLength(es: seq<(int, int)>)
    ensures TotalLength(BuildFromEdges(es)) == 2 * |es|
  {
    if es != [] {
      var prev := BuildFromEdges(es[..|es| - 1]);
      BuildTotalLength(es[..|es| - 1]);
      var e := es[|es| - 1];
      var adj1 := prev[e.0 := Get(prev, e.0) + [e.1]];
      TotalLengthUpdate(prev, e.0, Get(prev, e.0) + [e.1]);
      TotalLengthUpdate(adj1, e.1, Get(adj1, e.1) + [e.0]);
    }
  }

  /* ---------------------------------------------------------------------
     The no-gap check of main.
     --------------------------------------------------------------------- */

  /** The keys of the map are 0..n-1 where n is the number of keys. */
  ghost predicate NoGap(adj: Adj) {
    adj.Keys == Below(|adj|)
  }

  /** The loop of main asserting that every i below the number of keys is a
      key; it passes exactly when the keys are 0..n-1. */
  method CheckNoGap(adj: Adj) returns (ok: bool)
    ensures ok <==> NoGap(adj)
  {
    var n := |adj|;
    var i := 0;
    while i < n
      invariant i <= n
      invariant forall j :: 0 <= j < i ==> j in adj
    {
      if i !in adj {
        return false;
      }
      i := i + 1;
    }
    BelowCard(n);
    SubsetSameCard(Below(n), adj.Keys);
    return true;
  }

  /** A graph the colonization can run on: sites 0..n-1 are the keys, every
      list is non-empty and every neighbour is a site. */
  ghost predicate WellFormed(adj: Adj, n: nat) {
    && adj.Keys == Below(n)
    && (forall a :: a in adj ==> |adj[a]| > 0)
    && (forall a, k :: a in adj && 0 <= k < |adj[a]| ==> 0 <= adj[a][k] < n)
  }

  /** Every file that passes the no-gap check yields a graph the
      colonization can run on. */
  lemma LoadedGraphWellFormed(lines: seq<string>)
    requires NoGap(InitializeNetwork(lines))
    ensures WellFormed(InitializeNetwork(lines), |InitializeNetwork(lines)|)
  {
    var adj := InitializeNetwork(lines);
    BuildSymmetric(Edges(lines));
    assert NonEmptyLists(adj) && NeighboursKeyed(adj);
    forall a, k | a in adj && 0 <= k < |adj[a]|
      ensures 0 <= adj[a][k] < |adj|
    {
      assert adj[a][k] in adj[a];
      assert adj[a][k] in adj.Keys;
    }
  }
}
