/** One protein-interaction network (`Organism` in organism.py): nodes are
    the indices 0..n-1 of the node list, edges are stored once as
    (smaller, larger) index pairs, the adjacency matrix is a symmetric 0/1
    matrix, a node's degree is its column sum and its neighbours are the
    columns holding a 1 in its row. Also the pair index `v_ind` of `BioNet`
    that flattens an (org1 node, org2 node) cell into the similarity
    vector. */
module Organism {
  import opened Common

  /** How an undirected edge is stored: `(min(a, b), max(a, b))`. */
  function Canon(a: nat, b: nat): (nat, nat) {
    if a <= b then (a, b) else (b, a)
  }

  /** The network once constructed. The adjacency matrix is only written
      during construction, so it is kept as a value. */
  datatype Network = Network(n: nat, edges: set<(nat, nat)>, adj: seq<seq<int>>)

  /** The adjacency matrix that an edge set induces. */
  function AdjOf(n: nat, edges: set<(nat, nat)>): seq<seq<int>> {
    seq(n, i requires 0 <= i < n => seq(n, j requires 0 <= j < n => if Canon(i, j) in edges then 1 else 0))
  }

  /** Well-formed: every edge is stored as (min, max) inside the node range,
      and the adjacency matrix is `AdjOf(n, edges)`. */
  ghost predicate Valid(g: Network) {
    (forall e :: e in g.edges ==> e.0 <= e.1 < g.n) && g.adj == AdjOf(g.n, g.edges)
  }

  /** `node_to_id`: a dictionary comprehension over the node list, so a name
      listed twice keeps its last index. */
  function NodeIds(nodes: seq<string>): map<string, nat> {
    if nodes == [] then map[]
    else NodeIds(nodes[..|nodes| - 1])[nodes[|nodes| - 1] := |nodes| - 1]
  }

  /** Every listed name gets an id, the id points back at the name, and it
      is the last position holding that name. */
  lemma {:induction false} NodeIdsLastIndex(nodes: seq<string>)
    ensures forall name :: name in NodeIds(nodes) <==> name in nodes
    ensures forall name :: name in NodeIds(nodes) ==>
      NodeIds(nodes)[name] < |nodes| && nodes[NodeIds(nodes)[name]] == name
    ensures forall name, k :: name in NodeIds(nodes) && NodeIds(nodes)[name] < k < |nodes| ==> nodes[k] != name
    decreases |nodes|
  {
    if nodes != [] {
      var last := |nodes| - 1;
      NodeIdsLastIndex(nodes[..last]);
      assert nodes == nodes[..last] + [nodes[last]];
    }
  }

  /** Ids are node indices. */
  lemma NodeIdsInRange(nodes: seq<string>)
    ensures forall name :: name in NodeIds(nodes) ==> NodeIds(nodes)[name] < |nodes|
  {
    NodeIdsLastIndex(nodes);
  }

  /** The edge set that a list of resolved index pairs produces. */
  function EdgeSet(pairs: seq<(nat, nat)>): set<(nat, nat)> {
    set k | 0 <= k < |pairs| :: Canon(pairs[k].0, pairs[k].1)
  }

  /** Index pairs of the edge list, for the edges whose two names resolve. */
  function Resolve(ids: map<string, nat>, edgeData: seq<(string, string)>): seq<(nat, nat)>
    requires forall k :: 0 <= k < |edgeData| ==> edgeData[k].0 in ids && edgeData[k].1 in ids
  {
    seq(|edgeData|, k requires 0 <= k < |edgeData| => (ids[edgeData[k].0], ids[edgeData[k].1]))
  }

  /** Every edge name resolves. */
  predicate AllResolve(ids: map<string, nat>, edgeData: seq<(string, string)>) {
    forall k :: 0 <= k < |edgeData| ==> edgeData[k].0 in ids && edgeData[k].1 in ids
  }

  /** Edge `k` is the first with a name missing from `ids`, and `name` is
      the first of its two names that is missing. */
  predicate FirstUnresolved(ids: map<string, nat>, edgeData: seq<(string, string)>, k: int, name: string) {
    0 <= k < |edgeData| && AllResolve(ids, edgeData[..k]) && name !in ids &&
    name == (if edgeData[k].0 !in ids then edgeData[k].0 else edgeData[k].1)
  }

  lemma EdgeSetAppend(rs: seq<(nat, nat)>, p: (nat, nat))
    ensures EdgeSet(rs + [p]) == EdgeSet(rs) + {Canon(p.0, p.1)}
  {
    var rs' := rs + [p];
    forall e | e in EdgeSet(rs') ensures e in EdgeSet(rs) + {Canon(p.0, p.1)} {
      var j :| 0 <= j < |rs'| && e == Canon(rs'[j].0, rs'[j].1);
      if j < |rs| { assert rs'[j] == rs[j]; }
    }
    forall e | e in EdgeSet(rs) ensures e in EdgeSet(rs') {
      var j :| 0 <= j < |rs| && e == Canon(rs[j].0, rs[j].1);
      assert rs'[j] == rs[j];
    }
    assert rs'[|rs|] == p;
  }

  lemma ResolveAppend(ids: map<string, nat>, es: seq<(string, string)>, e: (string, string))
    requires AllResolve(ids, es) && e.0 in ids && e.1 in ids
    ensures AllResolve(ids, es + [e])
    ensures Resolve(ids, es + [e]) == Resolve(ids, es) + [(ids[e.0], ids[e.1])]
  {
    assert forall j :: 0 <= j < |es| ==> (es + [e])[j] == es[j];
    assert (es + [e])[|es|] == e;
  }

  /** Writing the 1 on both sides of the diagonal is adding the edge. */
  lemma AdjAddEdge(n: nat, edges: set<(nat, nat)>, n1: nat, n2: nat)
    requires n1 < n && n2 < n
    ensures var adj := AdjOf(n, edges);
      var adj' := adj[n1 := adj[n1][n2 := 1]];
      adj'[n2 := adj'[n2][n1 := 1]] == AdjOf(n, edges + {Canon(n1, n2)})
  {
    var adj := AdjOf(n, edges);
    var adj' := adj[n1 := adj[n1][n2 := 1]];
    var adj'' := adj'[n2 := adj'[n2][n1 := 1]];
    var t := AdjOf(n, edges + {Canon(n1, n2)});
    forall i | 0 <= i < n ensures adj''[i] == t[i] {
      forall j | 0 <= j < n ensures adj''[i][j] == t[i][j] {
        assert Canon(i, j) == Canon(n1, n2) <==> (i == n1 && j == n2) || (i == n2 && j == n1);
      }
    }
  }

  /** The constructor's edge loop: look up both names (a missing one raises
      `KeyError`, returned here as `Err(name)`), add the (min, max) edge to
      the set and write a 1 on both sides of the diagonal. */
  method BuildNetwork(nodes: seq<string>, edgeData: seq<(string, string)>)
    returns (r: Result<Network, string>)
    ensures r.Ok? <==> AllResolve(NodeIds(nodes), edgeData)
    ensures r.Ok? ==> var ids := NodeIds(nodes);
      r.value == Network(|nodes|, EdgeSet(Resolve(ids, edgeData)), AdjOf(|nodes|, EdgeSet(Resolve(ids, edgeData))))
    ensures r.Err? ==> exists k :: FirstUnresolved(NodeIds(nodes), edgeData, k, r.error)
  {
    var ids := NodeIds(nodes);
    var n := |nodes|;
    NodeIdsInRange(nodes);
    var edges: set<(nat, nat)> := {};
    var adj := AdjOf(n, {});
    var k := 0;
    while k < |edgeData|
      invariant 0 <= k <= |edgeData|
      invariant AllResolve(ids, edgeData[..k])
      invariant edges == EdgeSet(Resolve(ids, edgeData[..k]))
      invariant adj == AdjOf(n, edges)
    {
      var a := edgeData[k].0;
      var b := edgeData[k].1;
      if a !in ids || b !in ids {
        r := Err(if a !in ids then a else b);
        assert FirstUnresolved(ids, edgeData, k, r.error);
        return;
      }
      var n1 := ids[a];
      var n2 := ids[b];
      AdjAddEdge(n, edges, n1, n2);
      EdgeSetAppend(Resolve(ids, edgeData[..k]), (n1, n2));
      assert edgeData[..k + 1] == edgeData[..k] + [edgeData[k]];
      ResolveAppend(ids, edgeData[..k], edgeData[k]);
      edges := edges + {Canon(n1, n2)};
      adj := adj[n1 := adj[n1][n2 := 1]];
      adj := adj[n2 := adj[n2][n1 := 1]];
      k := k + 1;
    }
    assert edgeData[..k] == edgeData;
    r := Ok(Network(n, edges, adj));
  }

  /** Edges are stored as (min, max) inside the node range. */
  lemma EdgeSetCanonical(ids: map<string, nat>, nodes: seq<string>, edgeData: seq<(string, string)>)
    requires ids == NodeIds(nodes) && AllResolve(ids, edgeData)
    ensures Valid(Network(|nodes|, EdgeSet(Resolve(ids, edgeData)), AdjOf(|nodes|, EdgeSet(Resolve(ids, edgeData)))))
  {
    NodeIdsInRange(nodes);
    var rs := Resolve(ids, edgeData);
    forall e | e in EdgeSet(rs) ensures e.0 <= e.1 < |nodes| {
      var k :| 0 <= k < |rs| && e == Canon(rs[k].0, rs[k].1);
    }
  }

  /** A reversed or repeated edge adds nothing. */
  lemma EdgeSetCollapses(pairs: seq<(nat, nat)>, a: nat, b: nat)
    requires (a, b) in pairs || (b, a) in pairs
    ensures EdgeSet(pairs + [(a, b)]) == EdgeSet(pairs)
    ensures EdgeSet(pairs + [(b, a)]) == EdgeSet(pairs)
  {
    var k :| 0 <= k < |pairs| && (pairs[k] == (a, b) || pairs[k] == (b, a));
    assert Canon(pairs[k].0, pairs[k].1) == Canon(a, b) == Canon(b, a);
    var p1 := pairs + [(a, b)];
    var p2 := pairs + [(b, a)];
    forall e | e in EdgeSet(p1) ensures e in EdgeSet(pairs) {
      var j :| 0 <= j < |p1| && e == Canon(p1[j].0, p1[j].1);
      if j < |pairs| { assert p1[j] == pairs[j]; }
    }
    forall e | e in EdgeSet(pairs) ensures e in EdgeSet(p1) {
      var j :| 0 <= j < |pairs| && e == Canon(pairs[j].0, pairs[j].1);
      assert p1[j] == pairs[j];
    }
    forall e | e in EdgeSet(p2) ensures e in EdgeSet(pairs) {
      var j :| 0 <= j < |p2| && e == Canon(p2[j].0, p2[j].1);
      if j < |pairs| { assert p2[j] == pairs[j]; }
    }
    forall e | e in EdgeSet(pairs) ensures e in EdgeSet(p2) {
      var j :| 0 <= j < |pairs| && e == Canon(pairs[j].0, pairs[j].1);
      assert p2[j] == pairs[j];
    }
  }

  /** The adjacency matrix of a well-formed network is a symmetric 0/1
      matrix whose 1 entries are exactly the stored edges, read either way. */
  lemma AdjacencySymmetric(g: Network, i: nat, j: nat)
    requires Valid(g) && i < g.n && j < g.n
    ensures g.adj[i][j] == g.adj[j][i]
    ensures g.adj[i][j] == 0 || g.adj[i][j] == 1
    ensures g.adj[i][j] == 1 <==> (i, j) in g.edges || (j, i) in g.edges
  {
  }

  /** Sum of column `j` over the first `m` rows. */
  function ColumnSum(adj: seq<seq<int>>, j: nat, m: nat): int
    requires m <= |adj| && forall i :: 0 <= i < |adj| ==> j < |adj[i]|
  {
    if m == 0 then 0 else ColumnSum(adj, j, m - 1) + adj[m - 1][j]
  }

  /** `degree = sum(adjacency)`: adding the rows up gives column sums. */
  function Degree(g: Network, j: nat): int
    requires Valid(g) && j < g.n
  {
    ColumnSum(g.adj, j, g.n)
  }

  /** The columns below `m` that hold a 1 in `row`, ascending. */
  function OnesBelow(row: seq<int>, m: nat): (r: seq<nat>)
    requires m <= |row|
    ensures forall k :: 0 <= k < |r| ==> r[k] < m && row[r[k]] == 1
    ensures forall x :: 0 <= x < m && row[x] == 1 ==> x in r
    ensures forall a, b :: 0 <= a < b < |r| ==> r[a] < r[b]
  {
    if m == 0 then [] else OnesBelow(row, m - 1) + (if row[m - 1] == 1 then [m - 1] else [])
  }

  /** `neighbors(node)`: the positions of the 1 entries of the node's row. */
  function Neighbors(g: Network, node: nat): (r: seq<nat>)
    requires Valid(g) && node < g.n
    ensures forall x: nat :: x in r <==> x < g.n && Canon(node, x) in g.edges
    ensures forall a, b :: 0 <= a < b < |r| ==> r[a] < r[b]
  {
    OnesBelow(g.adj[node], g.n)
  }

  lemma {:induction false} ColumnSumCountsOnes(g: Network, j: nat, m: nat)
    requires Valid(g) && j < g.n && m <= g.n
    ensures ColumnSum(g.adj, j, m) == |OnesBelow(g.adj[j], m)|
    decreases m
  {
    if m > 0 {
      ColumnSumCountsOnes(g, j, m - 1);
      AdjacencySymmetric(g, m - 1, j);
    }
  }

  /** A node's degree is the number of its neighbours. */
  lemma DegreeIsNeighborCount(g: Network, j: nat)
    requires Valid(g) && j < g.n
    ensures Degree(g, j) == |Neighbors(g, j)|
  {
    ColumnSumCountsOnes(g, j, g.n);
  }

  /** Sum of the degrees of nodes 0..m-1 (`sum(degree)` for m = n). */
  function DegreeSum(g: Network, m: nat): int
    requires Valid(g) && m <= g.n
  {
    if m == 0 then 0 else DegreeSum(g, m - 1) + Degree(g, m - 1)
  }

  /** `BioNet.v_ind(i, j)`: the row-major index of cell (i, j) of an
      n1 x n2 grid. */
  function VInd(n2: nat, i: nat, j: nat): nat {
    i * n2 + j
  }

  /** `v_ind` maps the n1 x n2 grid one-to-one onto 0..n1*n2-1, and
      division and remainder by n2 invert it. */
  lemma VIndBijection(n1: nat, n2: nat)
    ensures forall i: nat, j: nat :: i < n1 && j < n2 ==> VInd(n2, i, j) < n1 * n2
    ensures forall i: nat, j: nat :: i < n1 && j < n2 ==> VInd(n2, i, j) / n2 == i && VInd(n2, i, j) % n2 == j
    ensures forall k: nat :: k < n1 * n2 ==> k / n2 < n1 && VInd(n2, k / n2, k % n2) == k
  {
    forall i: nat, j: nat | i < n1 && j < n2 ensures VInd(n2, i, j) < n1 * n2 {
      calc {
        i * n2 + j;
      <  i * n2 + n2;
      == (i + 1) * n2;
      <= { MulMono(i + 1, n1, n2); } n1 * n2;
      }
    }
    forall i: nat, j: nat | i < n1 && j < n2 ensures VInd(n2, i, j) / n2 == i && VInd(n2, i, j) % n2 == j {
      DivModUnique(i * n2 + j, n2, i, j);
    }
    forall k: nat | k < n1 * n2 ensures k / n2 < n1 && VInd(n2, k / n2, k % n2) == k {
      assert n2 > 0;
      var q := k / n2;
      assert q * n2 <= k;
      MulLess(q, n1, n2);
    }
  }

  /** The index of a cell of the n1 x n2 grid is below n1 * n2. */
  lemma VIndBelow(n1: nat, n2: nat, i: nat, j: nat)
    requires i < n1 && j < n2
    ensures VInd(n2, i, j) < n1 * n2
  {
    MulMono(i + 1, n1, n2);
  }

  /** Entry (i, j) of the similarity vector: `similarity[v_ind(i, j)]`. */
  function SimAt(sim: seq<real>, n1: nat, n2: nat, i: nat, j: nat): real
    requires |sim| == n1 * n2 && i < n1 && j < n2
  {
    VIndBelow(n1, n2, i, j);
    sim[VInd(n2, i, j)]
  }

  lemma MulLess(a: nat, b: nat, c: nat)
    requires a * c < b * c
    ensures a < b
  {
  }

  lemma MulMono(a: nat, b: nat, c: nat)
    requires a <= b
    ensures a * c <= b * c
  {
  }

  lemma DivModUnique(k: nat, d: nat, q: nat, r: nat)
    requires r < d && k == q * d + r
    ensures k / d == q && k % d == r
  {
    VIndInjective(d, q, r, k / d, k % d);
  }

  /** Distinct cells have distinct indices. */
  lemma VIndInjective(n2: nat, i: nat, j: nat, i2: nat, j2: nat)
    requires j < n2 && j2 < n2 && VInd(n2, i, j) == VInd(n2, i2, j2)
    ensures i == i2 && j == j2
  {
    if i < i2 {
      MulMono(i + 1, i2, n2);
    } else if i2 < i {
      MulMono(i2 + 1, i, n2);
    }
  }
}
