/** The checks and scores the aligner applies to a finished alignment
    (align.py): `verify_alignment`, which restores one-to-one pairing,
    `find_paired_edges`, which lists the conserved edges, `select_pairs`,
    which keeps the positively scored pairs, and the CE/NBS/EC/ICS/S3
    formulas of `calculate_measures`. */
module Evaluate {
  import opened Common
  import opened Organism
  import opened Matching

  // ---------------------------------------------------------------------
  // verify_alignment
  // ---------------------------------------------------------------------

  /** `verify_alignment`: walks the pairs and keeps one exactly when neither
      of its nodes has been kept before, which is the greedy scan over the
      pair list. */
  method VerifyAlignment(pairs: seq<Pair>) returns (vPairs: seq<Pair>)
    ensures vPairs == GreedyOf(pairs)
    ensures OneToOne(vPairs)
    ensures IsSubsequence(vPairs, pairs)
  {
    vPairs := [];
    var aligned1: set<nat> := {};
    var aligned2: set<nat> := {};
    var k := 0;
    while k < |pairs|
      invariant k <= |pairs|
      invariant vPairs == GreedyOf(pairs[..k])
      invariant aligned1 == Firsts(vPairs) && aligned2 == Seconds(vPairs)
    {
      var pair := pairs[k];
      assert pairs[..k + 1][..k] == pairs[..k];
      if pair.n1 !in aligned1 && pair.n2 !in aligned2 {
        FirstsSnoc(vPairs, pair);
        aligned1 := aligned1 + {pair.n1};
        aligned2 := aligned2 + {pair.n2};
        vPairs := vPairs + [pair];
      }
      k := k + 1;
    }
    assert pairs[..k] == pairs;
    GreedyOneToOne(pairs);
    GreedySubsequence(pairs);
  }

  /** A list that is already one-to-one passes the check unchanged. */
  lemma {:induction false} GreedyKeepsOneToOne(ps: seq<Pair>)
    requires OneToOne(ps)
    ensures GreedyOf(ps) == ps
    decreases |ps|
  {
    if ps != [] {
      var m := |ps| - 1;
      var pre := ps[..m];
      assert OneToOne(pre) by {
        forall i, j | 0 <= i < j < |pre| ensures pre[i].n1 != pre[j].n1 && pre[i].n2 != pre[j].n2 {
          assert pre[i] == ps[i] && pre[j] == ps[j];
        }
      }
      GreedyKeepsOneToOne(pre);
      LastIsNew(ps);
      assert ps == pre + [ps[m]];
    }
  }

  /** Running the check on its own output changes nothing. */
  lemma VerifyIdempotent(pairs: seq<Pair>)
    ensures GreedyOf(GreedyOf(pairs)) == GreedyOf(pairs)
  {
    GreedyOneToOne(pairs);
    GreedyKeepsOneToOne(GreedyOf(pairs));
  }

  // ---------------------------------------------------------------------
  // find_paired_edges
  // ---------------------------------------------------------------------

  /** `to_sec`: the first-network node of each pair mapped to its partner;
      a node listed twice keeps the partner of its last pair. */
  function ToSec(pairs: seq<Pair>): map<nat, nat>
    decreases |pairs|
  {
    if pairs == [] then map[]
    else
      var last := pairs[|pairs| - 1];
      ToSec(pairs[..|pairs| - 1])[last.n1 := last.n2]
  }

  /** No later pair has the first-network node of pair `k`. */
  predicate LastFor(pairs: seq<Pair>, k: nat)
    requires k < |pairs|
  {
    forall l :: k < l < |pairs| ==> pairs[l].n1 != pairs[k].n1
  }

  /** `to_sec` knows exactly the first-network nodes of the pairs, and sends
      each to the partner in its last pair. */
  lemma {:induction false} ToSecLastWins(pairs: seq<Pair>)
    ensures forall n :: n in ToSec(pairs) <==> n in Firsts(pairs)
    ensures forall k :: 0 <= k < |pairs| && LastFor(pairs, k) ==> ToSec(pairs)[pairs[k].n1] == pairs[k].n2
    decreases |pairs|
  {
    if pairs != [] {
      var m := |pairs| - 1;
      var pre := pairs[..m];
      assert pairs == pre + [pairs[m]];
      ToSecLastWins(pre);
      FirstsSnoc(pre, pairs[m]);
      forall k | 0 <= k < |pairs| && LastFor(pairs, k)
        ensures ToSec(pairs)[pairs[k].n1] == pairs[k].n2
      {
        if k < m {
          LastForPrefix(pairs, k);
        }
      }
    }
  }

  lemma LastForPrefix(pairs: seq<Pair>, k: nat)
    requires k < |pairs| - 1 && LastFor(pairs, k)
    ensures LastFor(pairs[..|pairs| - 1], k)
    ensures pairs[k].n1 != pairs[|pairs| - 1].n1
  {
  }

  /** For a one-to-one alignment `to_sec` is the pairing itself. */
  lemma ToSecOneToOne(pairs: seq<Pair>)
    requires OneToOne(pairs)
    ensures forall n :: n in ToSec(pairs) <==> n in Firsts(pairs)
    ensures forall p :: p in pairs ==> ToSec(pairs)[p.n1] == p.n2
  {
    ToSecLastWins(pairs);
    forall p | p in pairs ensures ToSec(pairs)[p.n1] == p.n2 {
      var k :| 0 <= k < |pairs| && pairs[k] == p;
    }
  }

  /** An edge of the first network is conserved when both of its ends are
      aligned and their partners are joined in the second network. */
  predicate Conserved(toSec: map<nat, nat>, e: (nat, nat), edges2: set<(nat, nat)>) {
    e.0 in toSec && e.1 in toSec && Canon(toSec[e.0], toSec[e.1]) in edges2
  }

  /** The entry `((x1, x2), (y1, y2))` reported for a conserved edge. */
  function Image(toSec: map<nat, nat>, e: (nat, nat)): ((nat, nat), (nat, nat))
    requires e.0 in toSec && e.1 in toSec
  {
    ((e.0, toSec[e.0]), (e.1, toSec[e.1]))
  }

  /** The conserved edges of `es`, in order. */
  function PairedEdges(toSec: map<nat, nat>, es: seq<(nat, nat)>, edges2: set<(nat, nat)>)
    : seq<((nat, nat), (nat, nat))>
    decreases |es|
  {
    if es == [] then []
    else
      var e := es[|es| - 1];
      PairedEdges(toSec, es[..|es| - 1], edges2)
        + (if Conserved(toSec, e, edges2) then [Image(toSec, e)] else [])
  }

  /** Each reported entry comes from a conserved edge of the list, every
      conserved edge is reported, and there are no more entries than edges. */
  lemma {:induction false} PairedEdgesMeaning(toSec: map<nat, nat>, es: seq<(nat, nat)>, edges2: set<(nat, nat)>)
    ensures |PairedEdges(toSec, es, edges2)| <= |es|
    ensures forall r :: r in PairedEdges(toSec, es, edges2) <==>
      exists e :: e in es && Conserved(toSec, e, edges2) && r == Image(toSec, e)
    decreases |es|
  {
    if es != [] {
      var m := |es| - 1;
      PairedEdgesMeaning(toSec, es[..m], edges2);
      assert es == es[..m] + [es[m]];
      var pe := PairedEdges(toSec, es, edges2);
      forall r ensures r in pe <==> exists e :: e in es && Conserved(toSec, e, edges2) && r == Image(toSec, e) {
        if exists e :: e in es && Conserved(toSec, e, edges2) && r == Image(toSec, e) {
          var e :| e in es && Conserved(toSec, e, edges2) && r == Image(toSec, e);
          if e != es[m] {
            assert e in es[..m];
          }
        }
      }
    }
  }

  /** `find_paired_edges`: builds `to_sec`, then walks the first network's
      edges in the order `order` lists them and reports those whose ends are
      both aligned to nodes joined in the second network. An edge with an
      unaligned end is skipped (the `KeyError` branch). */
  method FindPairedEdges(pairs: seq<Pair>, edges1: set<(nat, nat)>, order: seq<(nat, nat)>,
                         edges2: set<(nat, nat)>)
    returns (pairEdges: seq<((nat, nat), (nat, nat))>)
    requires forall e :: e in order <==> e in edges1
    requires forall i, j :: 0 <= i < j < |order| ==> order[i] != order[j]
    ensures pairEdges == PairedEdges(ToSec(pairs), order, edges2)
    ensures |pairEdges| <= |edges1|
    ensures forall r :: r in pairEdges ==>
      && (r.0.0, r.1.0) in edges1
      && r.0.0 in ToSec(pairs) && ToSec(pairs)[r.0.0] == r.0.1
      && r.1.0 in ToSec(pairs) && ToSec(pairs)[r.1.0] == r.1.1
      && Canon(r.0.1, r.1.1) in edges2
    ensures forall e :: e in edges1 && Conserved(ToSec(pairs), e, edges2) ==>
      Image(ToSec(pairs), e) in pairEdges
  {
    var toSec: map<nat, nat> := map[];
    var k := 0;
    while k < |pairs|
      invariant k <= |pairs|
      invariant toSec == ToSec(pairs[..k])
    {
      assert pairs[..k + 1][..k] == pairs[..k];
      toSec := toSec[pairs[k].n1 := pairs[k].n2];
      k := k + 1;
    }
    assert pairs[..k] == pairs;
    pairEdges := [];
    k := 0;
    while k < |order|
      invariant k <= |order|
      invariant pairEdges == PairedEdges(toSec, order[..k], edges2)
    {
      var e1 := order[k];
      assert order[..k + 1][..k] == order[..k];
      if e1.0 in toSec && e1.1 in toSec {
        var x2 := toSec[e1.0];
        var y2 := toSec[e1.1];
        var e2 := if x2 <= y2 then (x2, y2) else (y2, x2);
        if e2 in edges2 {
          pairEdges := pairEdges + [((e1.0, x2), (e1.1, y2))];
        }
      }
      k := k + 1;
    }
    assert order[..k] == order;
    PairedEdgesMeaning(toSec, order, edges2);
    DistinctElements(order);
    assert Elements(order) == edges1;
  }

  // ---------------------------------------------------------------------
  // select_pairs
  // ---------------------------------------------------------------------

  /** The extension methods that drop non-positive pairs. */
  const SelectiveMethods: set<string> :=
    {"l2selextend", "l2mincplselextend", "l2maxcutselextend", "l2brutecutselextend"}

  /** `[x for x in pairs if x[2] > 0]`. */
  function Positive(pairs: seq<Pair>): seq<Pair>
    decreases |pairs|
  {
    if pairs == [] then []
    else (if pairs[0].score > 0.0 then [pairs[0]] else []) + Positive(pairs[1..])
  }

  /** The kept pairs are the positively scored ones, in their order. */
  lemma {:induction false} PositiveMeaning(pairs: seq<Pair>)
    ensures IsSubsequence(Positive(pairs), pairs)
    ensures forall p :: p in Positive(pairs) <==> p in pairs && p.score > 0.0
    decreases |pairs|
  {
    if pairs != [] {
      PositiveMeaning(pairs[1..]);
      assert pairs == [pairs[0]] + pairs[1..];
      var r := Positive(pairs);
      if pairs[0].score > 0.0 {
        assert r[0] == pairs[0] && r[1..] == Positive(pairs[1..]);
      } else {
        assert r == Positive(pairs[1..]);
        SubsequenceSkip(r, pairs);
      }
    }
  }

  /** `select_pairs`: the pairs unchanged unless the method is one of the
      selective extensions, in which case only positively scored pairs stay. */
  function SelectPairs(method_: string, pairs: seq<Pair>): (r: seq<Pair>)
    ensures method_ !in SelectiveMethods ==> r == pairs
    ensures IsSubsequence(r, pairs)
    ensures method_ in SelectiveMethods ==>
      forall p :: p in r <==> p in pairs && p.score > 0.0
  {
    PositiveMeaning(pairs);
    SubsequenceRefl(pairs);
    if method_ !in SelectiveMethods then pairs else Positive(pairs)
  }

  /** Selecting twice selects nothing more, and a one-to-one alignment stays
      one-to-one. */
  lemma SelectPairsStable(method_: string, pairs: seq<Pair>)
    ensures SelectPairs(method_, SelectPairs(method_, pairs)) == SelectPairs(method_, pairs)
    ensures OneToOne(pairs) ==> OneToOne(SelectPairs(method_, pairs))
  {
    PositiveTwice(pairs);
    SubsequenceOneToOne(SelectPairs(method_, pairs), pairs);
  }

  lemma {:induction false} PositiveTwice(pairs: seq<Pair>)
    ensures Positive(Positive(pairs)) == Positive(pairs)
    decreases |pairs|
  {
    if pairs != [] {
      PositiveTwice(pairs[1..]);
      var r := Positive(pairs);
      if pairs[0].score > 0.0 {
        assert r[0] == pairs[0] && r[1..] == Positive(pairs[1..]);
        assert Positive(r) == [r[0]] + Positive(r[1..]);
      } else {
        assert r == Positive(pairs[1..]);
      }
    }
  }

  // ---------------------------------------------------------------------
  // calculate_measures
  // ---------------------------------------------------------------------

  /** A Python division whose denominator may be zero: None stands for the
      infinity or NaN that numpy produces there. */
  function Ratio(x: real, d: real): Option<real> {
    if d == 0.0 then None else Some(x / d)
  }

  /** Sum of `adj[sel[a]][sel[b]]` over b < m: one row of the induced
      adjacency `adjacency[selection[:, None], selection]`. */
  function InducedRow(adj: seq<seq<int>>, sel: seq<nat>, a: nat, m: nat): int
    requires a < |sel| && m <= |sel|
    requires forall k :: 0 <= k < |sel| ==> sel[k] < |adj|
    requires forall i :: 0 <= i < |adj| ==> |adj[i]| == |adj|
  {
    if m == 0 then 0 else InducedRow(adj, sel, a, m - 1) + adj[sel[a]][sel[m - 1]]
  }

  /** `sum(sum(indAdj))`: the sum of the first `m` rows of the induced
      adjacency. */
  function InducedSum(adj: seq<seq<int>>, sel: seq<nat>, m: nat): int
    requires m <= |sel|
    requires forall k :: 0 <= k < |sel| ==> sel[k] < |adj|
    requires forall i :: 0 <= i < |adj| ==> |adj[i]| == |adj|
  {
    if m == 0 then 0 else InducedSum(adj, sel, m - 1) + InducedRow(adj, sel, m - 1, |sel|)
  }

  /** NBS: the sum of the normalised similarity of the aligned cells. */
  function Nbs(sim: seq<real>, n2: nat, pairs: seq<Pair>): real
    requires forall p :: p in pairs ==> p.n2 < n2 && VInd(n2, p.n1, p.n2) < |sim|
    decreases |pairs|
  {
    if pairs == [] then 0.0 else sim[VInd(n2, pairs[0].n1, pairs[0].n2)] + Nbs(sim, n2, pairs[1..])
  }

  datatype Measures = Measures(ce: nat, nbs: real, ec: Option<real>, ics: Option<real>, s3: Option<real>)

  /** The quantities the formulas are built from. */
  datatype Counts = Counts(medg: int, mec: int, mind: int)

  /** `medg = 2 * CE`, `mec = min(sum(deg1), sum(deg2))`, and `mind` the edge
      total induced on the second network's aligned nodes when the first
      network has the smaller degree total, on the first network's otherwise. */
  function MeasureCounts(g1: Network, g2: Network, pairs: seq<Pair>, ce: nat): Counts
    requires Valid(g1) && Valid(g2)
    requires forall p :: p in pairs ==> p.n1 < g1.n && p.n2 < g2.n
  {
    var ec1 := DegreeSum(g1, g1.n);
    var ec2 := DegreeSum(g2, g2.n);
    var mec := if ec1 <= ec2 then ec1 else ec2;
    var mind :=
      if ec1 < ec2 then
        assert forall k :: 0 <= k < |pairs| ==> Rights(pairs)[k] < |g2.adj| by {
          forall k | 0 <= k < |pairs| ensures Rights(pairs)[k] < |g2.adj| { assert pairs[k] in pairs; }
        }
        InducedSum(g2.adj, Rights(pairs), |pairs|)
      else
        assert forall k :: 0 <= k < |pairs| ==> Lefts(pairs)[k] < |g1.adj| by {
          forall k | 0 <= k < |pairs| ensures Lefts(pairs)[k] < |g1.adj| { assert pairs[k] in pairs; }
        }
        InducedSum(g1.adj, Lefts(pairs), |pairs|);
    Counts(2 * ce, mec, mind)
  }

  /** CE, NBS, EC, ICS and S3 of an alignment with `ce` conserved edges.
      The three scores share the numerator 2·CE, and S3's denominator is the
      union of EC's and ICS's, so whenever all three are defined and nonzero
      1/S3 = 1/EC + 1/ICS - 1. */
  function CalculateMeasures(g1: Network, g2: Network, sim: seq<real>, pairs: seq<Pair>, ce: nat): (r: Measures)
    requires Valid(g1) && Valid(g2)
    requires forall p :: p in pairs ==> p.n1 < g1.n && p.n2 < g2.n
    requires |sim| == g1.n * g2.n
    ensures r.ce == ce
    ensures r.ec.Some? && r.ics.Some? && r.s3.Some? && r.ec.value != 0.0 && r.ics.value != 0.0 && r.s3.value != 0.0 ==>
      1.0 / r.s3.value == 1.0 / r.ec.value + 1.0 / r.ics.value - 1.0
  {
    VIndBijection(g1.n, g2.n);
    var c := MeasureCounts(g1, g2, pairs, ce);
    var x, d, e := c.medg as real, c.mec as real, c.mind as real;
    S3Reciprocal(x, d, e);
    Measures(ce, Nbs(sim, g2.n, pairs), Ratio(x, d), Ratio(x, e), Ratio(x, (c.mec + c.mind - c.medg) as real))
  }

  /** x/(d + e - x) inverts to d/x + e/x - 1. */
  lemma S3Reciprocal(x: real, d: real, e: real)
    ensures (Ratio(x, d).Some? && Ratio(x, e).Some? && Ratio(x, d + e - x).Some? && x != 0.0) ==>
      1.0 / Ratio(x, d + e - x).value == 1.0 / Ratio(x, d).value + 1.0 / Ratio(x, e).value - 1.0
  {
    if d != 0.0 && e != 0.0 && d + e - x != 0.0 && x != 0.0 {
      Invert(x, d);
      Invert(x, e);
      Invert(x, d + e - x);
      var a, b := d / x, e / x;
      assert a * x == d && b * x == e;
      assert (a + b - 1.0) * x == d + e - x;
      Quotient(d + e - x, x, a + b - 1.0);
    }
  }

  lemma Quotient(y: real, x: real, c: real)
    requires x != 0.0 && c * x == y
    ensures y / x == c
  {
  }

  lemma Invert(x: real, d: real)
    requires x != 0.0 && d != 0.0
    ensures x / d != 0.0 && 1.0 / (x / d) == d / x
  {
  }

  // ---------------------------------------------------------------------
  // Why 2·CE fits in the denominators
  // ---------------------------------------------------------------------

  /** No protein interacts with itself: every stored edge joins two
      different nodes. */
  ghost predicate Loopless(g: Network) {
    forall e :: e in g.edges ==> e.0 != e.1
  }

  /** A square matrix with non-negative entries and a selection of its
      rows and columns. */
  ghost predicate Selection(adj: seq<seq<int>>, sel: seq<nat>) {
    && (forall i :: 0 <= i < |adj| ==> |adj[i]| == |adj|)
    && (forall k :: 0 <= k < |sel| ==> sel[k] < |adj|)
    && (forall i, j :: 0 <= i < |adj| && 0 <= j < |adj| ==> adj[i][j] >= 0)
  }

  /** The matrix holds a 1 at the node pair `x`. */
  ghost predicate Marked(adj: seq<seq<int>>, x: (nat, nat)) {
    x.0 < |adj| && x.1 < |adj[x.0]| && adj[x.0][x.1] == 1
  }

  /** Row `a` of the induced adjacency, over its first `m` columns, is at
      least the number of node pairs `(sel[a], v)` in `w`, when each of them
      is marked with `v` among `sel[..m]`. */
  lemma {:induction false} InducedRowAtLeast(adj: seq<seq<int>>, sel: seq<nat>, a: nat, m: nat, w: set<(nat, nat)>)
    requires Selection(adj, sel) && a < |sel| && m <= |sel|
    requires forall x :: x in w ==> x.0 == sel[a] && x.1 in sel[..m] && Marked(adj, x)
    ensures InducedRow(adj, sel, a, m) >= |w|
    decreases m
  {
    if m > 0 {
      var w' := w - {(sel[a], sel[m - 1])};
      forall x | x in w' ensures x.1 in sel[..m - 1] {
        InPrefixBefore(sel, m, x.1);
      }
      InducedRowAtLeast(adj, sel, a, m - 1, w');
    } else {
      assert forall x :: x in w ==> x.1 in sel[..0];
      assert w == {};
    }
  }

  lemma InPrefixBefore(sel: seq<nat>, m: nat, v: nat)
    requires 0 < m <= |sel| && v in sel[..m] && v != sel[m - 1]
    ensures v in sel[..m - 1]
  {
    var k :| 0 <= k < m && sel[..m][k] == v;
    assert sel[..m - 1][k] == v;
  }

  lemma SplitSize<T>(w: set<T>, part: set<T>)
    requires part <= w
    ensures |w| == |w - part| + |part|
  {
    assert w == (w - part) + part;
  }

  /** The first `m` rows of the induced adjacency sum to at least the number
      of node pairs in `w`, when each of them is marked and goes from a node
      of `sel[..m]` to a node of `sel`. */
  lemma {:induction false} InducedSumAtLeast(adj: seq<seq<int>>, sel: seq<nat>, m: nat, w: set<(nat, nat)>)
    requires Selection(adj, sel) && m <= |sel|
    requires forall x :: x in w ==> x.0 in sel[..m] && x.1 in sel && Marked(adj, x)
    ensures InducedSum(adj, sel, m) >= |w|
    decreases m
  {
    if m > 0 {
      var row := set x | x in w && x.0 == sel[m - 1];
      var rest := w - row;
      forall x | x in rest ensures x.0 in sel[..m - 1] {
        InPrefixBefore(sel, m, x.0);
      }
      InducedSumAtLeast(adj, sel, m - 1, rest);
      assert sel[..|sel|] == sel;
      InducedRowAtLeast(adj, sel, m - 1, |sel|, row);
      SplitSize(w, row);
    } else {
      assert forall x :: x in w ==> x.0 in sel[..0];
      assert w == {};
    }
  }

  /** Each edge read in both directions. */
  function Flip(f: set<(nat, nat)>): set<(nat, nat)> {
    set e | e in f :: (e.1, e.0)
  }

  lemma {:induction false} FlipSize(f: set<(nat, nat)>)
    ensures |Flip(f)| == |f|
    decreases |f|
  {
    if f != {} {
      var x :| x in f;
      FlipSize(f - {x});
      assert Flip(f) == Flip(f - {x}) + {(x.1, x.0)};
    }
  }

  /** The induced adjacency on `sel` sums to at least twice the number of
      edges of `f` between nodes of `sel`: each is counted once per
      direction. */
  lemma InducedAtLeastTwice(g: Network, sel: seq<nat>, f: set<(nat, nat)>)
    requires Valid(g) && Loopless(g)
    requires forall k :: 0 <= k < |sel| ==> sel[k] < g.n
    requires forall e :: e in f ==> e in g.edges && e.0 in sel && e.1 in sel
    ensures InducedSum(g.adj, sel, |sel|) >= 2 * |f|
  {
    FlipSize(f);
    FlipDisjoint(g, f);
    var w := f + Flip(f);
    assert sel[..|sel|] == sel;
    forall x | x in w ensures x.0 in sel[..|sel|] && x.1 in sel && Marked(g.adj, x) {
      EdgeMarked(g, x);
    }
    ValidSelection(g, sel);
    InducedSumAtLeast(g.adj, sel, |sel|, w);
  }

  /** A stored edge, in either direction, is a 1 of the adjacency. */
  lemma EdgeMarked(g: Network, x: (nat, nat))
    requires Valid(g) && Canon(x.0, x.1) in g.edges
    ensures Marked(g.adj, x)
  {
  }

  lemma ValidSelection(g: Network, sel: seq<nat>)
    requires Valid(g) && forall k :: 0 <= k < |sel| ==> sel[k] < g.n
    ensures Selection(g.adj, sel)
  {
  }

  /** Without self-interactions an edge and a reversed edge never coincide. */
  lemma FlipDisjoint(g: Network, f: set<(nat, nat)>)
    requires Valid(g) && Loopless(g) && forall e :: e in f ==> e in g.edges
    ensures f * Flip(f) == {}
  {
    forall x | x in Flip(f) ensures x !in f {
      var e :| e in f && x == (e.1, e.0);
    }
  }

  /** `0, 1, ..., n - 1`. */
  function Iota(n: nat): (r: seq<nat>)
    ensures |r| == n && forall k :: 0 <= k < n ==> r[k] == k
  {
    seq(n, k requires 0 <= k < n => k)
  }

  /** By symmetry, a row of the full adjacency sums like the column. */
  lemma {:induction false} RowIsColumn(g: Network, a: nat, m: nat)
    requires Valid(g) && a < g.n && m <= g.n
    ensures InducedRow(g.adj, Iota(g.n), a, m) == ColumnSum(g.adj, a, m)
    decreases m
  {
    if m > 0 {
      RowIsColumn(g, a, m - 1);
      AdjacencySymmetric(g, a, m - 1);
    }
  }

  /** `sum(degree)` is the adjacency summed over all of its rows. */
  lemma {:induction false} DegreeSumIsInduced(g: Network, m: nat)
    requires Valid(g) && m <= g.n
    ensures DegreeSum(g, m) == InducedSum(g.adj, Iota(g.n), m)
    decreases m
  {
    if m > 0 {
      DegreeSumIsInduced(g, m - 1);
      RowIsColumn(g, m - 1, g.n);
    }
  }

  /** The conserved edges of `es`, as a set. */
  function ConservedOf(toSec: map<nat, nat>, es: seq<(nat, nat)>, edges2: set<(nat, nat)>): set<(nat, nat)>
    decreases |es|
  {
    if es == [] then {}
    else
      var e := es[|es| - 1];
      ConservedOf(toSec, es[..|es| - 1], edges2) + (if Conserved(toSec, e, edges2) then {e} else {})
  }

  /** The second-network edges the conserved edges of `es` are sent to. */
  function ImagesOf(toSec: map<nat, nat>, es: seq<(nat, nat)>, edges2: set<(nat, nat)>): set<(nat, nat)>
    decreases |es|
  {
    if es == [] then {}
    else
      var e := es[|es| - 1];
      ImagesOf(toSec, es[..|es| - 1], edges2)
        + (if Conserved(toSec, e, edges2) then {Canon(toSec[e.0], toSec[e.1])} else {})
  }

  /** Distinct nodes have distinct partners. */
  ghost predicate Injective(toSec: map<nat, nat>) {
    forall x, y :: x in toSec && y in toSec && toSec[x] == toSec[y] ==> x == y
  }

  /** Under an injective `to_sec`, two stored edges with the same image are
      the same edge. */
  lemma SameImage(toSec: map<nat, nat>, e: (nat, nat), e': (nat, nat))
    requires Injective(toSec) && e.0 <= e.1 && e'.0 <= e'.1
    requires e.0 in toSec && e.1 in toSec && e'.0 in toSec && e'.1 in toSec
    ensures Canon(toSec[e.0], toSec[e.1]) == Canon(toSec[e'.0], toSec[e'.1]) ==> e == e'
  {
  }

  /** The set holds exactly the conserved edges of the list. */
  lemma {:induction false} ConservedOfMembers(toSec: map<nat, nat>, es: seq<(nat, nat)>, edges2: set<(nat, nat)>)
    ensures forall e :: e in ConservedOf(toSec, es, edges2) <==> e in es && Conserved(toSec, e, edges2)
    decreases |es|
  {
    if es != [] {
      var m := |es| - 1;
      ConservedOfMembers(toSec, es[..m], edges2);
      assert es == es[..m] + [es[m]];
    }
  }

  /** Every image is the image of a conserved edge of the list. */
  lemma {:induction false} ImagesOfMembers(toSec: map<nat, nat>, es: seq<(nat, nat)>, edges2: set<(nat, nat)>)
    ensures forall i :: i in ImagesOf(toSec, es, edges2) ==>
      exists e :: e in es && Conserved(toSec, e, edges2) && i == Canon(toSec[e.0], toSec[e.1])
    decreases |es|
  {
    if es != [] {
      var m := |es| - 1;
      ImagesOfMembers(toSec, es[..m], edges2);
      assert forall x :: x in es[..m] ==> x in es;
    }
  }

  /** Over a list of distinct stored edges and an injective `to_sec`, the
      conserved edges, their images and the reported entries are equally
      many: each entry has its own first-network edge and its own
      second-network edge. */
  lemma {:induction false} ConservedCount(toSec: map<nat, nat>, es: seq<(nat, nat)>, edges2: set<(nat, nat)>)
    requires Injective(toSec)
    requires forall e :: e in es ==> e.0 <= e.1
    requires forall i, j :: 0 <= i < j < |es| ==> es[i] != es[j]
    ensures |PairedEdges(toSec, es, edges2)| == |ConservedOf(toSec, es, edges2)| == |ImagesOf(toSec, es, edges2)|
    decreases |es|
  {
    if es != [] {
      var m := |es| - 1;
      var e := es[m];
      var pre := es[..m];
      assert forall x :: x in pre ==> x in es;
      assert forall i, j :: 0 <= i < j < |pre| ==> pre[i] != pre[j];
      ConservedCount(toSec, pre, edges2);
      if Conserved(toSec, e, edges2) {
        LastConservedIsNew(toSec, es, edges2);
      }
      CountStep(toSec, es, edges2);
    }
  }

  /** Adding one edge adds one entry, one conserved edge and one image, or
      none of the three. */
  lemma CountStep(toSec: map<nat, nat>, es: seq<(nat, nat)>, edges2: set<(nat, nat)>)
    requires es != []
    requires var pre := es[..|es| - 1];
      |PairedEdges(toSec, pre, edges2)| == |ConservedOf(toSec, pre, edges2)| == |ImagesOf(toSec, pre, edges2)|
    requires var e, pre := es[|es| - 1], es[..|es| - 1];
      Conserved(toSec, e, edges2) ==>
        e !in ConservedOf(toSec, pre, edges2) && Canon(toSec[e.0], toSec[e.1]) !in ImagesOf(toSec, pre, edges2)
    ensures |PairedEdges(toSec, es, edges2)| == |ConservedOf(toSec, es, edges2)| == |ImagesOf(toSec, es, edges2)|
  {
  }

  /** The last conserved edge of a list of distinct stored edges, and its
      image, are not already among those of the edges before it. */
  lemma LastConservedIsNew(toSec: map<nat, nat>, es: seq<(nat, nat)>, edges2: set<(nat, nat)>)
    requires Injective(toSec)
    requires forall e :: e in es ==> e.0 <= e.1
    requires forall i, j :: 0 <= i < j < |es| ==> es[i] != es[j]
    requires es != [] && Conserved(toSec, es[|es| - 1], edges2)
    ensures var e, pre := es[|es| - 1], es[..|es| - 1];
      && e !in ConservedOf(toSec, pre, edges2)
      && Canon(toSec[e.0], toSec[e.1]) !in ImagesOf(toSec, pre, edges2)
  {
    var m := |es| - 1;
    var e, pre := es[m], es[..m];
    ConservedOfMembers(toSec, pre, edges2);
    ImagesOfMembers(toSec, pre, edges2);
    assert e !in pre;
    var img := Canon(toSec[e.0], toSec[e.1]);
    forall e' | e' in pre && Conserved(toSec, e', edges2) ensures img != Canon(toSec[e'.0], toSec[e'.1]) {
      assert e' in es;
      SameImage(toSec, e, e');
    }
  }

  /** A one-to-one alignment gives an injective `to_sec` whose keys are the
      first nodes and whose values are the second nodes. */
  lemma ToSecInjective(pairs: seq<Pair>)
    requires OneToOne(pairs)
    ensures Injective(ToSec(pairs))
    ensures forall x :: x in ToSec(pairs) ==> x in Lefts(pairs) && ToSec(pairs)[x] in Rights(pairs)
  {
    ToSecOneToOne(pairs);
    var toSec := ToSec(pairs);
    forall x | x in toSec ensures x in Lefts(pairs) && toSec[x] in Rights(pairs) {
      var k :| 0 <= k < |pairs| && pairs[k].n1 == x;
      assert pairs[k] in pairs;
      assert Lefts(pairs)[k] == x && Rights(pairs)[k] == toSec[x];
    }
    forall x, y | x in toSec && y in toSec && toSec[x] == toSec[y] ensures x == y {
      var i :| 0 <= i < |pairs| && pairs[i].n1 == x;
      var j :| 0 <= j < |pairs| && pairs[j].n1 == y;
      assert pairs[i] in pairs && pairs[j] in pairs;
    }
  }

  /** For networks without self-interactions and a one-to-one alignment,
      2·CE is at most each network's degree total and at most the induced
      total: every conserved edge is its own first-network edge between
      aligned nodes and is sent to its own second-network edge between
      aligned nodes, and each edge adds 2 to a degree total or an induced
      total. */
  lemma ConservedFits(g1: Network, g2: Network, pairs: seq<Pair>, order: seq<(nat, nat)>)
    requires Valid(g1) && Valid(g2) && Loopless(g1) && Loopless(g2)
    requires forall p :: p in pairs ==> p.n1 < g1.n && p.n2 < g2.n
    requires OneToOne(pairs)
    requires forall e :: e in order <==> e in g1.edges
    requires forall i, j :: 0 <= i < j < |order| ==> order[i] != order[j]
    ensures var c := MeasureCounts(g1, g2, pairs, |PairedEdges(ToSec(pairs), order, g2.edges)|);
      c.medg <= c.mec && c.medg <= c.mind
  {
    var toSec := ToSec(pairs);
    var ce := |PairedEdges(toSec, order, g2.edges)|;
    ToSecInjective(pairs);
    ConservedCount(toSec, order, g2.edges);
    var cs := ConservedOf(toSec, order, g2.edges);
    var im := ImagesOf(toSec, order, g2.edges);
    ConservedEnds(g1, pairs, order, g2.edges);
    ImageEnds(g2, pairs, order);
    var ec1, ec2 := DegreeSum(g1, g1.n), DegreeSum(g2, g2.n);
    DegreeAtLeastTwice(g1, cs);
    DegreeAtLeastTwice(g2, im);
    if ec1 < ec2 {
      InducedAtLeastTwice(g2, Rights(pairs), im);
    } else {
      InducedAtLeastTwice(g1, Lefts(pairs), cs);
    }
  }

  /** The conserved edges are first-network edges between aligned nodes. */
  lemma ConservedEnds(g1: Network, pairs: seq<Pair>, order: seq<(nat, nat)>, edges2: set<(nat, nat)>)
    requires Valid(g1) && OneToOne(pairs)
    requires forall p :: p in pairs ==> p.n1 < g1.n
    requires forall e :: e in order <==> e in g1.edges
    ensures forall k :: 0 <= k < |pairs| ==> Lefts(pairs)[k] < g1.n
    ensures forall e :: e in ConservedOf(ToSec(pairs), order, edges2) ==>
      e in g1.edges && e.0 in Lefts(pairs) && e.1 in Lefts(pairs)
  {
    ToSecInjective(pairs);
    ConservedOfMembers(ToSec(pairs), order, edges2);
    forall k | 0 <= k < |pairs| ensures Lefts(pairs)[k] < g1.n {
      assert pairs[k] in pairs;
    }
  }

  /** The images of the conserved edges are second-network edges between
      aligned nodes. */
  lemma ImageEnds(g2: Network, pairs: seq<Pair>, order: seq<(nat, nat)>)
    requires Valid(g2) && OneToOne(pairs)
    requires forall p :: p in pairs ==> p.n2 < g2.n
    ensures forall k :: 0 <= k < |pairs| ==> Rights(pairs)[k] < g2.n
    ensures forall e :: e in ImagesOf(ToSec(pairs), order, g2.edges) ==>
      e in g2.edges && e.0 in Rights(pairs) && e.1 in Rights(pairs)
  {
    ToSecInjective(pairs);
    ImagesOfMembers(ToSec(pairs), order, g2.edges);
    forall k | 0 <= k < |pairs| ensures Rights(pairs)[k] < g2.n {
      assert pairs[k] in pairs;
    }
  }

  /** The degree total is at least twice the number of edges in any set of
      stored edges. */
  lemma DegreeAtLeastTwice(g: Network, f: set<(nat, nat)>)
    requires Valid(g) && Loopless(g)
    requires forall e :: e in f ==> e in g.edges
    ensures DegreeSum(g, g.n) >= 2 * |f|
  {
    DegreeSumIsInduced(g, g.n);
    forall e | e in f ensures e.0 in Iota(g.n) && e.1 in Iota(g.n) {
      assert Iota(g.n)[e.0] == e.0 && Iota(g.n)[e.1] == e.1;
    }
    InducedAtLeastTwice(g, Iota(g.n), f);
  }

  /** S3 divides the conserved edges by the union of the two edge totals, so
      for networks without self-interactions, a one-to-one alignment and at
      least one conserved edge, EC, ICS and S3 are all defined, S3 is at
      most EC and at most ICS, and all three lie in (0, 1]. */
  lemma S3Bounded(g1: Network, g2: Network, sim: seq<real>, pairs: seq<Pair>, order: seq<(nat, nat)>)
    requires Valid(g1) && Valid(g2) && Loopless(g1) && Loopless(g2)
    requires forall p :: p in pairs ==> p.n1 < g1.n && p.n2 < g2.n
    requires OneToOne(pairs)
    requires forall e :: e in order <==> e in g1.edges
    requires forall i, j :: 0 <= i < j < |order| ==> order[i] != order[j]
    requires |sim| == g1.n * g2.n
    requires |PairedEdges(ToSec(pairs), order, g2.edges)| > 0
    ensures var m := CalculateMeasures(g1, g2, sim, pairs, |PairedEdges(ToSec(pairs), order, g2.edges)|);
      && m.ec.Some? && m.ics.Some? && m.s3.Some?
      && 0.0 < m.s3.value <= m.ec.value <= 1.0
      && m.s3.value <= m.ics.value <= 1.0
  {
    ConservedFits(g1, g2, pairs, order);
    MeasuresBounded(g1, g2, sim, pairs, |PairedEdges(ToSec(pairs), order, g2.edges)|);
  }

  lemma MeasuresBounded(g1: Network, g2: Network, sim: seq<real>, pairs: seq<Pair>, ce: nat)
    requires Valid(g1) && Valid(g2)
    requires forall p :: p in pairs ==> p.n1 < g1.n && p.n2 < g2.n
    requires |sim| == g1.n * g2.n
    requires var c := MeasureCounts(g1, g2, pairs, ce); 0 < c.medg <= c.mec && c.medg <= c.mind
    ensures var m := CalculateMeasures(g1, g2, sim, pairs, ce);
      && m.ec.Some? && m.ics.Some? && m.s3.Some?
      && 0.0 < m.s3.value <= m.ec.value <= 1.0
      && m.s3.value <= m.ics.value <= 1.0
  {
    var c := MeasureCounts(g1, g2, pairs, ce);
    RatiosBounded(c.medg as real, c.mec as real, c.mind as real);
  }

  /** With 0 < x <= d and x <= e, the quotients x/d, x/e and x/(d + e - x)
      are defined, the last is the smallest, and all lie in (0, 1]. */
  lemma RatiosBounded(x: real, d: real, e: real)
    requires 0.0 < x <= d && x <= e
    ensures Ratio(x, d).Some? && Ratio(x, e).Some? && Ratio(x, d + e - x).Some?
    ensures 0.0 < Ratio(x, d + e - x).value <= Ratio(x, d).value <= 1.0
    ensures Ratio(x, d + e - x).value <= Ratio(x, e).value <= 1.0
  {
    QuotientOrder(x, d, d + e - x);
    QuotientOrder(x, e, d + e - x);
    FractionBounds(x, d);
    FractionBounds(x, e);
  }

  /** A protein that interacts with itself breaks the bound: one node with a
      self-interaction aligned to another such node gives CE = 1, so
      2·CE = 2, while each degree total and the induced total count the
      self-interaction once. EC is then 2 and S3's denominator is zero. */
  lemma SelfInteractionEc()
    ensures var g := Network(1, {(0, 0)}, AdjOf(1, {(0, 0)}));
      var pairs := [Pair(0, 0, 0.0)];
      var ce := |PairedEdges(ToSec(pairs), [(0, 0)], g.edges)|;
      && Valid(g) && ce == 1
      && CalculateMeasures(g, g, [0.0], pairs, ce).ec == Some(2.0)
      && CalculateMeasures(g, g, [0.0], pairs, ce).s3 == None
  {
    var g := Network(1, {(0, 0)}, AdjOf(1, {(0, 0)}));
    var pairs := [Pair(0, 0, 0.0)];
    assert ToSec(pairs) == map[0 := 0] by {
      assert pairs[..0] == [];
    }
    assert [(0, 0)][..0] == [];
    assert g.adj[0][0] == 1;
    assert Rights(pairs) == [0] && Lefts(pairs) == [0];
    assert InducedSum(g.adj, [0], 1) == 1;
    assert DegreeSum(g, 1) == 1 by {
      assert Degree(g, 0) == ColumnSum(g.adj, 0, 1) == 1;
    }
  }

  lemma QuotientOrder(x: real, d: real, e: real)
    requires 0.0 < x && 0.0 < d <= e
    ensures 0.0 < x / e <= x / d
  {
  }

  /** EC is undefined exactly when one of the networks has no edge ends
      (its degree total is zero); CE never exceeds the first network's edge
      count when it comes from `find_paired_edges`. */
  lemma EcDefined(g1: Network, g2: Network, sim: seq<real>, pairs: seq<Pair>, ce: nat)
    requires Valid(g1) && Valid(g2)
    requires forall p :: p in pairs ==> p.n1 < g1.n && p.n2 < g2.n
    requires |sim| == g1.n * g2.n
    ensures CalculateMeasures(g1, g2, sim, pairs, ce).ec.None? <==>
      DegreeSum(g1, g1.n) == 0 || DegreeSum(g2, g2.n) == 0
  {
    DegreeSumNonNegative(g1, g1.n);
    DegreeSumNonNegative(g2, g2.n);
  }

  lemma {:induction false} DegreeSumNonNegative(g: Network, m: nat)
    requires Valid(g) && m <= g.n
    ensures DegreeSum(g, m) >= 0
    decreases m
  {
    if m > 0 {
      DegreeSumNonNegative(g, m - 1);
      DegreeIsNeighborCount(g, m - 1);
    }
  }
}
