/** Reading the alignment an external aligner writes (interface.py:226-248):
    each line lists proteins of both organisms; of every pairing of an org1
    protein with an org2 protein on the line, the most similar one is kept,
    the first met on ties. The same loop reads the output of NETAL
    (346-374), pinalog (452-477), C-GRAAL (582-610), GRAAL (657-682),
    MI-GRAAL (726-751), HubAlign (804-832), MAGNA (927-952), PROPER
    (1007-1035), OptNet (1287-1314) and ModuleAlign (1369-1397). SPINAL's
    copy (1113-1136) also skips the lines that start with `!`. */
module BestPairs {
  import opened Common
  import opened Text
  import opened Organism
  import opened StringDb

  /** `[node_to_id[x] for x in prots if x.startswith(org_id)]`: the ids of
      the tokens carrying the organism id, in order; KeyError when such a
      token is not a node. */
  function PrefixedIds(nodes: seq<string>, orgId: string, prots: seq<string>): (r: Result<seq<nat>, Failure>)
    ensures r.Ok? ==> forall k :: 0 <= k < |r.value| ==> r.value[k] < |nodes|
    ensures r.Err? ==> r.error == KeyError
  {
    if prots == [] then Ok([])
    else
      match PrefixedIds(nodes, orgId, prots[..|prots| - 1])
      case Err(e) => Err(e)
      case Ok(ids) =>
        var x := prots[|prots| - 1];
        if !StartsWith(x, orgId) then Ok(ids)
        else if x in NodeIds(nodes) then
          NodeIdsInRange(nodes);
          Ok(ids + [NodeIds(nodes)[x]])
        else Err(KeyError)
  }

  /** The comprehension fails exactly when a token carrying the organism
      id is not a node; otherwise it holds the id of every such token and
      nothing else. */
  lemma {:induction false} PrefixedIdsMeaning(nodes: seq<string>, orgId: string, prots: seq<string>)
    ensures PrefixedIds(nodes, orgId, prots).Err? <==>
      exists k :: 0 <= k < |prots| && StartsWith(prots[k], orgId) && prots[k] !in nodes
    ensures PrefixedIds(nodes, orgId, prots).Ok? ==>
      forall id :: id in PrefixedIds(nodes, orgId, prots).value <==>
        exists k :: 0 <= k < |prots| && StartsWith(prots[k], orgId) && prots[k] in NodeIds(nodes) && NodeIds(nodes)[prots[k]] == id
    decreases |prots|
  {
    NodeIdsLastIndex(nodes);
    if prots != [] {
      var n := |prots| - 1;
      var init := prots[..n];
      PrefixedIdsMeaning(nodes, orgId, init);
      assert forall k :: 0 <= k < n ==> init[k] == prots[k];
      if PrefixedIds(nodes, orgId, init).Ok? && StartsWith(prots[n], orgId) && prots[n] in nodes {
        var ids := PrefixedIds(nodes, orgId, init).value;
        assert PrefixedIds(nodes, orgId, prots).value == ids + [NodeIds(nodes)[prots[n]]];
      }
    }
  }

  // ---------------------------------------------------------------------
  // The best pair of one line
  // ---------------------------------------------------------------------

  /** The pairings in the order the nested loops visit them: all of the
      first org1 id's, then the next one's, and so on. */
  function Grid(pr1: seq<nat>, pr2: seq<nat>): (r: seq<(nat, nat)>)
    ensures |r| == 0 <==> |pr1| == 0 || |pr2| == 0
  {
    if pr1 == [] then []
    else Grid(pr1[..|pr1| - 1], pr2) + Row(pr1[|pr1| - 1], pr2)
  }

  /** The pairings of one org1 id, in order. */
  function Row(a: nat, pr2: seq<nat>): (r: seq<(nat, nat)>)
    ensures |r| == |pr2|
    ensures forall j :: 0 <= j < |pr2| ==> r[j] == (a, pr2[j])
  {
    seq(|pr2|, j requires 0 <= j < |pr2| => (a, pr2[j]))
  }

  /** The grid holds exactly the pairings of an org1 id with an org2 id. */
  lemma {:induction false} GridMembers(pr1: seq<nat>, pr2: seq<nat>)
    ensures forall a, b :: (a, b) in Grid(pr1, pr2) <==> a in pr1 && b in pr2
    decreases |pr1|
  {
    if pr1 != [] {
      var n := |pr1| - 1;
      GridMembers(pr1[..n], pr2);
      assert pr1 == pr1[..n] + [pr1[n]];
      forall a, b ensures (a, b) in Row(pr1[n], pr2) <==> a == pr1[n] && b in pr2 {
        if a == pr1[n] && b in pr2 {
          var j :| 0 <= j < |pr2| && pr2[j] == b;
          assert Row(pr1[n], pr2)[j] == (a, b);
        }
      }
    }
  }

  /** Every pairing lies inside the similarity matrix. */
  predicate InGrid(cs: seq<(nat, nat)>, n1: nat, n2: nat) {
    forall k :: 0 <= k < |cs| ==> cs[k].0 < n1 && cs[k].1 < n2
  }

  /** One step of the nested loops: the first pairing becomes the pair,
      a later one replaces it only when strictly more similar. */
  function Keep(sim: seq<real>, n1: nat, n2: nat, pair: Option<Pair>, c: (nat, nat)): (r: Option<Pair>)
    requires |sim| == n1 * n2 && c.0 < n1 && c.1 < n2
    ensures r.Some?
  {
    var s := SimAt(sim, n1, n2, c.0, c.1);
    if pair.None? then Some(Pair(c.0, c.1, s))
    else if s > pair.value.score then Some(Pair(c.0, c.1, s))
    else pair
  }

  /** The pair the loops end with after visiting `cs`. */
  function Pick(sim: seq<real>, n1: nat, n2: nat, cs: seq<(nat, nat)>): Option<Pair>
    requires |sim| == n1 * n2 && InGrid(cs, n1, n2)
  {
    if cs == [] then None
    else
      var n := |cs| - 1;
      Keep(sim, n1, n2, Pick(sim, n1, n2, cs[..n]), cs[n])
  }

  /** The pair is the first most similar pairing: none of the pairings is
      more similar, and every one visited before it is strictly less; no
      pair at all exactly when there is no pairing. */
  lemma {:induction false} PickBest(sim: seq<real>, n1: nat, n2: nat, cs: seq<(nat, nat)>)
    requires |sim| == n1 * n2 && InGrid(cs, n1, n2)
    ensures Pick(sim, n1, n2, cs).None? <==> cs == []
    ensures Pick(sim, n1, n2, cs).Some? ==>
      var p := Pick(sim, n1, n2, cs).value;
      (forall k :: 0 <= k < |cs| ==> SimAt(sim, n1, n2, cs[k].0, cs[k].1) <= p.score) &&
      exists t :: 0 <= t < |cs| && cs[t] == (p.n1, p.n2) && p.score == SimAt(sim, n1, n2, p.n1, p.n2) &&
        forall k :: 0 <= k < t ==> SimAt(sim, n1, n2, cs[k].0, cs[k].1) < p.score
    decreases |cs|
  {
    if cs != [] {
      var n := |cs| - 1;
      var init := cs[..n];
      assert forall k :: 0 <= k < n ==> init[k] == cs[k];
      PickBest(sim, n1, n2, init);
      var prev := Pick(sim, n1, n2, init);
      var s := SimAt(sim, n1, n2, cs[n].0, cs[n].1);
      if prev.Some? && !(s > prev.value.score) {
        var p := prev.value;
        var t :| 0 <= t < n && init[t] == (p.n1, p.n2) && p.score == SimAt(sim, n1, n2, p.n1, p.n2) &&
          forall k :: 0 <= k < t ==> SimAt(sim, n1, n2, init[k].0, init[k].1) < p.score;
        assert cs[t] == (p.n1, p.n2);
      } else {
        assert cs[n] == (Pick(sim, n1, n2, cs).value.n1, Pick(sim, n1, n2, cs).value.n2);
      }
    }
  }

  /** The nested loops over `pr1` and `pr2` (interface.py:235-243). */
  method BestPair(sim: seq<real>, n1: nat, n2: nat, pr1: seq<nat>, pr2: seq<nat>) returns (pair: Option<Pair>)
    requires |sim| == n1 * n2
    requires forall k :: 0 <= k < |pr1| ==> pr1[k] < n1
    requires forall k :: 0 <= k < |pr2| ==> pr2[k] < n2
    ensures InGrid(Grid(pr1, pr2), n1, n2)
    ensures pair == Pick(sim, n1, n2, Grid(pr1, pr2))
  {
    pair := None;
    var i := 0;
    GridInRange(pr1, pr2, n1, n2);
    while i < |pr1|
      invariant i <= |pr1|
      invariant InGrid(Grid(pr1[..i], pr2), n1, n2)
      invariant pair == Pick(sim, n1, n2, Grid(pr1[..i], pr2))
    {
      GridInRange(pr1[..i + 1], pr2, n1, n2);
      assert pr1[..i + 1][..i] == pr1[..i];
      pair := BestInRow(sim, n1, n2, Grid(pr1[..i], pr2), pair, pr1[i], pr2);
      i := i + 1;
    }
    assert pr1[..|pr1|] == pr1;
  }

  /** The inner loop: org1 id `a` against every org2 id, after the
      pairings `done`. */
  method BestInRow(sim: seq<real>, n1: nat, n2: nat, done: seq<(nat, nat)>, pair0: Option<Pair>, a: nat, pr2: seq<nat>)
    returns (pair: Option<Pair>)
    requires |sim| == n1 * n2 && a < n1
    requires forall k :: 0 <= k < |pr2| ==> pr2[k] < n2
    requires InGrid(done, n1, n2) && pair0 == Pick(sim, n1, n2, done)
    ensures InGrid(done + Row(a, pr2), n1, n2)
    ensures pair == Pick(sim, n1, n2, done + Row(a, pr2))
  {
    pair := pair0;
    assert done + Row(a, pr2[..0]) == done;
    var j := 0;
    while j < |pr2|
      invariant j <= |pr2|
      invariant InGrid(done + Row(a, pr2[..j]), n1, n2)
      invariant pair == Pick(sim, n1, n2, done + Row(a, pr2[..j]))
    {
      var id2 := pr2[j];
      PickRowStep(sim, n1, n2, done, a, pr2, j);
      var s := SimAt(sim, n1, n2, a, id2);
      if pair.None? {
        pair := Some(Pair(a, id2, s));
      } else if s > pair.value.score {
        pair := Some(Pair(a, id2, s));
      }
      j := j + 1;
    }
    assert pr2[..|pr2|] == pr2;
  }

  /** Ids in range give pairings in range. */
  lemma {:induction false} GridInRange(pr1: seq<nat>, pr2: seq<nat>, n1: nat, n2: nat)
    requires forall k :: 0 <= k < |pr1| ==> pr1[k] < n1
    requires forall k :: 0 <= k < |pr2| ==> pr2[k] < n2
    ensures InGrid(Grid(pr1, pr2), n1, n2)
    decreases |pr1|
  {
    if pr1 != [] {
      var n := |pr1| - 1;
      assert forall k :: 0 <= k < n ==> pr1[..n][k] == pr1[k];
      GridInRange(pr1[..n], pr2, n1, n2);
    }
  }

  /** The inner loop visits one more pairing. */
  lemma PickRowStep(sim: seq<real>, n1: nat, n2: nat, done: seq<(nat, nat)>, a: nat, pr2: seq<nat>, j: nat)
    requires |sim| == n1 * n2 && j < |pr2| && a < n1 && pr2[j] < n2
    requires InGrid(done + Row(a, pr2[..j]), n1, n2)
    ensures InGrid(done + Row(a, pr2[..j + 1]), n1, n2)
    ensures Pick(sim, n1, n2, done + Row(a, pr2[..j + 1])) ==
      Keep(sim, n1, n2, Pick(sim, n1, n2, done + Row(a, pr2[..j])), (a, pr2[j]))
  {
    var cs := done + Row(a, pr2[..j + 1]);
    assert cs == (done + Row(a, pr2[..j])) + [(a, pr2[j])];
    assert cs[..|cs| - 1] == done + Row(a, pr2[..j]);
  }

  // ---------------------------------------------------------------------
  // The file
  // ---------------------------------------------------------------------

  /** What one line of the aligner's output gives: nothing for an empty
      line or one without a pairing, KeyError for a token carrying an
      organism id that is not a node, else the best pair. */
  function LinePair(nodes1: seq<string>, nodes2: seq<string>, org1: string, org2: string, sim: seq<real>, line: string)
    : Result<Option<Pair>, Failure>
    requires |sim| == |nodes1| * |nodes2|
  {
    if line == "" then Ok(None)
    else
      var prots := SplitWs(line);
      match PrefixedIds(nodes1, org1, prots)
      case Err(e) => Err(e)
      case Ok(pr1) =>
        match PrefixedIds(nodes2, org2, prots)
        case Err(e) => Err(e)
        case Ok(pr2) =>
          GridInRange(pr1, pr2, |nodes1|, |nodes2|);
          Ok(Pick(sim, |nodes1|, |nodes2|, Grid(pr1, pr2)))
  }

  function LineParse(nodes1: seq<string>, nodes2: seq<string>, org1: string, org2: string, sim: seq<real>)
    : string -> Result<Option<Pair>, Failure>
    requires |sim| == |nodes1| * |nodes2|
  {
    line => LinePair(nodes1, nodes2, org1, org2, sim, line)
  }

  /** The pairs read from the aligner's output, one per line that has one. */
  function AlignerPairs(nodes1: seq<string>, nodes2: seq<string>, org1: string, org2: string, sim: seq<real>,
                        lines: seq<string>): Result<seq<Pair>, Failure>
    requires |sim| == |nodes1| * |nodes2|
  {
    Entries(lines, LineParse(nodes1, nodes2, org1, org2, sim))
  }

  /** The line loop of `isorankN_align` (interface.py:226-248), which the
      other aligner readers repeat (see the module comment). */
  method ReadAlignerPairs(nodes1: seq<string>, nodes2: seq<string>, org1: string, org2: string, sim: seq<real>,
                          lines: seq<string>)
    returns (r: Result<seq<Pair>, Failure>)
    requires |sim| == |nodes1| * |nodes2|
    ensures r == AlignerPairs(nodes1, nodes2, org1, org2, sim, lines)
  {
    var pairs: seq<Pair> := [];
    var k := 0;
    while k < |lines|
      invariant k <= |lines|
      invariant Entries(lines[..k], LineParse(nodes1, nodes2, org1, org2, sim)) == Ok(pairs)
    {
      EntriesStep(lines, k, LineParse(nodes1, nodes2, org1, org2, sim));
      var line := lines[k];
      if line != "" {
        var prots := SplitWs(line);
        var pr1 := PrefixedIds(nodes1, org1, prots);
        if pr1.Err? {
          EntriesPrefixFails(lines, k + 1, LineParse(nodes1, nodes2, org1, org2, sim));
          return Err(pr1.error);
        }
        var pr2 := PrefixedIds(nodes2, org2, prots);
        if pr2.Err? {
          EntriesPrefixFails(lines, k + 1, LineParse(nodes1, nodes2, org1, org2, sim));
          return Err(pr2.error);
        }
        var pair := BestPair(sim, |nodes1|, |nodes2|, pr1.value, pr2.value);
        if pair.Some? {
          pairs := pairs + [pair.value];
        }
      }
      k := k + 1;
    }
    EntriesAll(lines, LineParse(nodes1, nodes2, org1, org2, sim));
    r := Ok(pairs);
  }

  /** Every pair read is the most similar pairing of an org1 protein and
      an org2 protein named on one line, the first such on ties. */
  lemma AlignerPairsBest(nodes1: seq<string>, nodes2: seq<string>, org1: string, org2: string, sim: seq<real>,
                         lines: seq<string>, ps: seq<Pair>, p: Pair)
    requires |sim| == |nodes1| * |nodes2|
    requires AlignerPairs(nodes1, nodes2, org1, org2, sim, lines) == Ok(ps)
    requires p in ps
    ensures exists k :: 0 <= k < |lines| && BestOfLine(nodes1, nodes2, org1, org2, sim, lines[k], p)
  {
    var parse := LineParse(nodes1, nodes2, org1, org2, sim);
    EntriesMembers(lines, parse, ps);
    var k :| 0 <= k < |lines| && parse(lines[k]) == Ok(Some(p));
    LinePairBest(nodes1, nodes2, org1, org2, sim, lines[k], p);
  }

  /** `p` is the best pairing of the org1 and org2 proteins on `line`. */
  predicate BestOfLine(nodes1: seq<string>, nodes2: seq<string>, org1: string, org2: string, sim: seq<real>, line: string, p: Pair)
    requires |sim| == |nodes1| * |nodes2|
  {
    var ids := LineIds(nodes1, nodes2, org1, org2, line);
    ids.Ok? && BestOf(sim, |nodes1|, |nodes2|, ids.value.0, ids.value.1, p)
  }

  /** `p` pairs an id of `pr1` with one of `pr2`, carries their similarity,
      and no such pairing is more similar. */
  predicate BestOf(sim: seq<real>, n1: nat, n2: nat, pr1: seq<nat>, pr2: seq<nat>, p: Pair)
    requires |sim| == n1 * n2
  {
    p.n1 in pr1 && p.n2 in pr2 && p.n1 < n1 && p.n2 < n2 &&
    p.score == SimAt(sim, n1, n2, p.n1, p.n2) &&
    forall a, b :: a in pr1 && b in pr2 && a < n1 && b < n2 ==> SimAt(sim, n1, n2, a, b) <= p.score
  }

  /** The pair one line gives is its best pairing. */
  lemma LinePairBest(nodes1: seq<string>, nodes2: seq<string>, org1: string, org2: string, sim: seq<real>, line: string, p: Pair)
    requires |sim| == |nodes1| * |nodes2|
    requires LinePair(nodes1, nodes2, org1, org2, sim, line) == Ok(Some(p))
    ensures BestOfLine(nodes1, nodes2, org1, org2, sim, line, p)
  {
    var prots := SplitWs(line);
    var pr1 := PrefixedIds(nodes1, org1, prots).value;
    var pr2 := PrefixedIds(nodes2, org2, prots).value;
    assert LineIds(nodes1, nodes2, org1, org2, line) == Ok((pr1, pr2));
    GridInRange(pr1, pr2, |nodes1|, |nodes2|);
    assert Pick(sim, |nodes1|, |nodes2|, Grid(pr1, pr2)) == Some(p);
    PickGridBest(sim, |nodes1|, |nodes2|, pr1, pr2, p);
  }

  /** The pair the nested loops end with is the best pairing. */
  lemma PickGridBest(sim: seq<real>, n1: nat, n2: nat, pr1: seq<nat>, pr2: seq<nat>, p: Pair)
    requires |sim| == n1 * n2 && InGrid(Grid(pr1, pr2), n1, n2)
    requires Pick(sim, n1, n2, Grid(pr1, pr2)) == Some(p)
    ensures BestOf(sim, n1, n2, pr1, pr2, p)
  {
    var cs := Grid(pr1, pr2);
    PickBest(sim, n1, n2, cs);
    GridMembers(pr1, pr2);
    var t :| 0 <= t < |cs| && cs[t] == (p.n1, p.n2) && p.score == SimAt(sim, n1, n2, p.n1, p.n2);
    assert (p.n1, p.n2) in cs;
    forall a, b | a in pr1 && b in pr2 && a < n1 && b < n2 ensures SimAt(sim, n1, n2, a, b) <= p.score {
      assert (a, b) in cs;
      var u :| 0 <= u < |cs| && cs[u] == (a, b);
    }
  }

  /** The two id lists of a non-empty line. */
  function LineIds(nodes1: seq<string>, nodes2: seq<string>, org1: string, org2: string, line: string)
    : Result<(seq<nat>, seq<nat>), Failure>
  {
    var prots := SplitWs(line);
    match PrefixedIds(nodes1, org1, prots)
    case Err(e) => Err(e)
    case Ok(pr1) =>
      match PrefixedIds(nodes2, org2, prots)
      case Err(e) => Err(e)
      case Ok(pr2) => Ok((pr1, pr2))
  }

  /** A line gives a pair exactly when it names a protein of each
      organism. */
  lemma LinePairSome(nodes1: seq<string>, nodes2: seq<string>, org1: string, org2: string, sim: seq<real>, line: string)
    requires |sim| == |nodes1| * |nodes2|
    requires LineIds(nodes1, nodes2, org1, org2, line).Ok? && line != ""
    ensures LinePair(nodes1, nodes2, org1, org2, sim, line).Ok?
    ensures var (pr1, pr2) := LineIds(nodes1, nodes2, org1, org2, line).value;
      LinePair(nodes1, nodes2, org1, org2, sim, line).value.Some? <==> pr1 != [] && pr2 != []
  {
    var (pr1, pr2) := LineIds(nodes1, nodes2, org1, org2, line).value;
    GridInRange(pr1, pr2, |nodes1|, |nodes2|);
    PickBest(sim, |nodes1|, |nodes2|, Grid(pr1, pr2));
  }
}
