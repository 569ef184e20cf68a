/** The `multiple+cut` extension rounds of `seed_extend_align`
    (align.py:1476-1619): each round selects reached, still unpaired nodes
    (topped up from the base seed), lets a one-to-one matcher pair them,
    commits the pairs, applies the keep cut and updates the bookkeeping.
    The matcher and the similarity it works on are abstract; the matcher
    is given everything that similarity reads: the selections, the current
    state and the pairs one round back. */
module Rounds {
  import opened Common
  import opened Organism
  import opened Seeds

  // ---------------------------------------------------------------------
  // Round selection
  // ---------------------------------------------------------------------

  /** The entries of `s` that lie in `reached`, in order. */
  function Filter(s: seq<nat>, reached: set<nat>): (r: seq<nat>)
    ensures forall x :: x in r ==> x in s && x in reached
    decreases |s|
  {
    if s == [] then []
    else Filter(s[..|s| - 1], reached) + (if s[|s| - 1] in reached then [s[|s| - 1]] else [])
  }

  lemma {:induction false} FilterDistinct(s: seq<nat>, reached: set<nat>)
    requires Distinct(s)
    ensures Distinct(Filter(s, reached))
    decreases |s|
  {
    if s != [] {
      var pre := s[..|s| - 1];
      FilterDistinct(pre, reached);
      var f := Filter(pre, reached);
      if s[|s| - 1] in reached {
        var r := f + [s[|s| - 1]];
        forall a, b | 0 <= a < b < |r| ensures r[a] != r[b] {
          if b == |f| {
            assert r[a] in f && r[a] in pre;
          }
        }
      }
    }
  }

  /** The walk over `reversed(remains)`: append a node when it is reached,
      and stop once the selection has `cap` entries. The flag says whether
      the walk has stopped. */
  function WalkOf(s: seq<nat>, reached: set<nat>, cap: int): (r: (seq<nat>, bool))
    decreases |s|
  {
    if s == [] then ([], false)
    else
      var w := WalkOf(s[..|s| - 1], reached, cap);
      if w.1 then w
      else
        var sel := if s[|s| - 1] in reached then w.0 + [s[|s| - 1]] else w.0;
        (sel, |sel| >= cap)
  }

  lemma WalkStep(s: seq<nat>, reached: set<nat>, cap: int, k: nat)
    requires k < |s|
    ensures var w := WalkOf(s[..k], reached, cap);
      WalkOf(s[..k + 1], reached, cap) ==
        if w.1 then w
        else
          var sel := if s[k] in reached then w.0 + [s[k]] else w.0;
          (sel, |sel| >= cap)
  {
    assert s[..k + 1][..k] == s[..k];
  }

  lemma {:induction false} WalkStopped(s: seq<nat>, reached: set<nat>, cap: int, k: nat)
    requires k <= |s| && WalkOf(s[..k], reached, cap).1
    ensures WalkOf(s, reached, cap) == WalkOf(s[..k], reached, cap)
    decreases |s| - k
  {
    if k < |s| {
      assert s[..|s| - 1][..k] == s[..k];
      WalkStopped(s[..|s| - 1], reached, cap, k);
    } else {
      assert s[..k] == s;
    }
  }

  /** With a positive cap the walk takes the reached nodes in order, up to
      the cap, and stops exactly when there are at least `cap` of them. */
  lemma {:induction false} WalkTakesReached(s: seq<nat>, reached: set<nat>, cap: int)
    requires cap >= 1
    ensures var f := Filter(s, reached);
      && WalkOf(s, reached, cap).1 == (|f| >= cap)
      && WalkOf(s, reached, cap).0 == f[..if |f| < cap then |f| else cap]
    decreases |s|
  {
    if s != [] {
      var pre := s[..|s| - 1];
      WalkTakesReached(pre, reached, cap);
      var f0 := Filter(pre, reached);
      var f := Filter(s, reached);
      assert f[..|f0|] == f0;
    }
  }

  /** The top-up from `base_select`: append a node when it is not paired,
      and stop once the selection has `cap` entries. */
  function FillOf(base: seq<nat>, paired: seq<bool>, start: seq<nat>, cap: int): (r: (seq<nat>, bool))
    requires Below(base, |paired|)
    decreases |base|
  {
    if base == [] then (start, false)
    else
      var w := FillOf(base[..|base| - 1], paired, start, cap);
      if w.1 then w
      else
        var x := base[|base| - 1];
        var sel := if !paired[x] then w.0 + [x] else w.0;
        (sel, |sel| >= cap)
  }

  lemma FillStep(base: seq<nat>, paired: seq<bool>, start: seq<nat>, cap: int, k: nat)
    requires k < |base| && Below(base, |paired|)
    ensures var w := FillOf(base[..k], paired, start, cap);
      FillOf(base[..k + 1], paired, start, cap) ==
        if w.1 then w
        else
          var sel := if !paired[base[k]] then w.0 + [base[k]] else w.0;
          (sel, |sel| >= cap)
  {
    assert base[..k + 1][..k] == base[..k];
  }

  lemma {:induction false} FillStopped(base: seq<nat>, paired: seq<bool>, start: seq<nat>, cap: int, k: nat)
    requires k <= |base| && Below(base, |paired|) && FillOf(base[..k], paired, start, cap).1
    ensures FillOf(base, paired, start, cap) == FillOf(base[..k], paired, start, cap)
    decreases |base| - k
  {
    if k < |base| {
      assert base[..|base| - 1][..k] == base[..k];
      FillStopped(base[..|base| - 1], paired, start, cap, k);
    } else {
      assert base[..k] == base;
    }
  }

  /** The top-up keeps the walk's selection in front, adds only unpaired
      base nodes, and never overshoots a cap the walk has not reached. */
  lemma {:induction false} FillAdds(base: seq<nat>, paired: seq<bool>, start: seq<nat>, cap: int)
    requires Below(base, |paired|)
    ensures var r := FillOf(base, paired, start, cap).0;
      && |start| <= |r| && r[..|start|] == start
      && (forall i :: |start| <= i < |r| ==> r[i] in base && !paired[r[i]])
      && (|start| < cap ==> |r| <= cap)
    decreases |base|
  {
    if base != [] {
      FillAdds(base[..|base| - 1], paired, start, cap);
      var w := FillOf(base[..|base| - 1], paired, start, cap);
      if !w.1 && !paired[base[|base| - 1]] {
        var r := w.0 + [base[|base| - 1]];
        assert r[..|start|] == w.0[..|start|];
        forall i | |start| <= i < |r| ensures r[i] in base && !paired[r[i]] {
          if i < |w.0| {
            assert r[i] == w.0[i];
            assert w.0[i] in base[..|base| - 1];
          }
        }
        if |start| < cap {
          assert |w.0| < cap by {
            if |base| - 1 > 0 {
              var pre := base[..|base| - 1];
              FillNotStopped(pre, paired, start, cap);
            }
          }
        }
      }
    }
  }

  /** While the top-up runs on, its selection is below the cap. */
  lemma {:induction false} FillNotStopped(base: seq<nat>, paired: seq<bool>, start: seq<nat>, cap: int)
    requires Below(base, |paired|) && |start| < cap
    ensures !FillOf(base, paired, start, cap).1 ==> |FillOf(base, paired, start, cap).0| < cap
    decreases |base|
  {
    if base != [] {
      FillNotStopped(base[..|base| - 1], paired, start, cap);
    }
  }

  /** `round_select` as the two loops build it (align.py:1497-1510): the
      walk over `reversed(remains)`, then, if it stayed below the cap, the
      top-up from `base_select`. */
  function RoundSelection(remains: seq<nat>, reached: set<nat>, base: seq<nat>, paired: seq<bool>, cap: int): seq<nat>
    requires Below(base, |paired|)
  {
    var w := WalkOf(Reversed(remains), reached, cap).0;
    if |w| < cap then FillOf(base, paired, w, cap).0 else w
  }

  /** Every selected node is unpaired when the remaining list holds only
      unpaired nodes: a walked node is a reached remaining node, a topped-up
      node is an unpaired base node. With a positive cap the selection has
      at most `cap` nodes. */
  lemma SelectionUnpaired(remains: seq<nat>, reached: set<nat>, base: seq<nat>, paired: seq<bool>, cap: int)
    requires Below(base, |paired|)
    requires forall x :: x in remains ==> x < |paired| && !paired[x]
    ensures var sel := RoundSelection(remains, reached, base, paired, cap);
      && Below(sel, |paired|)
      && (forall x :: x in sel ==> x < |paired| && !paired[x])
      && (forall x :: x in sel ==> (x in remains && x in reached) || x in base)
      && (cap >= 1 ==> |sel| <= cap)
  {
    var rev := Reversed(remains);
    var w := WalkOf(rev, reached, cap).0;
    WalkMembers(rev, reached, cap);
    assert forall x :: x in rev ==> x in remains by {
      forall x | x in rev ensures x in remains {
        var i :| 0 <= i < |rev| && rev[i] == x;
        assert remains[|remains| - 1 - i] == x;
      }
    }
    if cap >= 1 {
      WalkTakesReached(rev, reached, cap);
    }
    if |w| < cap {
      FillAdds(base, paired, w, cap);
      var r := FillOf(base, paired, w, cap).0;
      forall x | x in r ensures x < |paired| && !paired[x] && ((x in remains && x in reached) || x in base) {
        var i :| 0 <= i < |r| && r[i] == x;
        if i < |w| {
          assert r[i] == w[i];
        }
      }
    }
    var sel := RoundSelection(remains, reached, base, paired, cap);
    forall i | 0 <= i < |sel| ensures sel[i] < |paired| {
      assert sel[i] in sel;
    }
  }

  lemma {:induction false} WalkMembers(s: seq<nat>, reached: set<nat>, cap: int)
    ensures forall x :: x in WalkOf(s, reached, cap).0 ==> x in s && x in reached
    decreases |s|
  {
    if s != [] {
      WalkMembers(s[..|s| - 1], reached, cap);
    }
  }

  /** The walk alone never repeats a node of a duplicate-free list. */
  lemma WalkDistinct(s: seq<nat>, reached: set<nat>, cap: int)
    requires Distinct(s) && cap >= 1
    ensures Distinct(WalkOf(s, reached, cap).0)
  {
    WalkTakesReached(s, reached, cap);
    FilterDistinct(s, reached);
  }

  /** The top-up checks `node_paired` rather than `node_selected`, so a
      reached unpaired base node is selected twice: once by the walk and
      once by the top-up. */
  lemma SelectionRepeatsNode()
    ensures RoundSelection([0], {0}, [0], [false], 2) == [0, 0]
  {
    var s: seq<nat> := [0];
    assert Reversed(s) == s;
    assert s[..0] == [] && s[..1] == s;
    var reached: set<nat> := {0};
    WalkStep(s, reached, 2, 0);
    assert WalkOf(s[..0], reached, 2) == ([], false);
    var none: seq<nat> := [];
    assert none + [s[0]] == s;
    assert WalkOf(s, reached, 2) == (s, false);
    var paired := [false];
    FillStep(s, paired, s, 2, 0);
    assert FillOf(s[..0], paired, s, 2) == (s, false);
    assert FillOf(s, paired, s, 2) == (s + s, true);
  }

  /** The two selection loops of one round (align.py:1497-1510, and
      1515-1528 for the second network). */
  method SelectRound(remains: seq<nat>, reached: set<nat>, base: seq<nat>, paired: seq<bool>, cap: int)
    returns (sel: seq<nat>)
    requires Below(base, |paired|)
    ensures sel == RoundSelection(remains, reached, base, paired, cap)
  {
    sel := WalkRemains(remains, reached, cap);
    if |sel| < cap {
      sel := TopUp(base, paired, sel, cap);
    }
  }

  /** The first loop: the reached nodes of `reversed(remains)`, up to the
      cap. */
  method WalkRemains(remains: seq<nat>, reached: set<nat>, cap: int) returns (sel: seq<nat>)
    ensures sel == WalkOf(Reversed(remains), reached, cap).0
  {
    ghost var rev := Reversed(remains);
    sel := [];
    var k := 0;
    while k < |remains|
      invariant k <= |remains|
      invariant WalkOf(rev[..k], reached, cap) == (sel, false)
    {
      var i := remains[|remains| - 1 - k];
      WalkStep(rev, reached, cap, k);
      if i in reached {
        sel := sel + [i];
      }
      k := k + 1;
      if |sel| >= cap {
        WalkStopped(rev, reached, cap, k);
        return;
      }
    }
    assert rev[..k] == rev;
  }

  /** The second loop: unpaired nodes of `base` appended to `start`, up to
      the cap. */
  method TopUp(base: seq<nat>, paired: seq<bool>, start: seq<nat>, cap: int) returns (sel: seq<nat>)
    requires Below(base, |paired|)
    ensures sel == FillOf(base, paired, start, cap).0
  {
    sel := start;
    var j := 0;
    while j < |base|
      invariant j <= |base|
      invariant FillOf(base[..j], paired, start, cap) == (sel, false)
    {
      var i := base[j];
      FillStep(base, paired, start, cap, j);
      if !paired[i] {
        sel := sel + [i];
      }
      j := j + 1;
      if |sel| >= cap {
        FillStopped(base, paired, start, cap, j);
        return;
      }
    }
    assert base[..j] == base;
  }

  // ---------------------------------------------------------------------
  // Committing a round
  // ---------------------------------------------------------------------

  /** The union of the neighbour lists of `nodes`. */
  function ReachOf(g: Network, nodes: set<nat>): (r: set<nat>)
    requires Valid(g)
    ensures forall x :: x in r ==> x < g.n
  {
    set y, x | y in nodes && y < g.n && x in Neighbors(g, y) :: x
  }

  /** A node is reached exactly when it shares an edge with one of `nodes`. */
  lemma ReachIsAdjacency(g: Network, nodes: set<nat>, x: nat)
    requires Valid(g) && forall y :: y in nodes ==> y < g.n
    ensures x in ReachOf(g, nodes) <==> x < g.n && exists y :: y in nodes && Canon(y, x) in g.edges
  {
    if x < g.n && exists y :: y in nodes && Canon(y, x) in g.edges {
      var y :| y in nodes && Canon(y, x) in g.edges;
      assert x in Neighbors(g, y);
    }
  }

  lemma ReachAdd(g: Network, nodes: set<nat>, a: nat)
    requires Valid(g) && a < g.n
    ensures ReachOf(g, nodes + {a}) == ReachOf(g, nodes) + Elements(Neighbors(g, a))
  {}

  /** The commit loop of a round (align.py:1588-1594): like the seed commit,
      and it also adds the neighbours of both new nodes to the reached
      sets. */
  method CommitRound(g1: Network, g2: Network, sim: seq<real>, pl1: seq<nat>, pl2: seq<nat>,
                     sel1: seq<nat>, sel2: seq<nat>, paired1: seq<bool>, paired2: seq<bool>,
                     reached1: set<nat>, reached2: set<nat>)
    returns (newPairs: seq<Pair>, p1: seq<bool>, p2: seq<bool>, r1: set<nat>, r2: set<nat>)
    requires Valid(g1) && Valid(g2)
    requires Addressable(pl1, pl2, sel1, sel2, g1.n, g2.n) && |sim| == g1.n * g2.n
    requires |paired1| == g1.n && |paired2| == g2.n
    ensures newPairs == Committed(pl1, pl2, sel1, sel2, sim, g1.n, g2.n)
    ensures p1 == Marked(paired1, Firsts(newPairs)) && p2 == Marked(paired2, Seconds(newPairs))
    ensures r1 == reached1 + ReachOf(g1, Firsts(newPairs))
    ensures r2 == reached2 + ReachOf(g2, Seconds(newPairs))
  {
    ghost var all := Committed(pl1, pl2, sel1, sel2, sim, g1.n, g2.n);
    newPairs, p1, p2, r1, r2 := [], paired1, paired2, reached1, reached2;
    RoundMarksEmpty(g1, g2, paired1, paired2, reached1, reached2);
    for i := 0 to |pl1|
      invariant newPairs == all[..i]
      invariant RoundMarks(g1, g2, paired1, paired2, reached1, reached2, newPairs, p1, p2, r1, r2)
    {
      var a := sel1[pl1[i]];
      r1 := r1 + Elements(Neighbors(g1, a));
      var b := sel2[pl2[i]];
      r2 := r2 + Elements(Neighbors(g2, b));
      var pair := Pair(a, b, SimAt(sim, g1.n, g2.n, a, b));
      CommittedNext(pl1, pl2, sel1, sel2, sim, g1.n, g2.n, i);
      RoundMarksNext(g1, g2, paired1, paired2, reached1, reached2, newPairs, pair);
      newPairs := newPairs + [pair];
      p1 := p1[a := true];
      p2 := p2[b := true];
    }
    PrefixAll(all);
  }

  /** The flags and reached sets after committing `ps`. */
  ghost predicate RoundMarks(g1: Network, g2: Network, paired1: seq<bool>, paired2: seq<bool>,
                             reached1: set<nat>, reached2: set<nat>, ps: seq<Pair>,
                             p1: seq<bool>, p2: seq<bool>, r1: set<nat>, r2: set<nat>)
    requires Valid(g1) && Valid(g2)
  {
    && p1 == Marked(paired1, Firsts(ps)) && p2 == Marked(paired2, Seconds(ps))
    && r1 == reached1 + ReachOf(g1, Firsts(ps)) && r2 == reached2 + ReachOf(g2, Seconds(ps))
  }

  lemma RoundMarksEmpty(g1: Network, g2: Network, paired1: seq<bool>, paired2: seq<bool>,
                        reached1: set<nat>, reached2: set<nat>)
    requires Valid(g1) && Valid(g2)
    ensures RoundMarks(g1, g2, paired1, paired2, reached1, reached2, [], paired1, paired2, reached1, reached2)
  {
    assert Firsts([]) == {} && Seconds([]) == {};
  }

  /** Committing one more pair. */
  lemma RoundMarksNext(g1: Network, g2: Network, paired1: seq<bool>, paired2: seq<bool>,
                       reached1: set<nat>, reached2: set<nat>, ps: seq<Pair>, pair: Pair)
    requires Valid(g1) && Valid(g2) && pair.n1 < g1.n && pair.n2 < g2.n
    requires |paired1| == g1.n && |paired2| == g2.n
    ensures forall p1, p2, r1, r2 :: RoundMarks(g1, g2, paired1, paired2, reached1, reached2, ps, p1, p2, r1, r2) ==>
      RoundMarks(g1, g2, paired1, paired2, reached1, reached2, ps + [pair], p1[pair.n1 := true], p2[pair.n2 := true],
                 r1 + Elements(Neighbors(g1, pair.n1)), r2 + Elements(Neighbors(g2, pair.n2)))
  {
    MarkNext(paired1, paired2, ps, pair);
    ReachNext(g1, g2, reached1, reached2, ps, pair);
  }

  /** The nodes reached through one more pair. */
  lemma ReachNext(g1: Network, g2: Network, reached1: set<nat>, reached2: set<nat>, ps: seq<Pair>, pair: Pair)
    requires Valid(g1) && Valid(g2) && pair.n1 < g1.n && pair.n2 < g2.n
    ensures reached1 + ReachOf(g1, Firsts(ps)) + Elements(Neighbors(g1, pair.n1)) == reached1 + ReachOf(g1, Firsts(ps + [pair]))
    ensures reached2 + ReachOf(g2, Seconds(ps)) + Elements(Neighbors(g2, pair.n2)) == reached2 + ReachOf(g2, Seconds(ps + [pair]))
  {
    FirstsSnoc(ps, pair);
    ReachAdd(g1, Firsts(ps), pair.n1);
    ReachAdd(g2, Seconds(ps), pair.n2);
  }

  /** Committed pairs join selected nodes and carry their similarity. */
  lemma CommittedNodes(pl1: seq<nat>, pl2: seq<nat>, sel1: seq<nat>, sel2: seq<nat>,
                       sim: seq<real>, n1: nat, n2: nat)
    requires Addressable(pl1, pl2, sel1, sel2, n1, n2) && |sim| == n1 * n2
    ensures var c := Committed(pl1, pl2, sel1, sel2, sim, n1, n2);
      forall p :: p in c ==>
        (p.n1 in sel1 && p.n2 in sel2 && p.n1 < n1 && p.n2 < n2 && p.score == SimAt(sim, n1, n2, p.n1, p.n2))
  {
    var c := Committed(pl1, pl2, sel1, sel2, sim, n1, n2);
    forall p | p in c ensures p.n1 in sel1 && p.n2 in sel2 && p.n1 < n1 && p.n2 < n2 {
      var i :| 0 <= i < |c| && c[i] == p;
      assert p.n1 == sel1[pl1[i]] && p.n2 == sel2[pl2[i]];
    }
  }

  // ---------------------------------------------------------------------
  // Bookkeeping after the cut
  // ---------------------------------------------------------------------

  /** `[x for x in remains if not node_paired[x]]`. */
  function Unpaired(remains: seq<nat>, flags: seq<bool>): (r: seq<nat>)
    requires Below(remains, |flags|)
    ensures forall x :: x in r <==> x in remains && !flags[x]
    ensures Below(r, |flags|)
    decreases |remains|
  {
    if remains == [] then []
    else
      var x := remains[|remains| - 1];
      Unpaired(remains[..|remains| - 1], flags) + (if flags[x] then [] else [x])
  }

  lemma {:induction false} UnpairedDistinct(remains: seq<nat>, flags: seq<bool>)
    requires Below(remains, |flags|) && Distinct(remains)
    ensures Distinct(Unpaired(remains, flags))
    decreases |remains|
  {
    if remains != [] {
      var pre := remains[..|remains| - 1];
      UnpairedDistinct(pre, flags);
      var u := Unpaired(pre, flags);
      var x := remains[|remains| - 1];
      if !flags[x] {
        var r := u + [x];
        forall a, b | 0 <= a < b < |r| ensures r[a] != r[b] {
          if b == |u| {
            assert r[a] in u && r[a] in pre;
          }
        }
      }
    }
  }

  /** One side's bookkeeping: the remaining list holds exactly the
      unflagged nodes, once each, and every flagged node is in `used`, the
      nodes the pairs hold on that side. */
  ghost predicate SideConsistent(remains: seq<nat>, paired: seq<bool>, used: set<nat>, n: nat) {
    && |paired| == n && Below(remains, n) && Distinct(remains)
    && (forall x :: 0 <= x < n ==> (x in remains <==> !paired[x]))
    && (forall x :: 0 <= x < n && paired[x] ==> x in used)
  }

  /** One side of a round: the committed nodes `a` were all unpaired, the
      cut clears `rm`, part of `a`, and the rest of `a` is held by kept
      pairs. Then flags only go up and the side stays consistent with the
      kept pairs added. */
  lemma SideRound(remains: seq<nat>, paired: seq<bool>, used: set<nat>, n: nat,
                  a: set<nat>, rm: set<nat>, keptNodes: set<nat>)
    requires SideConsistent(remains, paired, used, n)
    requires rm <= a <= keptNodes + rm
    requires forall x :: x in a ==> x < n && !paired[x]
    ensures var q := Cleared(Marked(paired, a), rm);
      && SideConsistent(Unpaired(remains, q), q, used + keptNodes, n)
      && (forall x :: 0 <= x < n && paired[x] ==> q[x])
  {
    var q := Cleared(Marked(paired, a), rm);
    UnpairedDistinct(remains, q);
  }

  lemma FirstsConcat(a: seq<Pair>, b: seq<Pair>)
    ensures Firsts(a + b) == Firsts(a) + Firsts(b)
    ensures Seconds(a + b) == Seconds(a) + Seconds(b)
  {
    assert forall p :: p in a + b <==> p in a || p in b;
  }

  /** Every committed pair is either kept or cut, and only committed pairs
      are kept. */
  lemma SplitPairs(newPairs: seq<Pair>, ratio: real)
    ensures var removed := Lowest(newPairs, ratio);
      var kept := RemoveAll(newPairs, removed);
      && (forall p :: p in newPairs ==> p in kept || p in removed)
      && (forall p :: p in kept ==> p in newPairs)
  {
    var removed := Lowest(newPairs, ratio);
    var kept := RemoveAll(newPairs, removed);
    KeepCutCount(newPairs, ratio);
    forall p | p in newPairs ensures p in kept || p in removed {
      assert p in multiset(newPairs);
    }
    SubsequenceMembers(kept, newPairs);
  }

  /** So the committed nodes are among the kept pairs' or the cut pairs'
      nodes, and the cut pairs' nodes are committed nodes. */
  lemma SplitNodes(newPairs: seq<Pair>, ratio: real)
    ensures var removed := Lowest(newPairs, ratio);
      var kept := RemoveAll(newPairs, removed);
      && Firsts(removed) <= Firsts(newPairs) <= Firsts(kept) + Firsts(removed)
      && Seconds(removed) <= Seconds(newPairs) <= Seconds(kept) + Seconds(removed)
  {
    LowestMembers(newPairs, ratio);
    SplitPairs(newPairs, ratio);
  }

  lemma {:induction false} CountUnsetMono(a: seq<bool>, b: seq<bool>)
    requires |a| == |b| && forall i :: 0 <= i < |a| && a[i] ==> b[i]
    ensures CountUnset(b) <= CountUnset(a)
    ensures (exists i :: 0 <= i < |a| && !a[i] && b[i]) ==> CountUnset(b) < CountUnset(a)
    decreases |a|
  {
    if a != [] {
      CountUnsetMono(a[1..], b[1..]);
      if exists i :: 0 <= i < |a| && !a[i] && b[i] {
        var i :| 0 <= i < |a| && !a[i] && b[i];
        if i > 0 {
          assert !a[1..][i - 1] && b[1..][i - 1];
        }
      }
    }
  }

  // ---------------------------------------------------------------------
  // Rounds
  // ---------------------------------------------------------------------

  /** The state the rounds carry: the remaining node lists, the reached
      neighbour sets, the `node_paired` flags and the pairs so far. */
  datatype Extension = Extension(remains1: seq<nat>, remains2: seq<nat>,
                                 reached1: set<nat>, reached2: set<nat>,
                                 paired1: seq<bool>, paired2: seq<bool>,
                                 pairs: seq<Pair>)

  /** Every pair joins two nodes in range and carries their similarity. */
  ghost predicate FromSim(pairs: seq<Pair>, sim: seq<real>, n1: nat, n2: nat) {
    && |sim| == n1 * n2
    && forall p :: p in pairs ==> (p.n1 < n1 && p.n2 < n2 && p.score == SimAt(sim, n1, n2, p.n1, p.n2))
  }

  /** The bookkeeping the rounds keep: on each side a remaining list holds
      exactly the unflagged nodes, once each, and a flagged node occurs in
      some pair; and every pair carries its similarity. */
  ghost predicate Consistent(e: Extension, n1: nat, n2: nat, sim: seq<real>) {
    && SideConsistent(e.remains1, e.paired1, Firsts(e.pairs), n1)
    && SideConsistent(e.remains2, e.paired2, Seconds(e.pairs), n2)
    && FromSim(e.pairs, sim, n1, n2)
  }

  /** The matcher's contract: one-to-one index lists of length
      min(|s1|, |s2|) into the two selections. */
  predicate IsAssignment(a: (seq<nat>, seq<nat>), l1: nat, l2: nat) {
    && |a.0| == |a.1| == (if l1 <= l2 then l1 else l2)
    && Distinct(a.0) && Distinct(a.1) && Below(a.0, l1) && Below(a.1, l2)
  }

  /** The matcher of a round (align.py:1532-1584): given the pairs as they
      stood when the previous round began, the current state and the two
      selections, it returns the index lists of the assignment. The
      similarity it blends reads all of these: `topo_sim` counts the
      neighbours of the current `pairs`, and under `seedexcost` the cost
      vectors read `paired1`/`paired2`, which are the nodes of the pairs
      one round back (align.py:1616-1617). */
  type Matcher = (seq<Pair>, Extension, seq<nat>, seq<nat>) -> (seq<nat>, seq<nat>)

  /** Whatever it is given, the matcher returns a one-to-one assignment. */
  ghost predicate Assigns(matcher: Matcher) {
    forall lag: seq<Pair>, st: Extension, s1: seq<nat>, s2: seq<nat> ::
      IsAssignment(matcher(lag, st, s1, s2), |s1|, |s2|)
  }

  /** The set-up before the rounds (align.py:1476-1489): add the seed pairs,
      reach the neighbours of every paired node, and list the unpaired
      nodes in `node_idx` order. `set.union()` of no sets raises, so an
      empty pair list is an error. */
  function Start(g1: Network, g2: Network, order1: seq<nat>, order2: seq<nat>,
                 paired1: seq<bool>, paired2: seq<bool>, pairs: seq<Pair>): (r: Option<Extension>)
    requires Valid(g1) && Valid(g2) && |paired1| == g1.n && |paired2| == g2.n
    requires Below(order1, g1.n) && Below(order2, g2.n)
    ensures r.None? <==> pairs == []
  {
    if pairs == [] then None
    else Some(Extension(Unpaired(order1, paired1), Unpaired(order2, paired2),
                        ReachOf(g1, Firsts(pairs)), ReachOf(g2, Seconds(pairs)),
                        paired1, paired2, pairs))
  }

  /** The set-up state is consistent when the orders are permutations of
      the nodes and the seed pairs account for the flags. */
  lemma StartConsistent(g1: Network, g2: Network, order1: seq<nat>, order2: seq<nat>,
                        paired1: seq<bool>, paired2: seq<bool>, pairs: seq<Pair>, sim: seq<real>)
    requires Valid(g1) && Valid(g2) && |paired1| == g1.n && |paired2| == g2.n && |sim| == g1.n * g2.n
    requires IsOrder(order1, g1.n) && IsOrder(order2, g2.n) && pairs != []
    requires forall x :: 0 <= x < g1.n && paired1[x] ==> x in Firsts(pairs)
    requires forall x :: 0 <= x < g2.n && paired2[x] ==> x in Seconds(pairs)
    requires forall p :: p in pairs ==> p.n1 < g1.n && p.n2 < g2.n && p.score == SimAt(sim, g1.n, g2.n, p.n1, p.n2)
    ensures Consistent(Start(g1, g2, order1, order2, paired1, paired2, pairs).value, g1.n, g2.n, sim)
  {
    UnpairedDistinct(order1, paired1);
    UnpairedDistinct(order2, paired2);
    DistinctBelowCovers(order1, g1.n);
    DistinctBelowCovers(order2, g2.n);
  }

  /** Under consistent bookkeeping the loop's two tests agree: a side's
      remaining list is empty exactly when all its flags are set. */
  lemma FinishedTests(e: Extension, n1: nat, n2: nat, sim: seq<real>)
    requires Consistent(e, n1, n2, sim)
    ensures (|e.remains1| == 0 <==> AllSet(e.paired1)) && (|e.remains2| == 0 <==> AllSet(e.paired2))
  {
    if |e.remains1| > 0 {
      assert e.remains1[0] < n1 && !e.paired1[e.remains1[0]];
    } else {
      forall x | 0 <= x < n1 ensures e.paired1[x] {
        assert x !in e.remains1;
      }
    }
    if |e.remains2| > 0 {
      assert e.remains2[0] < n2 && !e.paired2[e.remains2[0]];
    } else {
      forall x | 0 <= x < n2 ensures e.paired2[x] {
        assert x !in e.remains2;
      }
    }
  }

  /** One round's flags and pairs, with both sides stated. */
  lemma RoundBookkeeping(e: Extension, n1: nat, n2: nat, sim: seq<real>,
                         sel1: seq<nat>, sel2: seq<nat>, newPairs: seq<Pair>, ratio: real)
    requires Consistent(e, n1, n2, sim)
    requires forall x :: x in sel1 ==> x < n1 && !e.paired1[x]
    requires forall x :: x in sel2 ==> x < n2 && !e.paired2[x]
    requires forall p :: p in newPairs ==>
      (p.n1 in sel1 && p.n2 in sel2 && p.n1 < n1 && p.n2 < n2 && p.score == SimAt(sim, n1, n2, p.n1, p.n2))
    ensures var removed := Lowest(newPairs, ratio);
      var kept := RemoveAll(newPairs, removed);
      var q1 := Cleared(Marked(e.paired1, Firsts(newPairs)), Firsts(removed));
      var q2 := Cleared(Marked(e.paired2, Seconds(newPairs)), Seconds(removed));
      var e' := Extension(Unpaired(e.remains1, q1), Unpaired(e.remains2, q2),
                          e.reached1, e.reached2, q1, q2, e.pairs + kept);
      && Consistent(e', n1, n2, sim)
      && (forall x :: 0 <= x < n1 && e.paired1[x] ==> q1[x])
      && (forall x :: 0 <= x < n2 && e.paired2[x] ==> q2[x])
  {
    var removed := Lowest(newPairs, ratio);
    var kept := RemoveAll(newPairs, removed);
    SplitNodes(newPairs, ratio);
    SplitPairs(newPairs, ratio);
    SideRound(e.remains1, e.paired1, Firsts(e.pairs), n1, Firsts(newPairs), Firsts(removed), Firsts(kept));
    SideRound(e.remains2, e.paired2, Seconds(e.pairs), n2, Seconds(newPairs), Seconds(removed), Seconds(kept));
    FirstsConcat(e.pairs, kept);
    assert FromSim(e.pairs + kept, sim, n1, n2) by {
      assert forall p :: p in e.pairs + kept ==> p in e.pairs || p in newPairs;
    }
  }

  /** A round with duplicate-free, non-empty selections of unpaired nodes
      pairs at least one more node on each side, when the keep ratio is in
      [0, 1]: the cut leaves a pair, and in a one-to-one list its nodes are
      not cleared. */
  lemma RoundProgress(paired1: seq<bool>, paired2: seq<bool>, pl1: seq<nat>, pl2: seq<nat>,
                      sel1: seq<nat>, sel2: seq<nat>, sim: seq<real>, n1: nat, n2: nat, ratio: real)
    requires Addressable(pl1, pl2, sel1, sel2, n1, n2) && |sim| == n1 * n2
    requires |paired1| == n1 && |paired2| == n2
    requires Distinct(pl1) && Distinct(pl2) && Distinct(sel1) && Distinct(sel2) && |pl1| > 0
    requires forall x :: x in sel1 ==> !paired1[x]
    requires forall x :: x in sel2 ==> !paired2[x]
    requires 0.0 <= ratio <= 1.0
    ensures var c := Committed(pl1, pl2, sel1, sel2, sim, n1, n2);
      var removed := Lowest(c, ratio);
      && CountUnset(Cleared(Marked(paired1, Firsts(c)), Firsts(removed))) < CountUnset(paired1)
      && CountUnset(Cleared(Marked(paired2, Seconds(c)), Seconds(removed))) < CountUnset(paired2)
  {
    var c := Committed(pl1, pl2, sel1, sel2, sim, n1, n2);
    var removed := Lowest(c, ratio);
    CommittedOneToOne(pl1, pl2, sel1, sel2, sim, n1, n2);
    CommittedNodes(pl1, pl2, sel1, sel2, sim, n1, n2);
    LowestMembers(c, ratio);
    var q := KeptPair(c, ratio);
    var q1 := Cleared(Marked(paired1, Firsts(c)), Firsts(removed));
    var q2 := Cleared(Marked(paired2, Seconds(c)), Seconds(removed));
    assert Firsts(removed) <= Firsts(c) && Seconds(removed) <= Seconds(c);
    SideFlags(paired1, Firsts(c), Firsts(removed));
    SideFlags(paired2, Seconds(c), Seconds(removed));
    assert !paired1[q.n1] && q1[q.n1];
    assert !paired2[q.n2] && q2[q.n2];
    CountUnsetMono(paired1, q1);
    CountUnsetMono(paired2, q2);
  }

  /** A non-empty one-to-one list keeps a pair through a cut with ratio in
      [0, 1], and the cut clears neither of its nodes. */
  lemma KeptPair(c: seq<Pair>, ratio: real) returns (q: Pair)
    requires OneToOne(c) && |c| > 0 && 0.0 <= ratio <= 1.0
    ensures q in c && q.n1 !in Firsts(Lowest(c, ratio)) && q.n2 !in Seconds(Lowest(c, ratio))
  {
    var removed := Lowest(c, ratio);
    var kept := RemoveAll(c, removed);
    CutPointBound(ratio, |c|);
    KeepCutCount(c, ratio);
    KeptNodesNotReset(c, ratio);
    SubsequenceMembers(kept, c);
    q := kept[0];
  }

  /** Flags only go up when every committed node was unpaired. */
  lemma SideFlags(paired: seq<bool>, a: set<nat>, rm: set<nat>)
    requires rm <= a && forall x :: x in a ==> x < |paired| && !paired[x]
    ensures var q := Cleared(Marked(paired, a), rm);
      forall x :: 0 <= x < |paired| && paired[x] ==> q[x]
  {}

  /** The state one round leaves. Each side selects from its remaining
      list and its base order, the matcher pairs the two selections, the
      denoted pairs are committed (their nodes flagged, their neighbours
      reached), the lowest `cut_point` of them are cut (their nodes
      cleared), the remaining lists drop the flagged nodes and the kept
      pairs are appended. */
  function RoundOf(g1: Network, g2: Network, sim: seq<real>, base1: seq<nat>, base2: seq<nat>,
                   cap: int, ratio: real, matcher: Matcher, lag: seq<Pair>, e: Extension)
    : (r: Extension)
    requires Valid(g1) && Valid(g2) && Consistent(e, g1.n, g2.n, sim)
    requires Below(base1, g1.n) && Below(base2, g2.n)
    requires Assigns(matcher)
    ensures |r.paired1| == g1.n && |r.paired2| == g2.n
  {
    var sel1 := RoundSelection(e.remains1, e.reached1, base1, e.paired1, cap);
    var sel2 := RoundSelection(e.remains2, e.reached2, base2, e.paired2, cap);
    SelectionUnpaired(e.remains1, e.reached1, base1, e.paired1, cap);
    SelectionUnpaired(e.remains2, e.reached2, base2, e.paired2, cap);
    var a := matcher(lag, e, sel1, sel2);
    assert IsAssignment(a, |sel1|, |sel2|);
    var c := Committed(a.0, a.1, sel1, sel2, sim, g1.n, g2.n);
    var removed := Lowest(c, ratio);
    var q1 := Cleared(Marked(e.paired1, Firsts(c)), Firsts(removed));
    var q2 := Cleared(Marked(e.paired2, Seconds(c)), Seconds(removed));
    Extension(Unpaired(e.remains1, q1), Unpaired(e.remains2, q2),
              e.reached1 + ReachOf(g1, Firsts(c)), e.reached2 + ReachOf(g2, Seconds(c)),
              q1, q2, e.pairs + RemoveAll(c, removed))
  }

  /** A round keeps the bookkeeping consistent, only raises flags, only
      appends pairs and only grows the reached sets; with duplicate-free,
      non-empty selections and a ratio in [0, 1] it flags at least one more
      node on each side. */
  lemma RoundOfKeeps(g1: Network, g2: Network, sim: seq<real>, base1: seq<nat>, base2: seq<nat>,
                     cap: int, ratio: real, matcher: Matcher, lag: seq<Pair>, e: Extension)
    requires Valid(g1) && Valid(g2) && Consistent(e, g1.n, g2.n, sim)
    requires Below(base1, g1.n) && Below(base2, g2.n)
    requires Assigns(matcher)
    ensures var r := RoundOf(g1, g2, sim, base1, base2, cap, ratio, matcher, lag, e);
      && Consistent(r, g1.n, g2.n, sim)
      && (forall x :: 0 <= x < g1.n && e.paired1[x] ==> r.paired1[x])
      && (forall x :: 0 <= x < g2.n && e.paired2[x] ==> r.paired2[x])
      && |e.pairs| <= |r.pairs| && r.pairs[..|e.pairs|] == e.pairs
      && e.reached1 <= r.reached1 && e.reached2 <= r.reached2
    ensures var sel1 := RoundSelection(e.remains1, e.reached1, base1, e.paired1, cap);
      var sel2 := RoundSelection(e.remains2, e.reached2, base2, e.paired2, cap);
      var r := RoundOf(g1, g2, sim, base1, base2, cap, ratio, matcher, lag, e);
      Distinct(sel1) && Distinct(sel2) && |sel1| > 0 && |sel2| > 0 && 0.0 <= ratio <= 1.0 ==>
        CountUnset(r.paired1) < CountUnset(e.paired1) && CountUnset(r.paired2) < CountUnset(e.paired2)
  {
    var sel1 := RoundSelection(e.remains1, e.reached1, base1, e.paired1, cap);
    var sel2 := RoundSelection(e.remains2, e.reached2, base2, e.paired2, cap);
    SelectionUnpaired(e.remains1, e.reached1, base1, e.paired1, cap);
    SelectionUnpaired(e.remains2, e.reached2, base2, e.paired2, cap);
    var a := matcher(lag, e, sel1, sel2);
    assert IsAssignment(a, |sel1|, |sel2|);
    assert |e.paired1| == g1.n && |e.paired2| == g2.n;
    var c := Committed(a.0, a.1, sel1, sel2, sim, g1.n, g2.n);
    CommittedNodes(a.0, a.1, sel1, sel2, sim, g1.n, g2.n);
    RoundBookkeeping(e, g1.n, g2.n, sim, sel1, sel2, c, ratio);
    var r := RoundOf(g1, g2, sim, base1, base2, cap, ratio, matcher, lag, e);
    assert r.pairs[..|e.pairs|] == e.pairs;
    if Distinct(sel1) && Distinct(sel2) && |sel1| > 0 && |sel2| > 0 && 0.0 <= ratio <= 1.0 {
      RoundProgress(e.paired1, e.paired2, a.0, a.1, sel1, sel2, sim, g1.n, g2.n, ratio);
    }
  }

  /** What the matcher of round `i` of a trace is given as the pairs one
      round back: the pairs before the previous round, or the set-up's
      pairs for the first round (align.py:1488-1489). */
  function LagOf(trace: seq<Extension>, i: nat): seq<Pair>
    requires i < |trace|
  {
    if i == 0 then trace[0].pairs else trace[i - 1].pairs
  }

  /** `trace` lists the states of successive rounds: each state but the
      last is consistent and not finished, and the next state is the round
      taken from it. */
  ghost predicate RoundTrace(g1: Network, g2: Network, sim: seq<real>, base1: seq<nat>, base2: seq<nat>,
                             cap: int, ratio: real, matcher: Matcher,
                             trace: seq<Extension>)
    requires Valid(g1) && Valid(g2) && Below(base1, g1.n) && Below(base2, g2.n)
    requires Assigns(matcher)
  {
    forall i :: 0 <= i < |trace| - 1 ==>
      && Consistent(trace[i], g1.n, g2.n, sim)
      && !AllSet(trace[i].paired1) && !AllSet(trace[i].paired2)
      && trace[i + 1] == RoundOf(g1, g2, sim, base1, base2, cap, ratio, matcher, LagOf(trace, i), trace[i])
  }

  /** One round of the `multiple+cut` loop (align.py:1495-1619): select on
      both sides, match, commit, cut, filter the remaining lists, recompute
      `finished` and append the kept pairs. The similarity blend the
      matcher sees is not modelled; `matcher` stands for it and is given
      the state and `lag`, the pairs as they stood when the previous round
      began. */
  method Round(g1: Network, g2: Network, sim: seq<real>, base1: seq<nat>, base2: seq<nat>,
               cap: int, ratio: real, matcher: Matcher, lag: seq<Pair>, e: Extension)
    returns (e': Extension, finished: bool)
    requires Valid(g1) && Valid(g2) && Consistent(e, g1.n, g2.n, sim)
    requires Below(base1, g1.n) && Below(base2, g2.n)
    requires Assigns(matcher)
    ensures e' == RoundOf(g1, g2, sim, base1, base2, cap, ratio, matcher, lag, e)
    ensures Consistent(e', g1.n, g2.n, sim)
    ensures finished == (AllSet(e'.paired1) || AllSet(e'.paired2))
    ensures forall x :: 0 <= x < g1.n && e.paired1[x] ==> e'.paired1[x]
    ensures forall x :: 0 <= x < g2.n && e.paired2[x] ==> e'.paired2[x]
    ensures |e.pairs| <= |e'.pairs| && e'.pairs[..|e.pairs|] == e.pairs
    ensures e.reached1 <= e'.reached1 && e.reached2 <= e'.reached2
    ensures var sel1 := RoundSelection(e.remains1, e.reached1, base1, e.paired1, cap);
      var sel2 := RoundSelection(e.remains2, e.reached2, base2, e.paired2, cap);
      Distinct(sel1) && Distinct(sel2) && |sel1| > 0 && |sel2| > 0 && 0.0 <= ratio <= 1.0 ==>
        CountUnset(e'.paired1) < CountUnset(e.paired1) && CountUnset(e'.paired2) < CountUnset(e.paired2)
  {
    var sel1 := SelectRound(e.remains1, e.reached1, base1, e.paired1, cap);
    var sel2 := SelectRound(e.remains2, e.reached2, base2, e.paired2, cap);
    SelectionUnpaired(e.remains1, e.reached1, base1, e.paired1, cap);
    SelectionUnpaired(e.remains2, e.reached2, base2, e.paired2, cap);
    var assignment := matcher(lag, e, sel1, sel2);
    assert IsAssignment(assignment, |sel1|, |sel2|);
    var pl1, pl2 := assignment.0, assignment.1;
    assert |e.paired1| == g1.n && |e.paired2| == g2.n;
    assert Addressable(pl1, pl2, sel1, sel2, g1.n, g2.n);
    var newPairs, p1, p2, r1, r2 := CommitRound(g1, g2, sim, pl1, pl2, sel1, sel2,
                                                e.paired1, e.paired2, e.reached1, e.reached2);
    CommittedNodes(pl1, pl2, sel1, sel2, sim, g1.n, g2.n);
    SplitNodes(newPairs, ratio);
    var kept, q1, q2 := KeepCut(newPairs, ratio, p1, p2);
    var remains1 := Unpaired(e.remains1, q1);
    var remains2 := Unpaired(e.remains2, q2);
    finished := AllSet(q1) || AllSet(q2);
    e' := Extension(remains1, remains2, r1, r2, q1, q2, e.pairs + kept);
    RoundOfKeeps(g1, g2, sim, base1, base2, cap, ratio, matcher, lag, e);
  }

  /** The `multiple+cut` loop (align.py:1491-1619): rounds run until one
      side is fully paired. The loop has no bound of its own; `fuel` caps
      the number of rounds modelled. `trace` records the state before each
      round and the final one. */
  method MultipleCut(g1: Network, g2: Network, sim: seq<real>, base1: seq<nat>, base2: seq<nat>,
                     cap: int, ratio: real, matcher: Matcher,
                     e0: Extension, fuel: nat)
    returns (e: Extension, finished: bool, ghost trace: seq<Extension>)
    requires Valid(g1) && Valid(g2) && Consistent(e0, g1.n, g2.n, sim)
    requires Below(base1, g1.n) && Below(base2, g2.n)
    requires Assigns(matcher)
    ensures Consistent(e, g1.n, g2.n, sim)
    ensures finished == (AllSet(e.paired1) || AllSet(e.paired2))
    ensures forall x :: 0 <= x < g1.n && e0.paired1[x] ==> e.paired1[x]
    ensures forall x :: 0 <= x < g2.n && e0.paired2[x] ==> e.paired2[x]
    ensures |e0.pairs| <= |e.pairs| && e.pairs[..|e0.pairs|] == e0.pairs
    ensures 1 <= |trace| <= fuel + 1 && trace[0] == e0 && trace[|trace| - 1] == e
    ensures RoundTrace(g1, g2, sim, base1, base2, cap, ratio, matcher, trace)
    ensures finished || |trace| == fuel + 1
  {
    e := e0;
    trace := [e0];
    var lag := e0.pairs;
    FinishedTests(e, g1.n, g2.n, sim);
    finished := |e.remains1| == 0 || |e.remains2| == 0;
    var rounds := 0;
    while !finished && rounds < fuel
      invariant Consistent(e, g1.n, g2.n, sim)
      invariant finished == (AllSet(e.paired1) || AllSet(e.paired2))
      invariant rounds <= fuel && |trace| == rounds + 1 && trace[0] == e0 && trace[rounds] == e
      invariant RoundTrace(g1, g2, sim, base1, base2, cap, ratio, matcher, trace)
      invariant lag == LagOf(trace, rounds)
      decreases fuel - rounds
    {
      var before := e.pairs;
      e, finished := Round(g1, g2, sim, base1, base2, cap, ratio, matcher, lag, e);
      TraceSnoc(g1, g2, sim, base1, base2, cap, ratio, matcher, trace, e);
      trace := trace + [e];
      rounds := rounds + 1;
      lag := before;
    }
    TraceKeeps(g1, g2, sim, base1, base2, cap, ratio, matcher, trace);
  }

  /** Along a trace flags only rise and pairs are only appended. */
  lemma {:induction false} TraceKeeps(g1: Network, g2: Network, sim: seq<real>, base1: seq<nat>, base2: seq<nat>,
                                      cap: int, ratio: real, matcher: Matcher,
                                      trace: seq<Extension>)
    requires Valid(g1) && Valid(g2) && Below(base1, g1.n) && Below(base2, g2.n)
    requires Assigns(matcher)
    requires RoundTrace(g1, g2, sim, base1, base2, cap, ratio, matcher, trace) && trace != []
    requires Consistent(trace[0], g1.n, g2.n, sim)
    ensures Grows(trace[0], trace[|trace| - 1], g1.n, g2.n)
    decreases |trace|
  {
    var last := |trace| - 1;
    if last == 0 {
      assert trace[0].pairs[..|trace[0].pairs|] == trace[0].pairs;
    } else {
      var pre := trace[..last];
      assert RoundTrace(g1, g2, sim, base1, base2, cap, ratio, matcher, pre) by {
        forall i | 0 <= i < |pre| - 1
          ensures && Consistent(pre[i], g1.n, g2.n, sim)
                  && !AllSet(pre[i].paired1) && !AllSet(pre[i].paired2)
                  && pre[i + 1] == RoundOf(g1, g2, sim, base1, base2, cap, ratio, matcher, LagOf(pre, i), pre[i])
        {
          assert pre[i] == trace[i] && pre[i + 1] == trace[i + 1];
          assert LagOf(pre, i) == LagOf(trace, i);
        }
      }
      TraceKeeps(g1, g2, sim, base1, base2, cap, ratio, matcher, pre);
      assert last - 1 < |trace| - 1;
      RoundOfKeeps(g1, g2, sim, base1, base2, cap, ratio, matcher, LagOf(trace, last - 1), trace[last - 1]);
      GrowsTrans(trace[0], trace[last - 1], trace[last], g1.n, g2.n);
    }
  }

  /** A round is a function of its state and of the pairs one round back,
      so a trace is determined by its first state and its length. */
  lemma TraceUnique(g1: Network, g2: Network, sim: seq<real>, base1: seq<nat>, base2: seq<nat>,
                    cap: int, ratio: real, matcher: Matcher, t1: seq<Extension>, t2: seq<Extension>)
    requires Valid(g1) && Valid(g2) && Below(base1, g1.n) && Below(base2, g2.n)
    requires Assigns(matcher)
    requires RoundTrace(g1, g2, sim, base1, base2, cap, ratio, matcher, t1)
    requires RoundTrace(g1, g2, sim, base1, base2, cap, ratio, matcher, t2)
    requires |t1| == |t2| > 0 && t1[0] == t2[0]
    ensures t1 == t2
  {
    forall j | 0 <= j < |t1|
      ensures t1[j] == t2[j]
    {
      TraceAgree(g1, g2, sim, base1, base2, cap, ratio, matcher, t1, t2, j);
    }
  }

  /** Two traces with the same first state agree at every position. */
  lemma {:induction false} TraceAgree(g1: Network, g2: Network, sim: seq<real>, base1: seq<nat>, base2: seq<nat>,
                                      cap: int, ratio: real, matcher: Matcher,
                                      t1: seq<Extension>, t2: seq<Extension>, j: nat)
    requires Valid(g1) && Valid(g2) && Below(base1, g1.n) && Below(base2, g2.n)
    requires Assigns(matcher)
    requires RoundTrace(g1, g2, sim, base1, base2, cap, ratio, matcher, t1)
    requires RoundTrace(g1, g2, sim, base1, base2, cap, ratio, matcher, t2)
    requires j < |t1| == |t2| && t1[0] == t2[0]
    ensures t1[j] == t2[j] && LagOf(t1, j) == LagOf(t2, j)
    decreases j
  {
    if j > 0 {
      TraceAgree(g1, g2, sim, base1, base2, cap, ratio, matcher, t1, t2, j - 1);
      assert t1[j] == RoundOf(g1, g2, sim, base1, base2, cap, ratio, matcher, LagOf(t1, j - 1), t1[j - 1]);
      assert t2[j] == RoundOf(g1, g2, sim, base1, base2, cap, ratio, matcher, LagOf(t2, j - 1), t2[j - 1]);
    }
  }

  /** `r` comes later than `e`: flags only rose and pairs were only
      appended. */
  ghost predicate Grows(e: Extension, r: Extension, n1: nat, n2: nat) {
    && |e.paired1| == n1 && |e.paired2| == n2 && |r.paired1| == n1 && |r.paired2| == n2
    && (forall x :: 0 <= x < n1 && e.paired1[x] ==> r.paired1[x])
    && (forall x :: 0 <= x < n2 && e.paired2[x] ==> r.paired2[x])
    && |e.pairs| <= |r.pairs| && r.pairs[..|e.pairs|] == e.pairs
  }

  lemma GrowsTrans(a: Extension, b: Extension, c: Extension, n1: nat, n2: nat)
    requires Grows(a, b, n1, n2) && Grows(b, c, n1, n2)
    ensures Grows(a, c, n1, n2)
  {
    assert c.pairs[..|a.pairs|] == c.pairs[..|b.pairs|][..|a.pairs|];
  }

  /** A round taken from a consistent, unfinished last state extends the
      trace. */
  lemma TraceSnoc(g1: Network, g2: Network, sim: seq<real>, base1: seq<nat>, base2: seq<nat>,
                  cap: int, ratio: real, matcher: Matcher,
                  trace: seq<Extension>, next: Extension)
    requires Valid(g1) && Valid(g2) && Below(base1, g1.n) && Below(base2, g2.n)
    requires Assigns(matcher)
    requires RoundTrace(g1, g2, sim, base1, base2, cap, ratio, matcher, trace) && trace != []
    requires var last := trace[|trace| - 1];
      && Consistent(last, g1.n, g2.n, sim) && !AllSet(last.paired1) && !AllSet(last.paired2)
      && next == RoundOf(g1, g2, sim, base1, base2, cap, ratio, matcher, LagOf(trace, |trace| - 1), last)
    ensures RoundTrace(g1, g2, sim, base1, base2, cap, ratio, matcher, trace + [next])
  {
    var t := trace + [next];
    forall i | 0 <= i < |t| - 1
      ensures && Consistent(t[i], g1.n, g2.n, sim)
              && !AllSet(t[i].paired1) && !AllSet(t[i].paired2)
              && t[i + 1] == RoundOf(g1, g2, sim, base1, base2, cap, ratio, matcher, LagOf(t, i), t[i])
    {
      assert t[i] == trace[i] && LagOf(t, i) == LagOf(trace, i);
      if i + 1 < |trace| {
        assert t[i + 1] == trace[i + 1];
      }
    }
  }
}
