/** Seed selection in `seed_extend_align` (align.py): the per-component base
    seed, the degree-ranked seed, the commit of matched seed pairs, and the
    keep-ratio cut that drops the weakest new pairs. The node order
    `node_idx` (an argsort of node scores) and the component labels are
    inputs; the matcher that pairs selected nodes is left abstract. */
module Seeds {
  import opened Common
  import opened Sorting
  import opened Organism

  /** `reversed(s)`. */
  function Reversed(s: seq<nat>): (r: seq<nat>)
    ensures |r| == |s|
    ensures forall i :: 0 <= i < |s| ==> r[i] == s[|s| - 1 - i]
  {
    if s == [] then [] else [s[|s| - 1]] + Reversed(s[..|s| - 1])
  }

  /** `order` lists every node 0..n-1 exactly once, as an argsort does. */
  predicate IsOrder(order: seq<nat>, n: nat) {
    |order| == n && Distinct(order) && Below(order, n)
  }

  lemma ReversedBelow(s: seq<nat>, n: nat)
    requires Below(s, n)
    ensures Below(Reversed(s), n)
  {}

  // ---------------------------------------------------------------------
  // Base seed: the first node of each component in reversed node order
  // ---------------------------------------------------------------------

  /** The component labels of the nodes in `ns`. */
  function LabelsOf(ns: seq<nat>, labels: seq<nat>): set<nat> {
    set x | x in ns && x < |labels| :: labels[x]
  }

  lemma LabelsOfSnoc(ns: seq<nat>, x: nat, labels: seq<nat>)
    requires x < |labels|
    ensures LabelsOf(ns + [x], labels) == LabelsOf(ns, labels) + {labels[x]}
  {
    assert forall y :: y in ns + [x] <==> y in ns || y == x;
  }

  /** Nodes of `s` whose label has not occurred earlier in `s`, in order:
      what the base-seed loop collects. */
  function FirstPerLabel(s: seq<nat>, labels: seq<nat>): (r: seq<nat>)
    requires Below(s, |labels|)
    ensures Below(r, |labels|)
    ensures forall y :: y in r ==> y in s
    decreases |s|
  {
    if s == [] then []
    else
      var pre := s[..|s| - 1];
      var x := s[|s| - 1];
      var r := FirstPerLabel(pre, labels);
      if labels[x] in LabelsOf(r, labels) then r else r + [x]
  }

  /** One more step of the walk. */
  lemma FirstPerLabelStep(s: seq<nat>, labels: seq<nat>, k: nat)
    requires k < |s| && Below(s, |labels|)
    ensures var r := FirstPerLabel(s[..k], labels);
      FirstPerLabel(s[..k + 1], labels) == if labels[s[k]] in LabelsOf(r, labels) then r else r + [s[k]]
  {
    assert s[..k + 1][..k] == s[..k];
  }

  /** Once every label of `s` is covered, the rest of `s` adds nothing. */
  lemma {:induction false} FirstPerLabelSaturated(s: seq<nat>, labels: seq<nat>, k: nat)
    requires k <= |s| && Below(s, |labels|)
    requires forall i :: 0 <= i < |s| ==> labels[s[i]] in LabelsOf(FirstPerLabel(s[..k], labels), labels)
    ensures FirstPerLabel(s, labels) == FirstPerLabel(s[..k], labels)
    decreases |s| - k
  {
    if k < |s| {
      var pre := s[..|s| - 1];
      assert pre[..k] == s[..k];
      FirstPerLabelSaturated(pre, labels, k);
    } else {
      assert s[..k] == s;
    }
  }

  /** The base seed holds one node per label (no two share one, and every
      label of `s` is represented). */
  lemma {:induction false} FirstPerLabelCovers(s: seq<nat>, labels: seq<nat>)
    requires Below(s, |labels|)
    ensures var r := FirstPerLabel(s, labels);
      && (forall i, j :: 0 <= i < j < |r| ==> labels[r[i]] != labels[r[j]])
      && LabelsOf(r, labels) == LabelsOf(s, labels)
    decreases |s|
  {
    if s != [] {
      var pre := s[..|s| - 1];
      var x := s[|s| - 1];
      FirstPerLabelCovers(pre, labels);
      var r0 := FirstPerLabel(pre, labels);
      assert s == pre + [x];
      LabelsOfSnoc(pre, x, labels);
      if labels[x] !in LabelsOf(r0, labels) {
        LabelsOfSnoc(r0, x, labels);
        var r := r0 + [x];
        forall i, j | 0 <= i < j < |r| ensures labels[r[i]] != labels[r[j]] {
          if j == |r0| {
            assert r[i] in r0;
          } else {
            assert r[i] == r0[i] && r[j] == r0[j];
          }
        }
      }
    }
  }

  /** `s[i]` is the first node of `s` carrying its label. */
  predicate FirstOfLabel(s: seq<nat>, labels: seq<nat>, i: nat)
    requires i < |s| && Below(s, |labels|)
  {
    forall j :: 0 <= j < i ==> labels[s[j]] != labels[s[i]]
  }

  /** Every node that is the first of its label is in the base seed. */
  lemma {:induction false} FirstPerLabelFirsts(s: seq<nat>, labels: seq<nat>)
    requires Below(s, |labels|)
    ensures forall i :: 0 <= i < |s| && FirstOfLabel(s, labels, i) ==> s[i] in FirstPerLabel(s, labels)
    decreases |s|
  {
    if s != [] {
      var pre := s[..|s| - 1];
      var x := s[|s| - 1];
      FirstPerLabelFirsts(pre, labels);
      var r0 := FirstPerLabel(pre, labels);
      forall i | 0 <= i < |s| && FirstOfLabel(s, labels, i) ensures s[i] in FirstPerLabel(s, labels) {
        if i < |pre| {
          assert FirstOfLabel(pre, labels, i) by {
            forall j | 0 <= j < i ensures labels[pre[j]] != labels[pre[i]] {
              assert pre[j] == s[j] && pre[i] == s[i];
            }
          }
        } else {
          assert labels[x] !in LabelsOf(r0, labels);
        }
      }
    }
  }

  /** `comp_in_seed`: for every component, whether `base` already holds a
      node of it. */
  function CompFlags(labels: seq<nat>, base: seq<nat>): map<nat, bool> {
    map l | l in labels :: l in LabelsOf(base, labels)
  }

  lemma CompFlagsSnoc(labels: seq<nat>, base: seq<nat>, i: nat)
    requires i < |labels|
    ensures CompFlags(labels, base + [i]) == CompFlags(labels, base)[labels[i] := true]
  {
    LabelsOfSnoc(base, i, labels);
  }

  /** When the component flags are all set, the walk can stop: the rest of
      the order adds no node. */
  lemma AllComponentsIn(s: seq<nat>, labels: seq<nat>, k: nat, base: seq<nat>)
    requires k <= |s| && Below(s, |labels|)
    requires base == FirstPerLabel(s[..k], labels)
    requires forall l :: l in CompFlags(labels, base) ==> CompFlags(labels, base)[l]
    ensures FirstPerLabel(s, labels) == base
  {
    forall j | 0 <= j < |s| ensures labels[s[j]] in LabelsOf(base, labels) {
      var l := labels[s[j]];
      assert l in CompFlags(labels, base);
    }
    FirstPerLabelSaturated(s, labels, k);
  }

  /** The base-seed loop (align.py:1020-1041): walks `reversed(node_idx)`,
      keeps a node when its component is not yet in the seed, and stops as
      soon as every component is in. */
  method BaseSelect(order: seq<nat>, labels: seq<nat>) returns (base: seq<nat>)
    requires Below(order, |labels|)
    ensures Below(Reversed(order), |labels|)
    ensures base == FirstPerLabel(Reversed(order), labels)
  {
    ghost var rev := Reversed(order);
    ReversedBelow(order, |labels|);
    var compInSeed: map<nat, bool> := map l | l in labels :: false;
    base := [];
    var k := 0;
    var allIn := false;
    assert rev[..0] == [];
    while k < |order| && !allIn
      invariant k <= |order|
      invariant base == FirstPerLabel(rev[..k], labels)
      invariant compInSeed == CompFlags(labels, base)
      invariant allIn ==> FirstPerLabel(rev, labels) == base
    {
      var i := order[|order| - 1 - k];
      BaseNext(order, rev, labels, k, base);
      if !compInSeed[labels[i]] {
        base := base + [i];
        compInSeed := compInSeed[labels[i] := true];
      }
      k := k + 1;
      allIn := forall l :: l in compInSeed ==> compInSeed[l];
      if allIn {
        AllComponentsIn(rev, labels, k, base);
      }
    }
    if !allIn {
      PrefixAll(rev);
    }
  }

  /** One step of the base-seed loop, node `k` of the reversed order. */
  lemma BaseNext(order: seq<nat>, rev: seq<nat>, labels: seq<nat>, k: nat, base: seq<nat>)
    requires rev == Reversed(order) && k < |order| && Below(rev, |labels|)
    requires base == FirstPerLabel(rev[..k], labels)
    ensures var i := order[|order| - 1 - k];
      && i < |labels| && labels[i] in CompFlags(labels, base)
      && (CompFlags(labels, base)[labels[i]] ==> FirstPerLabel(rev[..k + 1], labels) == base)
      && (!CompFlags(labels, base)[labels[i]] ==>
            FirstPerLabel(rev[..k + 1], labels) == base + [i] &&
            CompFlags(labels, base + [i]) == CompFlags(labels, base)[labels[i] := true])
  {
    var i := order[|order| - 1 - k];
    assert rev[k] == i;
    FirstPerLabelStep(rev, labels, k);
    CompFlagsSnoc(labels, base, i);
  }

  // ---------------------------------------------------------------------
  // Degree seed (`blast+cut_coeff`)
  // ---------------------------------------------------------------------

  /** How many nodes the degree seed takes: the loop appends before it
      checks the cap, so at least one node when there is one, otherwise
      MAX_SEED_SIZE, and never more than the network has. */
  function SeedCount(maxSeed: int, n: nat): (r: nat)
    ensures r <= n
    ensures n > 0 ==> r >= 1
  {
    if n == 0 then 0
    else if maxSeed <= 1 then 1
    else if maxSeed <= n then maxSeed
    else n
  }

  lemma ReversedOrder(order: seq<nat>, n: nat)
    requires IsOrder(order, n)
    ensures IsOrder(Reversed(order), n)
  {
    var r := Reversed(order);
    forall a, b | 0 <= a < b < |r| ensures r[a] != r[b] {
      assert r[a] == order[n - 1 - a] && r[b] == order[n - 1 - b];
    }
  }

  /** The degree seed (align.py:1101-1117): walk `reversed(node_idx)` and
      append every node not yet selected until the seed reaches
      MAX_SEED_SIZE; if it stays below, top it up from `base_select`. The
      result is the first `SeedCount` nodes of the reversed order: the top
      up never adds a node, because the walk can only end below the cap
      after selecting every node. */
  method DegreeSeed(order: seq<nat>, base: seq<nat>, maxSeed: int) returns (select: seq<nat>)
    requires IsOrder(order, |order|)
    requires Below(base, |order|)
    ensures select == Reversed(order)[..SeedCount(maxSeed, |order|)]
    ensures Distinct(select)
  {
    var n := |order|;
    ghost var rev := Reversed(order);
    ReversedOrder(order, n);
    var selected := seq(n, _ => false);
    select := [];
    var k := 0;
    while k < n
      invariant k <= n && |selected| == n
      invariant select == rev[..k]
      invariant forall x :: 0 <= x < n ==> (selected[x] <==> x in rev[..k])
      invariant k == 0 || k < maxSeed
    {
      var i := order[n - 1 - k];
      assert rev[..k + 1] == rev[..k] + [i];
      assert i !in rev[..k];
      if !selected[i] {
        select := select + [i];
        selected := selected[i := true];
      }
      k := k + 1;
      if |select| >= maxSeed {
        break;
      }
    }
    if |select| < maxSeed {
      assert k == n;
      DistinctBelowCovers(rev, n);
      assert rev[..k] == rev;
      var j := 0;
      while j < |base|
        invariant j <= |base|
        invariant select == rev
        invariant forall x :: 0 <= x < n ==> selected[x]
      {
        var i := base[j];
        if !selected[i] {
          // Unreachable: every node was selected by the walk above.
          assert false;
        }
        if |select| >= maxSeed {
          break;
        }
        j := j + 1;
      }
    }
  }

  /** Degree seeding fills the cap by rank alone, so a component can be
      missing from the seed: with two isolated nodes and a cap of one, only
      the higher-ranked node is taken. */
  lemma DegreeSeedMissesComponent()
    ensures var order: seq<nat> := [0, 1];
      var labels: seq<nat> := [0, 1];
      var seed := Reversed(order)[..SeedCount(1, 2)];
      seed == [1] && 0 in LabelsOf(order, labels) && 0 !in LabelsOf(seed, labels)
  {
    var order: seq<nat> := [0, 1];
    assert Reversed(order) == [1, 0];
    assert order[0] == 0;
  }

  // ---------------------------------------------------------------------
  // Committing the matched seed pairs
  // ---------------------------------------------------------------------

  /** The matcher's index lists `pl1`/`pl2` address the selections. */
  predicate Addressable(pl1: seq<nat>, pl2: seq<nat>, sel1: seq<nat>, sel2: seq<nat>, n1: nat, n2: nat) {
    |pl1| == |pl2| && Below(pl1, |sel1|) && Below(pl2, |sel2|) && Below(sel1, n1) && Below(sel2, n2)
  }

  /** The pairs the matcher's assignment denotes: entry i pairs
      `sel1[pl1[i]]` with `sel2[pl2[i]]` and carries their similarity. */
  function Committed(pl1: seq<nat>, pl2: seq<nat>, sel1: seq<nat>, sel2: seq<nat>,
                     sim: seq<real>, n1: nat, n2: nat): seq<Pair>
    requires Addressable(pl1, pl2, sel1, sel2, n1, n2) && |sim| == n1 * n2
  {
    seq(|pl1|, i requires 0 <= i < |pl1| =>
      Pair(sel1[pl1[i]], sel2[pl2[i]], SimAt(sim, n1, n2, sel1[pl1[i]], sel2[pl2[i]])))
  }

  /** A one-to-one assignment over duplicate-free selections yields
      one-to-one pairs. */
  lemma CommittedOneToOne(pl1: seq<nat>, pl2: seq<nat>, sel1: seq<nat>, sel2: seq<nat>,
                          sim: seq<real>, n1: nat, n2: nat)
    requires Addressable(pl1, pl2, sel1, sel2, n1, n2) && |sim| == n1 * n2
    requires Distinct(pl1) && Distinct(pl2) && Distinct(sel1) && Distinct(sel2)
    ensures OneToOne(Committed(pl1, pl2, sel1, sel2, sim, n1, n2))
  {
    var c := Committed(pl1, pl2, sel1, sel2, sim, n1, n2);
    forall i, j | 0 <= i < j < |c| ensures c[i].n1 != c[j].n1 && c[i].n2 != c[j].n2 {
      assert pl1[i] != pl1[j] && pl2[i] != pl2[j];
    }
  }

  /** A node may appear twice among the committed pairs when it appears
      twice in a selection, even under a one-to-one assignment. */
  lemma CommittedDuplicateNode()
    ensures var c := Committed([0, 1], [0, 1], [5, 5], [0, 1], seq(12, _ => 0.0), 6, 2);
      |c| == 2 && c[0].n1 == c[1].n1 == 5
  {
    var c := Committed([0, 1], [0, 1], [5, 5], [0, 1], seq(12, _ => 0.0), 6, 2);
    assert c[0].n1 == 5 && c[1].n1 == 5;
  }

  /** The flags after setting `node_paired[n] = True` for every n of `nodes`. */
  function Marked(flags: seq<bool>, nodes: set<nat>): (r: seq<bool>)
    ensures |r| == |flags|
  {
    seq(|flags|, x requires 0 <= x < |flags| => flags[x] || x in nodes)
  }

  /** The flags after setting `node_paired[n] = False` for every n of `nodes`. */
  function Cleared(flags: seq<bool>, nodes: set<nat>): (r: seq<bool>)
    ensures |r| == |flags|
  {
    seq(|flags|, x requires 0 <= x < |flags| => flags[x] && x !in nodes)
  }

  lemma MarkedAdd(flags: seq<bool>, nodes: set<nat>, a: nat)
    requires a < |flags|
    ensures Marked(flags, nodes + {a}) == Marked(flags, nodes)[a := true]
  {}

  lemma ClearedAdd(flags: seq<bool>, nodes: set<nat>, a: nat)
    requires a < |flags|
    ensures Cleared(flags, nodes + {a}) == Cleared(flags, nodes)[a := false]
  {}

  /** The commit loop (align.py:1452-1459): for each assignment entry append
      the pair with its similarity and mark both nodes paired. */
  method CommitPairs(pl1: seq<nat>, pl2: seq<nat>, sel1: seq<nat>, sel2: seq<nat>,
                     sim: seq<real>, n1: nat, n2: nat, paired1: seq<bool>, paired2: seq<bool>)
    returns (newPairs: seq<Pair>, p1: seq<bool>, p2: seq<bool>)
    requires Addressable(pl1, pl2, sel1, sel2, n1, n2) && |sim| == n1 * n2
    requires |paired1| == n1 && |paired2| == n2
    ensures newPairs == Committed(pl1, pl2, sel1, sel2, sim, n1, n2)
    ensures p1 == Marked(paired1, Firsts(newPairs))
    ensures p2 == Marked(paired2, Seconds(newPairs))
  {
    ghost var all := Committed(pl1, pl2, sel1, sel2, sim, n1, n2);
    newPairs, p1, p2 := [], paired1, paired2;
    assert Firsts([]) == {} && Seconds([]) == {};
    for i := 0 to |pl1|
      invariant newPairs == all[..i]
      invariant p1 == Marked(paired1, Firsts(newPairs))
      invariant p2 == Marked(paired2, Seconds(newPairs))
    {
      var a := sel1[pl1[i]];
      var b := sel2[pl2[i]];
      var pair := Pair(a, b, SimAt(sim, n1, n2, a, b));
      CommittedNext(pl1, pl2, sel1, sel2, sim, n1, n2, i);
      MarkNext(paired1, paired2, newPairs, pair);
      newPairs := newPairs + [pair];
      p1 := p1[a := true];
      p2 := p2[b := true];
    }
    PrefixAll(all);
  }

  /** Entry `i` of the committed pairs, appended to the first `i`. */
  lemma CommittedNext(pl1: seq<nat>, pl2: seq<nat>, sel1: seq<nat>, sel2: seq<nat>,
                      sim: seq<real>, n1: nat, n2: nat, i: nat)
    requires Addressable(pl1, pl2, sel1, sel2, n1, n2) && |sim| == n1 * n2 && i < |pl1|
    ensures var all := Committed(pl1, pl2, sel1, sel2, sim, n1, n2);
      var a, b := sel1[pl1[i]], sel2[pl2[i]];
      a < n1 && b < n2 && all[..i + 1] == all[..i] + [Pair(a, b, SimAt(sim, n1, n2, a, b))]
  {
    var all := Committed(pl1, pl2, sel1, sel2, sim, n1, n2);
    assert all[..i + 1] == all[..i] + [all[i]];
  }

  /** Marking the two nodes of one more pair. */
  lemma MarkNext(paired1: seq<bool>, paired2: seq<bool>, ps: seq<Pair>, pair: Pair)
    requires pair.n1 < |paired1| && pair.n2 < |paired2|
    ensures Marked(paired1, Firsts(ps))[pair.n1 := true] == Marked(paired1, Firsts(ps + [pair]))
    ensures Marked(paired2, Seconds(ps))[pair.n2 := true] == Marked(paired2, Seconds(ps + [pair]))
  {
    FirstsSnoc(ps, pair);
    MarkedAdd(paired1, Firsts(ps), pair.n1);
    MarkedAdd(paired2, Seconds(ps), pair.n2);
  }

  // ---------------------------------------------------------------------
  // The keep cut
  // ---------------------------------------------------------------------

  /** Python's `int()` on a float: truncation toward zero. */
  function Trunc(x: real): (r: int)
    ensures x >= 0.0 ==> r as real <= x < r as real + 1.0
    ensures x < 0.0 ==> r as real - 1.0 < x <= r as real
  {
    if x >= 0.0 then x.Floor else -((-x).Floor)
  }

  /** `cut_point = max(int((1 - ratio) * k) - 1, 0)`. */
  function CutPoint(ratio: real, k: nat): (r: nat) {
    var t := Trunc((1.0 - ratio) * k as real) - 1;
    if t > 0 then t else 0
  }

  /** For a ratio in [0, 1] the cut removes fewer pairs than there are (and
      none from an empty list). */
  lemma CutPointBound(ratio: real, k: nat)
    requires 0.0 <= ratio <= 1.0
    ensures CutPoint(ratio, k) <= k
    ensures k > 0 ==> CutPoint(ratio, k) < k
  {
    var x := (1.0 - ratio) * k as real;
    assert 0.0 <= x <= k as real;
    assert Trunc(x) <= k;
  }

  /** With the configured `SEED_KEEP_RATIO = 0.3` and ten pairs the cut
      drops six: int(0.7 * 10) - 1; a single pair is never dropped. */
  lemma CutPointExample()
    ensures CutPoint(0.3, 10) == 6 && CutPoint(0.3, 1) == 0
  {
    assert (1.0 - 0.3) * 10 as real == 7.0;
    assert (1.0 - 0.3) * 1 as real == 0.7;
  }

  /** The pairs the cut drops: the first `cut_point` pairs of the stable
      ascending sort by score (a slice, so it stops at the list's end). */
  function Lowest(newPairs: seq<Pair>, ratio: real): (r: seq<Pair>)
    ensures |r| <= |newPairs|
  {
    var c := CutPoint(ratio, |newPairs|);
    SortByScore(newPairs, false)[..if c <= |newPairs| then c else |newPairs|]
  }

  /** `s` after `s.remove(x)` for every x of `rs`, in order. */
  function RemoveAll<T(==)>(s: seq<T>, rs: seq<T>): seq<T> {
    if rs == [] then s else RemoveFirst(RemoveAll(s, rs[..|rs| - 1]), rs[|rs| - 1])
  }

  lemma {:induction false} RemoveAllCount<T>(s: seq<T>, rs: seq<T>)
    requires multiset(rs) <= multiset(s)
    ensures multiset(RemoveAll(s, rs)) == multiset(s) - multiset(rs)
    ensures |RemoveAll(s, rs)| == |s| - |rs|
    decreases |rs|
  {
    if rs != [] {
      var pre := rs[..|rs| - 1];
      var x := rs[|rs| - 1];
      assert rs == pre + [x];
      assert multiset(rs) == multiset(pre) + multiset{x};
      RemoveAllCount(s, pre);
      var t := RemoveAll(s, pre);
      assert multiset(t)[x] == multiset(s)[x] - multiset(pre)[x];
      assert x in multiset(t);
      RemoveFirstCount(t, x);
    }
  }

  lemma {:induction false} RemoveAllSubsequence<T>(s: seq<T>, rs: seq<T>)
    ensures IsSubsequence(RemoveAll(s, rs), s)
    decreases |rs|
  {
    if rs == [] {
      SubsequenceRefl(s);
    } else {
      var t := RemoveAll(s, rs[..|rs| - 1]);
      RemoveAllSubsequence(s, rs[..|rs| - 1]);
      RemoveFirstSubsequence(t, rs[|rs| - 1]);
      SubsequenceTrans(RemoveFirst(t, rs[|rs| - 1]), t, s);
    }
  }

  /** The dropped pairs are a prefix of the sorted list, so they come from
      the list itself. */
  lemma LowestMembers(newPairs: seq<Pair>, ratio: real)
    ensures multiset(Lowest(newPairs, ratio)) <= multiset(newPairs)
    ensures forall p :: p in Lowest(newPairs, ratio) ==> p in newPairs
  {
    var sorted := SortByScore(newPairs, false);
    var removed := Lowest(newPairs, ratio);
    assert sorted == removed + sorted[|removed|..];
    assert multiset(sorted) == multiset(removed) + multiset(sorted[|removed|..]);
    forall p | p in removed ensures p in newPairs {
      assert p in multiset(sorted);
    }
  }

  /** The cut keeps `k - |Lowest|` pairs: exactly the dropped ones go, and
      the kept pairs stay in their original order. */
  lemma KeepCutCount(newPairs: seq<Pair>, ratio: real)
    ensures var removed := Lowest(newPairs, ratio);
      var kept := RemoveAll(newPairs, removed);
      && multiset(kept) + multiset(removed) == multiset(newPairs)
      && |kept| == |newPairs| - |removed|
      && IsSubsequence(kept, newPairs)
  {
    LowestMembers(newPairs, ratio);
    RemoveAllCount(newPairs, Lowest(newPairs, ratio));
    RemoveAllSubsequence(newPairs, Lowest(newPairs, ratio));
  }

  /** In an ascending list every entry of a prefix scores at most every
      entry after it. */
  lemma SortedSplit(sorted: seq<Pair>, c: nat)
    requires c <= |sorted| && Sorted(sorted, false)
    ensures forall p, q :: p in sorted[..c] && q in sorted[c..] ==> p.score <= q.score
  {
    forall p, q | p in sorted[..c] && q in sorted[c..] ensures p.score <= q.score {
      var j :| 0 <= j < |sorted[c..]| && sorted[c..][j] == q;
      var i :| 0 <= i < c && sorted[..c][i] == p;
      assert InOrder(sorted[i], sorted[c + j], false);
    }
  }

  /** What the cut keeps is, as a multiset, the sorted list after the cut. */
  lemma KeptIsRest(newPairs: seq<Pair>, ratio: real)
    ensures var sorted := SortByScore(newPairs, false);
      var removed := Lowest(newPairs, ratio);
      multiset(RemoveAll(newPairs, removed)) == multiset(sorted[|removed|..])
  {
    var sorted := SortByScore(newPairs, false);
    var removed := Lowest(newPairs, ratio);
    assert sorted == removed + sorted[|removed|..];
    assert multiset(sorted) == multiset(removed) + multiset(sorted[|removed|..]);
    LowestMembers(newPairs, ratio);
    RemoveAllCount(newPairs, removed);
  }

  /** No kept pair scores below a dropped one. */
  lemma KeepCutScores(newPairs: seq<Pair>, ratio: real)
    ensures var removed := Lowest(newPairs, ratio);
      forall p, q :: p in removed && q in RemoveAll(newPairs, removed) ==> p.score <= q.score
  {
    var sorted := SortByScore(newPairs, false);
    var removed := Lowest(newPairs, ratio);
    var c := |removed|;
    assert removed == sorted[..c];
    SortedSplit(sorted, c);
    KeptIsRest(newPairs, ratio);
    forall q | q in RemoveAll(newPairs, removed) ensures q in sorted[c..] {
      assert q in multiset(RemoveAll(newPairs, removed));
    }
  }

  /** Nodes of kept pairs stay flagged: in a one-to-one list no dropped
      pair shares a node with a kept one. */
  lemma KeptNodesNotReset(newPairs: seq<Pair>, ratio: real)
    requires OneToOne(newPairs)
    ensures var removed := Lowest(newPairs, ratio);
      forall q :: q in RemoveAll(newPairs, removed) ==> q.n1 !in Firsts(removed) && q.n2 !in Seconds(removed)
  {
    var removed := Lowest(newPairs, ratio);
    var kept := RemoveAll(newPairs, removed);
    KeepCutCount(newPairs, ratio);
    LowestMembers(newPairs, ratio);
    forall q | q in kept ensures q.n1 !in Firsts(removed) && q.n2 !in Seconds(removed) {
      assert q in multiset(kept);
      assert q in multiset(newPairs);
      var k :| 0 <= k < |newPairs| && newPairs[k] == q;
      SingleOccurrence(newPairs, k);
      assert q !in removed;
      OthersDiffer(newPairs, q);
    }
  }

  lemma RemoveAllStep<T>(s: seq<T>, rs: seq<T>, j: nat)
    requires j < |rs|
    ensures RemoveAll(s, rs[..j + 1]) == RemoveFirst(RemoveAll(s, rs[..j]), rs[j])
  {
    assert rs[..j + 1][..j] == rs[..j];
  }

  lemma ResetStep(paired1: seq<bool>, paired2: seq<bool>, rs: seq<Pair>, j: nat)
    requires j < |rs| && rs[j].n1 < |paired1| && rs[j].n2 < |paired2|
    ensures Cleared(paired1, Firsts(rs[..j + 1])) == Cleared(paired1, Firsts(rs[..j]))[rs[j].n1 := false]
    ensures Cleared(paired2, Seconds(rs[..j + 1])) == Cleared(paired2, Seconds(rs[..j]))[rs[j].n2 := false]
  {
    assert rs[..j + 1] == rs[..j] + [rs[j]];
    FirstsSnoc(rs[..j], rs[j]);
    ClearedAdd(paired1, Firsts(rs[..j]), rs[j].n1);
    ClearedAdd(paired2, Seconds(rs[..j]), rs[j].n2);
  }

  /** The keep cut (align.py:1463-1471, and align.py:1596-1605 in the
      extension rounds): sort the new pairs by score, and for each of the
      first `cut_point` clear both nodes' paired flags and remove the pair
      from the list. */
  method KeepCut(newPairs: seq<Pair>, ratio: real, paired1: seq<bool>, paired2: seq<bool>)
    returns (kept: seq<Pair>, q1: seq<bool>, q2: seq<bool>)
    requires forall p :: p in newPairs ==> p.n1 < |paired1| && p.n2 < |paired2|
    ensures kept == RemoveAll(newPairs, Lowest(newPairs, ratio))
    ensures q1 == Cleared(paired1, Firsts(Lowest(newPairs, ratio)))
    ensures q2 == Cleared(paired2, Seconds(Lowest(newPairs, ratio)))
  {
    var sorted := SortByScore(newPairs, false);
    var c := CutPoint(ratio, |newPairs|);
    if c > |sorted| {
      c := |sorted|;
    }
    var removed := sorted[..c];
    assert removed == Lowest(newPairs, ratio);
    LowestMembers(newPairs, ratio);
    kept, q1, q2 := newPairs, paired1, paired2;
    assert Firsts([]) == {} && Seconds([]) == {};
    for j := 0 to c
      invariant kept == RemoveAll(newPairs, removed[..j])
      invariant q1 == Cleared(paired1, Firsts(removed[..j]))
      invariant q2 == Cleared(paired2, Seconds(removed[..j]))
    {
      var pair := removed[j];
      assert pair in removed;
      RemoveAllStep(newPairs, removed, j);
      ResetStep(paired1, paired2, removed, j);
      q1 := q1[pair.n1 := false];
      q2 := q2[pair.n2 := false];
      kept := RemoveFirst(kept, pair);
    }
    assert removed[..c] == removed;
  }
}
