/** Cluster bookkeeping of organism.py: the node <-> (cluster, position)
    tables of `OrgCluster`, the label-size dictionary of the clustering
    loops, the split pass that moves the nodes of one oversized cluster to
    fresh labels, the gap-bound labelling of the spectral-order clusterings
    and the bound coupling of `min_couple_l2`. The eigenvector order, the
    gap order and the spectral split itself are inputs. */
module Clusters {
  import opened Common

  // ---------------------------------------------------------------------
  // OrgCluster tables

  /** The three tables `OrgCluster.__init__` builds for one side:
      `clSize[l]` counts the nodes labelled `l`; `nodeDic[i]` is node i's
      label with the number of earlier nodes carrying the same label; and
      `clDic` inverts `nodeDic`, its keys being exactly the positions
      0..clSize[l]-1 of every cluster l. */
  ghost predicate ClusterTables(labels: seq<nat>, labelCnt: nat, clSize: seq<nat>,
                                nodeDic: map<nat, (nat, nat)>, clDic: map<(nat, nat), nat>)
  {
    && SizesExact(labels, labelCnt, clSize)
    && NodesExact(labels, nodeDic)
    && PositionsExact(labelCnt, clSize, clDic)
    && Inverse(|labels|, nodeDic, clDic)
  }

  /** `clSize[l]` counts the nodes labelled `l`. */
  ghost predicate SizesExact(labels: seq<nat>, labelCnt: nat, clSize: seq<nat>) {
    |clSize| == labelCnt && forall l: nat :: l < labelCnt ==> clSize[l] == CountOf(labels, l)
  }

  /** `nodeDic[i]` is node i's label and its rank among the nodes so
      labelled. */
  ghost predicate NodesExact(labels: seq<nat>, nodeDic: map<nat, (nat, nat)>) {
    && (forall i: nat :: i in nodeDic <==> i < |labels|)
    && (forall i :: 0 <= i < |labels| ==> nodeDic[i] == (labels[i], CountOf(labels[..i], labels[i])))
  }

  /** The keys of `clDic` are the positions 0..clSize[l]-1 of every
      cluster l. */
  ghost predicate PositionsExact(labelCnt: nat, clSize: seq<nat>, clDic: map<(nat, nat), nat>) {
    |clSize| == labelCnt && forall key :: key in clDic <==> key.0 < labelCnt && key.1 < clSize[key.0]
  }

  /** `clDic` and the first `n` entries of `nodeDic` invert each other. */
  ghost predicate Inverse(n: nat, nodeDic: map<nat, (nat, nat)>, clDic: map<(nat, nat), nat>) {
    && (forall key :: key in clDic ==> clDic[key] < n && clDic[key] in nodeDic && nodeDic[clDic[key]] == key)
    && (forall i :: 0 <= i < n && i in nodeDic ==> nodeDic[i] in clDic && clDic[nodeDic[i]] == i)
  }

  /** One side of `OrgCluster.__init__`: walk the nodes in index order,
      give each the next free position of its cluster and count it. */
  method IndexClusters(labels: seq<nat>, labelCnt: nat)
    returns (clSize: seq<nat>, nodeDic: map<nat, (nat, nat)>, clDic: map<(nat, nat), nat>)
    requires forall i :: 0 <= i < |labels| ==> labels[i] < labelCnt
    ensures ClusterTables(labels, labelCnt, clSize, nodeDic, clDic)
  {
    clSize := seq(labelCnt, _ => 0);
    nodeDic := map[];
    clDic := map[];
    var index := 0;
    TablesEmpty(labelCnt, clSize);
    while index < |labels|
      invariant index <= |labels|
      invariant ClusterTables(labels[..index], labelCnt, clSize, nodeDic, clDic)
    {
      var l := labels[index];
      TablesStep(labels, index, labelCnt, clSize, nodeDic, clDic);
      nodeDic := nodeDic[index := (l, clSize[l])];
      clDic := clDic[(l, clSize[l]) := index];
      clSize := clSize[l := clSize[l] + 1];
      index := index + 1;
    }
    TablesWhole(labels, labelCnt, clSize, nodeDic, clDic);
  }

  lemma TablesWhole(labels: seq<nat>, labelCnt: nat, clSize: seq<nat>,
                    nodeDic: map<nat, (nat, nat)>, clDic: map<(nat, nat), nat>)
    requires ClusterTables(labels[..|labels|], labelCnt, clSize, nodeDic, clDic)
    ensures ClusterTables(labels, labelCnt, clSize, nodeDic, clDic)
  {
    assert labels[..|labels|] == labels;
  }

  lemma TablesEmpty(labelCnt: nat, clSize: seq<nat>)
    requires clSize == seq(labelCnt, _ => 0)
    ensures ClusterTables([], labelCnt, clSize, map[], map[])
  {
  }

  /** Indexing node `index` keeps the tables exact. */
  lemma TablesStep(labels: seq<nat>, index: nat, labelCnt: nat, clSize: seq<nat>,
                   nodeDic: map<nat, (nat, nat)>, clDic: map<(nat, nat), nat>)
    requires index < |labels| && labels[index] < labelCnt
    requires ClusterTables(labels[..index], labelCnt, clSize, nodeDic, clDic)
    ensures var l := labels[index];
      ClusterTables(labels[..index + 1], labelCnt, clSize[l := clSize[l] + 1],
                    nodeDic[index := (l, clSize[l])], clDic[(l, clSize[l]) := index])
  {
    var l := labels[index];
    var prefix := labels[..index];
    assert labels[..index + 1] == prefix + [l];
    SizesStep(prefix, l, labelCnt, clSize);
    NodesStep(prefix, l, labelCnt, clSize, nodeDic);
    ClusterDomainExtend(clDic, clDic[(l, clSize[l]) := index], clSize, clSize[l := clSize[l] + 1], labelCnt, l, index);
    InverseStep(index, nodeDic, clDic, (l, clSize[l]));
  }

  lemma SizesStep(prefix: seq<nat>, l: nat, labelCnt: nat, clSize: seq<nat>)
    requires l < labelCnt && SizesExact(prefix, labelCnt, clSize)
    ensures SizesExact(prefix + [l], labelCnt, clSize[l := clSize[l] + 1])
  {
    forall x: nat | x < labelCnt ensures clSize[l := clSize[l] + 1][x] == CountOf(prefix + [l], x) {
      CountOfAppend(prefix, [l], x);
    }
  }

  lemma NodesStep(prefix: seq<nat>, l: nat, labelCnt: nat, clSize: seq<nat>, nodeDic: map<nat, (nat, nat)>)
    requires l < labelCnt && SizesExact(prefix, labelCnt, clSize) && NodesExact(prefix, nodeDic)
    ensures NodesExact(prefix + [l], nodeDic[|prefix| := (l, clSize[l])])
  {
    var labels := prefix + [l];
    var nodeDic' := nodeDic[|prefix| := (l, clSize[l])];
    forall i | 0 <= i < |labels| ensures nodeDic'[i] == (labels[i], CountOf(labels[..i], labels[i])) {
      if i < |prefix| {
        assert labels[..i] == prefix[..i];
      } else {
        assert labels[..i] == prefix;
      }
    }
  }

  lemma InverseStep(index: nat, nodeDic: map<nat, (nat, nat)>, clDic: map<(nat, nat), nat>, key: (nat, nat))
    requires Inverse(index, nodeDic, clDic) && key !in clDic && index !in nodeDic
    ensures Inverse(index + 1, nodeDic[index := key], clDic[key := index])
  {
  }

  lemma ClusterDomainExtend(clDic: map<(nat, nat), nat>, clDic': map<(nat, nat), nat>,
                            clSize: seq<nat>, clSize': seq<nat>, labelCnt: nat, l: nat, index: nat)
    requires |clSize| == labelCnt && l < labelCnt
    requires PositionsExact(labelCnt, clSize, clDic)
    requires clDic' == clDic[(l, clSize[l]) := index] && clSize' == clSize[l := clSize[l] + 1]
    ensures PositionsExact(labelCnt, clSize', clDic')
  {
    forall key ensures key in clDic' <==> key.0 < labelCnt && key.1 < clSize'[key.0] {
      if key.0 == l {
        assert clSize'[l] == clSize[l] + 1;
      } else if key.0 < labelCnt {
        assert clSize'[key.0] == clSize[key.0];
      }
    }
  }

  /** Sum of the counts of the labels below `bound`. */
  function CountSum(labels: seq<nat>, bound: nat): nat {
    if bound == 0 then 0
    else
      var l: nat := bound - 1;
      CountSum(labels, l) + CountOf(labels, l)
  }

  lemma {:induction false} CountSumHead(labels: seq<nat>, bound: nat)
    requires labels != []
    ensures CountSum(labels, bound) == CountSum(labels[1..], bound) + (if labels[0] < bound then 1 else 0)
    decreases bound
  {
    if bound > 0 {
      CountSumHead(labels, bound - 1);
    }
  }

  /** When every label is below `bound`, the cluster sizes add up to the
      number of nodes. */
  lemma {:induction false} CountSumIsLength(labels: seq<nat>, bound: nat)
    requires forall i :: 0 <= i < |labels| ==> labels[i] < bound
    ensures CountSum(labels, bound) == |labels|
    decreases |labels|
  {
    if labels == [] {
      CountSumEmpty(bound);
    } else {
      CountSumHead(labels, bound);
      CountSumIsLength(labels[1..], bound);
    }
  }

  lemma {:induction false} CountSumEmpty(bound: nat)
    ensures CountSum([], bound) == 0
    decreases bound
  {
    if bound > 0 {
      CountSumEmpty(bound - 1);
    }
  }

  /** `OrgCluster`: the tables of both sides. */
  class OrgCluster {
    const labels1: seq<nat>
    const labelCnt1: nat
    const labels2: seq<nat>
    const labelCnt2: nat
    var clSize1: seq<nat>
    var nodeDic1: map<nat, (nat, nat)>
    var clDic1: map<(nat, nat), nat>
    var clSize2: seq<nat>
    var nodeDic2: map<nat, (nat, nat)>
    var clDic2: map<(nat, nat), nat>

    ghost predicate Valid()
      reads this
    {
      && ClusterTables(labels1, labelCnt1, clSize1, nodeDic1, clDic1)
      && ClusterTables(labels2, labelCnt2, clSize2, nodeDic2, clDic2)
    }

    constructor(labels1: seq<nat>, labelCnt1: nat, labels2: seq<nat>, labelCnt2: nat)
      requires forall i :: 0 <= i < |labels1| ==> labels1[i] < labelCnt1
      requires forall i :: 0 <= i < |labels2| ==> labels2[i] < labelCnt2
      ensures Valid()
      ensures this.labels1 == labels1 && this.labelCnt1 == labelCnt1
      ensures this.labels2 == labels2 && this.labelCnt2 == labelCnt2
    {
      this.labels1 := labels1;
      this.labelCnt1 := labelCnt1;
      this.labels2 := labels2;
      this.labelCnt2 := labelCnt2;
      var s1, n1, c1 := IndexClusters(labels1, labelCnt1);
      var s2, n2, c2 := IndexClusters(labels2, labelCnt2);
      clSize1, nodeDic1, clDic1 := s1, n1, c1;
      clSize2, nodeDic2, clDic2 := s2, n2, c2;
    }
  }

  /** The cluster sizes of a side add up to its node count, and each
      cluster's positions are filled by exactly its members. */
  lemma ClusterSizesTotal(labels: seq<nat>, labelCnt: nat, clSize: seq<nat>,
                          nodeDic: map<nat, (nat, nat)>, clDic: map<(nat, nat), nat>)
    requires forall i :: 0 <= i < |labels| ==> labels[i] < labelCnt
    requires ClusterTables(labels, labelCnt, clSize, nodeDic, clDic)
    ensures CountSum(labels, labelCnt) == |labels|
    ensures forall l: nat, k: nat :: l < labelCnt && k < clSize[l] ==> (l, k) in clDic && labels[clDic[(l, k)]] == l
  {
    CountSumIsLength(labels, labelCnt);
    forall l: nat, k: nat | l < labelCnt && k < clSize[l] ensures (l, k) in clDic && labels[clDic[(l, k)]] == l {
      assert (l, k) in clDic;
    }
  }

  // ---------------------------------------------------------------------
  // Label sizes and the split pass

  /** The recorded size of label `l`, 0 when it has no entry. */
  function Get(sizes: map<nat, int>, l: nat): int {
    if l in sizes then sizes[l] else 0
  }

  /** The size dictionary agrees with the labels for every label. */
  ghost predicate SizesMatch(sizes: map<nat, int>, labels: seq<nat>) {
    forall l: nat :: Get(sizes, l) == CountOf(labels, l)
  }

  /** The size count of the clustering loops: one pass over the labels,
      adding one to the entry of each label met (absent entries count 0). */
  method LabelSizes(labels: seq<nat>) returns (sizes: map<nat, int>)
    ensures forall l :: l in sizes <==> l in labels
    ensures SizesMatch(sizes, labels)
  {
    sizes := map[];
    var k := 0;
    while k < |labels|
      invariant k <= |labels|
      invariant forall l :: l in sizes <==> l in labels[..k]
      invariant SizesMatch(sizes, labels[..k])
    {
      var cl := labels[k];
      assert labels[..k + 1] == labels[..k] + [cl];
      forall x: nat ensures CountOf(labels[..k + 1], x) == CountOf(labels[..k], x) + (if cl == x then 1 else 0) {
        CountOfAppend(labels[..k], [cl], x);
      }
      var sizes' := sizes[cl := Get(sizes, cl) + 1];
      forall x: nat ensures Get(sizes', x) == CountOf(labels[..k + 1], x) {
        assert Get(sizes, x) == CountOf(labels[..k], x);
      }
      sizes := sizes';
      k := k + 1;
    }
    assert labels[..k] == labels;
  }

  /** Sum of the recorded sizes of the labels below `bound`. */
  function Total(sizes: map<nat, int>, bound: nat): int {
    if bound == 0 then 0 else Total(sizes, bound - 1) + Get(sizes, bound - 1)
  }

  /** A size dictionary that agrees with the labels totals the node count. */
  lemma {:induction false} SizesTotal(sizes: map<nat, int>, labels: seq<nat>, bound: nat)
    requires SizesMatch(sizes, labels)
    requires forall i :: 0 <= i < |labels| ==> labels[i] < bound
    ensures Total(sizes, bound) == |labels|
  {
    TotalIsCountSum(sizes, labels, bound);
    CountSumIsLength(labels, bound);
  }

  lemma {:induction false} TotalIsCountSum(sizes: map<nat, int>, labels: seq<nat>, bound: nat)
    requires SizesMatch(sizes, labels)
    ensures Total(sizes, bound) == CountSum(labels, bound)
    decreases bound
  {
    if bound > 0 {
      var l: nat := bound - 1;
      TotalIsCountSum(sizes, labels, l);
      assert Get(sizes, l) == CountOf(labels, l);
      assert Total(sizes, bound) == Total(sizes, l) + Get(sizes, l);
      assert CountSum(labels, bound) == CountSum(labels, l) + CountOf(labels, l);
    }
  }

  /** The labels after moving node `c.0` of each change to `newlabel + c.1`,
      in order. */
  function Relabel(labels: seq<nat>, changes: seq<(nat, nat)>, newlabel: nat): seq<nat>
    requires forall k :: 0 <= k < |changes| ==> changes[k].0 < |labels|
    ensures |Relabel(labels, changes, newlabel)| == |labels|
  {
    if changes == [] then labels
    else
      var last := changes[|changes| - 1];
      Relabel(labels, changes[..|changes| - 1], newlabel)[last.0 := newlabel + last.1]
  }

  /** Conditions under which the source calls the split pass: the changed
      nodes are distinct members of cluster `label`, they move to labels
      `newlabel + x` with 0 < x < nccluster, and `newlabel` is at least every
      label in use. */
  ghost predicate SplitReady(labels: seq<nat>, cl: nat, changes: seq<(nat, nat)>,
                             newlabel: nat, nccluster: nat)
  {
    && (forall k :: 0 <= k < |changes| ==>
          changes[k].0 < |labels| && labels[changes[k].0] == cl && 0 < changes[k].1 < nccluster)
    && (forall a, b :: 0 <= a < b < |changes| ==> changes[a].0 != changes[b].0)
    && (forall i :: 0 <= i < |labels| ==> labels[i] <= newlabel)
  }

  /** One split of an oversized cluster (organism.py:181-188 and the same
      lines in the two gap clusterings): take the moved nodes off the old
      label's size, then relabel each moved node and count it under its new
      label. The size dictionary still agrees with the labels afterwards,
      and every label stays at most the advanced `newlabel`. */
  method SplitPass(labels: array<nat>, sizes: map<nat, int>, cl: nat,
                   changes: seq<(nat, nat)>, newlabel: nat, nccluster: nat)
    returns (sizes': map<nat, int>)
    modifies labels
    requires SizesMatch(sizes, labels[..])
    requires SplitReady(labels[..], cl, changes, newlabel, nccluster)
    ensures labels[..] == Relabel(old(labels[..]), changes, newlabel)
    ensures SizesMatch(sizes', labels[..])
    ensures nccluster > 0 ==> forall i :: 0 <= i < labels.Length ==> labels[i] <= newlabel + nccluster - 1
  {
    ghost var orig := labels[..];
    ghost var cur := orig;
    sizes' := sizes[cl := Get(sizes, cl) - |changes|];
    var k := 0;
    SplitInit(orig, cl, changes, newlabel, nccluster, sizes);
    while k < |changes|
      invariant labels[..] == cur
      invariant SplitInv(orig, cl, changes, newlabel, nccluster, k, cur, sizes')
    {
      var (change, x) := changes[k];
      var target: nat := newlabel + x;
      SplitStep(orig, cl, changes, newlabel, nccluster, k, cur, sizes');
      labels[change] := target;
      cur := cur[change := target];
      sizes' := sizes'[target := Get(sizes', target) + 1];
      k := k + 1;
    }
    SplitDone(orig, cl, changes, newlabel, nccluster, cur, sizes');
  }

  /** The split pass after `k` moves: the labels `cur` are the first `k`
      relabellings, the nodes still to move are still labelled `cl`, the
      size dictionary still owes `cl` the remaining moves, and every label
      is either unchanged or below the advanced bound. */
  ghost predicate SplitInv(orig: seq<nat>, cl: nat, changes: seq<(nat, nat)>, newlabel: nat, nccluster: nat,
                           k: nat, cur: seq<nat>, sizes: map<nat, int>)
  {
    && SplitReady(orig, cl, changes, newlabel, nccluster)
    && k <= |changes|
    && cur == Relabel(orig, changes[..k], newlabel)
    && (forall j :: k <= j < |changes| ==> cur[changes[j].0] == cl)
    && (forall l: nat :: Get(sizes, l) == CountOf(cur, l) - (if l == cl then |changes| - k else 0))
    && (forall i :: 0 <= i < |cur| ==> cur[i] <= newlabel + nccluster - 1 || cur[i] == orig[i])
  }

  lemma SplitInit(orig: seq<nat>, cl: nat, changes: seq<(nat, nat)>, newlabel: nat, nccluster: nat, sizes: map<nat, int>)
    requires SizesMatch(sizes, orig)
    requires SplitReady(orig, cl, changes, newlabel, nccluster)
    ensures SplitInv(orig, cl, changes, newlabel, nccluster, 0, orig, sizes[cl := Get(sizes, cl) - |changes|])
  {
    assert changes[..0] == [];
  }

  lemma SplitStep(orig: seq<nat>, cl: nat, changes: seq<(nat, nat)>, newlabel: nat, nccluster: nat,
                  k: nat, cur: seq<nat>, sizes: map<nat, int>)
    requires SplitInv(orig, cl, changes, newlabel, nccluster, k, cur, sizes) && k < |changes|
    ensures var (change, x) := changes[k];
      var target := newlabel + x;
      change < |cur| &&
      SplitInv(orig, cl, changes, newlabel, nccluster, k + 1, cur[change := target], sizes[target := Get(sizes, target) + 1])
  {
    var (change, x) := changes[k];
    var target := newlabel + x;
    assert target != cl by {
      assert orig[change] == cl;
    }
    MoveCounted(cur, cur[change := target], change, target, cl, |changes| - k, sizes, sizes[target := Get(sizes, target) + 1]);
    RelabelSnoc(orig, changes, k, newlabel);
  }

  lemma SplitDone(orig: seq<nat>, cl: nat, changes: seq<(nat, nat)>, newlabel: nat, nccluster: nat,
                  cur: seq<nat>, sizes: map<nat, int>)
    requires SplitInv(orig, cl, changes, newlabel, nccluster, |changes|, cur, sizes)
    ensures cur == Relabel(orig, changes, newlabel)
    ensures SizesMatch(sizes, cur)
    ensures nccluster > 0 ==> forall i :: 0 <= i < |cur| ==> cur[i] <= newlabel + nccluster - 1
  {
    assert changes[..|changes|] == changes;
  }

  /** Moving one node off `cl` while `d` moves are still owed to it. */
  lemma MoveCounted(before: seq<nat>, after: seq<nat>, change: nat, target: nat, cl: nat, d: nat,
                    sizes: map<nat, int>, sizes': map<nat, int>)
    requires change < |before| && before[change] == cl && target != cl && d >= 1
    requires after == before[change := target] && sizes' == sizes[target := Get(sizes, target) + 1]
    requires forall l: nat :: Get(sizes, l) == CountOf(before, l) - (if l == cl then d else 0)
    ensures forall l: nat :: Get(sizes', l) == CountOf(after, l) - (if l == cl then d - 1 else 0)
  {
    forall l: nat ensures CountOf(after, l) == CountOf(before, l) - (if cl == l then 1 else 0) + (if target == l then 1 else 0) {
      CountOfUpdate(before, change, target, l);
    }
  }

  lemma RelabelSnoc(labels: seq<nat>, changes: seq<(nat, nat)>, k: nat, newlabel: nat)
    requires k < |changes| && forall j :: 0 <= j < |changes| ==> changes[j].0 < |labels|
    ensures Relabel(labels, changes[..k + 1], newlabel) == Relabel(labels, changes[..k], newlabel)[changes[k].0 := newlabel + changes[k].1]
  {
    assert changes[..k + 1][..k] == changes[..k];
  }


  /** The split pass keeps the total of the recorded sizes: it only moves
      nodes between labels. */
  lemma SplitKeepsTotal(before: seq<nat>, after: seq<nat>, sizes: map<nat, int>,
                        sizes': map<nat, int>, bound: nat)
    requires |before| == |after|
    requires SizesMatch(sizes, before) && SizesMatch(sizes', after)
    requires forall i :: 0 <= i < |before| ==> before[i] < bound && after[i] < bound
    ensures Total(sizes', bound) == Total(sizes, bound) == |before|
  {
    SizesTotal(sizes, before, bound);
    SizesTotal(sizes', after, bound);
  }

  /** Strictly increasing. */
  predicate Ascending(s: seq<nat>) {
    forall a, b :: 0 <= a < b < |s| ==> s[a] < s[b]
  }

  /** `selector`: the nodes currently labelled `label`, ascending. */
  function Selector(labels: seq<nat>, cl: nat): (r: seq<nat>)
    ensures forall x: nat :: x in r <==> x < |labels| && labels[x] == cl
    ensures Ascending(r)
  {
    if labels == [] then []
    else
      var m := |labels| - 1;
      var rest := Selector(labels[..m], cl);
      SelectorStep(labels, cl, rest);
      rest + (if labels[m] == cl then [m] else [])
  }

  lemma SelectorStep(labels: seq<nat>, cl: nat, rest: seq<nat>)
    requires labels != []
    requires forall x: nat :: x in rest <==> x < |labels| - 1 && labels[..|labels| - 1][x] == cl
    requires Ascending(rest)
    ensures var r := rest + (if labels[|labels| - 1] == cl then [|labels| - 1] else []);
      (forall x: nat :: x in r <==> x < |labels| && labels[x] == cl) && Ascending(r)
  {
    var m := |labels| - 1;
    var r := rest + (if labels[m] == cl then [m] else []);
    forall x: nat ensures x in r <==> x < |labels| && labels[x] == cl {
      if x < m {
        assert labels[..m][x] == labels[x];
      }
    }
    forall a, b | 0 <= a < b < |r| ensures r[a] < r[b] {
      if b >= |rest| {
        assert rest[a] in rest;
      }
    }
  }

  /** `c` pairs a selected node with its new cluster index, which is not 0. */
  predicate ChangeIn(selector: seq<nat>, cclusters: seq<nat>, c: (nat, nat)) {
    exists i :: 0 <= i < |selector| && i < |cclusters| && c == (selector[i], cclusters[i]) && cclusters[i] != 0
  }

  /** `changes`: the selected nodes whose new cluster index is not 0, each
      with that index. */
  function Changes(selector: seq<nat>, cclusters: seq<nat>): (r: seq<(nat, nat)>)
    requires |cclusters| == |selector|
    ensures forall c :: c in r <==> ChangeIn(selector, cclusters, c)
    ensures Ascending(selector) ==> forall a, b :: 0 <= a < b < |r| ==> r[a].0 < r[b].0
  {
    if selector == [] then []
    else
      var m := |selector| - 1;
      var rest := Changes(selector[..m], cclusters[..m]);
      var r := rest + (if cclusters[m] != 0 then [(selector[m], cclusters[m])] else []);
      ChangesStep(selector, cclusters, rest, r);
      r
  }

  lemma ChangesStep(selector: seq<nat>, cclusters: seq<nat>, rest: seq<(nat, nat)>, r: seq<(nat, nat)>)
    requires |cclusters| == |selector| > 0
    requires forall c :: c in rest <==> ChangeIn(selector[..|selector| - 1], cclusters[..|selector| - 1], c)
    requires Ascending(selector[..|selector| - 1]) ==> forall a, b :: 0 <= a < b < |rest| ==> rest[a].0 < rest[b].0
    requires var m := |selector| - 1;
      r == rest + (if cclusters[m] != 0 then [(selector[m], cclusters[m])] else [])
    ensures forall c :: c in r <==> ChangeIn(selector, cclusters, c)
    ensures Ascending(selector) ==> forall a, b :: 0 <= a < b < |r| ==> r[a].0 < r[b].0
  {
    var m := |selector| - 1;
    forall c ensures c in r <==> ChangeIn(selector, cclusters, c) {
      if c in rest {
        var i :| 0 <= i < m && i < m && c == (selector[..m][i], cclusters[..m][i]) && cclusters[..m][i] != 0;
        assert c == (selector[i], cclusters[i]) && cclusters[i] != 0;
      }
      if i :| 0 <= i < |selector| && i < |cclusters| && c == (selector[i], cclusters[i]) && cclusters[i] != 0 {
        if i < m {
          assert c == (selector[..m][i], cclusters[..m][i]) && cclusters[..m][i] != 0;
        }
      }
    }
    if Ascending(selector) {
      assert Ascending(selector[..m]);
      forall a, b | 0 <= a < b < |r| ensures r[a].0 < r[b].0 {
        if b >= |rest| {
          assert rest[a] in rest;
          var i :| 0 <= i < m && i < m && rest[a] == (selector[..m][i], cclusters[..m][i]) && cclusters[..m][i] != 0;
          assert selector[..m][i] == selector[i];
        }
      }
    }
  }

  /** The changes the source computes from the selector satisfy the split
      pass's preconditions when the new cluster indices are below
      `nccluster` and `newlabel` is the largest label in use. */
  lemma ChangesReady(labels: seq<nat>, cl: nat, cclusters: seq<nat>, newlabel: nat, nccluster: nat)
    requires |cclusters| == |Selector(labels, cl)|
    requires forall k :: 0 <= k < |cclusters| ==> cclusters[k] < nccluster
    requires forall i :: 0 <= i < |labels| ==> labels[i] <= newlabel
    ensures SplitReady(labels, cl, Changes(Selector(labels, cl), cclusters), newlabel, nccluster)
  {
    var sel := Selector(labels, cl);
    var ch := Changes(sel, cclusters);
    forall k | 0 <= k < |ch| ensures ch[k].0 < |labels| && labels[ch[k].0] == cl && 0 < ch[k].1 < nccluster {
      ChangeFrom(sel, cclusters, ch, k);
    }
  }

  lemma ChangeFrom(sel: seq<nat>, cclusters: seq<nat>, ch: seq<(nat, nat)>, k: nat)
    requires |cclusters| == |sel| && k < |ch|
    requires forall c :: c in ch <==> ChangeIn(sel, cclusters, c)
    ensures ch[k].0 in sel && ch[k].1 in cclusters && ch[k].1 != 0
  {
    assert ch[k] in ch;
    var i :| 0 <= i < |sel| && i < |cclusters| && ch[k] == (sel[i], cclusters[i]) && cclusters[i] != 0;
  }

  // ---------------------------------------------------------------------
  // Gap-bound labelling

  /** The bound indices below `i`. */
  function BoundsBelow(bounds: set<nat>, i: nat): set<nat> {
    set b | b in bounds && b < i
  }

  /** The labelling loop: position i gets the number of bounds already
      passed, and the label counter steps up after every bound position. */
  method GapLabels(m: nat, bounds: set<nat>) returns (clstrs: seq<nat>, clbl: nat)
    ensures |clstrs| == m
    ensures forall i :: 0 <= i < m ==> clstrs[i] == |BoundsBelow(bounds, i)|
    ensures clbl == |BoundsBelow(bounds, m)|
  {
    clbl := 0;
    clstrs := [];
    var i := 0;
    while i < m
      invariant i <= m && |clstrs| == i
      invariant forall j :: 0 <= j < i ==> clstrs[j] == |BoundsBelow(bounds, j)|
      invariant clbl == |BoundsBelow(bounds, i)|
    {
      clstrs := clstrs + [clbl];
      BoundsBelowStep(bounds, i);
      if i in bounds {
        clbl := clbl + 1;
      }
      i := i + 1;
    }
  }

  lemma BoundsBelowStep(bounds: set<nat>, i: nat)
    ensures |BoundsBelow(bounds, i + 1)| == |BoundsBelow(bounds, i)| + (if i in bounds then 1 else 0)
  {
    if i in bounds {
      assert BoundsBelow(bounds, i + 1) == BoundsBelow(bounds, i) + {i};
    } else {
      assert BoundsBelow(bounds, i + 1) == BoundsBelow(bounds, i);
    }
  }

  /** The labels run from 0, step up by one exactly after each bound
      position, and when all bounds lie among the m-1 gaps the last label is
      the number of bounds, so there are |bounds| + 1 clusters. */
  lemma GapLabelsShape(m: nat, bounds: set<nat>, clstrs: seq<nat>, clbl: nat)
    requires |clstrs| == m
    requires forall i :: 0 <= i < m ==> clstrs[i] == |BoundsBelow(bounds, i)|
    requires clbl == |BoundsBelow(bounds, m)|
    ensures m > 0 ==> clstrs[0] == 0
    ensures forall i :: 0 <= i < m - 1 ==> clstrs[i + 1] == clstrs[i] + (if i in bounds then 1 else 0)
    ensures (forall b :: b in bounds ==> b + 1 < m) ==> clbl == |bounds|
  {
    if m > 0 {
      assert BoundsBelow(bounds, 0) == {};
    }
    forall i | 0 <= i < m - 1 ensures clstrs[i + 1] == clstrs[i] + (if i in bounds then 1 else 0) {
      BoundsBelowStep(bounds, i);
    }
    if forall b :: b in bounds ==> b + 1 < m {
      assert BoundsBelow(bounds, m) == bounds;
    }
  }

  /** Python's `s[-k:]`: the last k entries, all of `s` when k is 0 (since
      -0 is 0) or exceeds the length. */
  function PyTail<T>(s: seq<T>, k: nat): seq<T> {
    if k == 0 || k > |s| then s else s[|s| - k..]
  }

  /** `rep_l2_clustering`: with a cluster of `size` nodes above the limit,
      the bounds are the `size // maxSize` largest gaps, so the labelling
      produces exactly `nccluster = size // maxSize + 1` labels,
      0..nccluster-1. */
  lemma RepL2LabelCount(gapidx: seq<nat>, size: nat, maxSize: nat)
    requires maxSize >= 2 && size > maxSize && |gapidx| == size - 1
    requires forall k :: 0 <= k < |gapidx| ==> gapidx[k] < |gapidx|
    requires forall a, b :: 0 <= a < b < |gapidx| ==> gapidx[a] != gapidx[b]
    ensures var nccluster := size / maxSize + 1;
      var bounds := Elements(PyTail(gapidx, nccluster - 1));
      |BoundsBelow(bounds, size)| == nccluster - 1
  {
    var k := size / maxSize;
    SplitCount(size, maxSize);
    var tail := PyTail(gapidx, k);
    assert tail == gapidx[|gapidx| - k..];
    DistinctElements(tail);
    var bounds := Elements(tail);
    assert BoundsBelow(bounds, size) == bounds;
  }

  /** Splitting more than `maxSize >= 2` nodes needs at least one and at
      most `size - 1` bounds. */
  lemma SplitCount(size: nat, maxSize: nat)
    requires maxSize >= 2 && size > maxSize
    ensures 1 <= size / maxSize <= size - 1
  {
    var k := size / maxSize;
    assert k * maxSize <= size;
    MulMonotone(2, maxSize, k);
  }

  lemma MulMonotone(a: nat, b: nat, k: nat)
    requires a <= b
    ensures k * a <= k * b
  {
  }

  // ---------------------------------------------------------------------
  // Bound coupling of min_couple_l2

  /** `bound_selected.get(i, True)`. */
  function GetSel(sel: seq<bool>, i: int): bool {
    if 0 <= i < |sel| then sel[i] else true
  }

  /** Gaps s..e are all dropped: their positions s..e+1 form one cluster. */
  predicate AllDropped(sel: seq<bool>, s: int, e: int)
    requires 0 <= s <= e < |sel|
  {
    forall g :: s <= g <= e ==> !sel[g]
  }

  /** Every run of dropped gaps joins fewer than `maxSize` positions. */
  predicate RunsShort(sel: seq<bool>, maxSize: int) {
    forall s, e :: 0 <= s <= e < |sel| && AllDropped(sel, s, e) ==> e - s + 2 < maxSize
  }

  /** `gapidx` lists each of the gaps 0..|gapidx|-1 once. */
  predicate IsPermutation(gapidx: seq<nat>) {
    && (forall k :: 0 <= k < |gapidx| ==> gapidx[k] < |gapidx|)
    && (forall a, b :: 0 <= a < b < |gapidx| ==> gapidx[a] != gapidx[b])
    && (forall g :: 0 <= g < |gapidx| ==> g in gapidx)
  }

  /** Dropping kept gap `g` would join a run of `maxSize` or more
      positions, so the coupling has to keep it. */
  ghost predicate MustKeep(sel: seq<bool>, maxSize: int, g: nat)
    requires g < |sel|
  {
    !RunsShort(sel[g := false], maxSize)
  }

  /** The coupling loop: in increasing gap order, grow the run of dropped
      gaps around each gap, first leftwards and then rightwards, while it
      joins fewer than `maxSize` positions; drop the gap itself when the
      merged cluster stays below `maxSize`. The result keeps every run
      short, and no kept gap could be dropped as well. */
  method CoupleBounds(gapidx: seq<nat>, maxSize: int) returns (sel: seq<bool>)
    requires IsPermutation(gapidx)
    ensures |sel| == |gapidx|
    ensures RunsShort(sel, maxSize)
    ensures forall g :: 0 <= g < |sel| && sel[g] ==> MustKeep(sel, maxSize, g)
  {
    var n := |gapidx|;
    sel := seq(n, _ => true);
    forall s, e | 0 <= s <= e < |sel| ensures !AllDropped(sel, s, e) {
      assert sel[s];
    }
    var k := 0;
    while k < n
      invariant k <= n && |sel| == n
      invariant RunsShort(sel, maxSize)
      invariant forall j :: k <= j < n ==> sel[gapidx[j]]
      invariant forall j :: 0 <= j < k && sel[gapidx[j]] ==> MustKeep(sel, maxSize, gapidx[j])
    {
      var gap := gapidx[k];
      var start := gap;
      var end := gap;
      var clLength := 2;
      while clLength < maxSize
        invariant 0 <= start <= gap <= end < n
        invariant clLength == end - start + 2
        invariant forall g :: start <= g <= end && g != gap ==> !sel[g]
        decreases maxSize - clLength
      {
        if GetSel(sel, start - 1) == false {
          start := start - 1;
          clLength := clLength + 1;
        } else if GetSel(sel, end + 1) == false {
          end := end + 1;
          clLength := clLength + 1;
        } else {
          break;
        }
      }
      if clLength < maxSize {
        assert GetSel(sel, start - 1) && GetSel(sel, end + 1);
        DropKeepsRunsShort(sel, maxSize, gap, start, end);
        var before := sel;
        sel := sel[gap := false];
        forall j | 0 <= j < k && sel[gapidx[j]] ensures MustKeep(sel, maxSize, gapidx[j]) {
          MustKeepStays(before, sel, maxSize, gapidx[j]);
        }
      } else {
        LongRunKept(sel, maxSize, gap, start, end);
      }
      forall j | k + 1 <= j < n ensures sel[gapidx[j]] {
        assert gapidx[j] != gap;
      }
      k := k + 1;
    }
    forall g | 0 <= g < |sel| && sel[g] ensures MustKeep(sel, maxSize, g) {
      assert g in gapidx;
      var j :| 0 <= j < n && gapidx[j] == g;
    }
  }

  /** A gap whose run of dropped neighbours [start, end] already joins
      `maxSize` or more positions has to be kept. */
  lemma LongRunKept(sel: seq<bool>, maxSize: int, gap: nat, start: nat, end: nat)
    requires start <= gap <= end < |sel|
    requires forall g :: start <= g <= end && g != gap ==> !sel[g]
    requires end - start + 2 >= maxSize
    ensures MustKeep(sel, maxSize, gap)
  {
    assert AllDropped(sel[gap := false], start, end);
  }

  /** Dropping more gaps keeps a gap that had to be kept one that has to
      be kept: its long run only gets longer. */
  lemma MustKeepStays(sel: seq<bool>, sel': seq<bool>, maxSize: int, g: nat)
    requires |sel| == |sel'| && g < |sel|
    requires forall i :: 0 <= i < |sel| && !sel[i] ==> !sel'[i]
    requires MustKeep(sel, maxSize, g)
    ensures MustKeep(sel', maxSize, g)
  {
    var drop, drop' := sel[g := false], sel'[g := false];
    var s, e :| 0 <= s <= e < |sel| && AllDropped(drop, s, e) && e - s + 2 >= maxSize;
    forall i | s <= i <= e ensures !drop'[i] {
      assert !drop[i];
    }
    assert AllDropped(drop', s, e);
  }

  /** Dropping a gap whose surrounding run [start, end] is bounded by kept
      gaps (or the ends) keeps every run short if that run is short. */
  lemma DropKeepsRunsShort(sel: seq<bool>, maxSize: int, gap: nat, start: nat, end: nat)
    requires RunsShort(sel, maxSize)
    requires start <= gap <= end < |sel|
    requires forall g :: start <= g <= end && g != gap ==> !sel[g]
    requires GetSel(sel, start - 1) && GetSel(sel, end + 1)
    requires end - start + 2 < maxSize
    ensures RunsShort(sel[gap := false], maxSize)
  {
    var sel' := sel[gap := false];
    forall s, e | 0 <= s <= e < |sel'| && AllDropped(sel', s, e) ensures e - s + 2 < maxSize {
      if start > 0 {
        assert sel'[start - 1];
      }
      if end + 1 < |sel| {
        assert sel'[end + 1];
      }
      if !(s <= gap <= e) {
        forall g | s <= g <= e ensures !sel[g] {
          assert !sel'[g];
        }
        assert AllDropped(sel, s, e);
      }
    }
  }

  /** The bounds kept by the coupling: the gaps still selected. */
  function SelectedBounds(gapidx: seq<nat>, sel: seq<bool>): set<nat>
    requires |sel| == |gapidx|
    requires forall k :: 0 <= k < |gapidx| ==> gapidx[k] < |gapidx|
  {
    set k | 0 <= k < |gapidx| && sel[gapidx[k]] :: gapidx[k]
  }

  /** The selected bounds are exactly the gaps still selected. */
  lemma SelectedBoundsMembers(gapidx: seq<nat>, sel: seq<bool>)
    requires IsPermutation(gapidx) && |sel| == |gapidx|
    ensures forall g: nat :: g in SelectedBounds(gapidx, sel) <==> g < |sel| && sel[g]
  {
    forall g: nat | g < |sel| && sel[g] ensures g in SelectedBounds(gapidx, sel) {
      assert g in gapidx;
      var k :| 0 <= k < |gapidx| && gapidx[k] == g;
    }
  }

  /** More positions pass more bounds; passing as many bounds at j as at i
      means there is no bound in between. */
  lemma BoundsBelowGrow(bounds: set<nat>, i: nat, j: nat)
    requires i <= j
    ensures BoundsBelow(bounds, i) <= BoundsBelow(bounds, j)
    ensures |BoundsBelow(bounds, j)| == |BoundsBelow(bounds, i)| ==> forall g :: i <= g < j ==> g !in bounds
  {
    var between := set b | b in bounds && i <= b < j;
    assert BoundsBelow(bounds, j) == BoundsBelow(bounds, i) + between;
    assert BoundsBelow(bounds, i) * between == {};
    assert |BoundsBelow(bounds, j)| == |BoundsBelow(bounds, i)| + |between|;
    if |BoundsBelow(bounds, j)| == |BoundsBelow(bounds, i)| {
      assert between == {};
      forall g | i <= g < j ensures g !in bounds {
        assert g !in between;
      }
    }
  }

  /** End to end for `min_couple_l2`: two positions that receive the same
      label lie in a cluster of fewer than `maxSize` positions. */
  lemma CoupledClustersSmall(gapidx: seq<nat>, sel: seq<bool>, maxSize: int, clstrs: seq<nat>)
    requires IsPermutation(gapidx) && |sel| == |gapidx| && RunsShort(sel, maxSize)
    requires |clstrs| == |gapidx| + 1
    requires forall i :: 0 <= i < |clstrs| ==> clstrs[i] == |BoundsBelow(SelectedBounds(gapidx, sel), i)|
    ensures forall i, j :: 0 <= i < j < |clstrs| && clstrs[i] == clstrs[j] ==> j - i + 1 < maxSize
  {
    var bounds := SelectedBounds(gapidx, sel);
    SelectedBoundsMembers(gapidx, sel);
    forall i, j | 0 <= i < j < |clstrs| && clstrs[i] == clstrs[j] ensures j - i + 1 < maxSize {
      BoundsBelowGrow(bounds, i, j);
      forall g | i <= g <= j - 1 ensures !sel[g] {
        assert g !in bounds;
      }
      assert AllDropped(sel, i, j - 1);
    }
  }
}
