/** The `single_extend` strategy of align.py with the `common_neighbor`
    score. Starting from the seed pairs, every free cell (a pair of two
    still unaligned nodes) is scored by how many aligned pairs sit next to
    it in both networks. The loop repeatedly aligns the best-scored free
    cell; when no cell is scored it falls back to the free cell of highest
    sequence similarity.

    The source keeps three synchronised structures: `scores_dict` (cell to
    score), `scores_record_dict` (score to the list of its cells) and a
    heap of the distinct scores with a 0 sentinel. They are modelled by
    `ScoreIndex`. A record list's order only feeds the random tie-break, so
    it is a set here. The heap is a multiset of scores whose pop takes the
    largest, which is what pushing negated scores onto Python's min-heap
    achieves. */
module SingleExtend {
  import opened Common
  import opened Sorting
  import opened Organism
  import opened Matching
  import opened Greedy

  /** An (org1 node, org2 node) cell, the key type of `scores_dict`. */
  type Cell = (nat, nat)

  /** `scores_dict.get(c, 0)`. */
  function Get(scores: map<Cell, nat>, c: Cell): nat {
    if c in scores then scores[c] else 0
  }

  /** Both nodes of the cell lie inside the networks and are not aligned yet. */
  predicate Free(paired1: seq<bool>, paired2: seq<bool>, c: Cell) {
    c.0 < |paired1| && c.1 < |paired2| && !paired1[c.0] && !paired2[c.1]
  }

  /** The `common_neighbor` score of a cell: the number of aligned pairs
      whose first node is adjacent to `c.0` in the first network and whose
      second node is adjacent to `c.1` in the second. */
  function CommonCount(g1: Network, g2: Network, pairs: seq<Pair>, c: Cell): nat {
    if pairs == [] then 0
    else
      var p := pairs[|pairs| - 1];
      CommonCount(g1, g2, pairs[..|pairs| - 1], c)
      + (if Canon(p.n1, c.0) in g1.edges && Canon(p.n2, c.1) in g2.edges then 1 else 0)
  }

  lemma CommonCountSnoc(g1: Network, g2: Network, pairs: seq<Pair>, p: Pair, c: Cell)
    ensures CommonCount(g1, g2, pairs + [p], c) == CommonCount(g1, g2, pairs, c)
      + (if Canon(p.n1, c.0) in g1.edges && Canon(p.n2, c.1) in g2.edges then 1 else 0)
  {
    assert (pairs + [p])[..|pairs|] == pairs;
  }

  // ---------------------------------------------------------------------
  // The score index
  // ---------------------------------------------------------------------

  /** `scores_dict`, `scores_record_dict` and `scores_heap` together. */
  datatype ScoreIndex = ScoreIndex(scores: map<Cell, nat>, records: map<nat, set<Cell>>, heap: multiset<nat>)

  /** The three structures agree: a cell has score s exactly when it is
      listed in the record of s, every stored score is positive, no record
      is empty, and the heap holds each recorded score once plus the 0
      sentinel. */
  ghost predicate Indexed(ix: ScoreIndex) {
    && (forall c :: c in ix.scores ==> ix.scores[c] > 0 && ix.scores[c] in ix.records && c in ix.records[ix.scores[c]])
    && (forall s, c :: s in ix.records && c in ix.records[s] ==> c in ix.scores && ix.scores[c] == s)
    && (forall s :: s in ix.records ==> ix.records[s] != {})
    && (forall t :: ix.heap[t] == if t == 0 || t in ix.records then 1 else 0)
  }

  /** The dictionary alone determines the records and the heap. */
  lemma IndexedUnique(a: ScoreIndex, b: ScoreIndex)
    requires Indexed(a) && Indexed(b) && a.scores == b.scores
    ensures a == b
  {
    forall s | s in a.records ensures s in b.records && a.records[s] == b.records[s] {
      RecordAgrees(a, b, s);
    }
    forall s | s in b.records ensures s in a.records {
      RecordAgrees(b, a, s);
    }
    assert a.records.Keys == b.records.Keys;
    assert a.records == b.records;
  }

  lemma RecordAgrees(a: ScoreIndex, b: ScoreIndex, s: nat)
    requires Indexed(a) && Indexed(b) && a.scores == b.scores && s in a.records
    ensures s in b.records && a.records[s] == b.records[s]
  {
    var c :| c in a.records[s];
    assert b.scores[c] == s;
    forall d | d in a.records[s] ensures d in b.records[s] {
      assert b.scores[d] == s;
    }
    forall d | d in b.records[s] ensures d in a.records[s] {
      assert a.scores[d] == s;
    }
  }

  lemma SingletonSet<T>(s: set<T>, x: T)
    requires x in s && |s| <= 1
    ensures s == {x}
  {
    if y :| y in s && y != x {
      assert {x, y} <= s;
      assert |{x, y}| == 2;
      SubsetSize({x, y}, s);
    }
  }

  /** Deleting cell `c` (align.py:1724-1729 when it was just popped,
      align.py:1759-1779 in the neighbourhood update): `c` leaves the
      dictionary and its score's record, and a record left empty is
      deleted with its heap entry. Popping the top score and pushing it
      back while its record still has cells leaves the heap unchanged,
      which is why both places reduce to this. */
  method Drop(ix: ScoreIndex, c: Cell) returns (r: ScoreIndex)
    requires Indexed(ix) && c in ix.scores
    ensures Indexed(r) && r.scores == ix.scores - {c}
  {
    var s := ix.scores[c];
    var record := ix.records[s];
    if |record| > 1 {
      r := ix.(scores := ix.scores - {c}, records := ix.records[s := record - {c}]);
      assert record == (record - {c}) + {c};
    } else {
      SingletonSet(record, c);
      var keys := ix.records.Keys - {s};
      r := ScoreIndex(ix.scores - {c}, ix.records - {s}, ix.heap - multiset{s});
      assert r.records.Keys == keys;
    }
  }

  /** Storing a new score `s` for a cell that has none (align.py:1829-1839):
      a score seen for the first time gets a record and a heap entry,
      otherwise the cell joins its record. */
  method Put(ix: ScoreIndex, c: Cell, s: nat) returns (r: ScoreIndex)
    requires Indexed(ix) && c !in ix.scores && s > 0
    ensures Indexed(r) && r.scores == ix.scores[c := s]
  {
    var record := if s in ix.records then ix.records[s] else {};
    if |record| == 0 {
      r := ScoreIndex(ix.scores[c := s], ix.records[s := {c}], ix.heap + multiset{s});
      PutNew(ix, c, s);
    } else {
      r := ix.(scores := ix.scores[c := s], records := ix.records[s := record + {c}]);
      PutJoin(ix, c, s);
    }
  }

  lemma PutNew(ix: ScoreIndex, c: Cell, s: nat)
    requires Indexed(ix) && c !in ix.scores && s > 0 && s !in ix.records
    ensures Indexed(ScoreIndex(ix.scores[c := s], ix.records[s := {c}], ix.heap + multiset{s}))
  {
    var r := ScoreIndex(ix.scores[c := s], ix.records[s := {c}], ix.heap + multiset{s});
    forall d | d in r.scores ensures r.scores[d] > 0 && r.scores[d] in r.records && d in r.records[r.scores[d]] {
      if d != c {
        assert ix.scores[d] in ix.records;
      }
    }
    forall t, d | t in r.records && d in r.records[t] ensures d in r.scores && r.scores[d] == t {
      if t != s {
        assert d in ix.records[t];
      }
    }
    assert r.records.Keys == ix.records.Keys + {s};
  }

  lemma PutJoin(ix: ScoreIndex, c: Cell, s: nat)
    requires Indexed(ix) && c !in ix.scores && s > 0 && s in ix.records
    ensures Indexed(ix.(scores := ix.scores[c := s], records := ix.records[s := ix.records[s] + {c}]))
  {
    var r := ix.(scores := ix.scores[c := s], records := ix.records[s := ix.records[s] + {c}]);
    forall d | d in r.scores ensures r.scores[d] > 0 && r.scores[d] in r.records && d in r.records[r.scores[d]] {
      if d != c {
        assert d in ix.records[ix.scores[d]];
      }
    }
    forall t, d | t in r.records && d in r.records[t] ensures d in r.scores && r.scores[d] == t {
      if d != c {
        assert d in ix.records[t];
      }
    }
    assert r.records.Keys == ix.records.Keys;
  }

  /** The update of one neighbouring cell after an alignment
      (align.py:1759-1839): an old score is removed, and a free cell comes
      back with its score raised by one. */
  method Touch(ix: ScoreIndex, c: Cell, paired1: seq<bool>, paired2: seq<bool>) returns (r: ScoreIndex)
    requires Indexed(ix)
    ensures Indexed(r)
    ensures r.scores == if Free(paired1, paired2, c) then ix.scores[c := Get(ix.scores, c) + 1] else ix.scores - {c}
  {
    var prior := Get(ix.scores, c);
    r := ix;
    if prior > 0 {
      r := Drop(r, c);
    }
    assert r.scores == ix.scores - {c};
    if Free(paired1, paired2, c) {
      r := Put(r, c, prior + 1);
    }
  }

  /** The largest score on the heap: what `heappop` returns. */
  ghost function SetMax(s: set<nat>): (m: nat)
    requires s != {}
    ensures m in s && forall x :: x in s ==> x <= m
    decreases |s|
  {
    var x :| x in s;
    if s == {x} then x
    else
      assert s == (s - {x}) + {x};
      var m' := SetMax(s - {x});
      if x <= m' then m' else x
  }

  lemma HeapTop(ix: ScoreIndex)
    requires Indexed(ix)
    ensures exists s :: s in ix.heap && forall t :: t in ix.heap ==> t <= s
  {
    var all := ix.records.Keys + {0};
    var m := SetMax(all);
    forall t | t in ix.heap ensures t <= m {
      assert t in all;
    }
    assert m in ix.heap;
  }

  // ---------------------------------------------------------------------
  // The degree tie-break
  // ---------------------------------------------------------------------

  /** The tie-break key (|d1 - d2|, d1 + d2) of align.py:1715-1720. */
  function Key(g1: Network, g2: Network, c: Cell): (int, int)
    requires Valid(g1) && Valid(g2) && c.0 < g1.n && c.1 < g2.n
  {
    var d1 := Degree(g1, c.0);
    var d2 := Degree(g2, c.1);
    (if d1 >= d2 then d1 - d2 else d2 - d1, d1 + d2)
  }

  /** `a` comes no later than `b` in the lexicographic order of keys. */
  predicate Preferred(g1: Network, g2: Network, a: Cell, b: Cell)
    requires Valid(g1) && Valid(g2) && a.0 < g1.n && a.1 < g2.n && b.0 < g1.n && b.1 < g2.n
  {
    var ka := Key(g1, g2, a);
    var kb := Key(g1, g2, b);
    ka.0 < kb.0 || (ka.0 == kb.0 && ka.1 <= kb.1)
  }

  predicate InGrid(g1: Network, g2: Network, cells: set<Cell>) {
    forall c :: c in cells ==> c.0 < g1.n && c.1 < g2.n
  }

  /** A cell with the least key; `min` with a random third key component
      may return any of them. */
  ghost function Minimal(g1: Network, g2: Network, s: set<Cell>): (m: Cell)
    requires Valid(g1) && Valid(g2) && s != {} && InGrid(g1, g2, s)
    ensures m in s && m.0 < g1.n && m.1 < g2.n
    ensures forall q :: q in s ==> Preferred(g1, g2, m, q)
    decreases |s|
  {
    var x :| x in s;
    if s == {x} then x
    else
      assert s == (s - {x}) + {x};
      var m' := Minimal(g1, g2, s - {x});
      if Preferred(g1, g2, x, m') then x else m'
  }

  // ---------------------------------------------------------------------
  // Building the structures
  // ---------------------------------------------------------------------

  /** The cells already visited by the double loop over two neighbour
      lists, when the outer index is `i` and the inner one `j`. */
  predicate Visited(c: Cell, n1s: seq<nat>, n2s: seq<nat>, i: nat, j: nat)
    requires i <= |n1s| && j <= |n2s|
  {
    (c.0 in n1s[..i] && c.1 in n2s) || (i < |n1s| && c.0 == n1s[i] && c.1 in n2s[..j])
  }

  lemma VisitedStep(c: Cell, d: Cell, n1s: seq<nat>, n2s: seq<nat>, i: nat, j: nat)
    requires i < |n1s| && j < |n2s| && Distinct(n1s) && Distinct(n2s)
    requires d == (n1s[i], n2s[j])
    ensures Visited(c, n1s, n2s, i, j + 1) == (Visited(c, n1s, n2s, i, j) || c == d)
    ensures !Visited(d, n1s, n2s, i, j)
  {
    assert n2s[..j + 1] == n2s[..j] + [n2s[j]];
  }

  lemma VisitedRow(c: Cell, n1s: seq<nat>, n2s: seq<nat>, i: nat)
    requires i < |n1s|
    ensures Visited(c, n1s, n2s, i, |n2s|) == Visited(c, n1s, n2s, i + 1, 0)
  {
    assert n1s[..i + 1] == n1s[..i] + [n1s[i]];
    assert n2s[..|n2s|] == n2s;
  }

  lemma VisitedEnds(c: Cell, n1s: seq<nat>, n2s: seq<nat>)
    ensures !Visited(c, n1s, n2s, 0, 0)
    ensures Visited(c, n1s, n2s, |n1s|, 0) == (c.0 in n1s && c.1 in n2s)
  {
    assert n1s[..|n1s|] == n1s;
  }

  /** One seed pair's contribution to the first scores (align.py:1629-1636):
      every free cell of the two neighbourhoods gains one. */
  method AddAround(scores: map<Cell, nat>, n1s: seq<nat>, n2s: seq<nat>, paired1: seq<bool>, paired2: seq<bool>)
    returns (r: map<Cell, nat>)
    requires Distinct(n1s) && Distinct(n2s)
    requires Below(n1s, |paired1|) && Below(n2s, |paired2|)
    requires forall c :: c in scores ==> scores[c] > 0 && Free(paired1, paired2, c)
    ensures forall c :: c in r ==> r[c] > 0 && Free(paired1, paired2, c)
    ensures forall c :: Get(r, c) == Get(scores, c) + (if c.0 in n1s && c.1 in n2s && Free(paired1, paired2, c) then 1 else 0)
  {
    r := scores;
    forall c ensures !Visited(c, n1s, n2s, 0, 0) {
      VisitedEnds(c, n1s, n2s);
    }
    var i := 0;
    while i < |n1s|
      invariant i <= |n1s|
      invariant forall c :: c in r ==> r[c] > 0 && Free(paired1, paired2, c)
      invariant forall c :: Get(r, c) == Get(scores, c) + (if Visited(c, n1s, n2s, i, 0) && Free(paired1, paired2, c) then 1 else 0)
    {
      var j := 0;
      while j < |n2s|
        invariant j <= |n2s|
        invariant forall c :: c in r ==> r[c] > 0 && Free(paired1, paired2, c)
        invariant forall c :: Get(r, c) == Get(scores, c) + (if Visited(c, n1s, n2s, i, j) && Free(paired1, paired2, c) then 1 else 0)
      {
        var d := (n1s[i], n2s[j]);
        if !(paired1[d.0] || paired2[d.1]) {
          r := r[d := Get(r, d) + 1];
        }
        forall c ensures Visited(c, n1s, n2s, i, j + 1) == (Visited(c, n1s, n2s, i, j) || c == d) {
          VisitedStep(c, d, n1s, n2s, i, j);
        }
        VisitedStep(d, d, n1s, n2s, i, j);
        j := j + 1;
      }
      forall c ensures Visited(c, n1s, n2s, i, |n2s|) == Visited(c, n1s, n2s, i + 1, 0) {
        VisitedRow(c, n1s, n2s, i);
      }
      i := i + 1;
    }
    forall c ensures Visited(c, n1s, n2s, |n1s|, 0) == (c.0 in n1s && c.1 in n2s) {
      VisitedEnds(c, n1s, n2s);
    }
  }

  /** A cell's score after the neighbourhood update: bumped when it was hit
      and is free, gone when it was hit and is not, otherwise unchanged. */
  function Updated(before: nat, hit: bool, free: bool): nat {
    if hit then (if free then before + 1 else 0) else before
  }

  /** The neighbourhood update after aligning a cell (align.py:1756-1839):
      each cell of the two neighbour lists is bumped by one when it is
      still free and removed when it is not; other cells keep their
      scores. */
  method UpdateAround(ix: ScoreIndex, n1s: seq<nat>, n2s: seq<nat>, paired1: seq<bool>, paired2: seq<bool>)
    returns (r: ScoreIndex)
    requires Indexed(ix) && Distinct(n1s) && Distinct(n2s)
    ensures Indexed(r)
    ensures forall c :: c in r.scores ==> c in ix.scores || Free(paired1, paired2, c)
    ensures forall c :: Get(r.scores, c) == Updated(Get(ix.scores, c), c.0 in n1s && c.1 in n2s, Free(paired1, paired2, c))
  {
    r := ix;
    AroundStart(ix, n1s, n2s, paired1, paired2);
    var i := 0;
    while i < |n1s|
      invariant i <= |n1s|
      invariant Indexed(r) && Around(ix, r, n1s, n2s, i, 0, paired1, paired2)
    {
      r := UpdateRow(ix, r, n1s, n2s, i, paired1, paired2);
      i := i + 1;
    }
    AroundEnd(ix, r, n1s, n2s, paired1, paired2);
  }

  /** The inner loop of the neighbourhood update, for the `i`-th neighbour
      in the first network. */
  method UpdateRow(ix: ScoreIndex, r0: ScoreIndex, n1s: seq<nat>, n2s: seq<nat>, i: nat, paired1: seq<bool>, paired2: seq<bool>)
    returns (r: ScoreIndex)
    requires i < |n1s| && Distinct(n1s) && Distinct(n2s)
    requires Indexed(r0) && Around(ix, r0, n1s, n2s, i, 0, paired1, paired2)
    ensures Indexed(r) && Around(ix, r, n1s, n2s, i + 1, 0, paired1, paired2)
  {
    r := r0;
    var j := 0;
    while j < |n2s|
      invariant j <= |n2s|
      invariant Indexed(r) && Around(ix, r, n1s, n2s, i, j, paired1, paired2)
    {
      var d := (n1s[i], n2s[j]);
      var r' := Touch(r, d, paired1, paired2);
      TouchStep(ix, r, r', n1s, n2s, i, j, paired1, paired2);
      r := r';
      j := j + 1;
    }
    AroundRow(ix, r, n1s, n2s, i, paired1, paired2);
  }

  /** The state of the neighbourhood update once the cells `Visited` at
      (`i`, `j`) have been handled: only those changed, each as `Updated`
      says. */
  ghost predicate Around(ix: ScoreIndex, r: ScoreIndex, n1s: seq<nat>, n2s: seq<nat>, i: nat, j: nat, paired1: seq<bool>, paired2: seq<bool>)
    requires i <= |n1s| && j <= |n2s|
  {
    && (forall c :: c in r.scores ==> c in ix.scores || Free(paired1, paired2, c))
    && (forall c :: Get(r.scores, c) == Updated(Get(ix.scores, c), Visited(c, n1s, n2s, i, j), Free(paired1, paired2, c)))
  }

  lemma AroundStart(ix: ScoreIndex, n1s: seq<nat>, n2s: seq<nat>, paired1: seq<bool>, paired2: seq<bool>)
    ensures Around(ix, ix, n1s, n2s, 0, 0, paired1, paired2)
  {
    forall c ensures !Visited(c, n1s, n2s, 0, 0) {
      VisitedEnds(c, n1s, n2s);
    }
  }

  lemma AroundRow(ix: ScoreIndex, r: ScoreIndex, n1s: seq<nat>, n2s: seq<nat>, i: nat, paired1: seq<bool>, paired2: seq<bool>)
    requires i < |n1s| && Around(ix, r, n1s, n2s, i, |n2s|, paired1, paired2)
    ensures Around(ix, r, n1s, n2s, i + 1, 0, paired1, paired2)
  {
    forall c ensures Visited(c, n1s, n2s, i, |n2s|) == Visited(c, n1s, n2s, i + 1, 0) {
      VisitedRow(c, n1s, n2s, i);
    }
  }

  lemma AroundEnd(ix: ScoreIndex, r: ScoreIndex, n1s: seq<nat>, n2s: seq<nat>, paired1: seq<bool>, paired2: seq<bool>)
    requires Around(ix, r, n1s, n2s, |n1s|, 0, paired1, paired2)
    ensures forall c :: c in r.scores ==> c in ix.scores || Free(paired1, paired2, c)
    ensures forall c :: Get(r.scores, c) == Updated(Get(ix.scores, c), c.0 in n1s && c.1 in n2s, Free(paired1, paired2, c))
  {
    forall c ensures Visited(c, n1s, n2s, |n1s|, 0) == (c.0 in n1s && c.1 in n2s) {
      VisitedEnds(c, n1s, n2s);
    }
  }

  lemma TouchStep(ix: ScoreIndex, r: ScoreIndex, r': ScoreIndex, n1s: seq<nat>, n2s: seq<nat>, i: nat, j: nat,
                  paired1: seq<bool>, paired2: seq<bool>)
    requires i < |n1s| && j < |n2s| && Distinct(n1s) && Distinct(n2s)
    requires Around(ix, r, n1s, n2s, i, j, paired1, paired2)
    requires var d := (n1s[i], n2s[j]);
      r'.scores == if Free(paired1, paired2, d) then r.scores[d := Get(r.scores, d) + 1] else r.scores - {d}
    ensures Around(ix, r', n1s, n2s, i, j + 1, paired1, paired2)
  {
    var d := (n1s[i], n2s[j]);
    VisitedStep(d, d, n1s, n2s, i, j);
    forall c ensures Get(r'.scores, c) == Updated(Get(ix.scores, c), Visited(c, n1s, n2s, i, j + 1), Free(paired1, paired2, c)) {
      VisitedStep(c, d, n1s, n2s, i, j);
    }
  }

  /** A neighbour list has no repeats and stays inside the network. */
  lemma NeighborList(g: Network, node: nat)
    requires Valid(g) && node < g.n
    ensures Distinct(Neighbors(g, node)) && Below(Neighbors(g, node), g.n)
  {
    var r := Neighbors(g, node);
    forall k | 0 <= k < |r| ensures r[k] < g.n {
      assert r[k] in r;
    }
  }

  lemma CommonCountPrefix(g1: Network, g2: Network, pairs: seq<Pair>, k: nat, c: Cell)
    requires Valid(g1) && Valid(g2) && k < |pairs| && pairs[k].n1 < g1.n && pairs[k].n2 < g2.n
    requires c.0 < g1.n && c.1 < g2.n
    ensures CommonCount(g1, g2, pairs[..k + 1], c) == CommonCount(g1, g2, pairs[..k], c)
      + (if c.0 in Neighbors(g1, pairs[k].n1) && c.1 in Neighbors(g2, pairs[k].n2) then 1 else 0)
  {
    assert pairs[..k + 1] == pairs[..k] + [pairs[k]];
    CommonCountSnoc(g1, g2, pairs[..k], pairs[k], c);
  }

  /** The first scores (align.py:1628-1636): for each seed pair in turn,
      every free cell of the two neighbourhoods gains one. Afterwards a
      cell is stored exactly when it is free with a positive
      common-neighbour count, and its score is that count. */
  method SeedScores(g1: Network, g2: Network, pairs: seq<Pair>, paired1: seq<bool>, paired2: seq<bool>)
    returns (scores: map<Cell, nat>)
    requires Valid(g1) && Valid(g2) && |paired1| == g1.n && |paired2| == g2.n
    requires forall k :: 0 <= k < |pairs| ==> pairs[k].n1 < g1.n && pairs[k].n2 < g2.n
    ensures forall c :: c in scores ==> scores[c] > 0 && Free(paired1, paired2, c)
    ensures forall c :: Get(scores, c) == if Free(paired1, paired2, c) then CommonCount(g1, g2, pairs, c) else 0
  {
    scores := map[];
    var k := 0;
    while k < |pairs|
      invariant k <= |pairs|
      invariant forall c :: c in scores ==> scores[c] > 0 && Free(paired1, paired2, c)
      invariant forall c :: Get(scores, c) == if Free(paired1, paired2, c) then CommonCount(g1, g2, pairs[..k], c) else 0
    {
      var n1s := Neighbors(g1, pairs[k].n1);
      var n2s := Neighbors(g2, pairs[k].n2);
      NeighborList(g1, pairs[k].n1);
      NeighborList(g2, pairs[k].n2);
      scores := AddAround(scores, n1s, n2s, paired1, paired2);
      forall c | Free(paired1, paired2, c)
        ensures CommonCount(g1, g2, pairs[..k + 1], c) == CommonCount(g1, g2, pairs[..k], c)
          + (if c.0 in n1s && c.1 in n2s then 1 else 0)
      {
        CommonCountPrefix(g1, g2, pairs, k, c);
      }
      k := k + 1;
    }
    assert pairs[..k] == pairs;
  }

  /** The records built from the first scores (align.py:1679-1682): each
      cell joins the record of its score. */
  method BuildRecords(scores: map<Cell, nat>) returns (records: map<nat, set<Cell>>)
    ensures forall c :: c in scores ==> scores[c] in records && c in records[scores[c]]
    ensures forall s, c :: s in records && c in records[s] ==> c in scores && scores[c] == s
    ensures forall s :: s in records ==> records[s] != {}
  {
    records := map[];
    var todo := scores.Keys;
    while todo != {}
      invariant todo <= scores.Keys
      invariant forall c :: c in scores && c !in todo ==> scores[c] in records && c in records[scores[c]]
      invariant forall s, c :: s in records && c in records[s] ==> c in scores && c !in todo && scores[c] == s
      invariant forall s :: s in records ==> records[s] != {}
      decreases |todo|
    {
      var c :| c in todo;
      var s := scores[c];
      records := records[s := (if s in records then records[s] else {}) + {c}];
      todo := todo - {c};
    }
  }

  /** The heap built from the records (align.py:1683-1686): each recorded
      score is pushed once, then the 0 sentinel. */
  method BuildHeap(keys: set<nat>) returns (heap: multiset<nat>)
    ensures heap == multiset(keys) + multiset{0}
  {
    heap := multiset{};
    var todo := keys;
    while todo != {}
      invariant todo <= keys
      invariant heap == multiset(keys - todo)
      decreases |todo|
    {
      var s :| s in todo;
      assert keys - (todo - {s}) == (keys - todo) + {s};
      heap := heap + multiset{s};
      todo := todo - {s};
    }
    assert keys - todo == keys;
    heap := heap + multiset{0};
  }

  /** `sim_scores` (align.py:1689-1694): every cell with its similarity,
      by descending similarity; Python's sort is stable, so equal
      similarities keep row-major order. */
  function SimOrder(sim: seq<real>, n1: nat, n2: nat): seq<Pair>
    requires |sim| == n1 * n2
  {
    SortByScore(Cells(SimMatrix(sim, n1, n2), n1, n2), true)
  }

  /** The similarity order is sorted by descending similarity and lists
      exactly the cells of the grid, each with its similarity. */
  lemma SimOrderCells(sim: seq<real>, n1: nat, n2: nat)
    requires |sim| == n1 * n2
    ensures Sorted(SimOrder(sim, n1, n2), true)
    ensures forall c :: c in SimOrder(sim, n1, n2) <==> c.n1 < n1 && c.n2 < n2 && c.score == SimAt(sim, n1, n2, c.n1, c.n2)
    ensures forall k :: 0 <= k < |SimOrder(sim, n1, n2)| ==> SimOrder(sim, n1, n2)[k].n1 < n1 && SimOrder(sim, n1, n2)[k].n2 < n2
  {
    var m := SimMatrix(sim, n1, n2);
    SortedCells(m, n2, true);
    var r := SimOrder(sim, n1, n2);
    assert forall k :: 0 <= k < |r| ==> r[k] in r;
  }

  /** Building `sim_scores` (align.py:1689-1694): the cells in row-major
      order, then the stable sort by descending similarity. */
  method SimScores(sim: seq<real>, n1: nat, n2: nat) returns (order: seq<Pair>)
    requires |sim| == n1 * n2
    ensures order == SimOrder(sim, n1, n2)
  {
    var cells := BuildCells(SimMatrix(sim, n1, n2), n2);
    order := SortByScore(cells, true);
  }

  // ---------------------------------------------------------------------
  // The main loop
  // ---------------------------------------------------------------------

  /** The variables of the loop: the score index, `sim_pointer`, the pair
      list and the two paired-flag tables. */
  datatype State = State(index: ScoreIndex, pointer: nat, pairs: seq<Pair>, paired1: seq<bool>, paired2: seq<bool>)

  /** The score of every free cell is its common-neighbour count. */
  ghost predicate ScoresCount(g1: Network, g2: Network, st: State) {
    forall c :: Free(st.paired1, st.paired2, c) ==> Get(st.index.scores, c) == CommonCount(g1, g2, st.pairs, c)
  }

  /** `sim_pointer` has only passed cells that are no longer free. */
  predicate Passed(order: seq<Pair>, paired1: seq<bool>, paired2: seq<bool>, pointer: nat) {
    pointer <= |order| && forall k :: 0 <= k < pointer ==> !Free(paired1, paired2, (order[k].n1, order[k].n2))
  }

  /** Both nodes of every pair are flagged as paired. */
  predicate PairsFlagged(pairs: seq<Pair>, paired1: seq<bool>, paired2: seq<bool>) {
    forall p :: p in pairs ==> p.n1 < |paired1| && p.n2 < |paired2| && paired1[p.n1] && paired2[p.n2]
  }

  /** What holds before and after every iteration. */
  ghost predicate Ready(g1: Network, g2: Network, sim: seq<real>, order: seq<Pair>, st: State) {
    && Valid(g1) && Valid(g2) && |sim| == g1.n * g2.n && order == SimOrder(sim, g1.n, g2.n)
    && |st.paired1| == g1.n && |st.paired2| == g2.n
    && Indexed(st.index) && InGrid(g1, g2, st.index.scores.Keys)
    && ScoresCount(g1, g2, st)
    && Passed(order, st.paired1, st.paired2, st.pointer)
    && PairsFlagged(st.pairs, st.paired1, st.paired2)
  }

  /** Why a cell is the right one to align next: no free cell has a larger
      common-neighbour count; among free cells with the same positive count
      it has the least degree key; and when no free cell has a positive
      count, no free cell is more similar. */
  ghost predicate Best(g1: Network, g2: Network, sim: seq<real>, st: State, next: Cell)
    requires Valid(g1) && Valid(g2) && |sim| == g1.n * g2.n && |st.paired1| == g1.n && |st.paired2| == g2.n
    requires Free(st.paired1, st.paired2, next)
  {
    var count := CommonCount(g1, g2, st.pairs, next);
    && (forall c :: Free(st.paired1, st.paired2, c) ==> CommonCount(g1, g2, st.pairs, c) <= count)
    && (count > 0 ==> forall c :: Free(st.paired1, st.paired2, c) && CommonCount(g1, g2, st.pairs, c) == count ==>
          Preferred(g1, g2, next, c))
    && (count == 0 ==> forall c :: Free(st.paired1, st.paired2, c) ==>
          SimAt(sim, g1.n, g2.n, c.0, c.1) <= SimAt(sim, g1.n, g2.n, next.0, next.1))
  }

  lemma RecordInGrid(g1: Network, g2: Network, ix: ScoreIndex, s: nat)
    requires Indexed(ix) && InGrid(g1, g2, ix.scores.Keys) && s in ix.records
    ensures ix.records[s] != {} && InGrid(g1, g2, ix.records[s])
    ensures forall c :: c in ix.records[s] ==> c in ix.scores && ix.scores[c] == s
  {
    forall c | c in ix.records[s] ensures c.0 < g1.n && c.1 < g2.n {
      assert c in ix.scores.Keys;
    }
  }

  /** A popped positive score whose chosen cell is still free picks a best cell. */
  lemma ScoredBest(g1: Network, g2: Network, sim: seq<real>, order: seq<Pair>, st: State, score: nat, next: Cell)
    requires Ready(g1, g2, sim, order, st)
    requires score in st.index.records && forall t :: t in st.index.heap ==> t <= score
    requires next in st.index.records[score] && Free(st.paired1, st.paired2, next)
    requires InGrid(g1, g2, st.index.records[score])
    requires forall q :: q in st.index.records[score] ==> Preferred(g1, g2, next, q)
    ensures CommonCount(g1, g2, st.pairs, next) == score
    ensures Best(g1, g2, sim, st, next)
  {
    var ix := st.index;
    assert ix.scores[next] == score;
    forall c | Free(st.paired1, st.paired2, c) ensures CommonCount(g1, g2, st.pairs, c) <= score {
      if c in ix.scores {
        assert ix.scores[c] in ix.heap;
      }
    }
    forall c | Free(st.paired1, st.paired2, c) && CommonCount(g1, g2, st.pairs, c) == score
      ensures Preferred(g1, g2, next, c)
    {
      assert c in ix.scores;
      assert c in ix.records[score];
    }
  }

  /** With nothing but the sentinel on the heap, the first free cell of the
      similarity order is a best cell. */
  lemma UnscoredBest(g1: Network, g2: Network, sim: seq<real>, order: seq<Pair>, st: State)
    requires Ready(g1, g2, sim, order, st)
    requires forall t :: t in st.index.heap ==> t <= 0
    requires st.pointer < |order| && Free(st.paired1, st.paired2, (order[st.pointer].n1, order[st.pointer].n2))
    ensures st.index.scores == map[]
    ensures Best(g1, g2, sim, st, (order[st.pointer].n1, order[st.pointer].n2))
  {
    var ix := st.index;
    assert forall s :: s in ix.records ==> ix.heap[s] == 1;
    SimOrderCells(sim, g1.n, g2.n);
    var next := (order[st.pointer].n1, order[st.pointer].n2);
    assert order[st.pointer] in order;
    forall c | Free(st.paired1, st.paired2, c)
      ensures SimAt(sim, g1.n, g2.n, c.0, c.1) <= SimAt(sim, g1.n, g2.n, next.0, next.1)
    {
      var cell := Pair(c.0, c.1, SimAt(sim, g1.n, g2.n, c.0, c.1));
      assert cell in order;
      var k :| 0 <= k < |order| && order[k] == cell;
      if k != st.pointer {
        assert InOrder(order[st.pointer], order[k], true);
      }
    }
  }

  /** After aligning the free cell `next`, the score of each free cell is
      still its common-neighbour count: the cells around `next` have
      gained exactly the new pair's contribution. */
  lemma CommitCounts(g1: Network, g2: Network, st: State, next: Cell, ix: ScoreIndex, r: ScoreIndex,
                     p1: seq<bool>, p2: seq<bool>, p: Pair)
    requires Valid(g1) && Valid(g2) && |st.paired1| == g1.n && |st.paired2| == g2.n
    requires ScoresCount(g1, g2, st) && Free(st.paired1, st.paired2, next)
    requires ix.scores == st.index.scores - {next}
    requires p1 == st.paired1[next.0 := true] && p2 == st.paired2[next.1 := true] && p.n1 == next.0 && p.n2 == next.1
    requires forall c :: Get(r.scores, c) == Updated(Get(ix.scores, c), c.0 in Neighbors(g1, next.0) && c.1 in Neighbors(g2, next.1), Free(p1, p2, c))
    ensures forall c :: Free(p1, p2, c) ==> Get(r.scores, c) == CommonCount(g1, g2, st.pairs + [p], c)
  {
    forall c | Free(p1, p2, c) ensures Get(r.scores, c) == CommonCount(g1, g2, st.pairs + [p], c) {
      assert Free(st.paired1, st.paired2, c) && c != next;
      CommonCountSnoc(g1, g2, st.pairs, p, c);
    }
  }

  /** Aligning the free cell `next` keeps the loop invariant, given the
      updated index, whose scores are already known to count. */
  lemma CommitReady(g1: Network, g2: Network, sim: seq<real>, order: seq<Pair>, st: State, next: Cell, st': State)
    requires Ready(g1, g2, sim, order, st) && Free(st.paired1, st.paired2, next)
    requires st'.paired1 == st.paired1[next.0 := true] && st'.paired2 == st.paired2[next.1 := true]
    requires st'.pairs == st.pairs + [Pair(next.0, next.1, SimAt(sim, g1.n, g2.n, next.0, next.1))]
    requires Passed(order, st.paired1, st.paired2, st'.pointer)
    requires Indexed(st'.index) && InGrid(g1, g2, st'.index.scores.Keys) && ScoresCount(g1, g2, st')
    ensures Ready(g1, g2, sim, order, st')
  {
    assert Passed(order, st'.paired1, st'.paired2, st'.pointer) by {
      assert Passed(order, st.paired1, st.paired2, st'.pointer);
    }
    assert PairsFlagged(st'.pairs, st'.paired1, st'.paired2) by {
      assert PairsFlagged(st.pairs, st.paired1, st.paired2);
    }
  }

  /** The cells stored after the neighbourhood update stay in the grid. */
  lemma UpdateInGrid(g1: Network, g2: Network, before: ScoreIndex, ix: ScoreIndex, r: ScoreIndex, p1: seq<bool>, p2: seq<bool>)
    requires InGrid(g1, g2, before.scores.Keys) && ix.scores.Keys <= before.scores.Keys
    requires |p1| == g1.n && |p2| == g2.n
    requires forall c :: c in r.scores ==> c in ix.scores || Free(p1, p2, c)
    ensures InGrid(g1, g2, r.scores.Keys)
  {
    forall c | c in r.scores.Keys ensures c.0 < g1.n && c.1 < g2.n {
      if c in ix.scores {
        assert c in before.scores.Keys;
      }
    }
  }

  /** Discarding a popped cell that is no longer free keeps the invariant. */
  lemma DiscardReady(g1: Network, g2: Network, sim: seq<real>, order: seq<Pair>, st: State, next: Cell, ix: ScoreIndex)
    requires Ready(g1, g2, sim, order, st) && !Free(st.paired1, st.paired2, next)
    requires Indexed(ix) && ix.scores == st.index.scores - {next}
    ensures Ready(g1, g2, sim, order, st.(index := ix))
  {
    forall c | Free(st.paired1, st.paired2, c) ensures Get(ix.scores, c) == CommonCount(g1, g2, st.pairs, c) {
      assert c != next;
    }
    forall c | c in ix.scores.Keys ensures c.0 < g1.n && c.1 < g2.n {
      assert c in st.index.scores.Keys;
    }
  }

  /** The cell taken for a popped positive score (align.py:1711-1720): one
      of the cells recorded with that score whose degree key is least; the
      random last key component makes any of them possible. */
  method Choose(g1: Network, g2: Network, ix: ScoreIndex, score: nat) returns (next: Cell)
    requires Valid(g1) && Valid(g2) && Indexed(ix) && InGrid(g1, g2, ix.scores.Keys)
    requires score in ix.heap && score != 0
    ensures score in ix.records && next in ix.records[score]
    ensures next in ix.scores && ix.scores[next] == score
    ensures InGrid(g1, g2, ix.records[score])
    ensures forall q :: q in ix.records[score] ==> Preferred(g1, g2, next, q)
  {
    assert score in ix.records;
    var nexts := ix.records[score];
    RecordInGrid(g1, g2, ix, score);
    ghost var least := Minimal(g1, g2, nexts);
    next :| next in nexts && forall q :: q in nexts ==> Preferred(g1, g2, next, q);
  }

  /** The inner loop of the fallback (align.py:1736-1742): `sim_pointer`
      moves past cells with an aligned node and stops at a free cell. The
      free cell listed at `k` keeps it from running off the end. */
  method Advance(order: seq<Pair>, paired1: seq<bool>, paired2: seq<bool>, start: nat, ghost k: nat) returns (pointer: nat)
    requires Passed(order, paired1, paired2, start)
    requires start <= k < |order| && Free(paired1, paired2, (order[k].n1, order[k].n2))
    requires forall j :: 0 <= j < |order| ==> order[j].n1 < |paired1| && order[j].n2 < |paired2|
    ensures start <= pointer <= k
    ensures Passed(order, paired1, paired2, pointer)
    ensures Free(paired1, paired2, (order[pointer].n1, order[pointer].n2))
  {
    pointer := start;
    while paired1[order[pointer].n1] || paired2[order[pointer].n2]
      invariant start <= pointer <= k
      invariant Passed(order, paired1, paired2, pointer)
      decreases k - pointer
    {
      pointer := pointer + 1;
    }
  }

  /** While both networks have a free node, the similarity order lists a
      free cell at or after `sim_pointer`. */
  lemma FreeCellAhead(g1: Network, g2: Network, sim: seq<real>, order: seq<Pair>, st: State) returns (k: nat)
    requires Ready(g1, g2, sim, order, st)
    requires !(AllSet(st.paired1) || AllSet(st.paired2))
    ensures st.pointer <= k < |order| && Free(st.paired1, st.paired2, (order[k].n1, order[k].n2))
    ensures forall j :: 0 <= j < |order| ==> order[j].n1 < |st.paired1| && order[j].n2 < |st.paired2|
  {
    SimOrderCells(sim, g1.n, g2.n);
    var i1 :| 0 <= i1 < |st.paired1| && !st.paired1[i1];
    var i2 :| 0 <= i2 < |st.paired2| && !st.paired2[i2];
    var cell := Pair(i1, i2, SimAt(sim, g1.n, g2.n, i1, i2));
    assert cell in order;
    k :| 0 <= k < |order| && order[k] == cell;
  }

  /** One iteration of the main loop (align.py:1702-1839). The top score
      is popped. A positive score yields the cell of its record with the
      least degree key, which is deleted from the index; the sentinel 0
      instead moves `sim_pointer` to the first free cell of the similarity
      order. A free cell is then aligned and its neighbourhood updated; a
      cell that is no longer free is only discarded. An aligned cell is
      always a best cell, and an iteration that aligns nothing has
      deleted one score. */
  method Step(g1: Network, g2: Network, sim: seq<real>, order: seq<Pair>, st: State)
    returns (st': State, next: Cell, committed: bool)
    requires Ready(g1, g2, sim, order, st)
    requires !(AllSet(st.paired1) || AllSet(st.paired2))
    ensures Ready(g1, g2, sim, order, st')
    ensures st.pointer <= st'.pointer
    ensures committed ==> Free(st.paired1, st.paired2, next) && Best(g1, g2, sim, st, next)
    ensures committed ==> st'.pairs == st.pairs + [Pair(next.0, next.1, SimAt(sim, g1.n, g2.n, next.0, next.1))]
    ensures committed ==> st'.paired1 == st.paired1[next.0 := true] && st'.paired2 == st.paired2[next.1 := true]
    ensures !committed ==> next in st.index.scores && !Free(st.paired1, st.paired2, next)
    ensures !committed ==> st' == st.(index := st'.index) && st'.index.scores == st.index.scores - {next}
  {
    var ix := st.index;
    var pointer := st.pointer;
    HeapTop(ix);
    var score :| score in ix.heap && forall t :: t in ix.heap ==> t <= score;
    if score != 0 {
      next := Choose(g1, g2, ix, score);
      if Free(st.paired1, st.paired2, next) {
        ScoredBest(g1, g2, sim, order, st, score, next);
      }
      ix := Drop(ix, next);
    } else {
      ghost var k := FreeCellAhead(g1, g2, sim, order, st);
      pointer := Advance(order, st.paired1, st.paired2, st.pointer, k);
      next := (order[pointer].n1, order[pointer].n2);
      UnscoredBest(g1, g2, sim, order, st.(pointer := pointer));
    }
    if !(st.paired1[next.0] || st.paired2[next.1]) {
      committed := true;
      st' := Commit(g1, g2, sim, order, st, ix, pointer, next);
    } else {
      committed := false;
      DiscardReady(g1, g2, sim, order, st, next, ix);
      st' := st.(index := ix);
    }
  }

  /** Aligns the free cell `next`: records the pair, flags both nodes and
      updates the scores around it. */
  method Commit(g1: Network, g2: Network, sim: seq<real>, order: seq<Pair>, st: State, ix: ScoreIndex, pointer: nat, next: Cell)
    returns (st': State)
    requires Ready(g1, g2, sim, order, st) && Free(st.paired1, st.paired2, next)
    requires Indexed(ix) && ix.scores == st.index.scores - {next}
    requires Passed(order, st.paired1, st.paired2, pointer)
    ensures Ready(g1, g2, sim, order, st') && st'.pointer == pointer
    ensures st'.pairs == st.pairs + [Pair(next.0, next.1, SimAt(sim, g1.n, g2.n, next.0, next.1))]
    ensures st'.paired1 == st.paired1[next.0 := true] && st'.paired2 == st.paired2[next.1 := true]
  {
    var p1 := st.paired1[next.0 := true];
    var p2 := st.paired2[next.1 := true];
    var pairs := st.pairs + [Pair(next.0, next.1, SimAt(sim, g1.n, g2.n, next.0, next.1))];
    NeighborList(g1, next.0);
    NeighborList(g2, next.1);
    var r := UpdateAround(ix, Neighbors(g1, next.0), Neighbors(g2, next.1), p1, p2);
    st' := State(r, pointer, pairs, p1, p2);
    CommitCounts(g1, g2, st, next, ix, r, p1, p2, pairs[|st.pairs|]);
    assert pairs == st.pairs + [pairs[|st.pairs|]];
    UpdateInGrid(g1, g2, st.index, ix, r, p1, p2);
    CommitReady(g1, g2, sim, order, st, next, st');
  }

  /** Each pair is a cell of the grid carrying that cell's similarity. */
  predicate SimPairs(sim: seq<real>, n1: nat, n2: nat, ps: seq<Pair>)
    requires |sim| == n1 * n2
  {
    forall p :: p in ps ==> p.n1 < n1 && p.n2 < n2 && p.score == SimAt(sim, n1, n2, p.n1, p.n2)
  }

  lemma GrowPairs(sim: seq<real>, n1: nat, n2: nat, pairs: seq<Pair>, before: seq<Pair>, q: Pair)
    requires |sim| == n1 * n2
    requires |pairs| <= |before| && before[..|pairs|] == pairs && SimPairs(sim, n1, n2, before[|pairs|..])
    requires q.n1 < n1 && q.n2 < n2 && q.score == SimAt(sim, n1, n2, q.n1, q.n2)
    ensures (before + [q])[..|pairs|] == pairs && SimPairs(sim, n1, n2, (before + [q])[|pairs|..])
  {
    assert (before + [q])[..|pairs|] == before[..|pairs|];
    assert (before + [q])[|pairs|..] == before[|pairs|..] + [q];
  }

  lemma HeapOfKeys(heap: multiset<nat>, keys: set<nat>)
    requires heap == multiset(keys) + multiset{0} && 0 !in keys
    ensures forall t :: heap[t] == if t == 0 || t in keys then 1 else 0
  {
  }

  /** The state the loop starts from satisfies the loop invariant. */
  lemma StartReady(g1: Network, g2: Network, sim: seq<real>, order: seq<Pair>, st: State)
    requires Valid(g1) && Valid(g2) && |sim| == g1.n * g2.n && order == SimOrder(sim, g1.n, g2.n)
    requires |st.paired1| == g1.n && |st.paired2| == g2.n && st.pointer == 0
    requires PairsFlagged(st.pairs, st.paired1, st.paired2)
    requires forall c :: c in st.index.scores ==> st.index.scores[c] > 0 && Free(st.paired1, st.paired2, c)
    requires forall c :: Get(st.index.scores, c) == if Free(st.paired1, st.paired2, c) then CommonCount(g1, g2, st.pairs, c) else 0
    requires forall c :: c in st.index.scores ==> st.index.scores[c] in st.index.records && c in st.index.records[st.index.scores[c]]
    requires forall s, c :: s in st.index.records && c in st.index.records[s] ==> c in st.index.scores && st.index.scores[c] == s
    requires forall s :: s in st.index.records ==> st.index.records[s] != {}
    requires st.index.heap == multiset(st.index.records.Keys) + multiset{0}
    ensures Ready(g1, g2, sim, order, st)
  {
    forall c | c in st.index.scores.Keys ensures c.0 < g1.n && c.1 < g2.n {
      assert Free(st.paired1, st.paired2, c);
    }
    forall s | s in st.index.records ensures s > 0 {
      var c :| c in st.index.records[s];
      assert c in st.index.scores;
    }
    HeapOfKeys(st.index.heap, st.index.records.Keys);
  }

  /** The set-up before the loop (align.py:1622-1695): first scores from
      the given pairs, records, heap and the similarity order, with the
      pointer at the start. */
  method Prepare(g1: Network, g2: Network, sim: seq<real>, pairs: seq<Pair>, paired1: seq<bool>, paired2: seq<bool>)
    returns (order: seq<Pair>, st: State)
    requires Valid(g1) && Valid(g2) && |sim| == g1.n * g2.n
    requires |paired1| == g1.n && |paired2| == g2.n
    requires PairsFlagged(pairs, paired1, paired2)
    ensures Ready(g1, g2, sim, order, st)
    ensures st.pairs == pairs && st.paired1 == paired1 && st.paired2 == paired2 && st.pointer == 0
  {
    forall k | 0 <= k < |pairs| ensures pairs[k].n1 < g1.n && pairs[k].n2 < g2.n {
      assert pairs[k] in pairs;
    }
    var scores := SeedScores(g1, g2, pairs, paired1, paired2);
    var records := BuildRecords(scores);
    var heap := BuildHeap(records.Keys);
    order := SimScores(sim, g1.n, g2.n);
    st := State(ScoreIndex(scores, records, heap), 0, pairs, paired1, paired2);
    StartReady(g1, g2, sim, order, st);
  }

  /** How the loop state relates to the given pairs and flags: the given
      pairs stay in front, every added pair is a grid cell with its
      similarity, flags are only ever set, and the list stays one-to-one
      when it started so. */
  ghost predicate Grown(sim: seq<real>, n1: nat, n2: nat, pairs: seq<Pair>, paired1: seq<bool>, paired2: seq<bool>,
                        result: seq<Pair>, flags1: seq<bool>, flags2: seq<bool>)
    requires |sim| == n1 * n2
  {
    && |pairs| <= |result| && result[..|pairs|] == pairs
    && SimPairs(sim, n1, n2, result[|pairs|..])
    && (forall i :: 0 <= i < |paired1| && paired1[i] ==> i < |flags1| && flags1[i])
    && (forall i :: 0 <= i < |paired2| && paired2[i] ==> i < |flags2| && flags2[i])
    && (OneToOne(pairs) ==> OneToOne(result))
  }

  /** An iteration keeps `Grown` and makes progress: an aligning one sets
      a flag of the first network, any other one deletes a score. */
  lemma GrowStep(g1: Network, g2: Network, sim: seq<real>, pairs: seq<Pair>,
                 paired1: seq<bool>, paired2: seq<bool>, st: State, st': State, next: Cell, committed: bool)
    requires |sim| == g1.n * g2.n && |st.paired1| == g1.n && |st.paired2| == g2.n
    requires PairsFlagged(st.pairs, st.paired1, st.paired2)
    requires Grown(sim, g1.n, g2.n, pairs, paired1, paired2, st.pairs, st.paired1, st.paired2)
    requires committed ==> Free(st.paired1, st.paired2, next)
    requires committed ==> st'.pairs == st.pairs + [Pair(next.0, next.1, SimAt(sim, g1.n, g2.n, next.0, next.1))]
    requires committed ==> st'.paired1 == st.paired1[next.0 := true] && st'.paired2 == st.paired2[next.1 := true]
    requires !committed ==> next in st.index.scores
    requires !committed ==> st' == st.(index := st'.index) && st'.index.scores == st.index.scores - {next}
    ensures Grown(sim, g1.n, g2.n, pairs, paired1, paired2, st'.pairs, st'.paired1, st'.paired2)
    ensures committed ==> CountUnset(st'.paired1) < CountUnset(st.paired1)
    ensures !committed ==> st'.paired1 == st.paired1 && |st'.index.scores.Keys| < |st.index.scores.Keys|
  {
    if committed {
      CountUnsetSet(st.paired1, next.0);
      var q := Pair(next.0, next.1, SimAt(sim, g1.n, g2.n, next.0, next.1));
      GrowPairs(sim, g1.n, g2.n, pairs, st.pairs, q);
      if OneToOne(st.pairs) {
        forall p | p in st.pairs ensures p.n1 != next.0 && p.n2 != next.1 {
        }
        OneToOneSnoc(st.pairs, q);
      }
    } else {
      assert st'.index.scores.Keys == st.index.scores.Keys - {next};
    }
  }

  /** `single_extend` (align.py:1621-1842) with the `common_neighbor`
      score: set up, then iterate until one network is fully aligned. The
      loop always ends: an iteration either aligns a node or deletes a
      score. The given pairs stay in front, every added pair is a grid
      cell with its similarity, the flags only grow, and the result is
      one-to-one whenever the given pairs are. */
  method Extend(g1: Network, g2: Network, sim: seq<real>, pairs: seq<Pair>, paired1: seq<bool>, paired2: seq<bool>)
    returns (result: seq<Pair>, flags1: seq<bool>, flags2: seq<bool>)
    requires Valid(g1) && Valid(g2) && |sim| == g1.n * g2.n
    requires |paired1| == g1.n && |paired2| == g2.n
    requires PairsFlagged(pairs, paired1, paired2)
    ensures |flags1| == g1.n && |flags2| == g2.n
    ensures AllSet(flags1) || AllSet(flags2)
    ensures PairsFlagged(result, flags1, flags2)
    ensures Grown(sim, g1.n, g2.n, pairs, paired1, paired2, result, flags1, flags2)
  {
    var order, st := Prepare(g1, g2, sim, pairs, paired1, paired2);
    assert st.pairs[|pairs|..] == [];
    while !(AllSet(st.paired1) || AllSet(st.paired2))
      invariant Ready(g1, g2, sim, order, st)
      invariant Grown(sim, g1.n, g2.n, pairs, paired1, paired2, st.pairs, st.paired1, st.paired2)
      decreases CountUnset(st.paired1), |st.index.scores.Keys|
    {
      var st', next, committed := Step(g1, g2, sim, order, st);
      GrowStep(g1, g2, sim, pairs, paired1, paired2, st, st', next, committed);
      st := st';
    }
    result, flags1, flags2 := st.pairs, st.paired1, st.paired2;
  }
}
