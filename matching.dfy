/** The assignment helpers of utils.py: the greedy matcher over a score
    matrix, the conversion of a solver's boolean pair matrix into two index
    lists, and `normalize`. The greedy scan defined here is shared with the
    greedy aligners of align.py, which run the same loop over the similarity
    vector. */
module Matching {
  import opened Common
  import opened Sorting

  // ---------------------------------------------------------------------
  // Cells of a score matrix, in the order the double loop appends them
  // ---------------------------------------------------------------------

  /** Every row has `cols` entries: the shape of a two-dimensional array. */
  predicate Rectangular(m: seq<seq<real>>, cols: nat) {
    forall i :: 0 <= i < |m| ==> |m[i]| == cols
  }

  /** The cells (i, j, m[i][j]) of row `i` for j < `cols`. */
  function RowCells(m: seq<seq<real>>, i: nat, cols: nat): seq<Pair>
    requires i < |m| && cols <= |m[i]|
  {
    seq(cols, j requires 0 <= j < cols => Pair(i, j, m[i][j]))
  }

  /** The cells of the first `rows` rows, row after row. */
  function Cells(m: seq<seq<real>>, rows: nat, cols: nat): seq<Pair>
    requires rows <= |m| && Rectangular(m, cols)
  {
    if rows == 0 then [] else Cells(m, rows - 1, cols) + RowCells(m, rows - 1, cols)
  }

  lemma RowCellsMembers(m: seq<seq<real>>, i: nat, cols: nat)
    requires i < |m| && cols <= |m[i]|
    ensures forall c :: c in RowCells(m, i, cols) <==> c.n1 == i && c.n2 < cols && c.score == m[i][c.n2]
  {
    var row := RowCells(m, i, cols);
    forall c: Pair | c.n1 == i && c.n2 < cols && c.score == m[i][c.n2]
      ensures c in row
    {
      assert row[c.n2] == c;
    }
  }

  /** The cell list holds each in-range position once, with its matrix score,
      and nothing else. */
  lemma {:induction false} CellsMembers(m: seq<seq<real>>, rows: nat, cols: nat)
    requires rows <= |m| && Rectangular(m, cols)
    ensures |Cells(m, rows, cols)| == rows * cols
    ensures forall c :: c in Cells(m, rows, cols) <==>
      c.n1 < rows && c.n2 < cols && c.score == m[c.n1][c.n2]
    decreases rows
  {
    if rows > 0 {
      CellsMembers(m, rows - 1, cols);
      RowCellsMembers(m, rows - 1, cols);
      assert (rows - 1) * cols + cols == rows * cols;
    }
  }

  /** The nested `for i1 in range(l1): for i2 in range(l2)` loop that fills
      the cell list. */
  method BuildCells(m: seq<seq<real>>, cols: nat) returns (cells: seq<Pair>)
    requires Rectangular(m, cols)
    ensures cells == Cells(m, |m|, cols)
  {
    cells := [];
    var i := 0;
    while i < |m|
      invariant i <= |m|
      invariant cells == Cells(m, i, cols)
    {
      var j := 0;
      while j < cols
        invariant j <= cols
        invariant cells == Cells(m, i, cols) + RowCells(m, i, j)
      {
        assert RowCells(m, i, j + 1) == RowCells(m, i, j) + [Pair(i, j, m[i][j])];
        cells := cells + [Pair(i, j, m[i][j])];
        j := j + 1;
      }
      assert RowCells(m, i, j) == RowCells(m, i, cols);
      i := i + 1;
    }
  }

  // ---------------------------------------------------------------------
  // The greedy scan
  // ---------------------------------------------------------------------

  /** Neither node of `c` is used by `ps`. */
  predicate Fresh(c: Pair, ps: seq<Pair>) {
    c.n1 !in Firsts(ps) && c.n2 !in Seconds(ps)
  }

  /** The pairs a greedy scan of `cells` takes: each cell in turn, kept when
      both of its nodes are still free. */
  function GreedyOf(cells: seq<Pair>): seq<Pair>
    decreases |cells|
  {
    if cells == [] then []
    else
      var prev := GreedyOf(cells[..|cells| - 1]);
      var c := cells[|cells| - 1];
      if Fresh(c, prev) then prev + [c] else prev
  }

  /** The greedy result never uses a node twice. */
  lemma {:induction false} GreedyOneToOne(cells: seq<Pair>)
    ensures OneToOne(GreedyOf(cells))
    decreases |cells|
  {
    if cells != [] {
      var prev := GreedyOf(cells[..|cells| - 1]);
      var c := cells[|cells| - 1];
      GreedyOneToOne(cells[..|cells| - 1]);
      if Fresh(c, prev) {
        var g := prev + [c];
        forall i, j | 0 <= i < j < |g| ensures g[i].n1 != g[j].n1 && g[i].n2 != g[j].n2 {
          if j == |prev| {
            assert g[i] in prev;
          } else {
            assert g[i] == prev[i] && g[j] == prev[j];
          }
        }
      }
    }
  }

  /** The greedy result lists taken cells in the order the scan met them. */
  lemma {:induction false} GreedySubsequence(cells: seq<Pair>)
    ensures IsSubsequence(GreedyOf(cells), cells)
    decreases |cells|
  {
    if cells == [] {
    } else {
      var pre := cells[..|cells| - 1];
      var c := cells[|cells| - 1];
      GreedySubsequence(pre);
      assert cells == pre + [c];
      if Fresh(c, GreedyOf(pre)) {
        SubsequenceSnoc(GreedyOf(pre), pre, c);
      } else {
        SubsequenceExtend(GreedyOf(pre), pre, c);
      }
    }
  }

  /** A longer scan only adds pairs: what was taken stays taken. */
  lemma {:induction false} GreedyGrows(cells: seq<Pair>, k: nat)
    requires k <= |cells|
    ensures Firsts(GreedyOf(cells[..k])) <= Firsts(GreedyOf(cells))
    ensures Seconds(GreedyOf(cells[..k])) <= Seconds(GreedyOf(cells))
    decreases |cells| - k
  {
    if k < |cells| {
      var pre := cells[..|cells| - 1];
      assert pre[..k] == cells[..k];
      GreedyGrows(pre, k);
      FirstsSnoc(GreedyOf(pre), cells[|cells| - 1]);
    } else {
      assert cells[..k] == cells;
    }
  }

  /** Greedy maximality: every cell of the scan shares a node with a taken
      pair (it was either taken or blocked). */
  lemma {:induction false} GreedyMaximal(cells: seq<Pair>)
    ensures forall c :: c in cells ==> !Fresh(c, GreedyOf(cells))
    decreases |cells|
  {
    if cells != [] {
      var pre := cells[..|cells| - 1];
      var last := cells[|cells| - 1];
      GreedyMaximal(pre);
      GreedyGrows(cells, |cells| - 1);
      FirstsSnoc(GreedyOf(pre), last);
      forall c | c in cells ensures !Fresh(c, GreedyOf(cells)) {
        if c != last {
          assert c in pre;
        }
      }
    }
  }

  /** The first cell of the scan is always taken. */
  lemma {:induction false} GreedyHead(cells: seq<Pair>)
    requires cells != []
    ensures GreedyOf(cells) != [] && GreedyOf(cells)[0] == cells[0]
    decreases |cells|
  {
    var pre := cells[..|cells| - 1];
    if pre != [] {
      GreedyHead(pre);
    }
  }

  /** Once one side is used up, no later cell can be taken, so stopping the
      scan there returns what the full scan would. */
  lemma {:induction false} GreedyExhausted(cells: seq<Pair>, k: nat, l1: nat, l2: nat)
    requires k <= |cells|
    requires forall c :: c in cells ==> c.n1 < l1 && c.n2 < l2
    requires |Firsts(GreedyOf(cells[..k]))| == l1 || |Seconds(GreedyOf(cells[..k]))| == l2
    ensures GreedyOf(cells) == GreedyOf(cells[..k])
    decreases |cells| - k
  {
    if k < |cells| {
      var pre := cells[..|cells| - 1];
      assert pre[..k] == cells[..k];
      GreedyExhausted(pre, k, l1, l2);
      var g := GreedyOf(cells[..k]);
      var last := cells[|cells| - 1];
      GreedySubsequence(cells[..k]);
      SubsequenceMembers(g, cells[..k]);
      if |Firsts(g)| == l1 {
        SubsetFull(Firsts(g), l1);
      } else {
        SubsetFull(Seconds(g), l2);
      }
      assert !Fresh(last, g);
    } else {
      assert cells[..k] == cells;
    }
  }

  /** The greedy loop with its early `break`: it walks the cells, keeps a cell
      whose nodes are both free, and stops once either side is used up. It
      returns exactly the pairs of the full scan. */
  method GreedyScan(cells: seq<Pair>, l1: nat, l2: nat) returns (pairs: seq<Pair>)
    requires forall c :: c in cells ==> c.n1 < l1 && c.n2 < l2
    ensures pairs == GreedyOf(cells)
  {
    pairs := [];
    var nodes1: set<nat> := {};
    var nodes2: set<nat> := {};
    var k := 0;
    while k < |cells|
      invariant k <= |cells|
      invariant pairs == GreedyOf(cells[..k])
      invariant nodes1 == Firsts(pairs) && nodes2 == Seconds(pairs)
    {
      var c := cells[k];
      assert cells[..k + 1][..k] == cells[..k];
      if c.n1 !in nodes1 && c.n2 !in nodes2 {
        FirstsSnoc(pairs, c);
        nodes1 := nodes1 + {c.n1};
        nodes2 := nodes2 + {c.n2};
        pairs := pairs + [c];
      }
      k := k + 1;
      if |nodes1| == l1 || |nodes2| == l2 {
        GreedyExhausted(cells, k, l1, l2);
        break;
      }
    }
    if k == |cells| {
      assert cells[..k] == cells;
    }
  }

  /** When every cell of an l1 x l2 score matrix is among the cells, the
      greedy result uses up one side completely: it has min(l1, l2) pairs. */
  lemma GreedyFullSize(cells: seq<Pair>, m: seq<seq<real>>, l2: nat)
    requires Rectangular(m, l2)
    requires forall c :: c in cells ==> c.n1 < |m| && c.n2 < l2
    requires forall i, j :: 0 <= i < |m| && 0 <= j < l2 ==> Pair(i, j, m[i][j]) in cells
    ensures |GreedyOf(cells)| == if |m| <= l2 then |m| else l2
  {
    var l1 := |m|;
    var g := GreedyOf(cells);
    GreedyOneToOne(cells);
    OneToOneCounts(g);
    GreedySubsequence(cells);
    SubsequenceMembers(g, cells);
    GreedyMaximal(cells);
    RangeSize(l1);
    RangeSize(l2);
    SubsetSize(Firsts(g), Range(l1));
    SubsetSize(Seconds(g), Range(l2));
    if Firsts(g) != Range(l1) {
      var i :| i in Range(l1) && i !in Firsts(g);
      forall j: nat | j < l2 ensures j in Seconds(g) {
        assert Pair(i, j, m[i][j]) in cells;
      }
      assert Seconds(g) == Range(l2);
    }
  }

  /** A greedy scan over cells sorted by ascending score takes its pairs in
      ascending score order. */
  lemma GreedyAscending(cells: seq<Pair>)
    requires Sorted(cells, false)
    ensures Sorted(GreedyOf(cells), false)
  {
    GreedySubsequence(cells);
    SubsequenceSorted(GreedyOf(cells), cells, false);
  }

  // ---------------------------------------------------------------------
  // greedy_assignment
  // ---------------------------------------------------------------------

  /** The first-network indices of a pair list, in order. */
  function Lefts(ps: seq<Pair>): (r: seq<nat>)
    ensures |r| == |ps| && forall k :: 0 <= k < |ps| ==> r[k] == ps[k].n1
  {
    seq(|ps|, k requires 0 <= k < |ps| => ps[k].n1)
  }

  /** The second-network indices of a pair list, in order. */
  function Rights(ps: seq<Pair>): (r: seq<nat>)
    ensures |r| == |ps| && forall k :: 0 <= k < |ps| ==> r[k] == ps[k].n2
  {
    seq(|ps|, k requires 0 <= k < |ps| => ps[k].n2)
  }

  /** The pairs `greedy_assignment` takes from an l1 x l2 score matrix:
      the greedy scan over its cells sorted by ascending score. */
  function AssignmentPairs(scores: seq<seq<real>>, cols: nat): seq<Pair>
    requires Rectangular(scores, cols)
  {
    GreedyOf(SortByScore(Cells(scores, |scores|, cols), false))
  }

  /** The sorted cell list holds exactly the cells of the matrix. */
  lemma SortedCells(scores: seq<seq<real>>, cols: nat, desc: bool)
    requires Rectangular(scores, cols)
    ensures forall c :: c in SortByScore(Cells(scores, |scores|, cols), desc) <==>
      c.n1 < |scores| && c.n2 < cols && c.score == scores[c.n1][c.n2]
  {
    var cells := Cells(scores, |scores|, cols);
    var sorted := SortByScore(cells, desc);
    CellsMembers(scores, |scores|, cols);
    forall c ensures c in sorted <==> c in cells {
      assert c in sorted <==> c in multiset(sorted);
      assert c in cells <==> c in multiset(cells);
    }
  }

  /** What the greedy pairs of a score matrix are: one-to-one, as many as
      the smaller side, cells of the matrix with their scores, taken in
      ascending score order, and blocking every other cell. */
  lemma AssignmentProperties(scores: seq<seq<real>>, cols: nat)
    requires Rectangular(scores, cols)
    ensures var g := AssignmentPairs(scores, cols);
      && OneToOne(g)
      && |g| == (if |scores| <= cols then |scores| else cols)
      && (forall p :: p in g ==> p.n1 < |scores| && p.n2 < cols && p.score == scores[p.n1][p.n2])
      && Sorted(g, false)
      && (forall c :: c in Cells(scores, |scores|, cols) ==> !Fresh(c, g))
  {
    var sorted := SortByScore(Cells(scores, |scores|, cols), false);
    var g := GreedyOf(sorted);
    SortedCells(scores, cols, false);
    CellsMembers(scores, |scores|, cols);
    GreedyOneToOne(sorted);
    GreedyFullSize(sorted, scores, cols);
    GreedySubsequence(sorted);
    SubsequenceMembers(g, sorted);
    GreedyAscending(sorted);
    GreedyMaximal(sorted);
  }

  /** The same facts on the two index lists `greedy_assignment` returns. */
  lemma AssignmentIndices(scores: seq<seq<real>>, cols: nat)
    requires Rectangular(scores, cols)
    ensures var g := AssignmentPairs(scores, cols);
      var p1 := Lefts(g);
      var p2 := Rights(g);
      && |p1| == |p2| == (if |scores| <= cols then |scores| else cols)
      && (forall i, j :: 0 <= i < j < |p1| ==> p1[i] != p1[j] && p2[i] != p2[j])
      && (forall k :: 0 <= k < |p1| ==> p1[k] < |scores| && p2[k] < cols)
      && (forall i, j :: 0 <= i < j < |p1| ==> scores[p1[i]][p2[i]] <= scores[p1[j]][p2[j]])
      && (forall c :: c in Cells(scores, |scores|, cols) ==> c.n1 in p1 || c.n2 in p2)
  {
    AssignmentProperties(scores, cols);
    IndexLists(AssignmentPairs(scores, cols), scores, cols);
  }

  /** The index lists of a one-to-one, ascending, blocking list of cells. */
  lemma IndexLists(g: seq<Pair>, scores: seq<seq<real>>, cols: nat)
    requires Rectangular(scores, cols)
    requires OneToOne(g) && Sorted(g, false)
    requires forall p :: p in g ==> p.n1 < |scores| && p.n2 < cols && p.score == scores[p.n1][p.n2]
    requires forall c :: c in Cells(scores, |scores|, cols) ==> !Fresh(c, g)
    ensures var p1 := Lefts(g);
      var p2 := Rights(g);
      && (forall i, j :: 0 <= i < j < |p1| ==> p1[i] != p1[j] && p2[i] != p2[j])
      && (forall k :: 0 <= k < |p1| ==> p1[k] < |scores| && p2[k] < cols)
      && (forall i, j :: 0 <= i < j < |p1| ==> scores[p1[i]][p2[i]] <= scores[p1[j]][p2[j]])
      && (forall c :: c in Cells(scores, |scores|, cols) ==> c.n1 in p1 || c.n2 in p2)
  {
    var p1 := Lefts(g);
    var p2 := Rights(g);
    forall k | 0 <= k < |g| ensures g[k].n1 < |scores| && g[k].n2 < cols && g[k].score == scores[p1[k]][p2[k]] {
      assert g[k] in g;
    }
    forall c | c in Cells(scores, |scores|, cols) ensures c.n1 in p1 || c.n2 in p2 {
      assert !Fresh(c, g);
      if c.n1 in Firsts(g) {
        var p :| p in g && p.n1 == c.n1;
        var k :| 0 <= k < |g| && g[k] == p;
        assert p1[k] == c.n1;
      } else {
        var p :| p in g && p.n2 == c.n2;
        var k :| 0 <= k < |g| && g[k] == p;
        assert p2[k] == c.n2;
      }
    }
  }

  /** The first pair taken is a cell of lowest score, and among the cells
      with that score the first one in row-major order. */
  lemma AssignmentHead(scores: seq<seq<real>>, cols: nat)
    requires Rectangular(scores, cols) && |scores| > 0 && cols > 0
    ensures var g := AssignmentPairs(scores, cols);
      var cells := Cells(scores, |scores|, cols);
      && g != []
      && (forall c :: c in cells ==> g[0].score <= c.score)
      && WithScore(cells, g[0].score) != []
      && g[0] == WithScore(cells, g[0].score)[0]
  {
    var cells := Cells(scores, |scores|, cols);
    CellsMembers(scores, |scores|, cols);
    assert cells != [] by {
      assert Pair(0, 0, scores[0][0]) in cells;
    }
    GreedyHead(SortByScore(cells, false));
    SortedHead(cells);
  }

  /** utils.greedy_assignment: the greedy matcher on a score matrix with
      `|scores|` rows of `cols` entries. It takes the cells in ascending score
      order, so low scores are taken first, and returns the two index lists.
      The lists are as long as the smaller side, no index repeats, the
      scores taken are non-decreasing, and every cell of the matrix shares a
      row or a column with a taken cell. */
  method GreedyAssignment(scores: seq<seq<real>>, cols: nat) returns (p1: seq<nat>, p2: seq<nat>)
    requires Rectangular(scores, cols)
    ensures p1 == Lefts(AssignmentPairs(scores, cols)) && p2 == Rights(AssignmentPairs(scores, cols))
    ensures |p1| == |p2| == if |scores| <= cols then |scores| else cols
    ensures forall i, j :: 0 <= i < j < |p1| ==> p1[i] != p1[j] && p2[i] != p2[j]
    ensures forall k :: 0 <= k < |p1| ==> p1[k] < |scores| && p2[k] < cols
    ensures forall i, j :: 0 <= i < j < |p1| ==> scores[p1[i]][p2[i]] <= scores[p1[j]][p2[j]]
    ensures forall c :: c in Cells(scores, |scores|, cols) ==> c.n1 in p1 || c.n2 in p2
  {
    var cells := BuildCells(scores, cols);
    var sorted := SortByScore(cells, false);
    SortedCells(scores, cols, false);
    var pairs := GreedyScan(sorted, |scores|, cols);
    p1 := [];
    p2 := [];
    var k := 0;
    while k < |pairs|
      invariant k <= |pairs|
      invariant p1 == Lefts(pairs[..k]) && p2 == Rights(pairs[..k])
    {
      p1 := p1 + [pairs[k].n1];
      p2 := p2 + [pairs[k].n2];
      k := k + 1;
    }
    assert pairs[..k] == pairs;
    AssignmentIndices(scores, cols);
  }

  // ---------------------------------------------------------------------
  // The pair-matrix loop of linear_sum_assignment
  // ---------------------------------------------------------------------

  /** Python's `list(x).index(True)`: the first True column, if any. */
  function FirstTrue(row: seq<bool>): (r: Option<nat>)
    ensures r.None? <==> true !in row
    ensures r.Some? ==> r.value < |row| && row[r.value] && true !in row[..r.value]
  {
    if row == [] then None
    else if row[0] then Some(0)
    else
      var rest := FirstTrue(row[1..]);
      assert row == [row[0]] + row[1..];
      if rest.None? then None
      else
        assert row[..rest.value + 1] == [row[0]] + row[1..][..rest.value];
        Some(rest.value + 1)
  }

  /** Turns the solver's boolean pair matrix into the index lists `p1`, `p2`:
      a row with a True is paired with its first True column, a row without
      one (the `ValueError` branch) is skipped. */
  method PairMatrixToIndices(pm: seq<seq<bool>>) returns (p1: seq<nat>, p2: seq<nat>)
    ensures |p1| == |p2|
    ensures forall i, j :: 0 <= i < j < |p1| ==> p1[i] < p1[j]
    ensures forall k :: 0 <= k < |p1| ==> p1[k] < |pm| && FirstTrue(pm[p1[k]]) == Some(p2[k])
    ensures forall i :: 0 <= i < |pm| ==> (i in p1 <==> true in pm[i])
  {
    p1 := [];
    p2 := [];
    var i := 0;
    while i < |pm|
      invariant i <= |pm|
      invariant |p1| == |p2|
      invariant forall a, b :: 0 <= a < b < |p1| ==> p1[a] < p1[b]
      invariant forall k :: 0 <= k < |p1| ==> p1[k] < i && FirstTrue(pm[p1[k]]) == Some(p2[k])
      invariant forall r :: 0 <= r < i ==> (r in p1 <==> true in pm[r])
    {
      var found := FirstTrue(pm[i]);
      if found.Some? {
        p1 := p1 + [i];
        p2 := p2 + [found.value];
      }
      i := i + 1;
    }
  }

  /** When the solver's matrix has at most one True per column (its shape
      contract: a one-to-one pairing), no column index repeats. */
  lemma PairMatrixColumnsDistinct(pm: seq<seq<bool>>, p1: seq<nat>, p2: seq<nat>)
    requires forall r, s, c :: 0 <= r < s < |pm| && 0 <= c < |pm[r]| && c < |pm[s]| ==> !(pm[r][c] && pm[s][c])
    requires |p1| == |p2|
    requires forall i, j :: 0 <= i < j < |p1| ==> p1[i] < p1[j]
    requires forall k :: 0 <= k < |p1| ==> p1[k] < |pm| && FirstTrue(pm[p1[k]]) == Some(p2[k])
    ensures forall i, j :: 0 <= i < j < |p2| ==> p2[i] != p2[j]
  {
    forall i, j | 0 <= i < j < |p2| ensures p2[i] != p2[j] {
      var r, s := p1[i], p1[j];
      assert pm[r][p2[i]] && pm[s][p2[j]];
    }
  }

  // ---------------------------------------------------------------------
  // normalize
  // ---------------------------------------------------------------------

  /** A float result of the division: a number, or an infinity when a
      non-zero value is divided by zero. */
  datatype Quotient = Finite(value: real) | Infinite(positive: bool)

  /** numpy's `x / d` followed by the `isnan -> 0` replacement: 0/0 is NaN
      and becomes 0, x/0 for x != 0 is a signed infinity. */
  function Divide(x: real, d: real): Quotient {
    if d != 0.0 then Finite(x / d)
    else if x == 0.0 then Finite(0.0)
    else Infinite(x > 0.0)
  }

  function Sum(arr: seq<real>): real {
    if arr == [] then 0.0 else Sum(arr[..|arr| - 1]) + arr[|arr| - 1]
  }

  /** `normalize` on a one-dimensional array: every entry over the sum. */
  function NormalizeVector(arr: seq<real>): (r: seq<Quotient>)
    ensures |r| == |arr|
  {
    var total := Sum(arr);
    seq(|arr|, i requires 0 <= i < |arr| => Divide(arr[i], total))
  }

  /** `sum(arr)` on a two-dimensional array adds the rows up: column `j` of
      the result is the sum of column `j`. */
  function Column(m: seq<seq<real>>, j: nat): seq<real>
    requires forall i :: 0 <= i < |m| ==> j < |m[i]|
  {
    seq(|m|, i requires 0 <= i < |m| => m[i][j])
  }

  /** `normalize` on a two-dimensional array: entry (i, j) over the sum of
      column j. */
  function NormalizeColumns(m: seq<seq<real>>, cols: nat): (r: seq<seq<Quotient>>)
    requires Rectangular(m, cols)
    ensures |r| == |m| && forall i :: 0 <= i < |r| ==> |r[i]| == cols
  {
    seq(|m|, i requires 0 <= i < |m| =>
      seq(cols, j requires 0 <= j < cols => Divide(m[i][j], Sum(Column(m, j)))))
  }

  /** The numbers of a normalised vector, with 0 in place of an infinity. */
  function Magnitudes(q: seq<Quotient>): (r: seq<real>)
    ensures |r| == |q|
  {
    seq(|q|, i requires 0 <= i < |q| => if q[i].Finite? then q[i].value else 0.0)
  }

  lemma {:induction false} SumNonNegative(arr: seq<real>)
    requires forall i :: 0 <= i < |arr| ==> arr[i] >= 0.0
    ensures Sum(arr) >= 0.0
    ensures forall i :: 0 <= i < |arr| ==> arr[i] <= Sum(arr)
    decreases |arr|
  {
    if arr != [] {
      SumNonNegative(arr[..|arr| - 1]);
    }
  }

  lemma {:induction false} SumScaled(arr: seq<real>, d: real, out: seq<real>)
    requires d != 0.0 && |out| == |arr|
    requires forall i :: 0 <= i < |arr| ==> out[i] == arr[i] / d
    ensures Sum(out) == Sum(arr) / d
    decreases |arr|
  {
    if arr != [] {
      SumScaled(arr[..|arr| - 1], d, out[..|out| - 1]);
    }
  }

  /** A vector of non-negative values with a positive sum normalises to
      finite values in [0, 1] that sum to 1. */
  lemma NormalizeSumsToOne(arr: seq<real>)
    requires forall i :: 0 <= i < |arr| ==> arr[i] >= 0.0
    requires Sum(arr) > 0.0
    ensures var q := NormalizeVector(arr);
      && (forall i :: 0 <= i < |q| ==> q[i].Finite? && 0.0 <= q[i].value <= 1.0)
      && Sum(Magnitudes(q)) == 1.0
  {
    var q := NormalizeVector(arr);
    SumNonNegative(arr);
    var total := Sum(arr);
    forall i | 0 <= i < |q| ensures q[i].Finite? && 0.0 <= q[i].value <= 1.0 {
      assert q[i] == Finite(arr[i] / total);
      FractionBounds(arr[i], total);
    }
    SumScaled(arr, total, Magnitudes(q));
    SelfQuotient(total);
  }

  lemma SelfQuotient(d: real)
    requires d != 0.0
    ensures d / d == 1.0
  {
  }

  lemma FractionBounds(x: real, d: real)
    requires 0.0 <= x <= d && d > 0.0
    ensures 0.0 <= x / d <= 1.0
  {
  }

  lemma {:induction false} SumZeros(arr: seq<real>)
    requires forall i :: 0 <= i < |arr| ==> arr[i] == 0.0
    ensures Sum(arr) == 0.0
    decreases |arr|
  {
    if arr != [] {
      SumZeros(arr[..|arr| - 1]);
    }
  }

  /** The 0/0 rule: an all-zero column stays zero instead of becoming NaN. */
  lemma NormalizeZeroColumn(m: seq<seq<real>>, cols: nat, j: nat)
    requires Rectangular(m, cols) && j < cols
    requires forall i :: 0 <= i < |m| ==> m[i][j] == 0.0
    ensures forall i :: 0 <= i < |m| ==> NormalizeColumns(m, cols)[i][j] == Finite(0.0)
  {
    SumZeros(Column(m, j));
  }

  /** A non-zero entry over a column that sums to zero is an infinity of
      its own sign: only 0/0 is replaced. */
  lemma NormalizeInfinite(m: seq<seq<real>>, cols: nat, i: nat, j: nat)
    requires Rectangular(m, cols) && i < |m| && j < cols
    requires Sum(Column(m, j)) == 0.0 && m[i][j] != 0.0
    ensures NormalizeColumns(m, cols)[i][j] == Infinite(m[i][j] > 0.0)
  {
  }

  /** With a non-zero column sum, every entry of the column is divided by it,
      so the column of a non-negative matrix with a positive sum sums to 1. */
  lemma NormalizeColumnSumsToOne(m: seq<seq<real>>, cols: nat, j: nat)
    requires Rectangular(m, cols) && j < cols
    requires forall i :: 0 <= i < |m| ==> m[i][j] >= 0.0
    requires Sum(Column(m, j)) > 0.0
    ensures Sum(Magnitudes(NormalizeVector(Column(m, j)))) == 1.0
    ensures forall i :: 0 <= i < |m| ==>
      NormalizeColumns(m, cols)[i][j] == NormalizeVector(Column(m, j))[i]
  {
    NormalizeSumsToOne(Column(m, j));
  }
}
