/** The two greedy aligners of align.py. `greedy_align` scans the cells of
    the similarity vector in ascending similarity order and keeps every cell
    whose two nodes are still free. `semi_greedy_align` runs the same scan,
    remembers the cells it could not take, and then tries, for each of them,
    a 2-swap that exchanges the partners of two aligned pairs when the sum of
    the stored scores grows. */
module Greedy {
  import opened Common
  import opened Sorting
  import opened Organism
  import opened Matching

  /** The similarity vector seen as the n1 x n2 matrix of its cells. */
  function SimMatrix(sim: seq<real>, n1: nat, n2: nat): (m: seq<seq<real>>)
    requires |sim| == n1 * n2
    ensures |m| == n1 && Rectangular(m, n2)
  {
    seq(n1, i requires 0 <= i < n1 => seq(n2, j requires 0 <= j < n2 => SimAt(sim, n1, n2, i, j)))
  }

  // ---------------------------------------------------------------------
  // greedy_align
  // ---------------------------------------------------------------------

  /** `greedy_align`: the cells (n1, n2, similarity) in row-major order,
      sorted by ascending similarity, scanned greedily with the early stop.
      The result is one-to-one, has one pair per node of the smaller
      network, lists cells with their similarity in ascending order, and
      leaves no cell whose two nodes are both unaligned. */
  method GreedyAlign(n1: nat, n2: nat, sim: seq<real>) returns (pairs: seq<Pair>)
    requires |sim| == n1 * n2
    ensures pairs == AssignmentPairs(SimMatrix(sim, n1, n2), n2)
    ensures OneToOne(pairs)
    ensures |pairs| == if n1 <= n2 then n1 else n2
    ensures forall p :: p in pairs ==> p.n1 < n1 && p.n2 < n2 && p.score == SimAt(sim, n1, n2, p.n1, p.n2)
    ensures Sorted(pairs, false)
    ensures forall c :: c in Cells(SimMatrix(sim, n1, n2), n1, n2) ==> !Fresh(c, pairs)
  {
    var m := SimMatrix(sim, n1, n2);
    var cells := BuildCells(m, n2);
    var sorted := SortByScore(cells, false);
    SortedCells(m, n2, false);
    pairs := GreedyScan(sorted, n1, n2);
    AssignmentProperties(m, n2);
  }

  // ---------------------------------------------------------------------
  // semi_greedy_align, first phase
  // ---------------------------------------------------------------------

  /** One side has no free node left. */
  predicate Exhausted(ps: seq<Pair>, l1: nat, l2: nat) {
    |Firsts(ps)| == l1 || |Seconds(ps)| == l2
  }

  /** How many cells the first phase handles, counting from `k`: up to and
      including the first cell after which one side is used up, or all. */
  function StopFrom(cells: seq<Pair>, l1: nat, l2: nat, k: nat): (r: nat)
    requires k <= |cells|
    ensures k <= r <= |cells|
    decreases |cells| - k
  {
    if k == |cells| then k
    else if Exhausted(GreedyOf(cells[..k + 1]), l1, l2) then k + 1
    else StopFrom(cells, l1, l2, k + 1)
  }

  /** The cells the scan met but could not take (the `remains` list). */
  function Skipped(cells: seq<Pair>): seq<Pair>
    decreases |cells|
  {
    if cells == [] then []
    else
      var pre := cells[..|cells| - 1];
      var c := cells[|cells| - 1];
      Skipped(pre) + (if Fresh(c, GreedyOf(pre)) then [] else [c])
  }

  /** Every scanned cell is either taken or left over, never both, and every
      left-over cell shares a node with a taken pair. */
  lemma {:induction false} SkippedPartition(cells: seq<Pair>)
    ensures |GreedyOf(cells)| + |Skipped(cells)| == |cells|
    ensures forall q :: q in Skipped(cells) ==> q in cells && !Fresh(q, GreedyOf(cells))
    decreases |cells|
  {
    if cells != [] {
      var pre := cells[..|cells| - 1];
      var c := cells[|cells| - 1];
      SkippedPartition(pre);
      GreedyGrows(cells, |cells| - 1);
      forall q | q in Skipped(cells) ensures q in cells && !Fresh(q, GreedyOf(cells)) {
        if q in Skipped(pre) {
          assert q in pre;
        }
      }
    }
  }

  /** A first-network node mapped to its partner and stored score. */
  type Dict = map<nat, (nat, real)>

  /** `pair_dic1` and `pair_dic2` describe `pairs` exactly: each node of a
      pair maps to the other node and the stored score, and no other node
      has an entry. The pairs are one-to-one. */
  ghost predicate Mirrors(pairs: seq<Pair>, d1: Dict, d2: Dict) {
    && OneToOne(pairs)
    && d1.Keys == Firsts(pairs)
    && d2.Keys == Seconds(pairs)
    && ValuesMatch(pairs, d1, d2)
  }

  ghost predicate ValuesMatch(pairs: seq<Pair>, d1: Dict, d2: Dict) {
    forall p :: p in pairs ==> p.n1 in d1 && d1[p.n1] == (p.n2, p.score) && p.n2 in d2 && d2[p.n2] == (p.n1, p.score)
  }

  /** A pair whose cell is also in `remain_dic` stores the same score. */
  ghost predicate StoredMatches(pairs: seq<Pair>, remainDic: map<(nat, nat), real>) {
    forall p :: p in pairs && (p.n1, p.n2) in remainDic ==> p.score == remainDic[(p.n1, p.n2)]
  }

  /** Every left-over cell is in `remain_dic` with its own score. */
  ghost predicate Listed(remains: seq<Pair>, remainDic: map<(nat, nat), real>) {
    forall q :: q in remains ==> (q.n1, q.n2) in remainDic && remainDic[(q.n1, q.n2)] == q.score
  }

  lemma MirrorsAdd(pairs: seq<Pair>, d1: Dict, d2: Dict, c: Pair)
    requires Mirrors(pairs, d1, d2) && Fresh(c, pairs)
    ensures Mirrors(pairs + [c], d1[c.n1 := (c.n2, c.score)], d2[c.n2 := (c.n1, c.score)])
  {
    OneToOneSnoc(pairs, c);
    FirstsSnoc(pairs, c);
    var d1' := d1[c.n1 := (c.n2, c.score)];
    var d2' := d2[c.n2 := (c.n1, c.score)];
    forall p | p in pairs + [c]
      ensures p.n1 in d1' && d1'[p.n1] == (p.n2, p.score) && p.n2 in d2' && d2'[p.n2] == (p.n1, p.score)
    {
      if p != c {
        assert p in pairs;
        assert p.n1 != c.n1 && p.n2 != c.n2;
      }
    }
  }

  /** `s` is entry (i, j) of the matrix. */
  predicate CellScore(m: seq<seq<real>>, i: nat, j: nat, s: real) {
    i < |m| && j < |m[i]| && s == m[i][j]
  }

  /** Every pair and every `remain_dic` entry carries its matrix score. */
  ghost predicate FromMatrix(m: seq<seq<real>>, pairs: seq<Pair>, remainDic: map<(nat, nat), real>) {
    && (forall p :: p in pairs ==> CellScore(m, p.n1, p.n2, p.score))
    && (forall key :: key in remainDic ==> CellScore(m, key.0, key.1, remainDic[key]))
  }

  /** The variables of the first phase: `pairs`, `nodes1`, `nodes2`,
      `pair_dic1`, `pair_dic2`, `remains` and `remain_dic`. */
  datatype SeedState = SeedState(pairs: seq<Pair>, nodes1: set<nat>, nodes2: set<nat>, d1: Dict, d2: Dict,
                                 remains: seq<Pair>, remainDic: map<(nat, nat), real>)

  /** One cell of the first phase: a cell whose two nodes are still free is
      appended to `pairs` and entered in `nodes1`, `nodes2` and both pair
      dictionaries; any other cell is appended to `remains` and entered in
      `remain_dic`. */
  function SeedNext(st: SeedState, c: Pair): SeedState {
    if c.n1 !in st.nodes1 && c.n2 !in st.nodes2 then
      st.(pairs := st.pairs + [c], nodes1 := st.nodes1 + {c.n1}, nodes2 := st.nodes2 + {c.n2},
          d1 := st.d1[c.n1 := (c.n2, c.score)], d2 := st.d2[c.n2 := (c.n1, c.score)])
    else
      st.(remains := st.remains + [c], remainDic := st.remainDic[(c.n1, c.n2) := c.score])
  }

  /** The first phase's variables after it has handled `cells`. */
  function SeedOf(cells: seq<Pair>): SeedState
    decreases |cells|
  {
    if cells == [] then SeedState([], {}, {}, map[], map[], [], map[])
    else SeedNext(SeedOf(cells[..|cells| - 1]), cells[|cells| - 1])
  }

  /** The first phase takes exactly the greedy pairs and leaves over exactly
      the skipped cells; `nodes1` and `nodes2` are the nodes of the pairs. */
  lemma {:induction false} SeedOfScan(cells: seq<Pair>)
    ensures var st := SeedOf(cells);
      && st.pairs == GreedyOf(cells) && st.remains == Skipped(cells)
      && st.nodes1 == Firsts(st.pairs) && st.nodes2 == Seconds(st.pairs)
    decreases |cells|
  {
    if cells != [] {
      var pre := cells[..|cells| - 1];
      var c := cells[|cells| - 1];
      SeedOfScan(pre);
      FirstsSnoc(SeedOf(pre).pairs, c);
    }
  }

  /** The pair dictionaries mirror the pairs of the first phase. */
  lemma {:induction false} SeedMirrors(cells: seq<Pair>)
    ensures Mirrors(SeedOf(cells).pairs, SeedOf(cells).d1, SeedOf(cells).d2)
    decreases |cells|
  {
    if cells != [] {
      var pre := cells[..|cells| - 1];
      var c := cells[|cells| - 1];
      var st := SeedOf(pre);
      SeedOfScan(pre);
      SeedMirrors(pre);
      if c.n1 !in st.nodes1 && c.n2 !in st.nodes2 {
        MirrorsAdd(st.pairs, st.d1, st.d2, c);
      }
    }
  }

  /** Cells scored from one matrix give a `remain_dic` that lists every
      left-over cell with its score (a repeated key is rewritten with the
      same score), and every pair and entry carries its matrix score. */
  lemma {:induction false} SeedScores(m: seq<seq<real>>, cells: seq<Pair>)
    requires forall c :: c in cells ==> CellScore(m, c.n1, c.n2, c.score)
    ensures FromMatrix(m, SeedOf(cells).pairs, SeedOf(cells).remainDic)
    ensures Listed(SeedOf(cells).remains, SeedOf(cells).remainDic)
    decreases |cells|
  {
    if cells != [] {
      var pre := cells[..|cells| - 1];
      var c := cells[|cells| - 1];
      assert c in cells;
      assert forall x :: x in pre ==> x in cells;
      SeedScores(m, pre);
    }
  }

  lemma StopStep(cells: seq<Pair>, l1: nat, l2: nat, k: nat)
    requires k < |cells|
    ensures Exhausted(GreedyOf(cells[..k + 1]), l1, l2) ==> StopFrom(cells, l1, l2, k) == k + 1
    ensures !Exhausted(GreedyOf(cells[..k + 1]), l1, l2) ==> StopFrom(cells, l1, l2, k) == StopFrom(cells, l1, l2, k + 1)
  {
  }

  /** The first phase of `semi_greedy_align`: the greedy scan that also
      fills `pair_dic1`, `pair_dic2`, and the left-over list `remains` with
      its dictionary `remain_dic`, up to the early stop. Its result is the
      state after the cells before the stop, whose pairs are the whole
      greedy scan. */
  method SeedPhase(cells: seq<Pair>, l1: nat, l2: nat)
    returns (pairs: seq<Pair>, d1: Dict, d2: Dict, remains: seq<Pair>, remainDic: map<(nat, nat), real>)
    requires forall c :: c in cells ==> c.n1 < l1 && c.n2 < l2
    ensures var st := SeedOf(cells[..StopFrom(cells, l1, l2, 0)]);
      pairs == st.pairs && d1 == st.d1 && d2 == st.d2 && remains == st.remains && remainDic == st.remainDic
    ensures pairs == GreedyOf(cells)
  {
    pairs, d1, d2, remains, remainDic := [], map[], map[], [], map[];
    var nodes1: set<nat> := {};
    var nodes2: set<nat> := {};
    var k := 0;
    while k < |cells|
      invariant k <= |cells|
      invariant StopFrom(cells, l1, l2, 0) == StopFrom(cells, l1, l2, k)
      invariant SeedAt(cells, k, SeedState(pairs, nodes1, nodes2, d1, d2, remains, remainDic))
    {
      var c := cells[k];
      ghost var st := SeedState(pairs, nodes1, nodes2, d1, d2, remains, remainDic);
      if c.n1 !in nodes1 && c.n2 !in nodes2 {
        nodes1 := nodes1 + {c.n1};
        nodes2 := nodes2 + {c.n2};
        pairs := pairs + [c];
        d1 := d1[c.n1 := (c.n2, c.score)];
        d2 := d2[c.n2 := (c.n1, c.score)];
      } else {
        remains := remains + [c];
        remainDic := remainDic[(c.n1, c.n2) := c.score];
      }
      SeedAdvance(cells, l1, l2, k, st, SeedState(pairs, nodes1, nodes2, d1, d2, remains, remainDic));
      k := k + 1;
      if |nodes1| == l1 || |nodes2| == l2 {
        return;
      }
    }
    SeedEnd(cells, l1, l2, k, SeedState(pairs, nodes1, nodes2, d1, d2, remains, remainDic));
  }

  /** The first phase's variables after the first `k` cells. */
  ghost predicate SeedAt(cells: seq<Pair>, k: nat, st: SeedState) {
    k <= |cells| && st == SeedOf(cells[..k])
  }

  /** One cell of the first phase: the state after it is the state of the
      longer prefix; if it uses up one side, the phase stops there with the
      whole greedy scan, and otherwise the stop lies further on. */
  lemma SeedAdvance(cells: seq<Pair>, l1: nat, l2: nat, k: nat, st: SeedState, st': SeedState)
    requires k < |cells|
    requires forall c :: c in cells ==> c.n1 < l1 && c.n2 < l2
    requires StopFrom(cells, l1, l2, 0) == StopFrom(cells, l1, l2, k)
    requires SeedAt(cells, k, st) && st' == SeedNext(st, cells[k])
    ensures SeedAt(cells, k + 1, st')
    ensures |st'.nodes1| == l1 || |st'.nodes2| == l2 ==>
      StopFrom(cells, l1, l2, 0) == k + 1 && st'.pairs == GreedyOf(cells)
    ensures !(|st'.nodes1| == l1 || |st'.nodes2| == l2) ==>
      StopFrom(cells, l1, l2, 0) == StopFrom(cells, l1, l2, k + 1)
  {
    assert cells[..k + 1][..k] == cells[..k];
    SeedOfScan(cells[..k + 1]);
    StopStep(cells, l1, l2, k);
    if |st'.nodes1| == l1 || |st'.nodes2| == l2 {
      GreedyExhausted(cells, k + 1, l1, l2);
    }
  }

  /** The first phase run to the last cell holds the state of all cells. */
  lemma SeedEnd(cells: seq<Pair>, l1: nat, l2: nat, k: nat, st: SeedState)
    requires k == |cells| && StopFrom(cells, l1, l2, 0) == StopFrom(cells, l1, l2, k)
    requires SeedAt(cells, k, st)
    ensures st == SeedOf(cells[..StopFrom(cells, l1, l2, 0)]) && st.pairs == GreedyOf(cells)
  {
    PrefixAll(cells);
    SeedOfScan(cells);
  }

  // ---------------------------------------------------------------------
  // semi_greedy_align, second phase
  // ---------------------------------------------------------------------

  /** `remain_dic.get(key, 0)`. */
  function RemainScore(remainDic: map<(nat, nat), real>, key: (nat, nat)): real {
    if key in remainDic then remainDic[key] else 0.0
  }

  /** When the left-over cell (n11, n22) meets the pairs (n11, n21) and
      (n12, n22), the two pairs are distinct exactly when the nodes differ;
      if they coincide, the cell is itself aligned and swapping gains
      nothing, so the swap never fires on a single pair. */
  lemma SwapPartners(pairs: seq<Pair>, d1: Dict, d2: Dict, remainDic: map<(nat, nat), real>, point: Pair)
    requires Mirrors(pairs, d1, d2) && StoredMatches(pairs, remainDic)
    requires (point.n1, point.n2) in remainDic && remainDic[(point.n1, point.n2)] == point.score
    requires point.n1 in d1 && point.n2 in d2
    ensures var (n21, st1) := d1[point.n1];
      var (n12, st2) := d2[point.n2];
      && Pair(point.n1, n21, st1) in pairs && Pair(n12, point.n2, st2) in pairs
      && (point.n1 == n12 <==> n21 == point.n2)
      && (point.n1 == n12 ==> point.score + RemainScore(remainDic, (n12, n21)) <= st1 + st2)
  {
    var (n21, st1) := d1[point.n1];
    var (n12, st2) := d2[point.n2];
    var p :| p in pairs && p.n1 == point.n1;
    var q :| q in pairs && q.n2 == point.n2;
    assert p == Pair(point.n1, n21, st1);
    assert q == Pair(n12, point.n2, st2);
    if point.n1 == n12 || n21 == point.n2 {
      var i :| 0 <= i < |pairs| && pairs[i] == p;
      var j :| 0 <= j < |pairs| && pairs[j] == q;
      assert i == j;
    }
  }

  /** The swap condition of the second phase for the left-over cell `point`
      = (n11, n22, s_r1): both nodes are aligned, n11 -> (n21, s_t1) and
      n22 <- (n12, s_t2), and s_r1 + s_r2 > s_t1 + s_t2, where s_r2 is the
      `remain_dic` score of (n12, n21) or 0. */
  predicate SwapFires(d1: Dict, d2: Dict, remainDic: map<(nat, nat), real>, point: Pair) {
    && point.n1 in d1 && point.n2 in d2
    && point.score + RemainScore(remainDic, (d2[point.n2].0, d1[point.n1].0)) > d1[point.n1].1 + d2[point.n2].1
  }

  /** One iteration of the second phase. For the left-over cell `point` =
      (n11, n22, s_r1) with aligned partners n11 -> n21 and n22 <- n12, the
      pairs (n11, n21) and (n12, n22) are replaced by (n11, n22) and
      (n12, n21) when s_r1 + s_r2 > s_t1 + s_t2, where s_r2 is the left-over
      score of (n12, n21) or 0. The swap keeps the dictionaries in step, the
      alignment one-to-one, its size and its node sets, and strictly raises
      the sum of the stored scores. */
  method TrySwap(pairs: seq<Pair>, d1: Dict, d2: Dict, remainDic: map<(nat, nat), real>, point: Pair)
    returns (pairs': seq<Pair>, d1': Dict, d2': Dict, swapped: bool)
    requires Mirrors(pairs, d1, d2) && StoredMatches(pairs, remainDic)
    requires (point.n1, point.n2) in remainDic && remainDic[(point.n1, point.n2)] == point.score
    ensures swapped == SwapFires(d1, d2, remainDic, point)
    ensures swapped ==> pairs' == SwapResult(pairs, d1, d2, remainDic, point)
    ensures !swapped ==> pairs' == pairs && d1' == d1 && d2' == d2
    ensures Mirrors(pairs', d1', d2') && StoredMatches(pairs', remainDic)
    ensures |pairs'| == |pairs| && Firsts(pairs') == Firsts(pairs) && Seconds(pairs') == Seconds(pairs)
    ensures swapped ==> ScoreSum(pairs') > ScoreSum(pairs)
  {
    pairs', d1', d2', swapped := pairs, d1, d2, false;
    if SwapFires(d1, d2, remainDic, point) {
      SwapMirrors(pairs, d1, d2, remainDic, point);
      SwapGains(pairs, d1, d2, remainDic, point);
      pairs' := SwapResult(pairs, d1, d2, remainDic, point);
      d1', d2' := SwapDic1(d1, remainDic, point, d2), SwapDic2(d2, remainDic, point, d1);
      swapped := true;
    }
  }

  /** The pair list after the swap for `point` = (n11, n22, s_r1): the
      pairs (n11, n21, s_t1) and (n12, n22, s_t2) are removed (Python's
      `list.remove`) and (n11, n22, s_r1), (n12, n21, s_r2) appended. */
  function SwapResult(pairs: seq<Pair>, d1: Dict, d2: Dict, remainDic: map<(nat, nat), real>, point: Pair): seq<Pair>
    requires point.n1 in d1 && point.n2 in d2
  {
    var n21, st1 := d1[point.n1].0, d1[point.n1].1;
    var n12, st2 := d2[point.n2].0, d2[point.n2].1;
    RemoveFirst(RemoveFirst(pairs, Pair(point.n1, n21, st1)), Pair(n12, point.n2, st2))
      + [Pair(point.n1, point.n2, point.score), Pair(n12, n21, RemainScore(remainDic, (n12, n21)))]
  }

  /** `pair_dic1` after the swap for `point`: the entries of n11 and n12 are
      deleted and rewritten as n11 -> (n22, s_r1) and n12 -> (n21, s_r2). */
  function SwapDic1(d1: Dict, remainDic: map<(nat, nat), real>, point: Pair, d2: Dict): Dict
    requires point.n1 in d1 && point.n2 in d2
  {
    var n11, n22, sr1 := point.n1, point.n2, point.score;
    var n21, n12 := d1[n11].0, d2[n22].0;
    (d1 - {n11} - {n12})[n11 := (n22, sr1)][n12 := (n21, RemainScore(remainDic, (n12, n21)))]
  }

  /** `pair_dic2` after the swap for `point`: the entries of n21 and n22 are
      deleted and rewritten as n22 -> (n11, s_r1) and n21 -> (n12, s_r2). */
  function SwapDic2(d2: Dict, remainDic: map<(nat, nat), real>, point: Pair, d1: Dict): Dict
    requires point.n1 in d1 && point.n2 in d2
  {
    var n11, n22, sr1 := point.n1, point.n2, point.score;
    var n21, n12 := d1[n11].0, d2[n22].0;
    (d2 - {n21} - {n22})[n22 := (n11, sr1)][n21 := (n12, RemainScore(remainDic, (n12, n21)))]
  }

  /** A swap keeps the dictionaries in step with the pairs, the pairs
      one-to-one, their number and their node sets. */
  lemma SwapMirrors(pairs: seq<Pair>, d1: Dict, d2: Dict, remainDic: map<(nat, nat), real>, point: Pair)
    requires Mirrors(pairs, d1, d2) && StoredMatches(pairs, remainDic)
    requires (point.n1, point.n2) in remainDic && remainDic[(point.n1, point.n2)] == point.score
    requires SwapFires(d1, d2, remainDic, point)
    ensures var g := SwapResult(pairs, d1, d2, remainDic, point);
      && Mirrors(g, SwapDic1(d1, remainDic, point, d2), SwapDic2(d2, remainDic, point, d1))
      && |g| == |pairs| && Firsts(g) == Firsts(pairs) && Seconds(g) == Seconds(pairs)
  {
    var n11, n22, sr1 := point.n1, point.n2, point.score;
    var n21, st1 := d1[n11].0, d1[n11].1;
    var n12, st2 := d2[n22].0, d2[n22].1;
    SwapPartners(pairs, d1, d2, remainDic, point);
    SwapStep(pairs, d1, d2, SwapDic1(d1, remainDic, point, d2), SwapDic2(d2, remainDic, point, d1),
             Pair(n11, n21, st1), Pair(n12, n22, st2), Pair(n11, n22, sr1), Pair(n12, n21, RemainScore(remainDic, (n12, n21))));
  }

  /** A swap keeps every stored score equal to its `remain_dic` entry and
      strictly raises the sum of the scores. */
  lemma SwapGains(pairs: seq<Pair>, d1: Dict, d2: Dict, remainDic: map<(nat, nat), real>, point: Pair)
    requires Mirrors(pairs, d1, d2) && StoredMatches(pairs, remainDic)
    requires (point.n1, point.n2) in remainDic && remainDic[(point.n1, point.n2)] == point.score
    requires SwapFires(d1, d2, remainDic, point)
    ensures var g := SwapResult(pairs, d1, d2, remainDic, point);
      StoredMatches(g, remainDic) && ScoreSum(g) > ScoreSum(pairs)
  {
    var n11, n22, sr1 := point.n1, point.n2, point.score;
    var n21, st1 := d1[n11].0, d1[n11].1;
    var n12, st2 := d2[n22].0, d2[n22].1;
    SwapPartners(pairs, d1, d2, remainDic, point);
    SwapGain(pairs, remainDic, Pair(n11, n21, st1), Pair(n12, n22, st2), Pair(n11, n22, sr1), Pair(n12, n21, RemainScore(remainDic, (n12, n21))));
  }

  /** A swap that fires keeps the dictionaries in step with the pairs, the
      pairs one-to-one, their number and their node sets. */
  lemma SwapStep(pairs: seq<Pair>, d1: Dict, d2: Dict, d1': Dict, d2': Dict, t1: Pair, t2: Pair, a: Pair, b: Pair)
    requires Mirrors(pairs, d1, d2)
    requires t1 in pairs && t2 in pairs && t1.n1 != t2.n1 && t1.n2 != t2.n2
    requires a == Pair(t1.n1, t2.n2, a.score) && b == Pair(t2.n1, t1.n2, b.score)
    requires d1' == (d1 - {t1.n1} - {t2.n1})[t1.n1 := (a.n2, a.score)][t2.n1 := (b.n2, b.score)]
    requires d2' == (d2 - {t1.n2} - {t2.n2})[a.n2 := (a.n1, a.score)][b.n2 := (b.n1, b.score)]
    ensures var g := RemoveFirst(RemoveFirst(pairs, t1), t2) + [a, b];
      && Mirrors(g, d1', d2')
      && |g| == |pairs| && Firsts(g) == Firsts(pairs) && Seconds(g) == Seconds(pairs)
  {
    RemoveTwo(pairs, t1, t2);
    SwapKeepsMirrors(pairs, RemoveFirst(RemoveFirst(pairs, t1), t2), d1, d2, d1', d2', t1, t2, a, b);
  }

  /** A swap that fires keeps every stored score equal to its `remain_dic`
      entry and strictly raises the sum of the scores. */
  lemma SwapGain(pairs: seq<Pair>, remainDic: map<(nat, nat), real>, t1: Pair, t2: Pair, a: Pair, b: Pair)
    requires OneToOne(pairs) && StoredMatches(pairs, remainDic)
    requires t1 in pairs && t2 in pairs && t1.n1 != t2.n1
    requires (a.n1, a.n2) in remainDic && remainDic[(a.n1, a.n2)] == a.score
    requires b.score == RemainScore(remainDic, (b.n1, b.n2))
    requires a.score + b.score > t1.score + t2.score
    ensures var g := RemoveFirst(RemoveFirst(pairs, t1), t2) + [a, b];
      StoredMatches(g, remainDic) && ScoreSum(g) > ScoreSum(pairs)
  {
    RemoveTwo(pairs, t1, t2);
    SwapScores(pairs, RemoveFirst(RemoveFirst(pairs, t1), t2), remainDic, a, b);
  }

  /** Removing two pairs with distinct nodes from a one-to-one list leaves a
      one-to-one list of the other pairs, without their nodes, whose scores
      sum to the old sum less the two scores. */
  lemma RemoveTwo(pairs: seq<Pair>, t1: Pair, t2: Pair)
    requires OneToOne(pairs) && t1 in pairs && t2 in pairs && t1.n1 != t2.n1
    ensures var rest := RemoveFirst(RemoveFirst(pairs, t1), t2);
      && OneToOne(rest)
      && (forall y :: y in rest ==> y in pairs && y != t1 && y != t2)
      && Firsts(rest) == Firsts(pairs) - {t1.n1} - {t2.n1}
      && Seconds(rest) == Seconds(pairs) - {t1.n2} - {t2.n2}
      && ScoreSum(rest) == ScoreSum(pairs) - t1.score - t2.score
  {
    var rest1 := RemoveFirst(pairs, t1);
    RemoveOneToOne(pairs, t1);
    RemoveMembers(pairs, t1);
    ScoreSumRemove(pairs, t1);
    assert t2 in rest1;
    RemoveOneToOne(rest1, t2);
    RemoveMembers(rest1, t2);
    ScoreSumRemove(rest1, t2);
  }

  /** The new pair list of a swap adds the two new scores to what is left,
      and keeps every stored score equal to its `remain_dic` entry. */
  lemma SwapScores(pairs: seq<Pair>, rest: seq<Pair>, remainDic: map<(nat, nat), real>, a: Pair, b: Pair)
    requires StoredMatches(pairs, remainDic)
    requires forall y :: y in rest ==> y in pairs
    requires (a.n1, a.n2) in remainDic && remainDic[(a.n1, a.n2)] == a.score
    requires b.score == RemainScore(remainDic, (b.n1, b.n2))
    ensures ScoreSum(rest + [a, b]) == ScoreSum(rest) + a.score + b.score
    ensures StoredMatches(rest + [a, b], remainDic)
  {
    ScoreSumAppend(rest, [a, b]);
    assert [a, b][1..] == [b] && [b][1..] == [];
    assert ScoreSum([b]) == b.score + ScoreSum([]);
    assert ScoreSum([a, b]) == a.score + ScoreSum([b]);
    forall p | p in rest + [a, b] && (p.n1, p.n2) in remainDic ensures p.score == remainDic[(p.n1, p.n2)] {
      if p in rest {
        assert p in pairs;
      }
    }
  }

  /** The dictionary updates of a swap describe the new pair list. */
  lemma SwapKeepsMirrors(pairs: seq<Pair>, rest: seq<Pair>, d1: Dict, d2: Dict, d1': Dict, d2': Dict,
                         t1: Pair, t2: Pair, a: Pair, b: Pair)
    requires Mirrors(pairs, d1, d2) && OneToOne(rest)
    requires t1 in pairs && t2 in pairs && t1.n1 != t2.n1 && t1.n2 != t2.n2
    requires forall y :: y in rest ==> y in pairs && y != t1 && y != t2
    requires Firsts(rest) == Firsts(pairs) - {t1.n1} - {t2.n1}
    requires Seconds(rest) == Seconds(pairs) - {t1.n2} - {t2.n2}
    requires a == Pair(t1.n1, t2.n2, a.score) && b == Pair(t2.n1, t1.n2, b.score)
    requires d1' == (d1 - {t1.n1} - {t2.n1})[t1.n1 := (a.n2, a.score)][t2.n1 := (b.n2, b.score)]
    requires d2' == (d2 - {t1.n2} - {t2.n2})[a.n2 := (a.n1, a.score)][b.n2 := (b.n1, b.score)]
    ensures Mirrors(rest + [a, b], d1', d2')
    ensures |rest + [a, b]| == |pairs|
    ensures Firsts(rest + [a, b]) == Firsts(pairs) && Seconds(rest + [a, b]) == Seconds(pairs)
  {
    var g := rest + [a, b];
    SwapNodes(pairs, rest, t1, t2, a, b);
    SwapOneToOne(rest, a, b);
    RemoveTwoCount(pairs, rest, t1, t2);
    SwapKeys(d1, d2, d1', d2', t1, t2, a, b);
    SwapValues(pairs, rest, d1, d2, d1', d2', t1, t2, a, b);
  }

  /** The swap rewrites the entries of the same nodes it deletes. */
  lemma SwapKeys(d1: Dict, d2: Dict, d1': Dict, d2': Dict, t1: Pair, t2: Pair, a: Pair, b: Pair)
    requires t1.n1 in d1 && t2.n1 in d1 && t1.n2 in d2 && t2.n2 in d2
    requires a.n1 == t1.n1 && a.n2 == t2.n2 && b.n1 == t2.n1 && b.n2 == t1.n2
    requires d1' == (d1 - {t1.n1} - {t2.n1})[t1.n1 := (a.n2, a.score)][t2.n1 := (b.n2, b.score)]
    requires d2' == (d2 - {t1.n2} - {t2.n2})[a.n2 := (a.n1, a.score)][b.n2 := (b.n1, b.score)]
    ensures d1'.Keys == d1.Keys && d2'.Keys == d2.Keys
  {
  }

  /** The swapped list uses the same nodes as before. */
  lemma SwapNodes(pairs: seq<Pair>, rest: seq<Pair>, t1: Pair, t2: Pair, a: Pair, b: Pair)
    requires t1 in pairs && t2 in pairs
    requires Firsts(rest) == Firsts(pairs) - {t1.n1} - {t2.n1}
    requires Seconds(rest) == Seconds(pairs) - {t1.n2} - {t2.n2}
    requires a.n1 == t1.n1 && a.n2 == t2.n2 && b.n1 == t2.n1 && b.n2 == t1.n2
    ensures Firsts(rest + [a, b]) == Firsts(pairs) && Seconds(rest + [a, b]) == Seconds(pairs)
  {
    FirstsSnoc(rest, a);
    FirstsSnoc(rest + [a], b);
    assert rest + [a] + [b] == rest + [a, b];
    assert t1.n1 in Firsts(pairs) && t2.n1 in Firsts(pairs);
    assert t1.n2 in Seconds(pairs) && t2.n2 in Seconds(pairs);
  }

  /** Two pairs on nodes the rest does not use keep the list one-to-one. */
  lemma SwapOneToOne(rest: seq<Pair>, a: Pair, b: Pair)
    requires OneToOne(rest)
    requires Fresh(a, rest) && Fresh(b, rest) && a.n1 != b.n1 && a.n2 != b.n2
    ensures OneToOne(rest + [a, b])
  {
    var g := rest + [a, b];
    forall i, j | 0 <= i < j < |g| ensures g[i].n1 != g[j].n1 && g[i].n2 != g[j].n2 {
      if j < |rest| {
        assert g[i] == rest[i] && g[j] == rest[j];
      } else if i < |rest| {
        assert g[i] in rest;
      }
    }
  }

  /** Pairs that stay keep their dictionary entries; the two new pairs have
      the entries the swap writes. */
  lemma SwapValues(pairs: seq<Pair>, rest: seq<Pair>, d1: Dict, d2: Dict, d1': Dict, d2': Dict,
                   t1: Pair, t2: Pair, a: Pair, b: Pair)
    requires Mirrors(pairs, d1, d2)
    requires t1 in pairs && t2 in pairs && t1.n1 != t2.n1 && t1.n2 != t2.n2
    requires forall y :: y in rest ==> y in pairs && y != t1 && y != t2
    requires a == Pair(t1.n1, t2.n2, a.score) && b == Pair(t2.n1, t1.n2, b.score)
    requires d1' == (d1 - {t1.n1} - {t2.n1})[t1.n1 := (a.n2, a.score)][t2.n1 := (b.n2, b.score)]
    requires d2' == (d2 - {t1.n2} - {t2.n2})[a.n2 := (a.n1, a.score)][b.n2 := (b.n1, b.score)]
    ensures ValuesMatch(rest + [a, b], d1', d2')
  {
    OthersDiffer(pairs, t1);
    OthersDiffer(pairs, t2);
    forall p | p in rest + [a, b]
      ensures p.n1 in d1' && d1'[p.n1] == (p.n2, p.score) && p.n2 in d2' && d2'[p.n2] == (p.n1, p.score)
    {
      if p in rest {
        assert p in pairs && p != t1 && p != t2;
      }
    }
  }

  /** Removing two distinct pairs of a one-to-one list shortens it by two. */
  lemma RemoveTwoCount(pairs: seq<Pair>, rest: seq<Pair>, t1: Pair, t2: Pair)
    requires OneToOne(pairs) && OneToOne(rest) && t1 in pairs && t2 in pairs && t1.n1 != t2.n1
    requires Firsts(rest) == Firsts(pairs) - {t1.n1} - {t2.n1}
    ensures |rest| == |pairs| - 2
  {
    OneToOneCounts(pairs);
    OneToOneCounts(rest);
  }

  /** The second phase's variables `pairs`, `pair_dic1` and `pair_dic2`. */
  datatype SwapState = SwapState(pairs: seq<Pair>, d1: Dict, d2: Dict)

  /** One iteration of the second phase on values: the swap for `point`
      when it fires, and no change otherwise. */
  function SwapNext(st: SwapState, remainDic: map<(nat, nat), real>, point: Pair): SwapState {
    if SwapFires(st.d1, st.d2, remainDic, point) then
      SwapState(SwapResult(st.pairs, st.d1, st.d2, remainDic, point),
                SwapDic1(st.d1, remainDic, point, st.d2), SwapDic2(st.d2, remainDic, point, st.d1))
    else st
  }

  /** The second phase's variables after one swap attempt for each cell of
      `points`, in order, starting from `st`. */
  function SwapsOf(st: SwapState, remainDic: map<(nat, nat), real>, points: seq<Pair>): SwapState
    decreases |points|
  {
    if points == [] then st
    else SwapNext(SwapsOf(st, remainDic, points[..|points| - 1]), remainDic, points[|points| - 1])
  }

  /** One swap attempt keeps the dictionaries in step with a one-to-one
      pair list, keeps its size and node sets, and strictly raises the sum
      of the stored scores when it fires. */
  lemma SwapNextKeeps(st: SwapState, remainDic: map<(nat, nat), real>, point: Pair)
    requires Mirrors(st.pairs, st.d1, st.d2) && StoredMatches(st.pairs, remainDic)
    requires (point.n1, point.n2) in remainDic && remainDic[(point.n1, point.n2)] == point.score
    ensures var r := SwapNext(st, remainDic, point);
      && Mirrors(r.pairs, r.d1, r.d2) && StoredMatches(r.pairs, remainDic)
      && |r.pairs| == |st.pairs| && Firsts(r.pairs) == Firsts(st.pairs) && Seconds(r.pairs) == Seconds(st.pairs)
      && (SwapFires(st.d1, st.d2, remainDic, point) ==> ScoreSum(r.pairs) > ScoreSum(st.pairs))
  {
    if SwapFires(st.d1, st.d2, remainDic, point) {
      SwapMirrors(st.pairs, st.d1, st.d2, remainDic, point);
      SwapGains(st.pairs, st.d1, st.d2, remainDic, point);
    }
  }

  lemma ListedPrefix(points: seq<Pair>, remainDic: map<(nat, nat), real>, k: nat)
    requires Listed(points, remainDic) && k <= |points|
    ensures Listed(points[..k], remainDic)
  {
    forall q | q in points[..k] ensures (q.n1, q.n2) in remainDic && remainDic[(q.n1, q.n2)] == q.score {
      assert q in points;
    }
  }

  /** The pair list determines the two dictionaries that describe it. */
  lemma MirrorsUnique(pairs: seq<Pair>, a1: Dict, a2: Dict, b1: Dict, b2: Dict)
    requires Mirrors(pairs, a1, a2) && Mirrors(pairs, b1, b2)
    ensures a1 == b1 && a2 == b2
  {
    forall k | k in a1 ensures a1[k] == b1[k] {
      var p :| p in pairs && p.n1 == k;
    }
    forall k | k in a2 ensures a2[k] == b2[k] {
      var p :| p in pairs && p.n2 == k;
    }
  }

  /** `r` is a state the second phase can reach from `st`: its
      dictionaries describe a one-to-one pair list of the same size on the
      same nodes, every stored score matches `remain_dic`, and either the
      pair list is unchanged or the sum of its stored scores is strictly
      larger. */
  ghost predicate SwapKept(st: SwapState, r: SwapState, remainDic: map<(nat, nat), real>) {
    && Mirrors(r.pairs, r.d1, r.d2) && StoredMatches(r.pairs, remainDic)
    && |r.pairs| == |st.pairs| && Firsts(r.pairs) == Firsts(st.pairs) && Seconds(r.pairs) == Seconds(st.pairs)
    && (r.pairs == st.pairs || ScoreSum(r.pairs) > ScoreSum(st.pairs))
  }

  /** Any sequence of swap attempts keeps the dictionaries in step with a
      one-to-one pair list, keeps its size and node sets, and either changes
      nothing or strictly raises the sum of the stored scores. */
  lemma {:induction false} SwapsKeep(st: SwapState, remainDic: map<(nat, nat), real>, points: seq<Pair>)
    requires Mirrors(st.pairs, st.d1, st.d2) && StoredMatches(st.pairs, remainDic) && Listed(points, remainDic)
    ensures SwapKept(st, SwapsOf(st, remainDic, points), remainDic)
    decreases |points|
  {
    if points != [] {
      var init, last := points[..|points| - 1], points[|points| - 1];
      ListedPrefix(points, remainDic, |points| - 1);
      SwapsKeep(st, remainDic, init);
      assert last in points;
      var x := SwapsOf(st, remainDic, init);
      SwapNextKeeps(x, remainDic, last);
      var y := SwapNext(x, remainDic, last);
      assert SwapsOf(st, remainDic, points).pairs == y.pairs;
    }
  }

  /** A left-over cell whose score beats the two aligned pairs it meets:
      with (0, 0) and (1, 1) aligned at 1.0 each and the left-over cell
      (0, 1) at 5.0, the phase replaces them by (0, 1) at 5.0 and (1, 0) at
      the `remain_dic.get` default 0. */
  lemma SwapExample()
    ensures var d := map[0 := (0, 1.0), 1 := (1, 1.0)];
      SwapsOf(SwapState([Pair(0, 0, 1.0), Pair(1, 1, 1.0)], d, d), map[(0, 1) := 5.0], [Pair(0, 1, 5.0)]).pairs
        == [Pair(0, 1, 5.0), Pair(1, 0, 0.0)]
  {
    var d := map[0 := (0, 1.0), 1 := (1, 1.0)];
    var points := [Pair(0, 1, 5.0)];
    assert points[..0] == [];
    assert SwapFires(d, d, map[(0, 1) := 5.0], Pair(0, 1, 5.0));
  }

  /** The fold over one more cell continues from any state with the same
      pair list and dictionaries. */
  lemma SwapsOfStep(st: SwapState, remainDic: map<(nat, nat), real>, points: seq<Pair>, k: nat, x: SwapState)
    requires k < |points|
    requires var r := SwapsOf(st, remainDic, points[..k]); r.pairs == x.pairs && r.d1 == x.d1 && r.d2 == x.d2
    ensures SwapsOf(st, remainDic, points[..k + 1]).pairs == SwapNext(x, remainDic, points[k]).pairs
  {
    assert points[..k + 1][..k] == points[..k];
  }

  /** The second phase: one 2-swap attempt per left-over cell, in order. */
  method SwapPhase(pairs0: seq<Pair>, d1: Dict, d2: Dict, remains: seq<Pair>, remainDic: map<(nat, nat), real>)
    returns (pairs: seq<Pair>)
    requires Mirrors(pairs0, d1, d2) && StoredMatches(pairs0, remainDic) && Listed(remains, remainDic)
    ensures pairs == SwapsOf(SwapState(pairs0, d1, d2), remainDic, remains).pairs
    ensures OneToOne(pairs)
    ensures |pairs| == |pairs0| && Firsts(pairs) == Firsts(pairs0) && Seconds(pairs) == Seconds(pairs0)
    ensures pairs == pairs0 || ScoreSum(pairs) > ScoreSum(pairs0)
  {
    pairs := pairs0;
    var dic1, dic2 := d1, d2;
    var k := 0;
    while k < |remains|
      invariant k <= |remains|
      invariant pairs == SwapsOf(SwapState(pairs0, d1, d2), remainDic, remains[..k]).pairs
      invariant Mirrors(pairs, dic1, dic2) && StoredMatches(pairs, remainDic)
    {
      ListedPrefix(remains, remainDic, k);
      SwapsKeep(SwapState(pairs0, d1, d2), remainDic, remains[..k]);
      ghost var r := SwapsOf(SwapState(pairs0, d1, d2), remainDic, remains[..k]);
      MirrorsUnique(pairs, dic1, dic2, r.d1, r.d2);
      SwapsOfStep(SwapState(pairs0, d1, d2), remainDic, remains, k, SwapState(pairs, dic1, dic2));
      assert remains[k] in remains;
      var swapped;
      pairs, dic1, dic2, swapped := TrySwap(pairs, dic1, dic2, remainDic, remains[k]);
      k := k + 1;
    }
    assert remains[..k] == remains;
    SwapsKeep(SwapState(pairs0, d1, d2), remainDic, remains);
  }

  /** `semi_greedy_align`, with the network pair passed in as `n1`, `n2` and
      `sim`: the greedy seed followed by the 2-swap phase. The result aligns
      the same nodes as `greedy_align` (one pair per node of the smaller
      network, one-to-one), and it is the swap fold over the first phase's
      left-over cells: either the greedy pairs themselves or a list whose
      stored scores sum to strictly more. */
  method SemiGreedyAlign(n1: nat, n2: nat, sim: seq<real>) returns (pairs: seq<Pair>)
    requires |sim| == n1 * n2
    ensures OneToOne(pairs)
    ensures |pairs| == if n1 <= n2 then n1 else n2
    ensures var greedy := AssignmentPairs(SimMatrix(sim, n1, n2), n2);
      Firsts(pairs) == Firsts(greedy) && Seconds(pairs) == Seconds(greedy)
      && (pairs == greedy || ScoreSum(pairs) > ScoreSum(greedy))
    ensures forall p :: p in pairs ==> p.n1 < n1 && p.n2 < n2
    ensures var cells := SortByScore(Cells(SimMatrix(sim, n1, n2), n1, n2), false);
      var seed := SeedOf(cells[..StopFrom(cells, n1, n2, 0)]);
      pairs == SwapsOf(SwapState(seed.pairs, seed.d1, seed.d2), seed.remainDic, seed.remains).pairs
  {
    var m := SimMatrix(sim, n1, n2);
    var cells := BuildCells(m, n2);
    var sorted := SortByScore(cells, false);
    SortedCells(m, n2, false);
    forall c | c in sorted ensures c.n1 < n1 && c.n2 < n2 && CellScore(m, c.n1, c.n2, c.score) {
    }
    var seed, d1, d2, remains, remainDic := SeedPhase(sorted, n1, n2);
    SeedMirrors(sorted[..StopFrom(sorted, n1, n2, 0)]);
    SeedScores(m, sorted[..StopFrom(sorted, n1, n2, 0)]);
    pairs := SwapPhase(seed, d1, d2, remains, remainDic);
    AssignmentProperties(m, n2);
    forall p | p in pairs ensures p.n1 < n1 && p.n2 < n2 {
      assert p.n1 in Firsts(pairs) && p.n2 in Seconds(pairs);
      var q :| q in seed && q.n1 == p.n1;
      var r :| r in seed && r.n2 == p.n2;
    }
  }
}
