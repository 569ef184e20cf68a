/** The BLAST readers of interface.py. Parsing the XML report is left to a
    library; here a report is the sequence of its records, each a query
    protein with its hits in order, each hit a title and the bit scores of
    its HSPs. Every reader walks the records and, inside each, the hits;
    a hit whose title has no word, or that is used while it has no HSP,
    raises IndexError, here an `Err`. */
module Blast {
  import opened Common
  import opened Text
  import opened Organism
  import opened StringDb

  /** One alignment of a record: the hit's title and its HSPs' bit scores. */
  datatype Hit = Hit(title: string, bits: seq<real>)

  /** One record of the report: the query protein and its hits. */
  datatype BlastRecord = BlastRecord(query: string, hits: seq<Hit>)

  /** The hits of one record, each with the record's query. */
  function Pairs(query: string, hits: seq<Hit>): (r: seq<(string, Hit)>)
    ensures |r| == |hits|
    ensures forall k :: 0 <= k < |hits| ==> r[k] == (query, hits[k])
  {
    seq(|hits|, k requires 0 <= k < |hits| => (query, hits[k]))
  }

  /** Every (query, hit) alignment of the report, in reading order. */
  function Alignments(records: seq<BlastRecord>): seq<(string, Hit)> {
    if records == [] then []
    else
      var last := records[|records| - 1];
      Alignments(records[..|records| - 1]) + Pairs(last.query, last.hits)
  }

  /** Where the nested loops stand: all hits of the first `i` records and
      the first `j` hits of record `i` have been read. */
  function Cursor(records: seq<BlastRecord>, i: nat, j: nat): seq<(string, Hit)>
    requires i < |records| && j <= |records[i].hits|
  {
    Alignments(records[..i]) + Pairs(records[i].query, records[i].hits[..j])
  }

  lemma CursorStart(records: seq<BlastRecord>, i: nat)
    requires i < |records|
    ensures Cursor(records, i, 0) == Alignments(records[..i])
  {
    assert Pairs(records[i].query, records[i].hits[..0]) == [];
  }

  lemma CursorNext(records: seq<BlastRecord>, i: nat, j: nat)
    requires i < |records| && j < |records[i].hits|
    ensures Cursor(records, i, j + 1) == Cursor(records, i, j) + [(records[i].query, records[i].hits[j])]
  {
    var q := records[i].query;
    var hs := records[i].hits;
    assert Pairs(q, hs[..j + 1]) == Pairs(q, hs[..j]) + [(q, hs[j])];
    AppendAssoc(Alignments(records[..i]), Pairs(q, hs[..j]), [(q, hs[j])]);
  }

  lemma CursorEnd(records: seq<BlastRecord>, i: nat)
    requires i < |records|
    ensures Cursor(records, i, |records[i].hits|) == Alignments(records[..i + 1])
  {
    assert records[..i + 1][..i] == records[..i];
    assert records[i].hits[..|records[i].hits|] == records[i].hits;
  }

  lemma AlignmentsAll(records: seq<BlastRecord>)
    ensures Alignments(records[..|records|]) == Alignments(records)
  {
    assert records[..|records|] == records;
  }

  /** Reading goes forward: every prefix of the records gives a prefix of
      the alignments. */
  lemma {:induction false} AlignmentsPrefix(records: seq<BlastRecord>, i: nat)
    requires i <= |records|
    ensures Alignments(records[..i]) <= Alignments(records)
    decreases |records| - i
  {
    if i < |records| {
      AlignmentsPrefix(records, i + 1);
      assert records[..i + 1][..i] == records[..i];
    } else {
      assert records[..i] == records;
    }
  }

  lemma CursorPrefix(records: seq<BlastRecord>, i: nat, j: nat)
    requires i < |records| && j <= |records[i].hits|
    ensures Cursor(records, i, j) <= Alignments(records)
  {
    var q := records[i].query;
    var hs := records[i].hits;
    CursorEnd(records, i);
    AlignmentsPrefix(records, i + 1);
    var a := Alignments(records[..i]);
    assert Pairs(q, hs) == Pairs(q, hs[..j]) + Pairs(q, hs[j..]);
    AppendAssoc(a, Pairs(q, hs[..j]), Pairs(q, hs[j..]));
  }

  /** A failure in what has been read is the failure of the whole report. */
  lemma EntriesPrefixErr<T, E>(a: seq<T>, b: seq<T>, parse: T -> Result<Option<E>, Failure>)
    requires a <= b && Entries(a, parse).Err?
    ensures Entries(b, parse) == Entries(a, parse)
  {
    EntriesAppend(a, b[|a|..], parse);
    assert a + b[|a|..] == b;
  }

  /** A failure among the alignments read so far is the report's failure. */
  lemma CursorFails<E>(records: seq<BlastRecord>, i: nat, j: nat, parse: ((string, Hit)) -> Result<Option<E>, Failure>)
    requires i < |records| && j <= |records[i].hits|
    requires Entries(Cursor(records, i, j), parse).Err?
    ensures Entries(Alignments(records), parse) == Entries(Cursor(records, i, j), parse)
  {
    CursorPrefix(records, i, j);
    EntriesPrefixErr(Cursor(records, i, j), Alignments(records), parse);
  }

  /** `alignment.title.split()[0]`. */
  function Subject(title: string): (r: Result<string, Failure>)
    ensures r.Err? <==> SplitWs(title) == []
    ensures r.Ok? ==> r.value == SplitWs(title)[0]
  {
    var words := SplitWs(title);
    if words == [] then Err(IndexError) else Ok(words[0])
  }

  /** `node_to_id.get(s, None)` taken as true: `s` is a node and its id is
      not 0. */
  predicate Resolves(ids: map<string, nat>, s: string) {
    s in ids && ids[s] != 0
  }

  /** The value of cell `k` after the writes `cells` in order: the score of
      the last write to `k`, or 0 when nothing was written there. */
  function LastValue(cells: seq<(nat, real)>, k: int): real {
    if cells == [] then 0.0
    else if cells[|cells| - 1].0 == k then cells[|cells| - 1].1
    else LastValue(cells[..|cells| - 1], k)
  }

  /** A cell nothing was written to holds 0. */
  lemma {:induction false} LastValueUnwritten(cells: seq<(nat, real)>, k: int)
    requires forall i :: 0 <= i < |cells| ==> cells[i].0 != k
    ensures LastValue(cells, k) == 0.0
    decreases |cells|
  {
    if cells != [] {
      var n := |cells| - 1;
      assert forall i :: 0 <= i < n ==> cells[..n][i] == cells[i];
      LastValueUnwritten(cells[..n], k);
    }
  }

  /** A written cell holds the score of its last write. */
  lemma {:induction false} LastValueLastWrite(cells: seq<(nat, real)>, i: nat, k: int)
    requires i < |cells| && cells[i].0 == k
    requires forall j :: i < j < |cells| ==> cells[j].0 != k
    ensures LastValue(cells, k) == cells[i].1
    decreases |cells|
  {
    var n := |cells| - 1;
    if i < n {
      assert forall j :: i < j < n ==> cells[..n][j] == cells[j];
      LastValueLastWrite(cells[..n], i, k);
    }
  }

  lemma LastValueSnoc(cells: seq<(nat, real)>, c: (nat, real), size: nat)
    requires c.0 < size
    ensures seq(size, k => LastValue(cells + [c], k)) == seq(size, k => LastValue(cells, k))[c.0 := c.1]
  {
    assert (cells + [c])[..|cells|] == cells;
  }

  // ---------------------------------------------------------------------
  // blast_xml_to_matrix
  // ---------------------------------------------------------------------

  /** What one hit writes into the similarity vector (interface.py:90-97):
      when the query is a node of the first network and the hit's first
      word a node of the second, both with a nonzero id, the first HSP's
      bits go to cell `v_ind(id1, id2)`. */
  function MatrixCell(nodes1: seq<string>, nodes2: seq<string>, a: (string, Hit)): Result<Option<(nat, real)>, Failure> {
    match Subject(a.1.title)
    case Err(e) => Err(e)
    case Ok(s2) =>
      var ids1 := NodeIds(nodes1);
      var ids2 := NodeIds(nodes2);
      if !(Resolves(ids1, a.0) && Resolves(ids2, s2)) then Ok(None)
      else if a.1.bits == [] then Err(IndexError)
      else Ok(Some((VInd(|nodes2|, ids1[a.0], ids2[s2]), a.1.bits[0])))
  }

  /** The cases of one hit, as the reading loop meets them. */
  lemma MatrixCellCases(nodes1: seq<string>, nodes2: seq<string>, a: (string, Hit))
    ensures SplitWs(a.1.title) == [] ==> MatrixCell(nodes1, nodes2, a) == Err(IndexError)
    ensures SplitWs(a.1.title) != [] ==>
      var s2 := SplitWs(a.1.title)[0];
      var ids1, ids2 := NodeIds(nodes1), NodeIds(nodes2);
      if !(Resolves(ids1, a.0) && Resolves(ids2, s2)) then MatrixCell(nodes1, nodes2, a) == Ok(None)
      else if a.1.bits == [] then MatrixCell(nodes1, nodes2, a) == Err(IndexError)
      else MatrixCell(nodes1, nodes2, a) == Ok(Some((VInd(|nodes2|, ids1[a.0], ids2[s2]), a.1.bits[0])))
  {
  }

  /** Cell `k` of the n1 x n2 matrix lies inside it, off row 0 and
      column 0. */
  predicate OffAxes(k: nat, n1: nat, n2: nat) {
    k < n1 * n2 && 0 < n2 && k / n2 != 0 && k % n2 != 0
  }

  /** A hit writes inside the matrix, off row 0 and column 0. */
  lemma MatrixCellOff(nodes1: seq<string>, nodes2: seq<string>, a: (string, Hit))
    requires MatrixCell(nodes1, nodes2, a).Ok? && MatrixCell(nodes1, nodes2, a).value.Some?
    ensures OffAxes(MatrixCell(nodes1, nodes2, a).value.value.0, |nodes1|, |nodes2|)
  {
    NodeIdsInRange(nodes1);
    NodeIdsInRange(nodes2);
    VIndBijection(|nodes1|, |nodes2|);
  }

  function MatrixParse(nodes1: seq<string>, nodes2: seq<string>): ((string, Hit)) -> Result<Option<(nat, real)>, Failure> {
    a => MatrixCell(nodes1, nodes2, a)
  }

  /** The similarity vector `blast_xml_to_matrix` returns: zeros, with the
      cells the hits write holding the score of the last such hit. */
  function BlastMatrix(nodes1: seq<string>, nodes2: seq<string>, records: seq<BlastRecord>): Result<seq<real>, Failure> {
    match Entries(Alignments(records), MatrixParse(nodes1, nodes2))
    case Err(e) => Err(e)
    case Ok(cells) => Ok(seq(|nodes1| * |nodes2|, k => LastValue(cells, k)))
  }

  /** The record loop of `blast_xml_to_matrix` (interface.py:82-99). */
  method BlastXmlToMatrix(nodes1: seq<string>, nodes2: seq<string>, records: seq<BlastRecord>) returns (r: Result<seq<real>, Failure>)
    ensures r == BlastMatrix(nodes1, nodes2, records)
  {
    var ids1 := NodeIds(nodes1);
    var ids2 := NodeIds(nodes2);
    var mat := new real[|nodes1| * |nodes2|](_ => 0.0);
    ghost var cells: seq<(nat, real)> := [];
    var i := 0;
    while i < |records|
      invariant i <= |records|
      invariant Entries(Alignments(records[..i]), MatrixParse(nodes1, nodes2)) == Ok(cells)
      invariant mat[..] == seq(mat.Length, k => LastValue(cells, k))
    {
      var ok;
      ok, cells := MatrixHits(nodes1, nodes2, ids1, ids2, mat, records, i, cells);
      if !ok {
        return Err(IndexError);
      }
      i := i + 1;
    }
    AlignmentsAll(records);
    r := Ok(mat[..]);
  }

  /** The hit loop of `blast_xml_to_matrix` over record `i`; `ok` is false
      when a hit raises IndexError. */
  method MatrixHits(nodes1: seq<string>, nodes2: seq<string>, ids1: map<string, nat>, ids2: map<string, nat>,
                    mat: array<real>, records: seq<BlastRecord>, i: nat, ghost cells: seq<(nat, real)>)
    returns (ok: bool, ghost cells': seq<(nat, real)>)
    requires ids1 == NodeIds(nodes1) && ids2 == NodeIds(nodes2) && mat.Length == |nodes1| * |nodes2|
    requires i < |records|
    requires Entries(Alignments(records[..i]), MatrixParse(nodes1, nodes2)) == Ok(cells)
    requires mat[..] == seq(mat.Length, k => LastValue(cells, k))
    modifies mat
    ensures ok ==> Entries(Alignments(records[..i + 1]), MatrixParse(nodes1, nodes2)) == Ok(cells')
    ensures ok ==> mat[..] == seq(mat.Length, k => LastValue(cells', k))
    ensures !ok ==> Entries(Alignments(records), MatrixParse(nodes1, nodes2)) == Err(IndexError)
  {
    ghost var parse := MatrixParse(nodes1, nodes2);
    var s1 := records[i].query;
    var hits := records[i].hits;
    ghost var row: seq<(nat, real)> := [];
    assert Pairs(s1, hits[..0]) == [];
    assert cells + row == cells;
    cells' := cells;
    var j := 0;
    while j < |hits|
      invariant j <= |hits|
      invariant Entries(Pairs(s1, hits[..j]), parse) == Ok(row)
      invariant mat[..] == seq(mat.Length, k => LastValue(cells + row, k))
    {
      var item := MatrixHit(nodes1, nodes2, ids1, ids2, s1, hits[j]);
      var more;
      more, row := HitStep(mat, records, i, j, parse, cells, row, item);
      if !more {
        return false, cells';
      }
      j := j + 1;
    }
    RecordDone(records, i, cells, row, parse);
    ok, cells' := true, cells + row;
  }

  /** The body of the hit loop of `blast_xml_to_matrix` for one hit of
      query `s1`. */
  method MatrixHit(nodes1: seq<string>, nodes2: seq<string>, ids1: map<string, nat>, ids2: map<string, nat>, s1: string, hit: Hit)
    returns (item: Result<Option<(nat, real)>, Failure>)
    requires ids1 == NodeIds(nodes1) && ids2 == NodeIds(nodes2)
    ensures item == MatrixParse(nodes1, nodes2)((s1, hit))
    ensures item.Err? ==> item.error == IndexError
    ensures item.Ok? && item.value.Some? ==> item.value.value.0 < |nodes1| * |nodes2|
  {
    var words := SplitWs(hit.title);
    if words == [] {
      return Err(IndexError);
    }
    var s2 := words[0];
    if s1 in ids1 && ids1[s1] != 0 && s2 in ids2 && ids2[s2] != 0 {
      if hit.bits == [] {
        return Err(IndexError);
      }
      NodeIdsInRange(nodes1);
      NodeIdsInRange(nodes2);
      var k := VInd(|nodes2|, ids1[s1], ids2[s2]);
      VIndBelow(|nodes1|, |nodes2|, ids1[s1], ids2[s2]);
      return Ok(Some((k, hit.bits[0])));
    }
    item := Ok(None);
  }

  /** What both hit loops do with the parsed hit `j` of record `i`: stop
      on a failure, skip a hit that writes nothing, or write the cell and
      record the write. */
  method HitStep(a: array<real>, records: seq<BlastRecord>, i: nat, j: nat,
                 ghost parse: ((string, Hit)) -> Result<Option<(nat, real)>, Failure>,
                 ghost cells: seq<(nat, real)>, ghost row: seq<(nat, real)>, item: Result<Option<(nat, real)>, Failure>)
    returns (more: bool, ghost row': seq<(nat, real)>)
    requires i < |records| && j < |records[i].hits|
    requires Entries(Alignments(records[..i]), parse) == Ok(cells)
    requires Entries(Pairs(records[i].query, records[i].hits[..j]), parse) == Ok(row)
    requires a[..] == seq(a.Length, k => LastValue(cells + row, k))
    requires parse((records[i].query, records[i].hits[j])) == item
    requires item.Err? ==> item.error == IndexError
    requires item.Ok? && item.value.Some? ==> item.value.value.0 < a.Length
    modifies a
    ensures more ==> Entries(Pairs(records[i].query, records[i].hits[..j + 1]), parse) == Ok(row')
    ensures more ==> a[..] == seq(a.Length, k => LastValue(cells + row', k))
    ensures !more ==> Entries(Alignments(records), parse) == Err(IndexError)
  {
    PairsNext(records[i].query, records[i].hits, j, parse, row, item);
    match item {
      case Err(_) =>
        RecordFails(records, i, j + 1, cells, parse);
        return false, row;
      case Ok(None) =>
        return true, row;
      case Ok(Some(c)) =>
        SetCell(a, cells + row, c.0, c.1);
        AppendAssoc(cells, row, [c]);
        return true, row + [c];
    }
  }

  /** Writes one cell of the matrix: the array still holds the last value
      written to each cell. */
  method SetCell(mat: array<real>, ghost cells: seq<(nat, real)>, k: nat, v: real)
    requires k < mat.Length
    requires mat[..] == seq(mat.Length, i => LastValue(cells, i))
    modifies mat
    ensures mat[..] == seq(mat.Length, i => LastValue(cells + [(k, v)], i))
  {
    LastValueSnoc(cells, (k, v), mat.Length);
    mat[k] := v;
  }

  /** A failing hit of record `i` is the report's failure. */
  lemma RecordFails<E>(records: seq<BlastRecord>, i: nat, j: nat, cells: seq<E>, parse: ((string, Hit)) -> Result<Option<E>, Failure>)
    requires i < |records| && j <= |records[i].hits|
    requires Entries(Alignments(records[..i]), parse) == Ok(cells)
    requires Entries(Pairs(records[i].query, records[i].hits[..j]), parse).Err?
    ensures Entries(Alignments(records), parse) == Entries(Pairs(records[i].query, records[i].hits[..j]), parse)
  {
    EntriesAppend(Alignments(records[..i]), Pairs(records[i].query, records[i].hits[..j]), parse);
    CursorFails(records, i, j, parse);
  }

  /** Record `i` read to its end. */
  lemma RecordDone<E>(records: seq<BlastRecord>, i: nat, cells: seq<E>, row: seq<E>, parse: ((string, Hit)) -> Result<Option<E>, Failure>)
    requires i < |records|
    requires Entries(Alignments(records[..i]), parse) == Ok(cells)
    requires Entries(Pairs(records[i].query, records[i].hits[..|records[i].hits|]), parse) == Ok(row)
    ensures Entries(Alignments(records[..i + 1]), parse) == Ok(cells + row)
  {
    EntriesAppend(Alignments(records[..i]), Pairs(records[i].query, records[i].hits[..|records[i].hits|]), parse);
    CursorEnd(records, i);
  }

  /** The hits of a record read one more: a failure, nothing, or the next
      cell. */
  lemma PairsStep<E>(q: string, hits: seq<Hit>, j: nat, parse: ((string, Hit)) -> Result<Option<E>, Failure>)
    requires j < |hits|
    ensures Entries(Pairs(q, hits[..j + 1]), parse) == Push(Entries(Pairs(q, hits[..j]), parse), parse((q, hits[j])))
  {
    assert Pairs(q, hits[..j + 1]) == Pairs(q, hits[..j]) + [(q, hits[j])];
    EntriesSnoc(Pairs(q, hits[..j]), (q, hits[j]), parse);
  }

  /** One more hit read by a hit loop that keeps
      `Entries(Pairs(q, hits[..j])) == Ok(row)` and has just parsed hit `j`
      as `item`. */
  lemma PairsNext<E>(q: string, hits: seq<Hit>, j: nat, parse: ((string, Hit)) -> Result<Option<E>, Failure>,
                     row: seq<E>, item: Result<Option<E>, Failure>)
    requires j < |hits| && Entries(Pairs(q, hits[..j]), parse) == Ok(row) && parse((q, hits[j])) == item
    ensures item.Err? ==> Entries(Pairs(q, hits[..j + 1]), parse) == Err(item.error)
    ensures item == Ok(None) ==> Entries(Pairs(q, hits[..j + 1]), parse) == Ok(row)
    ensures item.Ok? && item.value.Some? ==> Entries(Pairs(q, hits[..j + 1]), parse) == Ok(row + [item.value.value])
  {
    PairsStep(q, hits, j, parse);
  }

  /** Node 0 of either network is never written: row 0 and column 0 of
      the similarity matrix stay zero. */
  lemma MatrixZeroRowColumn(nodes1: seq<string>, nodes2: seq<string>, records: seq<BlastRecord>, m: seq<real>)
    requires BlastMatrix(nodes1, nodes2, records) == Ok(m)
    ensures |m| == |nodes1| * |nodes2|
    ensures forall j :: 0 <= j < |nodes2| && 0 < |nodes1| ==> SimAt(m, |nodes1|, |nodes2|, 0, j) == 0.0
    ensures forall i :: 0 <= i < |nodes1| && 0 < |nodes2| ==> SimAt(m, |nodes1|, |nodes2|, i, 0) == 0.0
  {
    var n1, n2 := |nodes1|, |nodes2|;
    var als := Alignments(records);
    var cells := Entries(als, MatrixParse(nodes1, nodes2)).value;
    MatrixCellsOff(nodes1, nodes2, als);
    forall j | 0 <= j < n2 && 0 < n1 ensures SimAt(m, n1, n2, 0, j) == 0.0 {
      VIndBelow(n1, n2, 0, j);
      DivModUnique(VInd(n2, 0, j), n2, 0, j);
      AxesUnwritten(cells, n1, n2, VInd(n2, 0, j));
    }
    forall i | 0 <= i < n1 && 0 < n2 ensures SimAt(m, n1, n2, i, 0) == 0.0 {
      VIndBelow(n1, n2, i, 0);
      DivModUnique(VInd(n2, i, 0), n2, i, 0);
      AxesUnwritten(cells, n1, n2, VInd(n2, i, 0));
    }
  }

  /** A cell on row 0 or column 0 is never among cells written off them. */
  lemma AxesUnwritten(cells: seq<(nat, real)>, n1: nat, n2: nat, k: nat)
    requires forall i :: 0 <= i < |cells| ==> OffAxes(cells[i].0, n1, n2)
    requires 0 < n2 && (k / n2 == 0 || k % n2 == 0)
    ensures LastValue(cells, k) == 0.0
  {
    forall i | 0 <= i < |cells| ensures cells[i].0 != k {
      assert OffAxes(cells[i].0, n1, n2);
    }
    LastValueUnwritten(cells, k);
  }

  /** Every cell written is off row 0 and column 0. */
  lemma MatrixCellsOff(nodes1: seq<string>, nodes2: seq<string>, als: seq<(string, Hit)>)
    requires Entries(als, MatrixParse(nodes1, nodes2)).Ok?
    ensures var cells := Entries(als, MatrixParse(nodes1, nodes2)).value;
      forall i :: 0 <= i < |cells| ==> OffAxes(cells[i].0, |nodes1|, |nodes2|)
  {
    var parse := MatrixParse(nodes1, nodes2);
    var cells := Entries(als, parse).value;
    var off := (c: (nat, real)) => OffAxes(c.0, |nodes1|, |nodes2|);
    forall t | 0 <= t < |als| && parse(als[t]).Ok? && parse(als[t]).value.Some?
      ensures off(parse(als[t]).value.value)
    {
      MatrixCellOff(nodes1, nodes2, als[t]);
    }
    EntriesHold(als, parse, off, cells);
  }

  /** A nonzero value was written there by some cell of `cells`. */
  lemma {:induction false} LastValueFrom(cells: seq<(nat, real)>, k: int)
    requires LastValue(cells, k) != 0.0
    ensures exists i :: 0 <= i < |cells| && cells[i] == (k, LastValue(cells, k))
    decreases |cells|
  {
    var n := |cells| - 1;
    if cells[n].0 != k {
      LastValueFrom(cells[..n], k);
      var i :| 0 <= i < n && cells[..n][i] == (k, LastValue(cells[..n], k));
      assert cells[i] == cells[..n][i];
    }
  }

  /** Every nonzero entry of the similarity vector is the first HSP score
      of a hit whose query and subject resolve to that entry's nodes. */
  lemma MatrixEntrySource(nodes1: seq<string>, nodes2: seq<string>, records: seq<BlastRecord>, m: seq<real>, k: nat)
    requires BlastMatrix(nodes1, nodes2, records) == Ok(m)
    requires k < |m| && m[k] != 0.0
    ensures exists t :: 0 <= t < |Alignments(records)| && MatrixCell(nodes1, nodes2, Alignments(records)[t]) == Ok(Some((k, m[k])))
  {
    var als := Alignments(records);
    var parse := MatrixParse(nodes1, nodes2);
    var cells := Entries(als, parse).value;
    assert m[k] == LastValue(cells, k);
    LastValueFrom(cells, k);
    var i :| 0 <= i < |cells| && cells[i] == (k, m[k]);
    EntriesMembers(als, parse, cells);
    assert cells[i] in cells;
    var t :| 0 <= t < |als| && parse(als[t]) == Ok(Some(cells[i]));
  }

  /** Entry (i, j) of the similarity vector, when nonzero, is the first
      HSP score of a hit of protein `nodes2[j]` in the record of
      `nodes1[i]`; neither is node 0. */
  lemma MatrixEntryHit(nodes1: seq<string>, nodes2: seq<string>, records: seq<BlastRecord>, m: seq<real>, i: nat, j: nat)
    requires BlastMatrix(nodes1, nodes2, records) == Ok(m)
    requires i < |nodes1| && j < |nodes2| && |m| == |nodes1| * |nodes2|
    requires SimAt(m, |nodes1|, |nodes2|, i, j) != 0.0
    ensures i != 0 && j != 0
    ensures exists t :: (0 <= t < |Alignments(records)| &&
      PairHit(Alignments(records)[t], nodes1[i], nodes2[j], SimAt(m, |nodes1|, |nodes2|, i, j)))
  {
    var k := VInd(|nodes2|, i, j);
    VIndBelow(|nodes1|, |nodes2|, i, j);
    MatrixEntrySource(nodes1, nodes2, records, m, k);
    var als := Alignments(records);
    var t :| 0 <= t < |als| && MatrixCell(nodes1, nodes2, als[t]) == Ok(Some((k, m[k])));
    MatrixCellCases(nodes1, nodes2, als[t]);
    var ids1, ids2 := NodeIds(nodes1), NodeIds(nodes2);
    var s2 := SplitWs(als[t].1.title)[0];
    NodeIdsLastIndex(nodes1);
    NodeIdsLastIndex(nodes2);
    VIndInjective(|nodes2|, i, j, ids1[als[t].0], ids2[s2]);
    assert PairHit(als[t], nodes1[i], nodes2[j], m[k]);
  }

  /** Alignment `a` is a hit of protein `p2` in the record of `p1`, its
      first HSP scoring `score`. */
  predicate PairHit(a: (string, Hit), p1: string, p2: string, score: real) {
    a.0 == p1 && SplitWs(a.1.title) != [] && SplitWs(a.1.title)[0] == p2 && a.1.bits != [] && a.1.bits[0] == score
  }

  // ---------------------------------------------------------------------
  // self_blast_xml_to_vec
  // ---------------------------------------------------------------------

  /** What one hit of an organism's report against itself writes
      (interface.py:113-119): a hit of the query protein on itself, when the
      query has a nonzero id, puts its first HSP score at that id. */
  function SelfCell(nodes: seq<string>, a: (string, Hit)): Result<Option<(nat, real)>, Failure> {
    match Subject(a.1.title)
    case Err(e) => Err(e)
    case Ok(s2) =>
      var ids := NodeIds(nodes);
      if !(Resolves(ids, a.0) && a.0 == s2) then Ok(None)
      else if a.1.bits == [] then Err(IndexError)
      else Ok(Some((ids[a.0], a.1.bits[0])))
  }

  /** The cases of one hit, as the reading loop meets them. */
  lemma SelfCellCases(nodes: seq<string>, a: (string, Hit))
    ensures SplitWs(a.1.title) == [] ==> SelfCell(nodes, a) == Err(IndexError)
    ensures SplitWs(a.1.title) != [] ==>
      var s2 := SplitWs(a.1.title)[0];
      var ids := NodeIds(nodes);
      if !(Resolves(ids, a.0) && a.0 == s2) then SelfCell(nodes, a) == Ok(None)
      else if a.1.bits == [] then SelfCell(nodes, a) == Err(IndexError)
      else SelfCell(nodes, a) == Ok(Some((ids[a.0], a.1.bits[0])))
  {
  }

  function SelfParse(nodes: seq<string>): ((string, Hit)) -> Result<Option<(nat, real)>, Failure> {
    a => SelfCell(nodes, a)
  }

  /** The vector `self_blast_xml_to_vec` returns: one entry per node, zero
      unless a self-hit wrote it, then the score of the last such hit. */
  function SelfVector(nodes: seq<string>, records: seq<BlastRecord>): Result<seq<real>, Failure> {
    match Entries(Alignments(records), SelfParse(nodes))
    case Err(e) => Err(e)
    case Ok(cells) => Ok(seq(|nodes|, k => LastValue(cells, k)))
  }

  /** The record loop of `self_blast_xml_to_vec` (interface.py:103-121). */
  method SelfBlastXmlToVec(nodes: seq<string>, records: seq<BlastRecord>) returns (r: Result<seq<real>, Failure>)
    ensures r == SelfVector(nodes, records)
  {
    var ids := NodeIds(nodes);
    var vec := new real[|nodes|](_ => 0.0);
    ghost var cells: seq<(nat, real)> := [];
    var i := 0;
    while i < |records|
      invariant i <= |records|
      invariant Entries(Alignments(records[..i]), SelfParse(nodes)) == Ok(cells)
      invariant vec[..] == seq(vec.Length, k => LastValue(cells, k))
    {
      var ok;
      ok, cells := SelfHits(nodes, ids, vec, records, i, cells);
      if !ok {
        return Err(IndexError);
      }
      i := i + 1;
    }
    AlignmentsAll(records);
    r := Ok(vec[..]);
  }

  /** The hit loop of `self_blast_xml_to_vec` over record `i`; `ok` is
      false when a hit raises IndexError. */
  method SelfHits(nodes: seq<string>, ids: map<string, nat>, vec: array<real>, records: seq<BlastRecord>, i: nat,
                  ghost cells: seq<(nat, real)>)
    returns (ok: bool, ghost cells': seq<(nat, real)>)
    requires ids == NodeIds(nodes) && vec.Length == |nodes|
    requires i < |records|
    requires Entries(Alignments(records[..i]), SelfParse(nodes)) == Ok(cells)
    requires vec[..] == seq(vec.Length, k => LastValue(cells, k))
    modifies vec
    ensures ok ==> Entries(Alignments(records[..i + 1]), SelfParse(nodes)) == Ok(cells')
    ensures ok ==> vec[..] == seq(vec.Length, k => LastValue(cells', k))
    ensures !ok ==> Entries(Alignments(records), SelfParse(nodes)) == Err(IndexError)
  {
    ghost var parse := SelfParse(nodes);
    var s1 := records[i].query;
    var hits := records[i].hits;
    ghost var row: seq<(nat, real)> := [];
    assert Pairs(s1, hits[..0]) == [];
    assert cells + row == cells;
    cells' := cells;
    NodeIdsInRange(nodes);
    var j := 0;
    while j < |hits|
      invariant j <= |hits|
      invariant Entries(Pairs(s1, hits[..j]), parse) == Ok(row)
      invariant vec[..] == seq(vec.Length, k => LastValue(cells + row, k))
    {
      var item := SelfHit(nodes, ids, s1, hits[j]);
      var more;
      more, row := HitStep(vec, records, i, j, parse, cells, row, item);
      if !more {
        return false, cells';
      }
      j := j + 1;
    }
    RecordDone(records, i, cells, row, parse);
    ok, cells' := true, cells + row;
  }

  /** The body of the hit loop of `self_blast_xml_to_vec` for one hit of
      query `s1`. */
  method SelfHit(nodes: seq<string>, ids: map<string, nat>, s1: string, hit: Hit)
    returns (item: Result<Option<(nat, real)>, Failure>)
    requires ids == NodeIds(nodes)
    ensures item == SelfCell(nodes, (s1, hit)) == SelfParse(nodes)((s1, hit))
    ensures item.Err? ==> item.error == IndexError
    ensures item.Ok? && item.value.Some? ==> item.value.value.0 < |nodes|
  {
    var words := SplitWs(hit.title);
    if words == [] {
      return Err(IndexError);
    }
    var s2 := words[0];
    if s1 in ids && ids[s1] != 0 && s1 == s2 {
      if hit.bits == [] {
        return Err(IndexError);
      }
      NodeIdsInRange(nodes);
      return Ok(Some((ids[s1], hit.bits[0])));
    }
    item := Ok(None);
  }

  /** Every nonzero entry `k` of the self-score vector is the first HSP
      score of a hit of protein `nodes[k]` on itself, and node 0 keeps 0. */
  lemma SelfEntrySource(nodes: seq<string>, records: seq<BlastRecord>, v: seq<real>, k: nat)
    requires SelfVector(nodes, records) == Ok(v)
    requires k < |v| && v[k] != 0.0
    ensures |v| == |nodes| && k != 0
    ensures exists t :: 0 <= t < |Alignments(records)| && PairHit(Alignments(records)[t], nodes[k], nodes[k], v[k])
  {
    var als := Alignments(records);
    var parse := SelfParse(nodes);
    var cells := Entries(als, parse).value;
    assert v[k] == LastValue(cells, k);
    LastValueFrom(cells, k);
    var i :| 0 <= i < |cells| && cells[i] == (k, v[k]);
    EntriesMembers(als, parse, cells);
    assert cells[i] in cells;
    var t :| 0 <= t < |als| && parse(als[t]) == Ok(Some(cells[i]));
    SelfCellCases(nodes, als[t]);
    NodeIdsLastIndex(nodes);
    assert PairHit(als[t], nodes[k], nodes[k], v[k]);
  }
}
