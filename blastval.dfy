/** The BLAST score writers of interface.py: `blast_xml_to_val` for NETAL
    and its three one-direction copies, `blast_xml_to_eval` (isorankN),
    `blast_xml_to_score` (pinalog) and `blast_xml_to_sim` (C-GRAAL). Each
    reads a report and writes one tab-separated line per hit whose two
    proteins are nodes with nonzero ids. The file is modelled as the
    sequence of its lines, each without its final newline; Python's
    `str` of a float is the parameter `fmt`. */
module BlastVal {
  import opened Common
  import opened Text
  import opened Organism
  import opened StringDb
  import opened Blast

  // ---------------------------------------------------------------------
  // Which way round the report was made
  // ---------------------------------------------------------------------

  /** Python's `<` on strings: code point by code point, a proper prefix
      first. */
  predicate LexLess(a: string, b: string)
    decreases |a|
  {
    if a == [] then b != []
    else if b == [] then false
    else if a[0] != b[0] then a[0] < b[0]
    else LexLess(a[1..], b[1..])
  }

  /** `<` on strings is a strict total order: exactly one of a < b, b < a,
      a == b. */
  lemma {:induction false} LexTrichotomy(a: string, b: string)
    ensures LexLess(a, b) || LexLess(b, a) || a == b
    ensures !(LexLess(a, b) && LexLess(b, a))
    ensures !LexLess(a, a)
    decreases |a|
  {
    if a != [] && b != [] && a[0] == b[0] {
      LexTrichotomy(a[1..], b[1..]);
      assert a == [a[0]] + a[1..] && b == [b[0]] + b[1..];
    }
    if a != [] {
      LexTrichotomy(a[1..], a[1..]);
    }
  }

  /** Python's `min(a, b)`: the first argument unless the second is smaller. */
  function PyMin(a: string, b: string): string {
    if LexLess(b, a) then b else a
  }

  /** Python's `max(a, b)`: the first argument unless the second is larger. */
  function PyMax(a: string, b: string): string {
    if LexLess(a, b) then b else a
  }

  /** `reverse` of `blast_xml_to_val` (interface.py:261-262): the
      pair of organism ids is not in (min, max) order. */
  function Reversed(org1: string, org2: string): bool {
    (org1, org2) != (PyMin(org1, org2), PyMax(org1, org2))
  }

  /** The report is read the other way round exactly when org2's id sorts
      before org1's; the report read is always the one named min-max. */
  lemma ReversedIff(org1: string, org2: string)
    ensures Reversed(org1, org2) <==> LexLess(org2, org1)
    ensures !Reversed(org1, org2) ==> (PyMin(org1, org2), PyMax(org1, org2)) == (org1, org2)
    ensures Reversed(org1, org2) ==> (PyMin(org1, org2), PyMax(org1, org2)) == (org2, org1)
  {
    LexTrichotomy(org1, org2);
  }

  // ---------------------------------------------------------------------
  // One line
  // ---------------------------------------------------------------------

  /** `a + '\t' + b + '\t' + c`. */
  function TabLine(a: string, b: string, c: string): string {
    a + "\t" + b + "\t" + c
  }

  /** A line of three tab-free fields splits back into them. */
  lemma TabLineSplit(a: string, b: string, c: string)
    requires NoTab(a) && NoTab(b) && NoTab(c)
    ensures SplitOn(TabLine(a, b, c), '\t') == [a, b, c]
  {
    var parts := [a, b, c];
    assert parts[1..] == [b, c] && [b, c][1..] == [c];
    assert Join([c], '\t') == c;
    assert Join([b, c], '\t') == b + "\t" + c;
    assert Join(parts, '\t') == a + "\t" + (b + "\t" + c);
    assert TabLine(a, b, c) == a + "\t" + (b + "\t" + c);
    SplitOnJoin(parts, '\t');
  }

  /** The roles of the two proteins of one alignment: (org1 protein, org2
      protein). Read forward, the query is org1's; reversed, it is org2's
      (interface.py:266-275). */
  function Roles(reverse: bool, query: string, subject: string): (string, string) {
    if reverse then (subject, query) else (query, subject)
  }

  /** What one hit writes, as the code is written (interface.py:266-287):
      nothing unless both proteins resolve to nonzero ids; then the first
      HSP's bits, raising IndexError when there is none. Forward the line
      is `s1, s2`; reversed it is `s2, s1`. */
  function ValCell(nodes1: seq<string>, nodes2: seq<string>, reverse: bool, fmt: real -> string, a: (string, Hit))
    : Result<Option<string>, Failure>
  {
    match Subject(a.1.title)
    case Err(e) => Err(e)
    case Ok(w) =>
      var (s1, s2) := Roles(reverse, a.0, w);
      if !(Resolves(NodeIds(nodes1), s1) && Resolves(NodeIds(nodes2), s2)) then Ok(None)
      else if a.1.bits == [] then Err(IndexError)
      else if !reverse then Ok(Some(TabLine(s1, s2, fmt(a.1.bits[0]))))
      else Ok(Some(TabLine(s2, s1, fmt(a.1.bits[0]))))
  }

  /** The cases of one hit, as the reading loop meets them. */
  lemma ValCellCases(nodes1: seq<string>, nodes2: seq<string>, reverse: bool, fmt: real -> string, a: (string, Hit))
    ensures SplitWs(a.1.title) == [] ==> ValCell(nodes1, nodes2, reverse, fmt, a) == Err(IndexError)
    ensures SplitWs(a.1.title) != [] ==>
      var (s1, s2) := Roles(reverse, a.0, SplitWs(a.1.title)[0]);
      if !(Resolves(NodeIds(nodes1), s1) && Resolves(NodeIds(nodes2), s2)) then
        ValCell(nodes1, nodes2, reverse, fmt, a) == Ok(None)
      else if a.1.bits == [] then ValCell(nodes1, nodes2, reverse, fmt, a) == Err(IndexError)
      else if !reverse then ValCell(nodes1, nodes2, reverse, fmt, a) == Ok(Some(TabLine(s1, s2, fmt(a.1.bits[0]))))
      else ValCell(nodes1, nodes2, reverse, fmt, a) == Ok(Some(TabLine(s2, s1, fmt(a.1.bits[0]))))
  {
  }

  /** Either way round, the line as written starts with the query protein
      and goes on with the hit's: reversing the roles and reversing the
      line cancel out. */
  lemma ValCellQueryFirst(nodes1: seq<string>, nodes2: seq<string>, reverse: bool, fmt: real -> string, a: (string, Hit), x: string)
    requires ValCell(nodes1, nodes2, reverse, fmt, a) == Ok(Some(x))
    ensures SplitWs(a.1.title) != [] && a.1.bits != []
    ensures x == TabLine(a.0, SplitWs(a.1.title)[0], fmt(a.1.bits[0]))
    ensures var (p1, p2) := Roles(reverse, a.0, SplitWs(a.1.title)[0]);
      Resolves(NodeIds(nodes1), p1) && Resolves(NodeIds(nodes2), p2)
  {
    ValCellCases(nodes1, nodes2, reverse, fmt, a);
  }

  function ValParse(nodes1: seq<string>, nodes2: seq<string>, reverse: bool, fmt: real -> string)
    : ((string, Hit)) -> Result<Option<string>, Failure>
  {
    a => ValCell(nodes1, nodes2, reverse, fmt, a)
  }

  /** The lines written for the report `records`, in reading order. */
  function BlastVal(nodes1: seq<string>, nodes2: seq<string>, reverse: bool, fmt: real -> string, records: seq<BlastRecord>)
    : Result<seq<string>, Failure>
  {
    Entries(Alignments(records), ValParse(nodes1, nodes2, reverse, fmt))
  }

  // ---------------------------------------------------------------------
  // The loops
  // ---------------------------------------------------------------------

  /** `blast_xml_to_val` (interface.py:252-287), given the records of the
      report named min-max. */
  method BlastXmlToVal(org1: string, org2: string, nodes1: seq<string>, nodes2: seq<string>, fmt: real -> string,
                       records: seq<BlastRecord>)
    returns (r: Result<seq<string>, Failure>)
    ensures r == BlastVal(nodes1, nodes2, LexLess(org2, org1), fmt, records)
  {
    var reverse := (org1, org2) != (PyMin(org1, org2), PyMax(org1, org2));
    ReversedIff(org1, org2);
    r := HitLines(nodes1, nodes2, reverse, fmt, records);
  }

  /** `blast_xml_to_eval` (interface.py:125-147), and its copies
      `blast_xml_to_score` (interface.py:378-402) and `blast_xml_to_sim`
      (interface.py:481-504): the forward case of the same loop. */
  method BlastXmlToEval(nodes1: seq<string>, nodes2: seq<string>, fmt: real -> string, records: seq<BlastRecord>)
    returns (r: Result<seq<string>, Failure>)
    ensures r == BlastVal(nodes1, nodes2, false, fmt, records)
  {
    r := HitLines(nodes1, nodes2, false, fmt, records);
  }

  /** The record loop shared by the writers. */
  method HitLines(nodes1: seq<string>, nodes2: seq<string>, reverse: bool, fmt: real -> string, records: seq<BlastRecord>)
    returns (r: Result<seq<string>, Failure>)
    ensures r == BlastVal(nodes1, nodes2, reverse, fmt, records)
  {
    var ids1 := NodeIds(nodes1);
    var ids2 := NodeIds(nodes2);
    var out: seq<string> := [];
    var i := 0;
    while i < |records|
      invariant i <= |records|
      invariant Entries(Alignments(records[..i]), ValParse(nodes1, nodes2, reverse, fmt)) == Ok(out)
    {
      var ok;
      ok, out := RecordLines(nodes1, nodes2, ids1, ids2, reverse, fmt, records, i, out);
      if !ok {
        return Err(IndexError);
      }
      i := i + 1;
    }
    AlignmentsAll(records);
    r := Ok(out);
  }

  /** The hit loop over record `i`; `ok` is false when a hit raises
      IndexError. */
  method RecordLines(nodes1: seq<string>, nodes2: seq<string>, ids1: map<string, nat>, ids2: map<string, nat>,
                     reverse: bool, fmt: real -> string, records: seq<BlastRecord>, i: nat, out: seq<string>)
    returns (ok: bool, out': seq<string>)
    requires ids1 == NodeIds(nodes1) && ids2 == NodeIds(nodes2)
    requires i < |records|
    requires Entries(Alignments(records[..i]), ValParse(nodes1, nodes2, reverse, fmt)) == Ok(out)
    ensures ok ==> Entries(Alignments(records[..i + 1]), ValParse(nodes1, nodes2, reverse, fmt)) == Ok(out')
    ensures !ok ==> Entries(Alignments(records), ValParse(nodes1, nodes2, reverse, fmt)) == Err(IndexError)
  {
    ghost var parse := ValParse(nodes1, nodes2, reverse, fmt);
    var query := records[i].query;
    var hits := records[i].hits;
    var row: seq<string> := [];
    assert Pairs(query, hits[..0]) == [];
    out' := out;
    var j := 0;
    while j < |hits|
      invariant j <= |hits|
      invariant Entries(Pairs(query, hits[..j]), parse) == Ok(row)
    {
      PairsStep(query, hits, j, parse);
      var cell := HitLine(nodes1, nodes2, ids1, ids2, reverse, fmt, query, hits[j]);
      if cell.Err? {
        RecordFails(records, i, j + 1, out, parse);
        return false, out';
      }
      if cell.value.Some? {
        row := row + [cell.value.value];
      }
      j := j + 1;
    }
    RecordDone(records, i, out, row, parse);
    ok, out' := true, out + row;
  }

  /** The body of the hit loop (interface.py:276-287): the line one hit
      writes, if any. */
  method HitLine(nodes1: seq<string>, nodes2: seq<string>, ids1: map<string, nat>, ids2: map<string, nat>,
                 reverse: bool, fmt: real -> string, query: string, hit: Hit)
    returns (r: Result<Option<string>, Failure>)
    requires ids1 == NodeIds(nodes1) && ids2 == NodeIds(nodes2)
    ensures r == ValCell(nodes1, nodes2, reverse, fmt, (query, hit))
  {
    var words := SplitWs(hit.title);
    if words == [] {
      return Err(IndexError);
    }
    var s1, s2;
    if !reverse {
      s1, s2 := query, words[0];
    } else {
      s1, s2 := words[0], query;
    }
    if !(s1 in ids1 && ids1[s1] != 0 && s2 in ids2 && ids2[s2] != 0) {
      return Ok(None);
    }
    if hit.bits == [] {
      return Err(IndexError);
    }
    if !reverse {
      r := Ok(Some(TabLine(s1, s2, fmt(hit.bits[0]))));
    } else {
      r := Ok(Some(TabLine(s2, s1, fmt(hit.bits[0]))));
    }
  }

  // ---------------------------------------------------------------------
  // What the file holds
  // ---------------------------------------------------------------------

  /** Names that cannot break a line into more fields. */
  predicate TabFree(nodes: seq<string>) {
    forall k :: 0 <= k < |nodes| ==> NoTab(nodes[k])
  }

  /** A field free of the separator. */
  predicate NoTab(s: string) {
    '\t' !in s
  }

  /** Every line as written has three fields: the query protein, the hit's
      protein and the formatted score. Forward that is an org1 node then
      an org2 node, both with nonzero ids; reversed it is an org2 node
      then an org1 node. */
  lemma ValLineFields(nodes1: seq<string>, nodes2: seq<string>, reverse: bool, fmt: real -> string,
                      records: seq<BlastRecord>, lines: seq<string>, x: string)
    requires BlastVal(nodes1, nodes2, reverse, fmt, records) == Ok(lines)
    requires TabFree(nodes1) && TabFree(nodes2) && forall v {:trigger fmt(v)} :: NoTab(fmt(v))
    requires x in lines
    ensures var f := SplitOn(x, '\t');
      |f| == 3 &&
      (!reverse ==> Resolves(NodeIds(nodes1), f[0]) && Resolves(NodeIds(nodes2), f[1])) &&
      (reverse ==> Resolves(NodeIds(nodes2), f[0]) && Resolves(NodeIds(nodes1), f[1]))
  {
    var als := Alignments(records);
    var parse := ValParse(nodes1, nodes2, reverse, fmt);
    EntriesMembers(als, parse, lines);
    var t :| 0 <= t < |als| && parse(als[t]) == Ok(Some(x));
    ValCellFields(nodes1, nodes2, reverse, fmt, als[t], x);
  }

  /** The same for the line of one hit. */
  lemma ValCellFields(nodes1: seq<string>, nodes2: seq<string>, reverse: bool, fmt: real -> string, a: (string, Hit), x: string)
    requires ValCell(nodes1, nodes2, reverse, fmt, a) == Ok(Some(x))
    requires TabFree(nodes1) && TabFree(nodes2) && forall v {:trigger fmt(v)} :: NoTab(fmt(v))
    ensures var f := SplitOn(x, '\t');
      |f| == 3 &&
      (!reverse ==> Resolves(NodeIds(nodes1), f[0]) && Resolves(NodeIds(nodes2), f[1])) &&
      (reverse ==> Resolves(NodeIds(nodes2), f[0]) && Resolves(NodeIds(nodes1), f[1]))
  {
    var p, q, c := ValCellParts(nodes1, nodes2, reverse, fmt, a, x);
    TabLineSplit(p, q, c);
  }

  /** The three fields of the line one hit writes. */
  lemma ValCellParts(nodes1: seq<string>, nodes2: seq<string>, reverse: bool, fmt: real -> string, a: (string, Hit), x: string)
    returns (p: string, q: string, c: string)
    requires ValCell(nodes1, nodes2, reverse, fmt, a) == Ok(Some(x))
    requires TabFree(nodes1) && TabFree(nodes2) && forall v {:trigger fmt(v)} :: NoTab(fmt(v))
    ensures x == TabLine(p, q, c) && NoTab(p) && NoTab(q) && NoTab(c)
    ensures !reverse ==> Resolves(NodeIds(nodes1), p) && Resolves(NodeIds(nodes2), q)
    ensures reverse ==> Resolves(NodeIds(nodes2), p) && Resolves(NodeIds(nodes1), q)
  {
    var w := SplitWs(a.1.title)[0];
    var score: real := a.1.bits[0];
    assert NoTab(fmt(score));
    p, q, c := a.0, w, fmt(score);
    if reverse {
      assert Roles(reverse, a.0, w) == (q, p);
      ResolvedTabFree(nodes1, q);
      ResolvedTabFree(nodes2, p);
    } else {
      assert Roles(reverse, a.0, w) == (p, q);
      ResolvedTabFree(nodes1, p);
      ResolvedTabFree(nodes2, q);
    }
  }

  /** A name with a nonzero id is one of the nodes, so it has no tab. */
  lemma ResolvedTabFree(nodes: seq<string>, s: string)
    requires TabFree(nodes) && Resolves(NodeIds(nodes), s)
    ensures NoTab(s)
  {
    NodeIdsLastIndex(nodes);
    assert nodes[NodeIds(nodes)[s]] == s;
  }

  /** The writer fails exactly at the first hit whose title has no word,
      or whose two proteins resolve while it has no HSP; the failure is
      IndexError. */
  lemma ValFails(nodes1: seq<string>, nodes2: seq<string>, reverse: bool, fmt: real -> string, records: seq<BlastRecord>)
    ensures BlastVal(nodes1, nodes2, reverse, fmt, records).Err? ==>
      exists t :: FirstBad(nodes1, nodes2, reverse, Alignments(records), t)
    ensures (exists t :: FirstBad(nodes1, nodes2, reverse, Alignments(records), t)) ==>
      BlastVal(nodes1, nodes2, reverse, fmt, records).Err?
    ensures BlastVal(nodes1, nodes2, reverse, fmt, records).Err? ==>
      BlastVal(nodes1, nodes2, reverse, fmt, records) == Err(IndexError)
  {
    var als := Alignments(records);
    var parse := ValParse(nodes1, nodes2, reverse, fmt);
    if Entries(als, parse).Err? {
      var e := Entries(als, parse).error;
      EntriesFailure(als, parse, e);
      var t :| 0 <= t < |als| && parse(als[t]) == Err(e) && forall u :: 0 <= u < t ==> parse(als[u]).Ok?;
      ValCellErr(nodes1, nodes2, reverse, fmt, als[t]);
      forall u | 0 <= u < t ensures !BadHit(nodes1, nodes2, reverse, als[u]) {
        ValCellErr(nodes1, nodes2, reverse, fmt, als[u]);
      }
      assert FirstBad(nodes1, nodes2, reverse, als, t);
    }
    forall t | FirstBad(nodes1, nodes2, reverse, als, t) ensures Entries(als, parse).Err? {
      FirstBadFails(nodes1, nodes2, reverse, fmt, als, t);
    }
  }

  /** The first bad hit makes the reading fail. */
  lemma FirstBadFails(nodes1: seq<string>, nodes2: seq<string>, reverse: bool, fmt: real -> string,
                      als: seq<(string, Hit)>, t: int)
    requires FirstBad(nodes1, nodes2, reverse, als, t)
    ensures Entries(als, ValParse(nodes1, nodes2, reverse, fmt)) == Err(IndexError)
  {
    var parse := ValParse(nodes1, nodes2, reverse, fmt);
    ValCellErr(nodes1, nodes2, reverse, fmt, als[t]);
    assert parse(als[t]) == Err(IndexError);
    forall u | 0 <= u < t ensures parse(als[u]).Ok? {
      assert !BadHit(nodes1, nodes2, reverse, als[u]);
      ValCellErr(nodes1, nodes2, reverse, fmt, als[u]);
    }
    EntriesFailure(als, parse, IndexError);
  }

  /** Hit `t` is the first bad one. */
  predicate FirstBad(nodes1: seq<string>, nodes2: seq<string>, reverse: bool, als: seq<(string, Hit)>, t: int) {
    0 <= t < |als| && BadHit(nodes1, nodes2, reverse, als[t]) &&
    forall u :: 0 <= u < t ==> !BadHit(nodes1, nodes2, reverse, als[u])
  }

  /** One hit fails exactly when it is bad, and then with IndexError. */
  lemma ValCellErr(nodes1: seq<string>, nodes2: seq<string>, reverse: bool, fmt: real -> string, a: (string, Hit))
    ensures ValCell(nodes1, nodes2, reverse, fmt, a).Err? <==> BadHit(nodes1, nodes2, reverse, a)
    ensures ValCell(nodes1, nodes2, reverse, fmt, a).Err? ==> ValCell(nodes1, nodes2, reverse, fmt, a) == Err(IndexError)
  {
    ValCellCases(nodes1, nodes2, reverse, fmt, a);
  }

  /** Hit `a` raises IndexError: its title has no word, or its proteins
      resolve and it has no HSP. */
  predicate BadHit(nodes1: seq<string>, nodes2: seq<string>, reverse: bool, a: (string, Hit)) {
    SplitWs(a.1.title) == [] ||
    (var (s1, s2) := Roles(reverse, a.0, SplitWs(a.1.title)[0]);
     Resolves(NodeIds(nodes1), s1) && Resolves(NodeIds(nodes2), s2) && a.1.bits == [])
  }

  /** The discrepancy: when the two networks share no protein name (their
      names carry the organism id), every line of a reversed `.val` file
      starts with a protein that is not a node of org1, although the file
      is named org1-org2 and the forward case starts with org1's. */
  lemma ValReversedNotOrg1First(nodes1: seq<string>, nodes2: seq<string>, fmt: real -> string,
                                records: seq<BlastRecord>, lines: seq<string>, x: string)
    requires BlastVal(nodes1, nodes2, true, fmt, records) == Ok(lines)
    requires TabFree(nodes1) && TabFree(nodes2) && forall v {:trigger fmt(v)} :: NoTab(fmt(v))
    requires forall k :: 0 <= k < |nodes2| ==> nodes2[k] !in nodes1
    requires x in lines
    ensures SplitOn(x, '\t')[0] !in nodes1
  {
    ValLineFields(nodes1, nodes2, true, fmt, records, lines, x);
    var p := SplitOn(x, '\t')[0];
    NodeIdsLastIndex(nodes2);
    assert nodes2[NodeIds(nodes2)[p]] == p;
  }

  // ---------------------------------------------------------------------
  // The line as intended
  // ---------------------------------------------------------------------

  /** What one hit writes when the line keeps the roles: org1's protein
      first whichever way the report was read. */
  function ValCellIntended(nodes1: seq<string>, nodes2: seq<string>, reverse: bool, fmt: real -> string, a: (string, Hit))
    : Result<Option<string>, Failure>
  {
    match Subject(a.1.title)
    case Err(e) => Err(e)
    case Ok(w) =>
      var (s1, s2) := Roles(reverse, a.0, w);
      if !(Resolves(NodeIds(nodes1), s1) && Resolves(NodeIds(nodes2), s2)) then Ok(None)
      else if a.1.bits == [] then Err(IndexError)
      else Ok(Some(TabLine(s1, s2, fmt(a.1.bits[0]))))
  }

  function ValIntendedParse(nodes1: seq<string>, nodes2: seq<string>, reverse: bool, fmt: real -> string)
    : ((string, Hit)) -> Result<Option<string>, Failure>
  {
    a => ValCellIntended(nodes1, nodes2, reverse, fmt, a)
  }

  /** The lines of the `.val` file with the roles kept. */
  function BlastValIntended(nodes1: seq<string>, nodes2: seq<string>, reverse: bool, fmt: real -> string,
                            records: seq<BlastRecord>)
    : Result<seq<string>, Failure>
  {
    Entries(Alignments(records), ValIntendedParse(nodes1, nodes2, reverse, fmt))
  }

  /** With the roles kept, every line is an org1 node, an org2 node and
      the score, whichever way the report was read. */
  lemma ValIntendedFields(nodes1: seq<string>, nodes2: seq<string>, reverse: bool, fmt: real -> string,
                          records: seq<BlastRecord>, lines: seq<string>, x: string)
    requires BlastValIntended(nodes1, nodes2, reverse, fmt, records) == Ok(lines)
    requires TabFree(nodes1) && TabFree(nodes2) && forall v {:trigger fmt(v)} :: NoTab(fmt(v))
    requires x in lines
    ensures var f := SplitOn(x, '\t');
      |f| == 3 && Resolves(NodeIds(nodes1), f[0]) && Resolves(NodeIds(nodes2), f[1])
  {
    var als := Alignments(records);
    var parse := ValIntendedParse(nodes1, nodes2, reverse, fmt);
    EntriesMembers(als, parse, lines);
    var t :| 0 <= t < |als| && parse(als[t]) == Ok(Some(x));
    ValIntendedCellFields(nodes1, nodes2, reverse, fmt, als[t], x);
  }

  /** The same for the line of one hit. */
  lemma ValIntendedCellFields(nodes1: seq<string>, nodes2: seq<string>, reverse: bool, fmt: real -> string,
                              a: (string, Hit), x: string)
    requires ValCellIntended(nodes1, nodes2, reverse, fmt, a) == Ok(Some(x))
    requires TabFree(nodes1) && TabFree(nodes2) && forall v {:trigger fmt(v)} :: NoTab(fmt(v))
    ensures var f := SplitOn(x, '\t');
      |f| == 3 && Resolves(NodeIds(nodes1), f[0]) && Resolves(NodeIds(nodes2), f[1])
  {
    var p, q, c := ValIntendedParts(nodes1, nodes2, reverse, fmt, a, x);
    TabLineSplit(p, q, c);
  }

  /** The three fields of the line one hit should write. */
  lemma ValIntendedParts(nodes1: seq<string>, nodes2: seq<string>, reverse: bool, fmt: real -> string,
                         a: (string, Hit), x: string)
    returns (p: string, q: string, c: string)
    requires ValCellIntended(nodes1, nodes2, reverse, fmt, a) == Ok(Some(x))
    requires TabFree(nodes1) && TabFree(nodes2) && forall v {:trigger fmt(v)} :: NoTab(fmt(v))
    ensures x == TabLine(p, q, c) && NoTab(p) && NoTab(q) && NoTab(c)
    ensures Resolves(NodeIds(nodes1), p) && Resolves(NodeIds(nodes2), q)
  {
    var w := SplitWs(a.1.title)[0];
    p := if reverse then w else a.0;
    q := if reverse then a.0 else w;
    var score: real := a.1.bits[0];
    assert NoTab(fmt(score));
    c := fmt(score);
    assert Roles(reverse, a.0, w) == (p, q);
    ResolvedTabFree(nodes1, p);
    ResolvedTabFree(nodes2, q);
  }

  /** Read forward, the code as written and the intended line agree: the
      eval, score and sim writers are unaffected. */
  lemma ValForwardAgrees(nodes1: seq<string>, nodes2: seq<string>, fmt: real -> string, records: seq<BlastRecord>)
    ensures BlastVal(nodes1, nodes2, false, fmt, records) == BlastValIntended(nodes1, nodes2, false, fmt, records)
  {
    EntriesSame(Alignments(records), ValParse(nodes1, nodes2, false, fmt), ValIntendedParse(nodes1, nodes2, false, fmt));
  }

  /** Readers that treat every line alike read a file alike. */
  lemma {:induction false} EntriesSame<T, E>(lines: seq<T>, p: T -> Result<Option<E>, Failure>, q: T -> Result<Option<E>, Failure>)
    requires forall k :: 0 <= k < |lines| ==> p(lines[k]) == q(lines[k])
    ensures Entries(lines, p) == Entries(lines, q)
    decreases |lines|
  {
    if lines != [] {
      var n := |lines| - 1;
      assert forall k :: 0 <= k < n ==> lines[..n][k] == lines[k];
      EntriesSame(lines[..n], p, q);
    }
  }
}
