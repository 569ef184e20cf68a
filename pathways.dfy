/** `get_pathways` (interface.py:1147-1198): the Reactome index is read
    line by line up to the first blank line; each line names a UniProt
    accession and a pathway id `R-<org code>-<number>`; the lines of the
    organism's code whose accession the UniProt mapping knows are grouped
    by pathway number, as STRING ids. */
module Pathways {
  import opened Common
  import opened Text
  import opened StringDb

  /** `org_codes` (interface.py:1140-1144): Reactome's code of each
      organism handled. */
  const OrgCodes: map<string, string> := map["4932" := "SCE", "7227" := "DME", "9606" := "HSA"]

  /** One line of the index (interface.py:1178-1194): fewer than two
      fields, or a pathway id with fewer than three `-`-separated parts,
      raise IndexError, which is not caught; an accession the mapping does
      not know raises KeyError, which skips the line; a line of another
      organism's code adds nothing; otherwise the protein joins the
      pathway's list. */
  function PathwayLine(code: string, mapping: map<string, string>, line: string): Result<Option<(string, string)>, Failure> {
    var words := Fields(line);
    if |words| < 2 then Err(IndexError)
    else
      var parts := SplitOn(words[1], '-');
      if |parts| < 3 then Err(IndexError)
      else if words[0] !in mapping then Ok(None)
      else if parts[1] != code then Ok(None)
      else Ok(Some((parts[2], mapping[words[0]])))
  }

  function PathwayParse(code: string, mapping: map<string, string>): string -> Result<Option<(string, string)>, Failure> {
    l => PathwayLine(code, mapping, l)
  }

  /** `pdict` after reading `lines`: pathway number to proteins, in file
      order. */
  function Pathways(code: string, mapping: map<string, string>, lines: seq<string>): Result<map<string, seq<string>>, Failure> {
    match Entries(lines, PathwayParse(code, mapping))
    case Err(e) => Err(e)
    case Ok(es) => Ok(Group(es))
  }

  /** What `get_pathways` returns when nothing is cached: the UniProt
      mapping is read first, then the organism's code looked up (KeyError
      for an organism without one), then the index. */
  function PathwayDict(org: string, uniprotLines: seq<string>, indexLines: seq<string>): Result<map<string, seq<string>>, Failure> {
    match Uniprot(org, UntilBlank(uniprotLines))
    case Err(e) => Err(e)
    case Ok(mapping) =>
      if org !in OrgCodes then Err(KeyError)
      else Pathways(OrgCodes[org], mapping, UntilBlank(indexLines))
  }

  /** The body of `get_pathways` after the cache check. */
  method GetPathways(org: string, uniprotLines: seq<string>, indexLines: seq<string>)
    returns (r: Result<map<string, seq<string>>, Failure>)
    ensures r == PathwayDict(org, uniprotLines, indexLines)
  {
    var mapping := GetUniprotMap(org, uniprotLines);
    if mapping.Err? {
      return Err(mapping.error);
    }
    if org !in OrgCodes {
      return Err(KeyError);
    }
    var code := OrgCodes[org];
    r := ReadIndex(code, mapping.value, indexLines);
  }

  /** The reading loop over the index (interface.py:1170-1194). */
  method ReadIndex(code: string, mapping: map<string, string>, lines: seq<string>)
    returns (r: Result<map<string, seq<string>>, Failure>)
    ensures r == Pathways(code, mapping, UntilBlank(lines))
  {
    ghost var u := UntilBlank(lines);
    ghost var parse := PathwayParse(code, mapping);
    ghost var es: seq<(string, string)> := [];
    var pdict: map<string, seq<string>> := map[];
    var k := 0;
    while true
      invariant k <= |u|
      invariant Entries(u[..k], parse) == Ok(es) && pdict == Group(es)
      decreases |lines| - k
    {
      var line := Strip(ReadLine(lines, k));
      BlankAt(lines, k);
      if line == "" {
        assert u[..k] == u;
        break;
      }
      var item := PathwayEntry(code, mapping, ReadLine(lines, k), line);
      EntriesNext(u, k, parse, es, item);
      k := k + 1;
      match item {
        case Err(e) =>
          return Err(e);
        case Ok(None) =>
        case Ok(Some(entry)) =>
          GroupNext(es, entry, pdict);
          pdict := pdict[entry.0 := ListAt(pdict, entry.0) + [entry.1]];
          es := es + [entry];
      }
    }
    r := Ok(pdict);
  }

  /** The body of the reading loop for one line, `line` being the
      stripped `raw`. */
  method PathwayEntry(code: string, mapping: map<string, string>, raw: string, line: string)
    returns (r: Result<Option<(string, string)>, Failure>)
    requires line == Strip(raw)
    ensures r == PathwayLine(code, mapping, raw)
  {
    var words := SplitOn(line, '\t');
    if |words| < 2 {
      return Err(IndexError);
    }
    var uniprotAc := words[0];
    var parts := SplitOn(words[1], '-');
    if |parts| < 3 {
      return Err(IndexError);
    }
    var pathwayOrg := parts[1];
    var pathwayCode := parts[2];
    if uniprotAc !in mapping {
      return Ok(None);
    }
    var prot := mapping[uniprotAc];
    if pathwayOrg == code {
      return Ok(Some((pathwayCode, prot)));
    }
    r := Ok(None);
  }

  /** A line the reader cannot take apart. */
  predicate PathwayMalformed(line: string) {
    var words := Fields(line);
    |words| < 2 || |SplitOn(words[1], '-')| < 3
  }

  /** The index is rejected, with IndexError, exactly when some line is
      malformed; an unknown accession or another organism's line is never
      an error. */
  lemma PathwaysFails(code: string, mapping: map<string, string>, lines: seq<string>)
    ensures Pathways(code, mapping, lines).Err? <==> exists i :: 0 <= i < |lines| && PathwayMalformed(lines[i])
    ensures Pathways(code, mapping, lines).Err? ==> Pathways(code, mapping, lines).error == IndexError
  {
    var parse := PathwayParse(code, mapping);
    if Entries(lines, parse).Err? {
      EntriesFailure(lines, parse, Entries(lines, parse).error);
      var i :| 0 <= i < |lines| && parse(lines[i]) == Err(Entries(lines, parse).error);
      assert PathwayMalformed(lines[i]);
    } else {
      EntriesOkAll(lines, parse);
      forall i | 0 <= i < |lines| ensures !PathwayMalformed(lines[i]) {
        assert parse(lines[i]).Ok?;
      }
    }
  }

  /** A well-formed line of the organism's code whose accession is mapped,
      for pathway number `k`. */
  predicate PathwayKeeps(code: string, mapping: map<string, string>, line: string, k: string) {
    var words := Fields(line);
    |words| >= 2 && |SplitOn(words[1], '-')| >= 3 && words[0] in mapping &&
    SplitOn(words[1], '-')[1] == code && SplitOn(words[1], '-')[2] == k
  }

  /** The pathways listed are those of the kept lines. */
  lemma PathwaysKeys(code: string, mapping: map<string, string>, lines: seq<string>)
    requires Pathways(code, mapping, lines).Ok?
    ensures forall k :: k in Pathways(code, mapping, lines).value <==>
      exists i :: 0 <= i < |lines| && PathwayKeeps(code, mapping, lines[i], k)
  {
    var parse := PathwayParse(code, mapping);
    EntriesGroupKeys(lines, parse);
    forall k, i | 0 <= i < |lines| ensures YieldsKey(parse, lines[i], k) <==> PathwayKeeps(code, mapping, lines[i], k) {
    }
  }

  /** One more line appends its protein to its pathway's list, in file
      order, when it is kept, and leaves every other list as it was. */
  lemma PathwaysSnoc(code: string, mapping: map<string, string>, lines: seq<string>, line: string, k: string)
    requires Pathways(code, mapping, lines + [line]).Ok?
    ensures Pathways(code, mapping, lines).Ok?
    ensures !PathwayMalformed(line)
    ensures ListAt(Pathways(code, mapping, lines + [line]).value, k) == ListAt(Pathways(code, mapping, lines).value, k) +
      (if PathwayKeeps(code, mapping, line, k) then [mapping[Fields(line)[0]]] else [])
  {
    var parse := PathwayParse(code, mapping);
    EntriesSnoc(lines, line, parse);
    var es := Entries(lines, parse).value;
    match parse(line)
    case Ok(Some(e)) =>
      GroupSnoc(es, e, k);
    case Ok(None) =>
      assert ListAt(Group(es), k) + [] == ListAt(Group(es), k);
  }

  /** Every protein listed is a STRING id the mapping gives. */
  lemma {:induction false} PathwaysValues(code: string, mapping: map<string, string>, lines: seq<string>)
    requires Pathways(code, mapping, lines).Ok?
    ensures forall k, p :: k in Pathways(code, mapping, lines).value && p in Pathways(code, mapping, lines).value[k] ==>
      p in mapping.Values
    decreases |lines|
  {
    if lines != [] {
      var n := |lines| - 1;
      assert lines == lines[..n] + [lines[n]];
      PathwaysValuesStep(code, mapping, lines[..n], lines[n]);
      PathwaysValues(code, mapping, lines[..n]);
    }
  }

  lemma PathwaysValuesStep(code: string, mapping: map<string, string>, lines: seq<string>, line: string)
    requires Pathways(code, mapping, lines + [line]).Ok?
    ensures Pathways(code, mapping, lines).Ok?
    ensures forall k, p :: k in Pathways(code, mapping, lines + [line]).value && p in Pathways(code, mapping, lines + [line]).value[k] ==>
      (k in Pathways(code, mapping, lines).value && p in Pathways(code, mapping, lines).value[k]) || p in mapping.Values
  {
    var d, d' := Pathways(code, mapping, lines), Pathways(code, mapping, lines + [line]);
    PathwaysSnoc(code, mapping, lines, line, "");
    forall k, p | k in d'.value && p in d'.value[k]
      ensures (k in d.value && p in d.value[k]) || p in mapping.Values
    {
      PathwaysSnoc(code, mapping, lines, line, k);
      assert ListAt(d'.value, k) == d'.value[k];
    }
  }

  /** Read for an organism, every protein of every pathway is a STRING id
      of that organism, `org.<id>`. */
  lemma PathwayDictProteins(org: string, uniprotLines: seq<string>, indexLines: seq<string>)
    requires PathwayDict(org, uniprotLines, indexLines).Ok?
    ensures var d := PathwayDict(org, uniprotLines, indexLines).value;
      forall k, p :: k in d && p in d[k] ==> StartsWith(p, org + ".")
  {
    var mapping := Uniprot(org, UntilBlank(uniprotLines)).value;
    assert org in OrgCodes;
    var d := Pathways(OrgCodes[org], mapping, UntilBlank(indexLines));
    assert PathwayDict(org, uniprotLines, indexLines) == d;
    UniprotValues(org, UntilBlank(uniprotLines));
    PathwaysValues(OrgCodes[org], mapping, UntilBlank(indexLines));
    forall k, p | k in d.value && p in d.value[k] ensures StartsWith(p, org + ".") {
      assert p in mapping.Values;
    }
  }
}
