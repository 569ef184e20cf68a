/** The STRING database readers of string_db.py. Each reader walks a text
    file with `readline`; here the file is the sequence of its lines, each
    still carrying its line break, and `readline` past the last line
    returns the empty string. Writing the results out as JSON is left out:
    each reader returns what it would write. An exception the source would
    raise on a malformed line becomes an `Err`. */
module StringDb {
  import opened Common
  import opened Text

  /** The exceptions a reader can raise on malformed input. */
  datatype Failure = IndexError | ValueError | KeyError | OrgMismatch

  // ---------------------------------------------------------------------
  // Reading lines
  // ---------------------------------------------------------------------

  /** What the `k`-th call of `readline` returns. */
  function ReadLine(lines: seq<string>, k: nat): string {
    if k < |lines| then lines[k] else ""
  }

  /** The lines a loop that stops when `readline` returns the empty string
      gets to see: every line up to the first empty one. */
  function UntilEof(lines: seq<string>): (r: seq<string>)
    ensures |r| <= |lines| && r == lines[..|r|]
    ensures forall i :: 0 <= i < |r| ==> r[i] != ""
    ensures |r| < |lines| ==> lines[|r|] == ""
  {
    if lines == [] || lines[0] == "" then []
    else [lines[0]] + UntilEof(lines[1..])
  }

  /** The index of the first line that strips to nothing, `|lines|` when
      there is none. */
  function FirstBlank(lines: seq<string>): (n: nat)
    ensures n <= |lines|
    ensures forall i :: 0 <= i < n ==> !Blank(lines[i])
    ensures n < |lines| ==> Blank(lines[n])
  {
    if lines == [] || Blank(lines[0]) then 0
    else
      var n := FirstBlank(lines[1..]);
      assert forall i :: 0 < i <= n ==> lines[i] == lines[1..][i - 1];
      1 + n
  }

  /** The lines a loop that strips each line and stops at an empty result
      gets to see: every line up to the first blank one. */
  function UntilBlank(lines: seq<string>): (r: seq<string>)
    ensures |r| <= |lines| && r == lines[..|r|]
    ensures forall i :: 0 <= i < |r| ==> !Blank(r[i])
    ensures |r| < |lines| ==> Blank(lines[|r|])
  {
    lines[..FirstBlank(lines)]
  }

  /** A loop that has read `k` lines without meeting the end has read a
      prefix of `UntilEof`; meeting it means all of `UntilEof` was read. */
  lemma EofAt(lines: seq<string>, k: nat)
    requires k <= |UntilEof(lines)|
    ensures ReadLine(lines, k) == "" <==> k == |UntilEof(lines)|
    ensures k < |UntilEof(lines)| ==> ReadLine(lines, k) == UntilEof(lines)[k]
  {
  }

  lemma BlankAt(lines: seq<string>, k: nat)
    requires k <= |UntilBlank(lines)|
    ensures Strip(ReadLine(lines, k)) == "" <==> k == |UntilBlank(lines)|
    ensures k < |UntilBlank(lines)| ==> ReadLine(lines, k) == UntilBlank(lines)[k]
  {
    var u := UntilBlank(lines);
    StripBlank(ReadLine(lines, k));
    if k < |u| {
      assert ReadLine(lines, k) == lines[k] == u[k];
    } else if k < |lines| {
      assert ReadLine(lines, k) == lines[k];
    }
  }

  // ---------------------------------------------------------------------
  // Entries collected line by line
  // ---------------------------------------------------------------------

  /** Adds what one line yields to what the earlier lines yielded: the
      first failure stops the reader, a skipped line adds nothing. */
  function Push<E>(acc: Result<seq<E>, Failure>, item: Result<Option<E>, Failure>): Result<seq<E>, Failure> {
    match acc
    case Err(e) => Err(e)
    case Ok(es) =>
      match item
      case Err(e) => Err(e)
      case Ok(None) => Ok(es)
      case Ok(Some(x)) => Ok(es + [x])
  }

  /** The entries that `parse` finds in the lines, in file order, or the
      failure of the first line that it rejects. */
  function Entries<T, E>(lines: seq<T>, parse: T -> Result<Option<E>, Failure>): Result<seq<E>, Failure> {
    if lines == [] then Ok([])
    else Push(Entries(lines[..|lines| - 1], parse), parse(lines[|lines| - 1]))
  }

  lemma EntriesStep<T, E>(lines: seq<T>, k: nat, parse: T -> Result<Option<E>, Failure>)
    requires k < |lines|
    ensures Entries(lines[..k + 1], parse) == Push(Entries(lines[..k], parse), parse(lines[k]))
  {
    assert lines[..k + 1][..k] == lines[..k];
  }

  /** One more line read by a loop that keeps `Entries(lines[..k]) ==
      Ok(es)` and has just parsed line `k` as `item`. */
  lemma EntriesNext<T, E>(lines: seq<T>, k: nat, parse: T -> Result<Option<E>, Failure>, es: seq<E>, item: Result<Option<E>, Failure>)
    requires k < |lines| && Entries(lines[..k], parse) == Ok(es) && parse(lines[k]) == item
    ensures item.Err? ==> Entries(lines, parse) == Err(item.error)
    ensures item == Ok(None) ==> Entries(lines[..k + 1], parse) == Ok(es)
    ensures item.Ok? && item.value.Some? ==> Entries(lines[..k + 1], parse) == Ok(es + [item.value.value])
  {
    EntriesStep(lines, k, parse);
    if item.Err? {
      EntriesPrefixFails(lines, k + 1, parse);
    }
  }

  lemma EntriesAll<T, E>(lines: seq<T>, parse: T -> Result<Option<E>, Failure>)
    ensures Entries(lines[..|lines|], parse) == Entries(lines, parse)
  {
    assert lines[..|lines|] == lines;
  }

  /** The reader fails with `e` exactly when some line fails with `e` and
      every line before it is accepted. */
  lemma {:induction false} EntriesFailure<T, E>(lines: seq<T>, parse: T -> Result<Option<E>, Failure>, e: Failure)
    ensures Entries(lines, parse) == Err(e) <==>
      exists i :: 0 <= i < |lines| && parse(lines[i]) == Err(e) && forall j :: 0 <= j < i ==> parse(lines[j]).Ok?
    decreases |lines|
  {
    if lines != [] {
      var n := |lines| - 1;
      var init := lines[..n];
      EntriesFailure(init, parse, e);
      assert forall i :: 0 <= i < n ==> init[i] == lines[i];
      if Entries(lines, parse) == Err(e) {
        if Entries(init, parse) == Err(e) {
          var i :| 0 <= i < n && parse(init[i]) == Err(e) && forall j :: 0 <= j < i ==> parse(init[j]).Ok?;
          assert parse(lines[i]) == Err(e);
        } else {
          EntriesOkAll(init, parse);
          assert parse(lines[n]) == Err(e);
        }
      }
      if i :| 0 <= i < |lines| && parse(lines[i]) == Err(e) && forall j :: 0 <= j < i ==> parse(lines[j]).Ok? {
        if i < n {
          assert parse(init[i]) == Err(e);
        } else {
          EntriesAccepted(init, parse);
        }
      }
    }
  }

  /** Accepted lines make an accepted file. */
  lemma {:induction false} EntriesAccepted<T, E>(lines: seq<T>, parse: T -> Result<Option<E>, Failure>)
    requires forall j :: 0 <= j < |lines| ==> parse(lines[j]).Ok?
    ensures Entries(lines, parse).Ok?
    decreases |lines|
  {
    if lines != [] {
      var n := |lines| - 1;
      assert forall j :: 0 <= j < n ==> lines[..n][j] == lines[j];
      EntriesAccepted(lines[..n], parse);
    }
  }

  /** An accepted file has only accepted lines. */
  lemma {:induction false} EntriesOkAll<T, E>(lines: seq<T>, parse: T -> Result<Option<E>, Failure>)
    requires Entries(lines, parse).Ok?
    ensures forall j :: 0 <= j < |lines| ==> parse(lines[j]).Ok?
    decreases |lines|
  {
    if lines != [] {
      var n := |lines| - 1;
      EntriesOkAll(lines[..n], parse);
      forall j | 0 <= j < n ensures parse(lines[j]).Ok? {
        assert lines[..n][j] == lines[j];
      }
    }
  }

  /** An entry is collected exactly when some line yields it. */
  lemma {:induction false} EntriesMembers<T, E>(lines: seq<T>, parse: T -> Result<Option<E>, Failure>, es: seq<E>)
    requires Entries(lines, parse) == Ok(es)
    ensures forall x :: x in es <==> exists i :: 0 <= i < |lines| && parse(lines[i]) == Ok(Some(x))
    decreases |lines|
  {
    if lines != [] {
      var n := |lines| - 1;
      var init := lines[..n];
      var prev := Entries(init, parse).value;
      EntriesMembers(init, parse, prev);
      assert forall i :: 0 <= i < n ==> init[i] == lines[i];
      forall x ensures x in es <==> exists i :: 0 <= i < |lines| && parse(lines[i]) == Ok(Some(x)) {
        if x in es && x !in prev {
          assert parse(lines[n]) == Ok(Some(x));
        }
        if i :| 0 <= i < |lines| && parse(lines[i]) == Ok(Some(x)) {
          if i < n {
            assert parse(init[i]) == Ok(Some(x));
          }
        }
      }
    }
  }

  /** What every yielded entry satisfies, every collected entry does. */
  lemma EntriesHold<T, E>(lines: seq<T>, parse: T -> Result<Option<E>, Failure>, ok: E -> bool, es: seq<E>)
    requires Entries(lines, parse) == Ok(es)
    requires forall t :: 0 <= t < |lines| && parse(lines[t]).Ok? && parse(lines[t]).value.Some? ==> ok(parse(lines[t]).value.value)
    ensures forall i :: 0 <= i < |es| ==> ok(es[i])
  {
    EntriesMembers(lines, parse, es);
    forall i | 0 <= i < |es| ensures ok(es[i]) {
      assert es[i] in es;
      var t :| 0 <= t < |lines| && parse(lines[t]) == Ok(Some(es[i]));
    }
  }

  /** Reading two pieces of a file one after the other: entries come in
      file order, and a failure in the first piece wins. */
  lemma {:induction false} EntriesAppend<T, E>(a: seq<T>, b: seq<T>, parse: T -> Result<Option<E>, Failure>)
    ensures Entries(a, parse).Err? ==> Entries(a + b, parse) == Entries(a, parse)
    ensures Entries(a, parse).Ok? && Entries(b, parse).Err? ==> Entries(a + b, parse) == Entries(b, parse)
    ensures Entries(a, parse).Ok? && Entries(b, parse).Ok? ==>
      Entries(a + b, parse) == Ok(Entries(a, parse).value + Entries(b, parse).value)
    decreases |b|
  {
    if b == [] {
      assert a + b == a;
      if Entries(a, parse).Ok? {
        assert Entries(a, parse).value + [] == Entries(a, parse).value;
      }
    } else {
      var n := |b| - 1;
      EntriesAppend(a, b[..n], parse);
      assert (a + b)[..|a + b| - 1] == a + b[..n];
      assert (a + b)[|a + b| - 1] == b[n];
      if Entries(a, parse).Ok? && Entries(b[..n], parse).Ok? {
        var xs := Entries(a, parse).value;
        var ys := Entries(b[..n], parse).value;
        match parse(b[n])
        case Ok(Some(x)) =>
          assert xs + ys + [x] == xs + (ys + [x]);
        case _ =>
      }
    }
  }

  // ---------------------------------------------------------------------
  // Dictionaries filled from entries
  // ---------------------------------------------------------------------

  /** `d.get(k, [])`. */
  function ListAt<V>(d: map<string, seq<V>>, k: string): seq<V> {
    if k in d then d[k] else []
  }

  /** `d[k] = d.get(k, []) + [v]` for each entry in turn. */
  function Group<V>(es: seq<(string, V)>): map<string, seq<V>> {
    if es == [] then map[]
    else
      var d := Group(es[..|es| - 1]);
      var e := es[|es| - 1];
      d[e.0 := ListAt(d, e.0) + [e.1]]
  }

  /** The keys of the grouped dictionary are the keys of the entries. */
  lemma {:induction false} GroupKeys<V>(es: seq<(string, V)>)
    ensures forall k :: k in Group(es) <==> exists i :: 0 <= i < |es| && es[i].0 == k
    decreases |es|
  {
    if es != [] {
      var n := |es| - 1;
      GroupKeys(es[..n]);
      assert forall i :: 0 <= i < n ==> es[..n][i] == es[i];
    }
  }

  lemma SplitLast<T>(a: seq<T>, b: seq<T>)
    requires b != []
    ensures b == b[..|b| - 1] + [b[|b| - 1]]
    ensures a + b == (a + b[..|b| - 1]) + [b[|b| - 1]]
  {
    assert b == b[..|b| - 1] + [b[|b| - 1]];
  }

  lemma SplitFirst<T>(a: seq<T>, b: seq<T>)
    requires a != []
    ensures (a + b)[0] == a[0] && (a + b)[1..] == a[1..] + b
  {
  }

  lemma AppendAssoc<T>(a: seq<T>, b: seq<T>, c: seq<T>)
    ensures (a + b) + c == a + (b + c)
  {
  }

  lemma GroupNext<V>(es: seq<(string, V)>, e: (string, V), d: map<string, seq<V>>)
    requires d == Group(es)
    ensures Group(es + [e]) == d[e.0 := ListAt(d, e.0) + [e.1]]
  {
    assert (es + [e])[..|es|] == es;
  }

  lemma GroupSnoc<V>(es: seq<(string, V)>, e: (string, V), k: string)
    ensures ListAt(Group(es + [e]), k) == ListAt(Group(es), k) + (if k == e.0 then [e.1] else [])
  {
    assert (es + [e])[..|es|] == es;
    if k != e.0 {
      assert ListAt(Group(es), k) + [] == ListAt(Group(es), k);
    }
  }

  /** Grouping two runs of entries concatenates each key's list: the values
      of a key keep their order in the file. */
  lemma {:induction false} GroupAppend<V>(a: seq<(string, V)>, b: seq<(string, V)>, k: string)
    ensures ListAt(Group(a + b), k) == ListAt(Group(a), k) + ListAt(Group(b), k)
    decreases |b|
  {
    if b == [] {
      assert a + b == a;
      assert ListAt(Group(a), k) + [] == ListAt(Group(a), k);
    } else {
      var n := |b| - 1;
      var e := b[n];
      var tail: seq<V> := if k == e.0 then [e.1] else [];
      GroupAppend(a, b[..n], k);
      SplitLast(a, b);
      GroupSnoc(a + b[..n], e, k);
      GroupSnoc(b[..n], e, k);
      assert ListAt(Group(a), k) + (ListAt(Group(b[..n]), k) + tail) == ListAt(Group(a), k) + ListAt(Group(b[..n]), k) + tail;
    }
  }

  /** `d[k] = v` for each entry in turn. */
  function LastWins<V>(es: seq<(string, V)>): map<string, V> {
    if es == [] then map[]
    else LastWins(es[..|es| - 1])[es[|es| - 1].0 := es[|es| - 1].1]
  }

  /** A key is mapped exactly when some entry has it, and it is mapped to
      the value of the last such entry. */
  lemma {:induction false} LastWinsValues<V>(es: seq<(string, V)>)
    ensures forall k :: k in LastWins(es) <==> exists i :: 0 <= i < |es| && es[i].0 == k
    ensures forall i :: 0 <= i < |es| && (forall j :: i < j < |es| ==> es[j].0 != es[i].0) ==>
      es[i].0 in LastWins(es) && LastWins(es)[es[i].0] == es[i].1
    decreases |es|
  {
    if es != [] {
      var n := |es| - 1;
      LastWinsValues(es[..n]);
      assert forall i :: 0 <= i < n ==> es[..n][i] == es[i];
    }
  }

  // ---------------------------------------------------------------------
  // parse_organism_ppi
  // ---------------------------------------------------------------------

  /** One line of a STRING links file (string_db.py:20-34). A line that
      does not start with the organism id is skipped. Otherwise its fields
      are kept when the third one, read as an integer, exceeds the
      threshold. Fewer than three fields raise IndexError and a third field
      that is not an integer raises ValueError. */
  function PpiLine(org: string, thr: int, line: string): Result<Option<seq<string>>, Failure> {
    if !StartsWith(line, org) then Ok(None)
    else
      var words := SplitWs(Strip(line));
      if |words| < 3 then Err(IndexError)
      else
        match ParseInt(words[2])
        case None => Err(ValueError)
        case Some(v) => Ok(if v > thr then Some(words) else None)
  }

  /** The first two fields of each kept line. */
  function EndPoints(edges: seq<seq<string>>): set<string> {
    if edges == [] then {}
    else
      var e := edges[|edges| - 1];
      EndPoints(edges[..|edges| - 1]) + (if |e| >= 2 then {e[0], e[1]} else {})
  }

  /** The `nodes` set and `edges` list the reader writes out. */
  function Ppi(org: string, thr: int, lines: seq<string>): Result<(set<string>, seq<seq<string>>), Failure> {
    match Entries(lines, l => PpiLine(org, thr, l))
    case Err(e) => Err(e)
    case Ok(edges) => Ok((EndPoints(edges), edges))
  }

  /** The reading loop of `parse_organism_ppi`. */
  method ParseOrganismPpi(org: string, thr: int, lines: seq<string>) returns (r: Result<(set<string>, seq<seq<string>>), Failure>)
    ensures r == Ppi(org, thr, UntilEof(lines))
  {
    ghost var u := UntilEof(lines);
    ghost var parse := l => PpiLine(org, thr, l);
    var nodes: set<string> := {};
    var edges: seq<seq<string>> := [];
    var k := 0;
    while true
      invariant k <= |u|
      invariant Entries(u[..k], parse) == Ok(edges) && nodes == EndPoints(edges)
      decreases |lines| - k
    {
      var line := ReadLine(lines, k);
      EofAt(lines, k);
      if line == "" {
        EntriesAll(u, parse);
        break;
      }
      EntriesStep(u, k, parse);
      k := k + 1;
      if !StartsWith(line, org) {
        continue;
      }
      var words := SplitWs(Strip(line));
      if |words| < 3 {
        EntriesPrefixFails(u, k, parse);
        return Err(IndexError);
      }
      var score := ParseInt(words[2]);
      if score.None? {
        EntriesPrefixFails(u, k, parse);
        return Err(ValueError);
      }
      if score.value > thr {
        assert edges + [words] == (edges + [words])[..|edges|] + [words];
        nodes := nodes + {words[0], words[1]};
        edges := edges + [words];
      }
    }
    r := Ok((nodes, edges));
  }

  /** A failure among the first `k` lines is the failure of the file. */
  lemma EntriesPrefixFails<T, E>(lines: seq<T>, k: nat, parse: T -> Result<Option<E>, Failure>)
    requires k <= |lines| && Entries(lines[..k], parse).Err?
    ensures Entries(lines, parse) == Entries(lines[..k], parse)
  {
    EntriesAppend(lines[..k], lines[k..], parse);
    assert lines[..k] + lines[k..] == lines;
  }

  /** A line is kept when it starts with the organism id, has at least
      three fields and its third field is an integer above the threshold. */
  predicate PpiKeeps(org: string, thr: int, line: string, e: seq<string>) {
    StartsWith(line, org) && e == SplitWs(Strip(line)) && |e| >= 3 && ParseInt(e[2]).Some? && ParseInt(e[2]).value > thr
  }

  /** A line starting with the organism id that lacks a third field, or
      whose third field is not an integer. */
  predicate PpiMalformed(org: string, line: string) {
    var e := SplitWs(Strip(line));
    StartsWith(line, org) && (|e| < 3 || ParseInt(e[2]).None?)
  }

  /** What a single line yields, in the terms above. */
  lemma PpiLineMeaning(org: string, thr: int, line: string, e: seq<string>)
    ensures PpiLine(org, thr, line) == Ok(Some(e)) <==> PpiKeeps(org, thr, line, e)
    ensures PpiLine(org, thr, line).Err? <==> PpiMalformed(org, line)
  {
  }

  /** The kept lines are exactly the lines that start with the organism id
      and score above the threshold; each has at least three fields. */
  lemma PpiEdges(org: string, thr: int, lines: seq<string>)
    requires Ppi(org, thr, lines).Ok?
    ensures forall e :: e in Ppi(org, thr, lines).value.1 <==> exists i :: 0 <= i < |lines| && PpiKeeps(org, thr, lines[i], e)
    ensures forall e :: e in Ppi(org, thr, lines).value.1 ==> |e| >= 3
  {
    var parse := l => PpiLine(org, thr, l);
    var edges := Entries(lines, parse).value;
    EntriesMembers(lines, parse, edges);
    forall e ensures e in edges <==> exists i :: 0 <= i < |lines| && PpiKeeps(org, thr, lines[i], e) {
      if e in edges {
        var i :| 0 <= i < |lines| && parse(lines[i]) == Ok(Some(e));
        PpiLineMeaning(org, thr, lines[i], e);
      }
      if i :| 0 <= i < |lines| && PpiKeeps(org, thr, lines[i], e) {
        PpiLineMeaning(org, thr, lines[i], e);
      }
    }
  }

  /** `nodes` holds exactly the first two fields of the kept lines. */
  lemma PpiNodes(org: string, thr: int, lines: seq<string>)
    requires Ppi(org, thr, lines).Ok?
    ensures forall x :: x in Ppi(org, thr, lines).value.0 <==>
      exists e :: e in Ppi(org, thr, lines).value.1 && |e| >= 2 && (x == e[0] || x == e[1])
  {
    var parse := l => PpiLine(org, thr, l);
    EndPointsMembers(Entries(lines, parse).value);
  }

  /** The file is rejected exactly when some line starts with the organism
      id but is malformed. */
  lemma PpiFails(org: string, thr: int, lines: seq<string>)
    ensures Ppi(org, thr, lines).Err? <==> exists i :: 0 <= i < |lines| && PpiMalformed(org, lines[i])
  {
    var parse := l => PpiLine(org, thr, l);
    if Entries(lines, parse).Err? {
      EntriesFailure(lines, parse, Entries(lines, parse).error);
      var i :| 0 <= i < |lines| && parse(lines[i]) == Err(Entries(lines, parse).error);
      PpiLineMeaning(org, thr, lines[i], []);
    } else {
      EntriesOkAll(lines, parse);
      forall i | 0 <= i < |lines| ensures !PpiMalformed(org, lines[i]) {
        PpiLineMeaning(org, thr, lines[i], []);
      }
    }
  }

  lemma {:induction false} EndPointsMembers(edges: seq<seq<string>>)
    ensures forall x :: x in EndPoints(edges) <==> exists e :: e in edges && |e| >= 2 && (x == e[0] || x == e[1])
    decreases |edges|
  {
    if edges != [] {
      var n := |edges| - 1;
      EndPointsMembers(edges[..n]);
      assert edges == edges[..n] + [edges[n]];
    }
  }

  // ---------------------------------------------------------------------
  // parse_organism_seq
  // ---------------------------------------------------------------------

  /** One record of the sequences JSON: a protein code and its sequence. */
  datatype Protein = Protein(code: string, sequence: string)

  /** The reader's state: the records written so far and the one being
      built (`prt` and `seq`). */
  datatype FastaState = FastaState(done: seq<Protein>, current: Protein)

  const FastaStart := FastaState([], Protein("", ""))

  /** One stripped line (string_db.py:64-69): a header closes the current
      record and opens one named by the rest of the line; any other line
      extends the current sequence. The reader stops before an empty line,
      and appending one would change nothing anyway. */
  function FastaStep(st: FastaState, line: string): FastaState {
    if line != "" && line[0] == '>' then FastaState(st.done + [st.current], Protein(line[1..], ""))
    else st.(current := st.current.(sequence := st.current.sequence + line))
  }

  function FastaRun(st: FastaState, lines: seq<string>): FastaState {
    if lines == [] then st
    else FastaStep(FastaRun(st, lines[..|lines| - 1]), Strip(lines[|lines| - 1]))
  }

  /** The records `parse_organism_seq` writes: the blank line or the end
      of the file closes the last record. */
  function Sequences(lines: seq<string>): seq<Protein> {
    var st := FastaRun(FastaStart, UntilBlank(lines));
    st.done + [st.current]
  }

  /** The reading loop of `parse_organism_seq` (string_db.py:53-69). */
  method ParseOrganismSeq(lines: seq<string>) returns (proteins: seq<Protein>)
    ensures proteins == Sequences(lines)
  {
    ghost var u := UntilBlank(lines);
    proteins := [];
    var prt := "";
    var sq := "";
    var k := 0;
    while true
      invariant k <= |u|
      invariant FastaRun(FastaStart, u[..k]) == FastaState(proteins, Protein(prt, sq))
      decreases |lines| - k
    {
      var line := Strip(ReadLine(lines, k));
      BlankAt(lines, k);
      if line == "" {
        assert u[..k] == u;
        proteins := proteins + [Protein(prt, sq)];
        break;
      }
      FastaRunStep(u, k);
      k := k + 1;
      if line[0] == '>' {
        proteins := proteins + [Protein(prt, sq)];
        prt := line[1..];
        sq := "";
      } else {
        sq := sq + line;
      }
    }
  }

  lemma FastaRunStep(lines: seq<string>, k: nat)
    requires k < |lines|
    ensures FastaRun(FastaStart, lines[..k + 1]) == FastaStep(FastaRun(FastaStart, lines[..k]), Strip(lines[k]))
  {
    assert lines[..k + 1][..k] == lines[..k];
  }

  /** The number of header lines. */
  function Headers(lines: seq<string>): nat {
    if lines == [] then 0
    else
      var line := Strip(lines[|lines| - 1]);
      Headers(lines[..|lines| - 1]) + (if line != "" && line[0] == '>' then 1 else 0)
  }

  lemma {:induction false} FastaRunShape(lines: seq<string>)
    ensures |FastaRun(FastaStart, lines).done| == Headers(lines)
    ensures FastaRun(FastaStart, lines).done == [] ==> FastaRun(FastaStart, lines).current.code == ""
    ensures FastaRun(FastaStart, lines).done != [] ==> FastaRun(FastaStart, lines).done[0].code == ""
    decreases |lines|
  {
    if lines != [] {
      FastaRunShape(lines[..|lines| - 1]);
    }
  }

  /** One record per header line plus the one opened at the start, and
      that first record always has an empty code. */
  lemma SequencesShape(lines: seq<string>)
    ensures |Sequences(lines)| == Headers(UntilBlank(lines)) + 1
    ensures Sequences(lines)[0].code == ""
  {
    FastaRunShape(UntilBlank(lines));
  }

  /** Whatever follows the first blank line is never read. */
  lemma {:induction false} SequencesStop(a: seq<string>, blank: string, b: seq<string>)
    requires Strip(blank) == ""
    ensures Sequences(a + [blank] + b) == Sequences(a)
  {
    UntilBlankStop(a, blank, b);
  }

  lemma {:induction false} UntilBlankStop(a: seq<string>, blank: string, b: seq<string>)
    requires Strip(blank) == ""
    ensures UntilBlank(a + [blank] + b) == UntilBlank(a)
    decreases |a|
  {
    var s := a + [blank] + b;
    var n := FirstBlank(a);
    StripBlank(blank);
    assert s[|a|] == blank;
    assert FirstBlank(s) == n by {
      if n < |a| {
        assert s[n] == a[n];
      }
      forall i | 0 <= i < n ensures !Blank(s[i]) {
        assert s[i] == a[i];
      }
    }
    assert s[..n] == a[..n];
  }

  // A FASTA writer, to read back.

  /** Non-empty, and neither starts nor ends with whitespace. */
  predicate Tidy(s: string) {
    s != "" && !IsSpace(s[0]) && !IsSpace(s[|s| - 1])
  }

  /** A record the writer can lay out so that it reads back unchanged: the
      code does not end in whitespace, and each chunk of the sequence is
      tidy and does not look like a header. */
  predicate Writable(code: string, chunks: seq<string>) {
    (code == "" || !IsSpace(code[|code| - 1]))
    && forall i :: 0 <= i < |chunks| ==> Tidy(chunks[i]) && chunks[i][0] != '>'
  }

  function Concat(chunks: seq<string>): string {
    if chunks == [] then "" else Concat(chunks[..|chunks| - 1]) + chunks[|chunks| - 1]
  }

  /** A header line, then the sequence in chunks, one per line. */
  function RecordLines(code: string, chunks: seq<string>): seq<string> {
    if chunks == [] then [">" + code + "\n"]
    else RecordLines(code, chunks[..|chunks| - 1]) + [chunks[|chunks| - 1] + "\n"]
  }

  function Fasta(recs: seq<(string, seq<string>)>): seq<string> {
    if recs == [] then []
    else Fasta(recs[..|recs| - 1]) + RecordLines(recs[|recs| - 1].0, recs[|recs| - 1].1)
  }

  function ToProteins(recs: seq<(string, seq<string>)>): seq<Protein> {
    seq(|recs|, i requires 0 <= i < |recs| => Protein(recs[i].0, Concat(recs[i].1)))
  }

  lemma StripTidy(s: string)
    requires Tidy(s)
    ensures Strip(s + "\n") == s
  {
    var t := s + "\n";
    assert t[0] == s[0];
    assert TrimLeft(t) == t;
    assert t[..|t| - 1] == s;
    assert TrimRight(t) == TrimRight(s);
  }

  lemma HeaderTidy(code: string)
    requires code == "" || !IsSpace(code[|code| - 1])
    ensures Strip(">" + code + "\n") == ">" + code
  {
    var h := ">" + code;
    assert h[0] == '>';
    if code != "" {
      assert h[|h| - 1] == code[|code| - 1];
    }
    StripTidy(h);
    assert ">" + code + "\n" == h + "\n";
  }

  /** No line of `lines` is blank. */
  predicate NoBlank(lines: seq<string>) {
    lines == [] || (Strip(lines[0]) != "" && NoBlank(lines[1..]))
  }

  lemma {:induction false} UntilBlankAll(lines: seq<string>)
    requires NoBlank(lines)
    ensures UntilBlank(lines) == lines
    decreases |lines|
  {
    if lines != [] {
      UntilBlankAll(lines[1..]);
      StripBlank(lines[0]);
      assert FirstBlank(lines) == 1 + FirstBlank(lines[1..]);
    }
  }

  lemma {:induction false} NoBlankAppend(a: seq<string>, b: seq<string>)
    requires NoBlank(a) && NoBlank(b)
    ensures NoBlank(a + b)
    decreases |a|
  {
    if a == [] {
      assert a + b == b;
    } else {
      SplitFirst(a, b);
      NoBlankAppend(a[1..], b);
    }
  }

  lemma NoBlankOne(x: string)
    requires Strip(x) != ""
    ensures NoBlank([x])
  {
    assert [x][1..] == [];
  }

  lemma FastaRunSnoc(st: FastaState, lines: seq<string>, x: string)
    ensures FastaRun(st, lines + [x]) == FastaStep(FastaRun(st, lines), Strip(x))
  {
    assert (lines + [x])[..|lines|] == lines;
  }

  /** Reading one written record closes the current one and leaves the
      new one open with the chunks joined as its sequence; no line of the
      record is blank. */
  lemma {:induction false} FastaRunRecord(st: FastaState, code: string, chunks: seq<string>)
    requires Writable(code, chunks)
    ensures NoBlank(RecordLines(code, chunks))
    ensures FastaRun(st, RecordLines(code, chunks)) == FastaState(st.done + [st.current], Protein(code, Concat(chunks)))
    decreases |chunks|
  {
    if chunks == [] {
      HeaderTidy(code);
      NoBlankOne(">" + code + "\n");
      FastaRunSnoc(st, [], ">" + code + "\n");
      assert [] + [">" + code + "\n"] == RecordLines(code, chunks);
      assert (">" + code)[1..] == code;
    } else {
      var n := |chunks| - 1;
      assert Writable(code, chunks[..n]) by {
        assert forall i :: 0 <= i < n ==> chunks[..n][i] == chunks[i];
      }
      FastaRunRecord(st, code, chunks[..n]);
      StripTidy(chunks[n]);
      NoBlankOne(chunks[n] + "\n");
      NoBlankAppend(RecordLines(code, chunks[..n]), [chunks[n] + "\n"]);
      FastaRunSnoc(st, RecordLines(code, chunks[..n]), chunks[n] + "\n");
    }
  }

  lemma {:induction false} FastaRunAppend(st: FastaState, a: seq<string>, b: seq<string>)
    ensures FastaRun(st, a + b) == FastaRun(FastaRun(st, a), b)
    decreases |b|
  {
    if b == [] {
      assert a + b == a;
    } else {
      var n := |b| - 1;
      SplitLast(a, b);
      FastaRunAppend(st, a, b[..n]);
      FastaRunSnoc(st, a + b[..n], b[n]);
      FastaRunSnoc(FastaRun(st, a), b[..n], b[n]);
    }
  }

  /** Every record the writer lays out, in order, after the empty record
      the reader always opens first. */
  lemma {:induction false} FastaWritten(recs: seq<(string, seq<string>)>)
    requires forall i :: 0 <= i < |recs| ==> Writable(recs[i].0, recs[i].1)
    ensures NoBlank(Fasta(recs))
    ensures var st := FastaRun(FastaStart, Fasta(recs));
      st.done + [st.current] == [Protein("", "")] + ToProteins(recs)
    decreases |recs|
  {
    if recs == [] {
      assert ToProteins(recs) == [];
    } else {
      var n := |recs| - 1;
      assert forall i :: 0 <= i < n ==> recs[..n][i] == recs[i];
      FastaWritten(recs[..n]);
      var st := FastaRun(FastaStart, Fasta(recs[..n]));
      FastaRunRecord(st, recs[n].0, recs[n].1);
      FastaRunAppend(FastaStart, Fasta(recs[..n]), RecordLines(recs[n].0, recs[n].1));
      NoBlankAppend(Fasta(recs[..n]), RecordLines(recs[n].0, recs[n].1));
      ToProteinsSnoc(recs);
      var p := Protein(recs[n].0, Concat(recs[n].1));
      AppendAssoc([Protein("", "")], ToProteins(recs[..n]), [p]);
    }
  }

  lemma ToProteinsSnoc(recs: seq<(string, seq<string>)>)
    requires recs != []
    ensures ToProteins(recs) == ToProteins(recs[..|recs| - 1]) + [Protein(recs[|recs| - 1].0, Concat(recs[|recs| - 1].1))]
  {
  }

  /** Round trip: reading back what the writer lays out gives every record,
      code and joined sequence, after the empty record opened first. */
  lemma FastaRoundTrip(recs: seq<(string, seq<string>)>)
    requires forall i :: 0 <= i < |recs| ==> Writable(recs[i].0, recs[i].1)
    ensures Sequences(Fasta(recs)) == [Protein("", "")] + ToProteins(recs)
  {
    FastaWritten(recs);
    UntilBlankAll(Fasta(recs));
  }

  // ---------------------------------------------------------------------
  // Grouped and last-wins dictionaries read from a file
  // ---------------------------------------------------------------------

  lemma EntriesSnoc<T, E>(a: seq<T>, line: T, parse: T -> Result<Option<E>, Failure>)
    ensures Entries(a + [line], parse) == Push(Entries(a, parse), parse(line))
  {
    assert (a + [line])[..|a|] == a;
  }

  /** Reading two pieces of a file one after the other and grouping:
      each key's values from the first piece come before those from the
      second. */
  lemma EntriesGroupAppend<T, V>(a: seq<T>, b: seq<T>, parse: T -> Result<Option<(string, V)>, Failure>, k: string)
    requires Entries(a, parse).Ok? && Entries(b, parse).Ok?
    ensures Entries(a + b, parse).Ok?
    ensures ListAt(Group(Entries(a + b, parse).value), k) ==
      ListAt(Group(Entries(a, parse).value), k) + ListAt(Group(Entries(b, parse).value), k)
  {
    EntriesAppend(a, b, parse);
    GroupAppend(Entries(a, parse).value, Entries(b, parse).value, k);
  }

  /** `line` yields an entry under key `k`. */
  predicate YieldsKey<T, V>(parse: T -> Result<Option<(string, V)>, Failure>, line: T, k: string) {
    parse(line).Ok? && parse(line).value.Some? && parse(line).value.value.0 == k
  }

  /** Some line yields an entry under `k` exactly when some entry has it. */
  lemma {:induction false} EntriesKeys<T, V>(lines: seq<T>, parse: T -> Result<Option<(string, V)>, Failure>, k: string)
    requires Entries(lines, parse).Ok?
    ensures (exists j :: 0 <= j < |Entries(lines, parse).value| && Entries(lines, parse).value[j].0 == k) <==>
      exists i :: 0 <= i < |lines| && YieldsKey(parse, lines[i], k)
    decreases |lines|
  {
    if lines != [] {
      var n := |lines| - 1;
      var init := lines[..n];
      EntriesKeys(init, parse, k);
      var es := Entries(lines, parse).value;
      var prev := Entries(init, parse).value;
      assert forall i :: 0 <= i < n ==> init[i] == lines[i];
      assert forall j :: 0 <= j < |prev| ==> es[j] == prev[j];
      if j :| 0 <= j < |es| && es[j].0 == k {
        if j == |prev| {
          assert YieldsKey(parse, lines[n], k);
        }
      }
      if i :| 0 <= i < |lines| && YieldsKey(parse, lines[i], k) {
        if i == n {
          assert es[|prev|].0 == k;
        } else {
          assert YieldsKey(parse, init[i], k);
        }
      }
    }
  }

  /** The keys of the grouped entries are the keys some line yields. */
  lemma EntriesGroupKeys<T, V>(lines: seq<T>, parse: T -> Result<Option<(string, V)>, Failure>)
    requires Entries(lines, parse).Ok?
    ensures forall k :: k in Group(Entries(lines, parse).value) <==> exists i :: 0 <= i < |lines| && YieldsKey(parse, lines[i], k)
  {
    GroupKeys(Entries(lines, parse).value);
    forall k ensures k in Group(Entries(lines, parse).value) <==> exists i :: 0 <= i < |lines| && YieldsKey(parse, lines[i], k) {
      EntriesKeys(lines, parse, k);
    }
  }

  /** The keys of the last-wins dictionary are the keys some line yields. */
  lemma EntriesLastWinsKeys<T, V>(lines: seq<T>, parse: T -> Result<Option<(string, V)>, Failure>)
    requires Entries(lines, parse).Ok?
    ensures forall k :: k in LastWins(Entries(lines, parse).value) <==> exists i :: 0 <= i < |lines| && YieldsKey(parse, lines[i], k)
  {
    LastWinsValues(Entries(lines, parse).value);
    forall k ensures k in LastWins(Entries(lines, parse).value) <==> exists i :: 0 <= i < |lines| && YieldsKey(parse, lines[i], k) {
      EntriesKeys(lines, parse, k);
    }
  }

  /** The tab-separated fields of a stripped line. */
  function Fields(line: string): (r: seq<string>)
    ensures |r| >= 1
  {
    SplitOn(Strip(line), '\t')
  }

  // ---------------------------------------------------------------------
  // extract_organism_GO
  // ---------------------------------------------------------------------

  /** One GO annotation: the term, its evidence code and its score. */
  datatype Annotation = Annotation(term: string, evidence: string, score: string)

  /** A line whose first tab field, before stripping, is the organism id. */
  predicate GoSelected(org: string, line: string) {
    SplitOn(line, '\t')[0] == org
  }

  /** One line of the GO file (string_db.py:149-161): a line of another
      organism is skipped; otherwise the stripped line needs seven fields
      and yields its first field with the annotation in fields three, six
      and seven. */
  function GoLine(org: string, line: string): Result<Option<(string, Annotation)>, Failure> {
    if !GoSelected(org, line) then Ok(None)
    else
      var words := Fields(line);
      if |words| < 7 then Err(IndexError)
      else Ok(Some((words[0], Annotation(words[2], words[5], words[6]))))
  }

  /** The `go_dict` the reader writes out. */
  function Go(org: string, lines: seq<string>): Result<map<string, seq<Annotation>>, Failure> {
    match Entries(lines, l => GoLine(org, l))
    case Err(e) => Err(e)
    case Ok(es) => Ok(Group(es))
  }

  /** The reading loop of `extract_organism_GO`. */
  method ExtractOrganismGo(org: string, lines: seq<string>) returns (r: Result<map<string, seq<Annotation>>, Failure>)
    ensures r == Go(org, UntilEof(lines))
  {
    ghost var u := UntilEof(lines);
    ghost var parse := l => GoLine(org, l);
    ghost var es: seq<(string, Annotation)> := [];
    var goDict: map<string, seq<Annotation>> := map[];
    var k := 0;
    while true
      invariant k <= |u|
      invariant Entries(u[..k], parse) == Ok(es) && goDict == Group(es)
      decreases |lines| - k
    {
      var line := ReadLine(lines, k);
      EofAt(lines, k);
      if line == "" {
        EntriesAll(u, parse);
        break;
      }
      var item := GoEntry(org, line);
      EntriesNext(u, k, parse, es, item);
      k := k + 1;
      match item {
        case Err(e) =>
          return Err(e);
        case Ok(None) =>
        case Ok(Some(entry)) =>
          GroupNext(es, entry, goDict);
          goDict := goDict[entry.0 := (if entry.0 in goDict then goDict[entry.0] else []) + [entry.1]];
          es := es + [entry];
      }
    }
    r := Ok(goDict);
  }

  /** The body of the reading loop for one line. */
  method GoEntry(org: string, line: string) returns (r: Result<Option<(string, Annotation)>, Failure>)
    ensures r == GoLine(org, line)
  {
    if SplitOn(line, '\t')[0] != org {
      return Ok(None);
    }
    var words := SplitOn(Strip(line), '\t');
    if |words| < 7 {
      return Err(IndexError);
    }
    r := Ok(Some((words[0], Annotation(words[2], words[5], words[6]))));
  }

  /** The file is rejected exactly when a line of the organism has fewer
      than seven fields once stripped. */
  lemma GoFails(org: string, lines: seq<string>)
    ensures Go(org, lines).Err? <==> exists i :: 0 <= i < |lines| && GoSelected(org, lines[i]) && |Fields(lines[i])| < 7
  {
    var parse := l => GoLine(org, l);
    if Entries(lines, parse).Err? {
      EntriesFailure(lines, parse, Entries(lines, parse).error);
      var i :| 0 <= i < |lines| && parse(lines[i]) == Err(Entries(lines, parse).error);
      assert GoSelected(org, lines[i]) && |Fields(lines[i])| < 7;
    } else {
      EntriesOkAll(lines, parse);
      forall i | 0 <= i < |lines| ensures !(GoSelected(org, lines[i]) && |Fields(lines[i])| < 7) {
        assert parse(lines[i]).Ok?;
      }
    }
  }

  /** The dictionary's keys are the first fields of the organism's lines. */
  lemma GoKeys(org: string, lines: seq<string>)
    requires Go(org, lines).Ok?
    ensures forall k :: k in Go(org, lines).value <==> exists i :: 0 <= i < |lines| && GoKeeps(org, lines[i], k)
  {
    var parse := l => GoLine(org, l);
    EntriesGroupKeys(lines, parse);
    forall k, i | 0 <= i < |lines| ensures YieldsKey(parse, lines[i], k) <==> GoKeeps(org, lines[i], k) {
    }
  }

  /** A line of the organism, well formed, whose first field is `k`. */
  predicate GoKeeps(org: string, line: string, k: string) {
    GoSelected(org, line) && |Fields(line)| >= 7 && Fields(line)[0] == k
  }

  /** One more line appends its annotation to the list of its protein and
      leaves every other list as it was. */
  lemma GoSnoc(org: string, lines: seq<string>, line: string, k: string)
    requires Go(org, lines + [line]).Ok?
    ensures Go(org, lines).Ok?
    ensures GoSelected(org, line) ==> |Fields(line)| >= 7
    ensures var words := Fields(line);
      ListAt(Go(org, lines + [line]).value, k) == ListAt(Go(org, lines).value, k) +
        (if GoSelected(org, line) && words[0] == k then [Annotation(words[2], words[5], words[6])] else [])
  {
    var parse := l => GoLine(org, l);
    EntriesSnoc(lines, line, parse);
    var es := Entries(lines, parse).value;
    match parse(line)
    case Ok(Some(e)) =>
      GroupSnoc(es, e, k);
    case Ok(None) =>
      assert ListAt(Group(es), k) + [] == ListAt(Group(es), k);
  }

  /** The annotations of two pieces of a file come out in file order. */
  lemma GoAppend(org: string, a: seq<string>, b: seq<string>, k: string)
    requires Go(org, a).Ok? && Go(org, b).Ok?
    ensures Go(org, a + b).Ok?
    ensures ListAt(Go(org, a + b).value, k) == ListAt(Go(org, a).value, k) + ListAt(Go(org, b).value, k)
  {
    EntriesGroupAppend(a, b, l => GoLine(org, l), k);
  }

  // ---------------------------------------------------------------------
  // extract_all_organism_GO
  // ---------------------------------------------------------------------

  /** The evidence codes of experimentally backed annotations. */
  const Experimental: set<string> := {"EXP", "IDA", "IMP", "IGI", "IEP", "IPI"}

  /** One line of the all-organisms GO file (string_db.py:197-212): the
      stripped line needs seven fields; it yields the term in field four,
      under `org.prot` from fields one and two, when the evidence code in
      field seven is experimental. */
  function AllGoLine(line: string): Result<Option<(string, string)>, Failure> {
    var words := Fields(line);
    if |words| < 7 then Err(IndexError)
    else if words[6] in Experimental then Ok(Some((words[0] + "." + words[1], words[3])))
    else Ok(None)
  }

  function AllGo(lines: seq<string>): Result<map<string, seq<string>>, Failure> {
    match Entries(lines, AllGoLine)
    case Err(e) => Err(e)
    case Ok(es) => Ok(Group(es))
  }

  /** The reading loop of `extract_all_organism_GO`. */
  method ExtractAllOrganismGo(lines: seq<string>) returns (r: Result<map<string, seq<string>>, Failure>)
    ensures r == AllGo(UntilEof(lines))
  {
    ghost var u := UntilEof(lines);
    ghost var parse := AllGoLine;
    ghost var es: seq<(string, string)> := [];
    var goDict: map<string, seq<string>> := map[];
    var k := 0;
    while true
      invariant k <= |u|
      invariant Entries(u[..k], parse) == Ok(es) && goDict == Group(es)
      decreases |lines| - k
    {
      var line := ReadLine(lines, k);
      EofAt(lines, k);
      if line == "" {
        EntriesAll(u, parse);
        break;
      }
      var item := AllGoEntry(line);
      EntriesNext(u, k, parse, es, item);
      k := k + 1;
      match item {
        case Err(e) =>
          return Err(e);
        case Ok(None) =>
        case Ok(Some(entry)) =>
          GroupNext(es, entry, goDict);
          goDict := goDict[entry.0 := (if entry.0 in goDict then goDict[entry.0] else []) + [entry.1]];
          es := es + [entry];
      }
    }
    r := Ok(goDict);
  }

  /** The body of the reading loop for one line. */
  method AllGoEntry(line: string) returns (r: Result<Option<(string, string)>, Failure>)
    ensures r == AllGoLine(line)
  {
    var words := SplitOn(Strip(line), '\t');
    if |words| < 7 {
      return Err(IndexError);
    }
    if words[6] in Experimental {
      return Ok(Some((words[0] + "." + words[1], words[3])));
    }
    r := Ok(None);
  }

  /** The file is rejected exactly when some line has fewer than seven
      fields once stripped. */
  lemma AllGoFails(lines: seq<string>)
    ensures AllGo(lines).Err? <==> exists i :: 0 <= i < |lines| && |Fields(lines[i])| < 7
  {
    if Entries(lines, AllGoLine).Err? {
      EntriesFailure(lines, AllGoLine, Entries(lines, AllGoLine).error);
      var i :| 0 <= i < |lines| && AllGoLine(lines[i]) == Err(Entries(lines, AllGoLine).error);
    } else {
      EntriesOkAll(lines, AllGoLine);
      forall i | 0 <= i < |lines| ensures |Fields(lines[i])| >= 7 {
        assert AllGoLine(lines[i]).Ok?;
      }
    }
  }

  /** The keys are the `org.prot` ids of the lines with experimental
      evidence. */
  lemma AllGoKeys(lines: seq<string>)
    requires AllGo(lines).Ok?
    ensures forall k :: k in AllGo(lines).value <==> exists i :: 0 <= i < |lines| && AllGoKeeps(lines[i], k)
  {
    EntriesGroupKeys(lines, AllGoLine);
    forall k, i | 0 <= i < |lines| ensures YieldsKey(AllGoLine, lines[i], k) <==> AllGoKeeps(lines[i], k) {
    }
  }

  /** A well-formed line with experimental evidence whose `org.prot` id
      is `k`. */
  predicate AllGoKeeps(line: string, k: string) {
    var words := Fields(line);
    |words| >= 7 && words[6] in Experimental && words[0] + "." + words[1] == k
  }

  /** One more line appends its term to its protein's list when its
      evidence is experimental, and leaves every other list as it was. */
  lemma AllGoSnoc(lines: seq<string>, line: string, k: string)
    requires AllGo(lines + [line]).Ok?
    ensures AllGo(lines).Ok?
    ensures |Fields(line)| >= 7
    ensures var words := Fields(line);
      ListAt(AllGo(lines + [line]).value, k) == ListAt(AllGo(lines).value, k) +
        (if words[6] in Experimental && words[0] + "." + words[1] == k then [words[3]] else [])
  {
    EntriesSnoc(lines, line, AllGoLine);
    var es := Entries(lines, AllGoLine).value;
    match AllGoLine(line)
    case Ok(Some(e)) =>
      GroupSnoc(es, e, k);
    case Ok(None) =>
      assert ListAt(Group(es), k) + [] == ListAt(Group(es), k);
  }

  /** The terms of two pieces of a file come out in file order. */
  lemma AllGoAppend(a: seq<string>, b: seq<string>, k: string)
    requires AllGo(a).Ok? && AllGo(b).Ok?
    ensures AllGo(a + b).Ok?
    ensures ListAt(AllGo(a + b).value, k) == ListAt(AllGo(a).value, k) + ListAt(AllGo(b).value, k)
  {
    EntriesGroupAppend(a, b, AllGoLine, k);
  }

  // ---------------------------------------------------------------------
  // get_uniprot_map
  // ---------------------------------------------------------------------

  /** A line the UniProt reader skips: a comment (the reader stops before
      a blank line, which would yield nothing either). */
  predicate IsComment(line: string) {
    var l := Strip(line);
    l == "" || l[0] == '#'
  }

  /** One line of the UniProt mapping file (string_db.py:231-245). The
      second field must split at `|` into exactly an accession and an id
      (ValueError otherwise); the line needs three fields (IndexError
      otherwise) and must name the organism (an exception otherwise). It
      maps the accession to `org.str_id` from the third field. */
  function UniprotLine(org: string, line: string): Result<Option<(string, string)>, Failure> {
    if IsComment(line) then Ok(None)
    else
      var words := Fields(line);
      if |words| < 2 then Err(IndexError)
      else
        var parts := SplitOn(words[1], '|');
        if |parts| != 2 then Err(ValueError)
        else if |words| < 3 then Err(IndexError)
        else if org != words[0] then Err(OrgMismatch)
        else Ok(Some((parts[0], org + "." + words[2])))
  }

  /** The `uni2sdb` dictionary: later lines overwrite earlier ones. */
  function Uniprot(org: string, lines: seq<string>): Result<map<string, string>, Failure> {
    match Entries(lines, l => UniprotLine(org, l))
    case Err(e) => Err(e)
    case Ok(es) => Ok(LastWins(es))
  }

  /** The reading loop of `get_uniprot_map`. */
  method GetUniprotMap(org: string, lines: seq<string>) returns (r: Result<map<string, string>, Failure>)
    ensures r == Uniprot(org, UntilBlank(lines))
  {
    ghost var u := UntilBlank(lines);
    ghost var parse := l => UniprotLine(org, l);
    ghost var es: seq<(string, string)> := [];
    var uni2sdb: map<string, string> := map[];
    var k := 0;
    while true
      invariant k <= |u|
      invariant Entries(u[..k], parse) == Ok(es) && uni2sdb == LastWins(es)
      decreases |lines| - k
    {
      var line := Strip(ReadLine(lines, k));
      BlankAt(lines, k);
      if line == "" {
        assert u[..k] == u;
        break;
      }
      var item := UniprotEntry(org, ReadLine(lines, k), line);
      EntriesStep(u, k, parse);
      k := k + 1;
      match item {
        case Err(e) =>
          EntriesPrefixFails(u, k, parse);
          return Err(e);
        case Ok(None) =>
        case Ok(Some(entry)) =>
          assert (es + [entry])[..|es|] == es;
          uni2sdb := uni2sdb[entry.0 := entry.1];
          es := es + [entry];
      }
    }
    r := Ok(uni2sdb);
  }

  /** The body of the reading loop for one non-blank line, `line` being
      the stripped `raw`. */
  method UniprotEntry(org: string, raw: string, line: string) returns (r: Result<Option<(string, string)>, Failure>)
    requires line == Strip(raw) && line != ""
    ensures r == UniprotLine(org, raw)
  {
    if line[0] == '#' {
      return Ok(None);
    }
    var words := SplitOn(line, '\t');
    if |words| < 2 {
      return Err(IndexError);
    }
    var uniprot := SplitOn(words[1], '|');
    if |uniprot| != 2 {
      return Err(ValueError);
    }
    if |words| < 3 {
      return Err(IndexError);
    }
    if org != words[0] {
      return Err(OrgMismatch);
    }
    r := Ok(Some((uniprot[0], org + "." + words[2])));
  }

  /** A line that is not a comment and is not a well-formed mapping line
      of the organism. */
  predicate UniprotMalformed(org: string, line: string) {
    var words := Fields(line);
    !IsComment(line)
    && (|words| < 3 || |SplitOn(words[1], '|')| != 2 || words[0] != org)
  }

  /** The file is rejected exactly when some line is malformed. */
  lemma UniprotFails(org: string, lines: seq<string>)
    ensures Uniprot(org, lines).Err? <==> exists i :: 0 <= i < |lines| && UniprotMalformed(org, lines[i])
  {
    var parse := l => UniprotLine(org, l);
    if Entries(lines, parse).Err? {
      EntriesFailure(lines, parse, Entries(lines, parse).error);
      var i :| 0 <= i < |lines| && parse(lines[i]) == Err(Entries(lines, parse).error);
      assert UniprotMalformed(org, lines[i]);
    } else {
      EntriesOkAll(lines, parse);
      forall i | 0 <= i < |lines| ensures !UniprotMalformed(org, lines[i]) {
        assert parse(lines[i]).Ok?;
      }
    }
  }

  /** One more line: a comment changes nothing; any other line is a
      well-formed line of the organism and maps its accession to
      `org.str_id`, replacing an earlier mapping. */
  lemma UniprotSnoc(org: string, lines: seq<string>, line: string)
    requires Uniprot(org, lines + [line]).Ok?
    ensures Uniprot(org, lines).Ok?
    ensures IsComment(line) ==> Uniprot(org, lines + [line]) == Uniprot(org, lines)
    ensures !IsComment(line) ==>
      var words := Fields(line);
      |words| >= 3 && words[0] == org && |SplitOn(words[1], '|')| == 2
      && Uniprot(org, lines + [line]).value == Uniprot(org, lines).value[SplitOn(words[1], '|')[0] := org + "." + words[2]]
  {
    var parse := l => UniprotLine(org, l);
    EntriesSnoc(lines, line, parse);
    var es := Entries(lines, parse).value;
    if !IsComment(line) {
      var e := parse(line).value.value;
      assert (es + [e])[..|es|] == es;
    }
  }

  /** The accessions mapped are those of the mapping lines. */
  lemma UniprotKeys(org: string, lines: seq<string>)
    requires Uniprot(org, lines).Ok?
    ensures forall k :: k in Uniprot(org, lines).value <==> exists i :: 0 <= i < |lines| && UniprotMaps(lines[i], k)
  {
    var parse := l => UniprotLine(org, l);
    EntriesLastWinsKeys(lines, parse);
    EntriesOkAll(lines, parse);
    forall k, i | 0 <= i < |lines| ensures YieldsKey(parse, lines[i], k) <==> UniprotMaps(lines[i], k) {
      UniprotLineKey(org, lines[i], k);
    }
  }

  lemma UniprotLineKey(org: string, line: string, k: string)
    requires UniprotLine(org, line).Ok?
    ensures YieldsKey(l => UniprotLine(org, l), line, k) <==> UniprotMaps(line, k)
  {
  }

  /** A line that is not a comment and whose second field has accession
      `k` before the `|`. */
  predicate UniprotMaps(line: string, k: string) {
    var words := Fields(line);
    !IsComment(line) && |words| >= 2 && |SplitOn(words[1], '|')| == 2 && SplitOn(words[1], '|')[0] == k
  }

  /** Every accession maps to a STRING id of the organism, `org.str_id`. */
  lemma {:induction false} UniprotValues(org: string, lines: seq<string>)
    requires Uniprot(org, lines).Ok?
    ensures forall k :: k in Uniprot(org, lines).value ==> StartsWith(Uniprot(org, lines).value[k], org + ".")
    decreases |lines|
  {
    if lines != [] {
      var n := |lines| - 1;
      assert lines == lines[..n] + [lines[n]];
      UniprotSnoc(org, lines[..n], lines[n]);
      UniprotValues(org, lines[..n]);
      if !IsComment(lines[n]) {
        var v := org + "." + Fields(lines[n])[2];
        assert v[..|org + "."|] == org + ".";
      }
    }
  }
}
