/** `generate_gw_file_raw` (interface.py:836-847): an organism's network in
    LEDA's GW text format, as MAGNA++ reads it. The file holds a four-line
    header, the node count, one line `|{name}|` per node in index order,
    the edge count, and one line `a b 0 |{}|` per edge. Lines are modelled
    without their trailing newline. */
module Gw {
  import opened Common
  import opened Text

  const Header: seq<string> := ["# MAGNA GW", "LEDA.GRAPH", "string", "short"]

  function NodeLine(name: string): string {
    "|{" + name + "}|"
  }

  /** `a b 0 |{}|`: the two node indices, a zero and an empty label,
      separated by single spaces. */
  function EdgeLine(e: (nat, nat)): string {
    JoinSpace([NatToString(e.0), NatToString(e.1), "0", "|{}|"])
  }

  /** The node lines, one per name, in order. */
  function NodeLines(nodes: seq<string>): (r: seq<string>)
    ensures |r| == |nodes|
    ensures forall i :: 0 <= i < |nodes| ==> r[i] == NodeLine(nodes[i])
  {
    if nodes == [] then [] else NodeLines(nodes[..|nodes| - 1]) + [NodeLine(nodes[|nodes| - 1])]
  }

  /** The edge lines, one per edge, in iteration order. */
  function EdgeLines(edges: seq<(nat, nat)>): (r: seq<string>)
    ensures |r| == |edges|
    ensures forall i :: 0 <= i < |edges| ==> r[i] == EdgeLine(edges[i])
  {
    if edges == [] then [] else EdgeLines(edges[..|edges| - 1]) + [EdgeLine(edges[|edges| - 1])]
  }

  /** The whole file for the node names `nodes` (`id_to_node` in index
      order) and the edge set enumerated as `edges`. */
  function GwLines(nodes: seq<string>, edges: seq<(nat, nat)>): seq<string> {
    Header + [NatToString(|nodes|)] + NodeLines(nodes) + [NatToString(|edges|)] + EdgeLines(edges)
  }

  /** The file is written only when none exists yet; the result is what
      was written, `None` when nothing was. */
  method GenerateGwFile(fileExists: bool, nodes: seq<string>, edges: seq<(nat, nat)>)
    returns (written: Option<seq<string>>)
    ensures written == if fileExists then None else Some(GwLines(nodes, edges))
  {
    if fileExists {
      return None;
    }
    var out := Header + [NatToString(|nodes|)];
    var i := 0;
    while i < |nodes|
      invariant i <= |nodes|
      invariant out == Header + [NatToString(|nodes|)] + NodeLines(nodes[..i])
    {
      assert nodes[..i + 1][..i] == nodes[..i];
      out := out + [NodeLine(nodes[i])];
      i := i + 1;
    }
    assert nodes[..i] == nodes;
    out := out + [NatToString(|edges|)];
    ghost var front := out;
    var j := 0;
    while j < |edges|
      invariant j <= |edges|
      invariant out == front + EdgeLines(edges[..j])
    {
      assert edges[..j + 1][..j] == edges[..j];
      out := out + [EdgeLine(edges[j])];
      j := j + 1;
    }
    assert edges[..j] == edges;
    written := Some(out);
  }

  // Reading the format back.

  /** A non-negative decimal count. */
  function ParseNat(s: string): (r: Option<nat>)
    ensures r.Some? ==> ParseInt(s) == Some(r.value as int)
  {
    match ParseInt(s)
    case None => None
    case Some(v) => if v >= 0 then Some(v) else None
  }

  /** The name inside `|{...}|`. */
  function UnNodeLine(l: string): (r: Option<string>)
    ensures r.Some? ==> l == NodeLine(r.value)
  {
    if |l| >= 4 && l[..2] == "|{" && l[|l| - 2..] == "}|" then
      assert l == l[..2] + l[2..|l| - 2] + l[|l| - 2..];
      Some(l[2..|l| - 2])
    else None
  }

  /** The two node indices of an `a b 0 |{}|` line. */
  function UnEdgeLine(l: string): Option<(nat, nat)> {
    EdgeOfWords(SplitWs(l))
  }

  function EdgeOfWords(w: seq<string>): Option<(nat, nat)> {
    if |w| == 4 && w[2] == "0" && w[3] == "|{}|" && ParseNat(w[0]).Some? && ParseNat(w[1]).Some? then
      Some((ParseNat(w[0]).value, ParseNat(w[1]).value))
    else None
  }

  /** Each line read by `f`, or `None` as soon as one line is not. */
  function ReadAll<T>(ls: seq<string>, f: string -> Option<T>): (r: Option<seq<T>>)
    ensures r.Some? ==> |r.value| == |ls|
  {
    if ls == [] then Some([])
    else match (ReadAll(ls[..|ls| - 1], f), f(ls[|ls| - 1]))
      case (Some(xs), Some(x)) => Some(xs + [x])
      case _ => None
  }

  function ReadNodes(ls: seq<string>): Option<seq<string>> {
    ReadAll(ls, UnNodeLine)
  }

  function ReadEdges(ls: seq<string>): Option<seq<(nat, nat)>> {
    ReadAll(ls, UnEdgeLine)
  }

  /** A GW file as the format defines it: the header, a node count and that
      many node lines, an edge count and that many edge lines, nothing
      after. */
  function ReadGw(ls: seq<string>): Option<(seq<string>, seq<(nat, nat)>)> {
    if |ls| < 5 || ls[..4] != Header || ParseNat(ls[4]).None? then None
    else
      var n := ParseNat(ls[4]).value;
      if |ls| < 6 + n || ParseNat(ls[5 + n]).None? then None
      else
        var m := ParseNat(ls[5 + n]).value;
        if |ls| != 6 + n + m then None
        else match (ReadNodes(ls[5..5 + n]), ReadEdges(ls[6 + n..]))
          case (Some(ns), Some(es)) => Some((ns, es))
          case _ => None
  }

  lemma ParseNatToString(n: nat)
    ensures ParseNat(NatToString(n)) == Some(n)
  {
    ParseIntToString(n);
    assert IntToString(n) == NatToString(n);
  }

  lemma UnNodeLineOf(name: string)
    ensures UnNodeLine(NodeLine(name)) == Some(name)
  {
    var l := NodeLine(name);
    assert l[..2] == "|{" && l[|l| - 2..] == "}|" && l[2..|l| - 2] == name;
  }

  lemma DigitsAreWord(ds: string)
    requires IsDigits(ds)
    ensures IsWord(ds)
  {
    forall i | 0 <= i < |ds| ensures !IsSpace(ds[i]) {
      assert '0' <= ds[i] <= '9';
    }
  }

  lemma UnEdgeLineOf(e: (nat, nat))
    ensures UnEdgeLine(EdgeLine(e)) == Some(e)
  {
    var ws := [NatToString(e.0), NatToString(e.1), "0", "|{}|"];
    DigitsAreWord(ws[0]);
    DigitsAreWord(ws[1]);
    assert IsWord(ws[2]) && IsWord(ws[3]);
    SplitJoinSpace(ws);
    ParseNatToString(e.0);
    ParseNatToString(e.1);
    EdgeOfLineWords(ws, e);
  }

  lemma EdgeOfLineWords(w: seq<string>, e: (nat, nat))
    requires w == [NatToString(e.0), NatToString(e.1), "0", "|{}|"]
    requires ParseNat(NatToString(e.0)) == Some(e.0) && ParseNat(NatToString(e.1)) == Some(e.1)
    ensures EdgeOfWords(w) == Some(e)
  {
    assert |w| == 4 && w[2] == "0" && w[3] == "|{}|";
  }

  /** Lines that each read back as the matching element read back as the
      whole sequence. */
  lemma {:induction false} ReadAllOf<T>(ls: seq<string>, f: string -> Option<T>, xs: seq<T>)
    requires |ls| == |xs| && forall i :: 0 <= i < |ls| ==> f(ls[i]) == Some(xs[i])
    ensures ReadAll(ls, f) == Some(xs)
    decreases |ls|
  {
    if ls != [] {
      var n := |ls| - 1;
      ReadAllOf(ls[..n], f, xs[..n]);
      assert f(ls[n]) == Some(xs[n]);
      assert xs[..n] + [xs[n]] == xs;
    }
  }

  lemma ReadNodeLines(nodes: seq<string>)
    ensures ReadNodes(NodeLines(nodes)) == Some(nodes)
  {
    var ls := NodeLines(nodes);
    forall i | 0 <= i < |ls| ensures UnNodeLine(ls[i]) == Some(nodes[i]) {
      UnNodeLineOf(nodes[i]);
    }
    ReadAllOf(ls, UnNodeLine, nodes);
  }

  lemma ReadEdgeLines(edges: seq<(nat, nat)>)
    ensures ReadEdges(EdgeLines(edges)) == Some(edges)
  {
    var ls := EdgeLines(edges);
    forall i | 0 <= i < |ls| ensures UnEdgeLine(ls[i]) == Some(edges[i]) {
      UnEdgeLineOf(edges[i]);
    }
    ReadAllOf(ls, UnEdgeLine, edges);
  }

  lemma ReadGwParts(ls: seq<string>, ns: seq<string>, es: seq<(nat, nat)>)
    requires |ls| == 6 + |ns| + |es| && ls[..4] == Header
    requires ParseNat(ls[4]) == Some(|ns|) && ParseNat(ls[5 + |ns|]) == Some(|es|)
    requires ReadNodes(ls[5..5 + |ns|]) == Some(ns) && ReadEdges(ls[6 + |ns|..]) == Some(es)
    ensures ReadGw(ls) == Some((ns, es))
  {
  }

  /** Where each section of the file sits. */
  lemma Sections<T>(h: seq<T>, a: T, nl: seq<T>, b: T, el: seq<T>)
    requires |h| == 4
    ensures var ls := h + [a] + nl + [b] + el;
      ls[..4] == h && ls[4] == a && ls[5 + |nl|] == b && ls[5..5 + |nl|] == nl && ls[6 + |nl|..] == el
  {
  }

  /** Reading the written file gives back the node names, in index order,
      and the edges, in the order written: the file is a faithful GW
      encoding of the network, whatever the node names are. */
  lemma ReadGwLines(nodes: seq<string>, edges: seq<(nat, nat)>)
    ensures ReadGw(GwLines(nodes, edges)) == Some((nodes, edges))
  {
    var ls := GwLines(nodes, edges);
    var n, m := |nodes|, |edges|;
    var a, b := NatToString(n), NatToString(m);
    var nl, el := NodeLines(nodes), EdgeLines(edges);
    assert ls == Header + [a] + nl + [b] + el;
    Sections(Header, a, nl, b, el);
    ParseNatToString(n);
    ParseNatToString(m);
    ReadNodeLines(nodes);
    ReadEdgeLines(edges);
    ReadGwParts(ls, nodes, edges);
  }

  /** Read back, every edge of a network whose edges join its nodes names
      node lines of the file. */
  lemma GwEdgesInRange(nodes: seq<string>, edges: seq<(nat, nat)>)
    requires forall k :: 0 <= k < |edges| ==> edges[k].0 <= edges[k].1 < |nodes|
    ensures var g := ReadGw(GwLines(nodes, edges));
      g.Some? && forall k :: 0 <= k < |g.value.1| ==> g.value.1[k].0 < |g.value.0| && g.value.1[k].1 < |g.value.0|
  {
    ReadGwLines(nodes, edges);
  }
}
