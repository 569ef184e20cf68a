/** The handful of Python string operations the line parsers rely on:
    `str.strip()`, `str.split()`, `str.split(sep)` for a one-character
    separator, prefix comparison, `int(str)` and `str(int)`. Characters are
    Unicode code points; whitespace is the set `str.isspace()` accepts. */
module Text {
  import opened Common

  /** The code points Python's `str.strip()` and `str.split()` treat as
      whitespace: tab to carriage return, the four separators U+001C-U+001F,
      space, and the Unicode space and line/paragraph separators. */
  predicate IsSpace(c: char) {
    c == ' ' || '\t' <= c <= '\r' || '\U{1C}' <= c <= '\U{1F}' || c == '\U{85}' || c == '\U{A0}'
    || c == '\U{1680}' || '\U{2000}' <= c <= '\U{200A}' || c == '\U{2028}' || c == '\U{2029}'
    || c == '\U{202F}' || c == '\U{205F}' || c == '\U{3000}'
  }

  /** `s` with its leading whitespace removed. */
  function TrimLeft(s: string): (r: string)
    ensures |r| <= |s| && r == s[|s| - |r|..]
    ensures r == [] || !IsSpace(r[0])
    ensures forall i :: 0 <= i < |s| - |r| ==> IsSpace(s[i])
  {
    if s != [] && IsSpace(s[0]) then TrimLeft(s[1..]) else s
  }

  /** `s` with its trailing whitespace removed. */
  function TrimRight(s: string): (r: string)
    ensures |r| <= |s| && r == s[..|r|]
    ensures r == [] || !IsSpace(r[|r| - 1])
    ensures forall i :: |r| <= i < |s| ==> IsSpace(s[i])
  {
    if s != [] && IsSpace(s[|s| - 1]) then TrimRight(s[..|s| - 1]) else s
  }

  /** Python's `s.strip()`. */
  function Strip(s: string): (r: string)
  {
    TrimRight(TrimLeft(s))
  }

  /** Nothing but whitespace. */
  predicate Blank(s: string) {
    forall i :: 0 <= i < |s| ==> IsSpace(s[i])
  }

  /** `Strip(s)` is the slice of `s` between its leading and trailing
      whitespace runs: it begins and ends with a non-space, and every
      character cut off on either side is whitespace. */
  lemma StripSlice(s: string) returns (lo: nat)
    ensures lo + |Strip(s)| <= |s| && Strip(s) == s[lo..lo + |Strip(s)|]
    ensures Strip(s) == [] || (!IsSpace(Strip(s)[0]) && !IsSpace(Strip(s)[|Strip(s)| - 1]))
    ensures forall i :: 0 <= i < lo ==> IsSpace(s[i])
    ensures forall i :: lo + |Strip(s)| <= i < |s| ==> IsSpace(s[i])
  {
    var t := TrimLeft(s);
    lo := |s| - |t|;
    var r := TrimRight(t);
    assert Strip(s) == r;
    SliceOfSlice(s, lo, t, r);
  }

  /** The slice-of-a-slice reasoning behind `StripSlice`. */
  lemma SliceOfSlice(s: string, lo: nat, t: string, r: string)
    requires lo <= |s| && t == s[lo..] && |r| <= |t| && r == t[..|r|]
    requires t == [] || !IsSpace(t[0])
    requires forall i :: |r| <= i < |t| ==> IsSpace(t[i])
    ensures lo + |r| <= |s| && r == s[lo..lo + |r|]
    ensures r != [] ==> !IsSpace(r[0])
    ensures forall i :: lo + |r| <= i < |s| ==> IsSpace(s[i])
  {
    if r != [] {
      assert r[0] == t[0];
    }
    forall i | lo + |r| <= i < |s| ensures IsSpace(s[i]) {
      assert s[i] == t[i - lo];
    }
  }

  /** Stripping twice changes nothing. */
  lemma StripIdempotent(s: string)
    ensures Strip(Strip(s)) == Strip(s)
  {
    var r := Strip(s);
    if r != [] {
      assert !IsSpace(r[0]) && !IsSpace(r[|r| - 1]) by { var _ := StripSlice(s); }
      assert TrimLeft(r) == r;
      assert TrimRight(r) == r;
    }
  }

  lemma {:induction false} BlankTrimLeft(s: string)
    requires Blank(s)
    ensures TrimLeft(s) == []
    decreases |s|
  {
    if s != [] {
      assert IsSpace(s[0]);
      assert Blank(s[1..]) by {
        forall i | 0 <= i < |s| - 1 ensures IsSpace(s[1..][i]) {
          assert s[1..][i] == s[i + 1];
        }
      }
      BlankTrimLeft(s[1..]);
    }
  }

  /** A line strips to nothing exactly when it is all whitespace. */
  lemma StripBlank(s: string)
    ensures Strip(s) == "" <==> Blank(s)
  {
    if Blank(s) {
      BlankTrimLeft(s);
      assert TrimRight([]) == [];
    } else {
      var lo := StripSlice(s);
      var i :| 0 <= i < |s| && !IsSpace(s[i]);
      assert Strip(s) != "";
    }
  }

  /** Python's `s.startswith(p)`, which is also what `s[:len(p)] == p`
      tests. */
  predicate StartsWith(s: string, p: string) {
    |p| <= |s| && s[..|p|] == p
  }

  /** The longest prefix of `s` free of whitespace. */
  function Word(s: string): (r: string)
    ensures |r| <= |s| && r == s[..|r|]
    ensures forall i :: 0 <= i < |r| ==> !IsSpace(r[i])
    ensures |r| < |s| ==> IsSpace(s[|r|])
    ensures s != [] && !IsSpace(s[0]) ==> r != []
  {
    if s == [] || IsSpace(s[0]) then [] else [s[0]] + Word(s[1..])
  }

  /** Python's `s.split()`: the maximal runs of non-whitespace characters. */
  function SplitWs(s: string): (r: seq<string>)
    ensures forall k :: 0 <= k < |r| ==> IsWord(r[k])
    decreases |s|
  {
    var t := TrimLeft(s);
    if t == [] then []
    else
      var w := Word(t);
      [w] + SplitWs(t[|w|..])
  }

  /** Words joined by single spaces. */
  function JoinSpace(ws: seq<string>): string {
    if ws == [] then []
    else if |ws| == 1 then ws[0]
    else ws[0] + (" " + JoinSpace(ws[1..]))
  }

  /** A word: non-empty and free of whitespace. */
  predicate IsWord(w: string) {
    w != [] && forall i :: 0 <= i < |w| ==> !IsSpace(w[i])
  }

  lemma {:induction false} WordOfJoin(w: string, rest: string)
    requires IsWord(w)
    requires rest == [] || IsSpace(rest[0])
    ensures Word(w + rest) == w
    decreases |w|
  {
    assert (w + rest)[0] == w[0];
    if |w| > 1 {
      assert (w + rest)[1..] == w[1..] + rest;
      WordOfJoin(w[1..], rest);
    } else {
      assert (w + rest)[1..] == rest;
    }
  }

  /** A word followed by nothing or by whitespace is split off first. */
  lemma SplitWsCons(w: string, rest: string)
    requires IsWord(w)
    requires rest == [] || IsSpace(rest[0])
    ensures SplitWs(w + rest) == [w] + SplitWs(rest)
  {
    var s := w + rest;
    assert s[0] == w[0];
    assert TrimLeft(s) == s;
    WordOfJoin(w, rest);
    assert s[|w|..] == rest;
    if rest == [] {
    } else {
      assert TrimLeft(rest) == TrimLeft(rest[1..]);
    }
  }

  /** Leading whitespace does not change the split. */
  lemma SplitWsSpace(t: string)
    ensures SplitWs(" " + t) == SplitWs(t)
  {
    assert (" " + t)[1..] == t;
    assert TrimLeft(" " + t) == TrimLeft(t);
  }

  lemma SplitJoinSpaceStep(ws: seq<string>)
    requires |ws| > 1 && IsWord(ws[0])
    requires SplitWs(JoinSpace(ws[1..])) == ws[1..]
    ensures SplitWs(JoinSpace(ws)) == ws
  {
    var t := JoinSpace(ws[1..]);
    calc {
      SplitWs(JoinSpace(ws));
      SplitWs(ws[0] + (" " + t));
      { SplitWsCons(ws[0], " " + t); }
      [ws[0]] + SplitWs(" " + t);
      { SplitWsSpace(t); }
      [ws[0]] + ws[1..];
    }
    assert [ws[0]] + ws[1..] == ws;
  }

  /** `split()` undoes joining words with single spaces. */
  lemma {:induction false} SplitJoinSpace(ws: seq<string>)
    requires forall k :: 0 <= k < |ws| ==> IsWord(ws[k])
    ensures SplitWs(JoinSpace(ws)) == ws
    decreases |ws|
  {
    if ws == [] {
      assert TrimLeft([]) == [];
    } else if |ws| == 1 {
      assert JoinSpace(ws) == ws[0] + [];
      SplitWsCons(ws[0], []);
      assert TrimLeft([]) == [];
    } else {
      SplitJoinSpace(ws[1..]);
      SplitJoinSpaceStep(ws);
    }
  }

  /** Python's `s.split(sep)` for a one-character separator: the pieces
      between consecutive separators, empty pieces included; there is always
      one more piece than separators. */
  function SplitOn(s: string, sep: char): (r: seq<string>)
    ensures |r| >= 1
    ensures forall k :: 0 <= k < |r| ==> sep !in r[k]
    decreases |s|
  {
    if s == [] then [[]]
    else
      var rest := SplitOn(s[1..], sep);
      if s[0] == sep then [[]] + rest
      else [[s[0]] + rest[0]] + rest[1..]
  }

  /** Pieces joined with `sep` between them: Python's `sep.join(parts)`. */
  function Join(parts: seq<string>, sep: char): string
    requires |parts| >= 1
  {
    if |parts| == 1 then parts[0] else parts[0] + [sep] + Join(parts[1..], sep)
  }

  /** Splitting and re-joining gives back the line. */
  lemma {:induction false} JoinSplitOn(s: string, sep: char)
    ensures Join(SplitOn(s, sep), sep) == s
    decreases |s|
  {
    if s != [] {
      var rest := SplitOn(s[1..], sep);
      JoinSplitOn(s[1..], sep);
      if s[0] == sep {
        assert [[]] + rest == SplitOn(s, sep);
        assert ([[]] + rest)[1..] == rest;
      } else {
        var r := SplitOn(s, sep);
        assert r[0] == [s[0]] + rest[0] && r[1..] == rest[1..];
        if |rest| == 1 {
          assert s == [s[0]] + s[1..];
        } else {
          assert Join(rest, sep) == rest[0] + [sep] + Join(rest[1..], sep);
          assert Join(r, sep) == [s[0]] + rest[0] + [sep] + Join(rest[1..], sep);
          assert s == [s[0]] + s[1..];
        }
      }
    }
  }

  /** Splitting a join of separator-free pieces gives the pieces back. */
  lemma {:induction false} SplitOnJoin(parts: seq<string>, sep: char)
    requires |parts| >= 1
    requires forall k :: 0 <= k < |parts| ==> sep !in parts[k]
    ensures SplitOn(Join(parts, sep), sep) == parts
    decreases |Join(parts, sep)|
  {
    var p := parts[0];
    if p == [] {
      if |parts| > 1 {
        var j := Join(parts, sep);
        assert j == [sep] + Join(parts[1..], sep);
        assert j[1..] == Join(parts[1..], sep);
        SplitOnJoin(parts[1..], sep);
        assert parts == [[]] + parts[1..];
      }
    } else {
      var parts' := [p[1..]] + parts[1..];
      assert Join(parts, sep) == [p[0]] + Join(parts', sep) by {
        if |parts| == 1 {
          assert p == [p[0]] + p[1..];
        } else {
          assert parts'[1..] == parts[1..];
          assert p == [p[0]] + p[1..];
        }
      }
      forall k | 0 <= k < |parts'| ensures sep !in parts'[k] {
        if k == 0 {
          assert forall c :: c in p[1..] ==> c in p;
        } else {
          assert parts'[k] == parts[k];
        }
      }
      SplitOnJoin(parts', sep);
      assert p[0] in p;
      assert parts == [[p[0]] + parts'[0]] + parts'[1..];
    }
  }

  /** The value of a non-empty string of decimal digits. */
  function DigitsValue(ds: string): nat
    requires forall i :: 0 <= i < |ds| ==> '0' <= ds[i] <= '9'
  {
    if ds == [] then 0
    else DigitsValue(ds[..|ds| - 1]) * 10 + (ds[|ds| - 1] as int - '0' as int)
  }

  predicate IsDigits(ds: string) {
    ds != [] && forall i :: 0 <= i < |ds| ==> '0' <= ds[i] <= '9'
  }

  /** Python's `int(s)` on a base-10 literal: surrounding whitespace is
      ignored, an optional sign is followed by at least one digit; anything
      else is a `ValueError`, here `None`. */
  function ParseInt(s: string): (r: Option<int>)
    ensures r.Some? ==> IsDigits(Unsigned(Strip(s)))
  {
    var t := Strip(s);
    var body := Unsigned(t);
    if !IsDigits(body) then None
    else if t[0] == '-' then Some(-(DigitsValue(body) as int))
    else Some(DigitsValue(body))
  }

  /** The text after an optional leading sign. */
  function Unsigned(t: string): string {
    if t != [] && (t[0] == '-' || t[0] == '+') then t[1..] else t
  }

  /** Python's `str(n)` for a natural number. */
  function NatToString(n: nat): (r: string)
    ensures IsDigits(r)
    ensures r[0] != '0' || n == 0
  {
    var d := [(n % 10 + '0' as int) as char];
    if n < 10 then d else NatToString(n / 10) + d
  }

  /** Python's `str(i)` for any integer. */
  function IntToString(i: int): string {
    if i < 0 then "-" + NatToString(-i) else NatToString(i)
  }

  lemma {:induction false} DigitsOfNat(n: nat)
    ensures DigitsValue(NatToString(n)) == n
    decreases n
  {
    var s := NatToString(n);
    if n >= 10 {
      DigitsOfNat(n / 10);
      assert s[..|s| - 1] == NatToString(n / 10);
    }
  }

  /** Stripping a string that neither starts nor ends with whitespace
      changes nothing. */
  lemma StripNoOp(s: string)
    requires s != [] && !IsSpace(s[0]) && !IsSpace(s[|s| - 1])
    ensures Strip(s) == s
  {
    assert TrimLeft(s) == s;
    assert TrimRight(s) == s;
  }

  lemma ParseIntOfStripped(s: string)
    requires Strip(s) == s && IsDigits(Unsigned(s))
    ensures ParseInt(s) == Some(if s[0] == '-' then -(DigitsValue(Unsigned(s)) as int) else DigitsValue(Unsigned(s)))
  {
  }

  /** `int(str(i)) == i`. */
  lemma ParseIntToString(i: int)
    ensures ParseInt(IntToString(i)) == Some(i)
  {
    var s := IntToString(i);
    var n: nat := if i < 0 then -i else i;
    var ds := NatToString(n);
    assert Strip(s) == s by {
      assert !IsSpace(s[0]) by {
        if i >= 0 { assert s[0] == ds[0]; }
      }
      assert !IsSpace(s[|s| - 1]) by {
        assert s[|s| - 1] == ds[|ds| - 1];
        assert ds[|ds| - 1] in ds;
      }
      StripNoOp(s);
    }
    assert Unsigned(s) == ds && (s[0] == '-' <==> i < 0) by {
      if i >= 0 {
        assert ds[0] in ds;
      }
    }
    DigitsOfNat(n);
    ParseIntOfStripped(s);
  }
}
