/** Python's `list.sort(key=lambda x: x[2])` and
    `sorted(..., key=..., reverse=True)` on score triples: a stable sort by
    score, ascending or descending. Stability (entries with equal scores keep
    their original order, in both directions) is what decides which of two
    equally scored cells a greedy matcher sees first. */
module Sorting {
  import opened Common

  /** `a` may come before `b` in the requested direction. */
  predicate InOrder(a: Pair, b: Pair, desc: bool) {
    if desc then a.score >= b.score else a.score <= b.score
  }

  predicate Sorted(s: seq<Pair>, desc: bool) {
    forall i, j :: 0 <= i < j < |s| ==> InOrder(s[i], s[j], desc)
  }

  /** Insert `x` in front of the first entry it may precede. */
  function Insert(x: Pair, s: seq<Pair>, desc: bool): seq<Pair> {
    if s == [] || InOrder(x, s[0], desc) then [x] + s
    else [s[0]] + Insert(x, s[1..], desc)
  }

  lemma {:induction false} InsertPermutes(x: Pair, s: seq<Pair>, desc: bool)
    ensures multiset(Insert(x, s, desc)) == multiset(s) + multiset{x}
    decreases |s|
  {
    if !(s == [] || InOrder(x, s[0], desc)) {
      InsertPermutes(x, s[1..], desc);
      assert s == [s[0]] + s[1..];
    }
  }

  lemma {:induction false} InsertSorted(x: Pair, s: seq<Pair>, desc: bool)
    requires Sorted(s, desc)
    ensures Sorted(Insert(x, s, desc), desc)
    decreases |s|
  {
    if s == [] || InOrder(x, s[0], desc) {
      forall y | y in s ensures InOrder(x, y, desc) {
        var k :| 0 <= k < |s| && s[k] == y;
        if k > 0 {
          assert InOrder(s[0], s[k], desc);
        }
      }
      SortedCons(x, s, desc);
    } else {
      var tail := s[1..];
      var rest := Insert(x, tail, desc);
      InsertSorted(x, tail, desc);
      InsertMembers(x, tail, desc);
      forall y | y in rest ensures InOrder(s[0], y, desc) {
        if y != x {
          var k :| 0 <= k < |tail| && tail[k] == y;
          assert InOrder(s[0], s[k + 1], desc);
        }
      }
      SortedCons(s[0], rest, desc);
    }
  }

  /** Inserting adds `x` and nothing else. */
  lemma {:induction false} InsertMembers(x: Pair, s: seq<Pair>, desc: bool)
    ensures forall y :: y in Insert(x, s, desc) ==> y == x || y in s
    decreases |s|
  {
    if !(s == [] || InOrder(x, s[0], desc)) {
      InsertMembers(x, s[1..], desc);
    }
  }

  /** An entry that may precede every entry of a sorted list may head it. */
  lemma SortedCons(a: Pair, t: seq<Pair>, desc: bool)
    requires Sorted(t, desc)
    requires forall y :: y in t ==> InOrder(a, y, desc)
    ensures Sorted([a] + t, desc)
  {
    var r := [a] + t;
    forall i, j | 0 <= i < j < |r| ensures InOrder(r[i], r[j], desc) {
      assert r[j] == t[j - 1];
      if i > 0 {
        assert r[i] == t[i - 1];
      }
    }
  }

  /** The stable sort: the first entry is inserted into the sorted rest in
      front of every entry with the same score. The result is ordered by
      score and is a permutation of the input. */
  function SortByScore(s: seq<Pair>, desc: bool): (r: seq<Pair>)
    ensures multiset(r) == multiset(s)
    ensures |r| == |s|
    ensures Sorted(r, desc)
  {
    if s == [] then []
    else
      var rest := SortByScore(s[1..], desc);
      InsertPermutes(s[0], rest, desc);
      InsertSorted(s[0], rest, desc);
      assert s == [s[0]] + s[1..];
      Insert(s[0], rest, desc)
  }

  /** The entries with score `v`, in their order. */
  function WithScore(s: seq<Pair>, v: real): seq<Pair> {
    if s == [] then []
    else (if s[0].score == v then [s[0]] else []) + WithScore(s[1..], v)
  }

  lemma {:induction false} InsertWithScore(x: Pair, s: seq<Pair>, desc: bool, v: real)
    ensures WithScore(Insert(x, s, desc), v)
         == (if x.score == v then [x] else []) + WithScore(s, v)
    decreases |s|
  {
    if s == [] || InOrder(x, s[0], desc) {
      WithScoreCons(x, s, v);
    } else {
      var rest := Insert(x, s[1..], desc);
      InsertWithScore(x, s[1..], desc, v);
      WithScoreCons(s[0], rest, v);
      WithScoreCons(s[0], s[1..], v);
      assert s == [s[0]] + s[1..];
      var a: seq<Pair> := if s[0].score == v then [s[0]] else [];
      var b: seq<Pair> := if x.score == v then [x] else [];
      var w := WithScore(s[1..], v);
      assert a == [] || b == [];
      if a == [] {
        assert a + (b + w) == b + (a + w);
      } else {
        assert a + (b + w) == b + (a + w);
      }
    }
  }

  lemma WithScoreCons(a: Pair, t: seq<Pair>, v: real)
    ensures WithScore([a] + t, v) == (if a.score == v then [a] else []) + WithScore(t, v)
  {
    assert ([a] + t)[1..] == t;
  }

  /** Stability: for every score, the entries carrying it appear in the
      sorted list in the same order as in the input. */
  lemma {:induction false} SortStable(s: seq<Pair>, desc: bool, v: real)
    ensures WithScore(SortByScore(s, desc), v) == WithScore(s, v)
    decreases |s|
  {
    if s != [] {
      SortStable(s[1..], desc, v);
      InsertWithScore(s[0], SortByScore(s[1..], desc), desc, v);
    }
  }

  lemma {:induction false} WithScoreMembers(s: seq<Pair>, v: real)
    ensures forall p :: p in WithScore(s, v) <==> p in s && p.score == v
    decreases |s|
  {
    if s != [] {
      WithScoreMembers(s[1..], v);
      assert s == [s[0]] + s[1..];
    }
  }

  /** The head of the ascending sort is the first entry, in input order,
      among those with the lowest score. */
  lemma SortedHead(s: seq<Pair>)
    requires s != []
    ensures var r := SortByScore(s, false);
      (forall p :: p in s ==> r[0].score <= p.score) &&
      WithScore(s, r[0].score) != [] && r[0] == WithScore(s, r[0].score)[0]
  {
    var r := SortByScore(s, false);
    assert r[0] in multiset(s);
    forall p | p in s ensures r[0].score <= p.score {
      assert p in multiset(r);
      var k :| 0 <= k < |r| && r[k] == p;
      if k > 0 { assert InOrder(r[0], r[k], false); }
    }
    SortStable(s, false, r[0].score);
    var w := WithScore(r, r[0].score);
    assert w == [r[0]] + WithScore(r[1..], r[0].score);
  }

  /** Leaving entries out of a sorted list keeps it sorted. */
  lemma {:induction false} SubsequenceSorted(a: seq<Pair>, b: seq<Pair>, desc: bool)
    requires IsSubsequence(a, b) && Sorted(b, desc)
    ensures Sorted(a, desc)
    decreases |b|
  {
    if a != [] {
      assert b != [];
      assert Sorted(b[1..], desc) by {
        forall i, j | 0 <= i < j < |b[1..]| ensures InOrder(b[1..][i], b[1..][j], desc) {
          assert b[1..][i] == b[i + 1] && b[1..][j] == b[j + 1];
        }
      }
      if a[0] == b[0] && IsSubsequence(a[1..], b[1..]) {
        SubsequenceSorted(a[1..], b[1..], desc);
        SubsequenceMembers(a[1..], b[1..]);
        forall i, j | 0 <= i < j < |a| ensures InOrder(a[i], a[j], desc) {
          assert a[j] == a[1..][j - 1];
          if i > 0 {
            assert a[i] == a[1..][i - 1];
          } else {
            assert a[1..][j - 1] in a[1..];
            var k :| 0 <= k < |b[1..]| && b[1..][k] == a[j];
            assert b[k + 1] == a[j];
          }
        }
      } else {
        SubsequenceSorted(a, b[1..], desc);
      }
    }
  }
}
