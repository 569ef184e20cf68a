/** Shared vocabulary of the aligner: optional values, results with an error,
    the (node1, node2, score) triple that every matcher produces, and the
    one-to-one property the alignment must have. */
module Common {

  datatype Option<+T> = None | Some(value: T)

  datatype Result<+T, +E> = Ok(value: T) | Err(error: E)

  /** A candidate or committed node pair `(n1, n2, s)`: a node of the first
      network, a node of the second, and the similarity stored with them. */
  datatype Pair = Pair(n1: nat, n2: nat, score: real)

  /** No node of either network occurs in two entries of `ps`. */
  ghost predicate OneToOne(ps: seq<Pair>) {
    forall i, j :: 0 <= i < j < |ps| ==> ps[i].n1 != ps[j].n1 && ps[i].n2 != ps[j].n2
  }

  /** The first-network nodes of a pair list. */
  function Firsts(ps: seq<Pair>): set<nat> {
    set p | p in ps :: p.n1
  }

  /** The second-network nodes of a pair list. */
  function Seconds(ps: seq<Pair>): set<nat> {
    set p | p in ps :: p.n2
  }

  /** `a` is `b` with some entries left out, the rest in their original order. */
  ghost predicate IsSubsequence<T>(a: seq<T>, b: seq<T>)
    decreases |b|
  {
    if a == [] then true
    else if b == [] then false
    else (a[0] == b[0] && IsSubsequence(a[1..], b[1..])) || IsSubsequence(a, b[1..])
  }

  lemma {:induction false} SubsequenceRefl<T>(a: seq<T>)
    ensures IsSubsequence(a, a)
    decreases |a|
  {
    if a != [] {
      SubsequenceRefl(a[1..]);
    }
  }

  lemma {:induction false} SubsequenceMembers<T>(a: seq<T>, b: seq<T>)
    requires IsSubsequence(a, b)
    ensures forall x :: x in a ==> x in b
    decreases |b|
  {
    if a != [] && b != [] {
      assert a == [a[0]] + a[1..] && b == [b[0]] + b[1..];
      if a[0] == b[0] && IsSubsequence(a[1..], b[1..]) {
        SubsequenceMembers(a[1..], b[1..]);
      } else {
        SubsequenceMembers(a, b[1..]);
      }
    }
  }

  /** Sum of the stored scores of a pair list. */
  function ScoreSum(ps: seq<Pair>): real {
    if ps == [] then 0.0 else ps[0].score + ScoreSum(ps[1..])
  }

  lemma {:induction false} ScoreSumAppend(a: seq<Pair>, b: seq<Pair>)
    ensures ScoreSum(a + b) == ScoreSum(a) + ScoreSum(b)
    decreases |a|
  {
    if a == [] {
      assert a + b == b;
    } else {
      assert (a + b)[1..] == a[1..] + b;
      ScoreSumAppend(a[1..], b);
    }
  }

  /** Python's `list.remove(x)`: drop the first entry equal to `x`. */
  function RemoveFirst<T(==)>(s: seq<T>, x: T): seq<T> {
    if s == [] then []
    else if s[0] == x then s[1..]
    else [s[0]] + RemoveFirst(s[1..], x)
  }

  /** `remove` drops exactly one copy of a present entry and leaves a list
      without it unchanged. */
  lemma {:induction false} RemoveFirstCount<T>(s: seq<T>, x: T)
    ensures x in s ==> |RemoveFirst(s, x)| == |s| - 1 && multiset(RemoveFirst(s, x)) == multiset(s) - multiset{x}
    ensures x !in s ==> RemoveFirst(s, x) == s
    decreases |s|
  {
    if s != [] {
      assert s == [s[0]] + s[1..];
      if s[0] != x {
        RemoveFirstCount(s[1..], x);
      }
    }
  }

  lemma {:induction false} RemoveFirstSubsequence<T>(s: seq<T>, x: T)
    ensures IsSubsequence(RemoveFirst(s, x), s)
    decreases |s|
  {
    if s != [] {
      if s[0] == x {
        SubsequenceRefl(s[1..]);
        SubsequenceSkip(s[1..], s);
      } else {
        RemoveFirstSubsequence(s[1..], x);
      }
    }
  }

  lemma {:induction false} SubsequenceSkip<T>(a: seq<T>, b: seq<T>)
    requires b != [] && IsSubsequence(a, b[1..])
    ensures IsSubsequence(a, b)
  {
  }

  lemma {:induction false} SubsequenceTrans<T>(a: seq<T>, b: seq<T>, c: seq<T>)
    requires IsSubsequence(a, b) && IsSubsequence(b, c)
    ensures IsSubsequence(a, c)
    decreases |c|
  {
    if a != [] {
      assert b != [] && c != [];
      if b[0] == c[0] && IsSubsequence(b[1..], c[1..]) {
        if a[0] == b[0] && IsSubsequence(a[1..], b[1..]) {
          SubsequenceTrans(a[1..], b[1..], c[1..]);
        } else {
          SubsequenceTrans(a, b[1..], c[1..]);
        }
      } else {
        SubsequenceTrans(a, b, c[1..]);
      }
    }
  }

  /** Appending the same entry to both sides keeps a subsequence. */
  lemma {:induction false} SubsequenceSnoc<T>(a: seq<T>, b: seq<T>, x: T)
    requires IsSubsequence(a, b)
    ensures IsSubsequence(a + [x], b + [x])
    decreases |b|
  {
    if a == [] {
      assert a + [x] == [x];
      SubsequenceRefl([x]);
      SubsequenceAppendRight([x], [x], b);
    } else {
      assert b != [];
      assert (a + [x])[0] == a[0] && (a + [x])[1..] == a[1..] + [x];
      assert (b + [x])[0] == b[0] && (b + [x])[1..] == b[1..] + [x];
      if a[0] == b[0] && IsSubsequence(a[1..], b[1..]) {
        SubsequenceSnoc(a[1..], b[1..], x);
      } else {
        SubsequenceSnoc(a, b[1..], x);
      }
    }
  }

  /** Entries put in front of the longer sequence can be skipped. */
  lemma {:induction false} SubsequenceAppendRight<T>(a: seq<T>, b: seq<T>, pre: seq<T>)
    requires IsSubsequence(a, b)
    ensures IsSubsequence(a, pre + b)
    decreases |pre|
  {
    if pre == [] {
      assert pre + b == b;
    } else {
      SubsequenceAppendRight(a, b, pre[1..]);
      assert (pre + b)[1..] == pre[1..] + b;
      SubsequenceSkip(a, pre + b);
    }
  }

  /** Appending an entry to the longer sequence keeps a subsequence. */
  lemma {:induction false} SubsequenceExtend<T>(a: seq<T>, b: seq<T>, x: T)
    requires IsSubsequence(a, b)
    ensures IsSubsequence(a, b + [x])
    decreases |b|
  {
    if a != [] {
      assert b != [];
      assert (b + [x])[0] == b[0] && (b + [x])[1..] == b[1..] + [x];
      if a[0] == b[0] && IsSubsequence(a[1..], b[1..]) {
        SubsequenceExtend(a[1..], b[1..], x);
      } else {
        SubsequenceExtend(a, b[1..], x);
      }
    }
  }

  /** A one-to-one list uses as many nodes on each side as it has pairs. */
  lemma {:induction false} OneToOneCounts(ps: seq<Pair>)
    requires OneToOne(ps)
    ensures |Firsts(ps)| == |ps| && |Seconds(ps)| == |ps|
    decreases |ps|
  {
    if ps != [] {
      var m := |ps| - 1;
      var pre := ps[..m];
      assert OneToOne(pre) by {
        forall i, j | 0 <= i < j < |pre| ensures pre[i].n1 != pre[j].n1 && pre[i].n2 != pre[j].n2 {
          assert pre[i] == ps[i] && pre[j] == ps[j];
        }
      }
      OneToOneCounts(pre);
      assert ps == pre + [ps[m]];
      FirstsSnoc(pre, ps[m]);
      LastIsNew(ps);
    }
  }

  /** In a one-to-one list the last pair's nodes are not used before it. */
  lemma LastIsNew(ps: seq<Pair>)
    requires OneToOne(ps) && ps != []
    ensures ps[|ps| - 1].n1 !in Firsts(ps[..|ps| - 1])
    ensures ps[|ps| - 1].n2 !in Seconds(ps[..|ps| - 1])
  {
    var m := |ps| - 1;
    forall p | p in ps[..m] ensures p.n1 != ps[m].n1 && p.n2 != ps[m].n2 {
      var k :| 0 <= k < m && ps[..m][k] == p;
      assert ps[k] == p;
    }
  }

  lemma FirstsSnoc(ps: seq<Pair>, x: Pair)
    ensures Firsts(ps + [x]) == Firsts(ps) + {x.n1}
    ensures Seconds(ps + [x]) == Seconds(ps) + {x.n2}
  {
    assert forall p :: p in ps + [x] <==> p in ps || p == x;
  }

  /** Appending a pair with two unused nodes keeps a list one-to-one. */
  lemma OneToOneSnoc(ps: seq<Pair>, c: Pair)
    requires OneToOne(ps) && c.n1 !in Firsts(ps) && c.n2 !in Seconds(ps)
    ensures OneToOne(ps + [c])
  {
    var g := ps + [c];
    forall i, j | 0 <= i < j < |g| ensures g[i].n1 != g[j].n1 && g[i].n2 != g[j].n2 {
      assert g[i] == ps[i];
      if j == |ps| {
        assert ps[i] in ps;
      } else {
        assert g[j] == ps[j];
      }
    }
  }

  /** A subset of {0..n-1} with n members is all of it. */
  lemma SubsetFull(s: set<nat>, n: nat)
    requires forall x :: x in s ==> x < n
    requires |s| == n
    ensures s == Range(n)
  {
    RangeSize(n);
    var rest := Range(n) - s;
    assert Range(n) == s + rest;
    assert s * rest == {};
    assert |Range(n)| == |s| + |rest|;
    assert rest == {};
  }

  /** Leaving pairs out keeps a one-to-one list one-to-one. */
  lemma {:induction false} SubsequenceOneToOne(a: seq<Pair>, b: seq<Pair>)
    requires IsSubsequence(a, b)
    ensures OneToOne(b) ==> OneToOne(a)
    decreases |b|
  {
    if a != [] && OneToOne(b) {
      assert b != [];
      assert OneToOne(b[1..]) by {
        forall i, j | 0 <= i < j < |b[1..]| ensures b[1..][i].n1 != b[1..][j].n1 && b[1..][i].n2 != b[1..][j].n2 {
          assert b[1..][i] == b[i + 1] && b[1..][j] == b[j + 1];
        }
      }
      if a[0] == b[0] && IsSubsequence(a[1..], b[1..]) {
        SubsequenceOneToOne(a[1..], b[1..]);
        SubsequenceMembers(a[1..], b[1..]);
        forall i, j | 0 <= i < j < |a| ensures a[i].n1 != a[j].n1 && a[i].n2 != a[j].n2 {
          assert a[j] == a[1..][j - 1];
          assert a[1..][j - 1] in a[1..];
          if i > 0 {
            assert a[i] == a[1..][i - 1];
          } else {
            var k :| 0 <= k < |b[1..]| && b[1..][k] == a[j];
            assert b[k + 1] == a[j];
          }
        }
      } else {
        SubsequenceOneToOne(a, b[1..]);
      }
    }
  }

  /** Removing one pair takes its score out of the sum. */
  lemma {:induction false} ScoreSumRemove(ps: seq<Pair>, x: Pair)
    requires x in ps
    ensures ScoreSum(RemoveFirst(ps, x)) == ScoreSum(ps) - x.score
    decreases |ps|
  {
    if ps[0] != x {
      ScoreSumRemove(ps[1..], x);
      assert ([ps[0]] + RemoveFirst(ps[1..], x))[1..] == RemoveFirst(ps[1..], x);
    }
  }

  /** Removing a pair from a one-to-one list frees exactly its two nodes. */
  lemma RemoveOneToOne(ps: seq<Pair>, x: Pair)
    requires OneToOne(ps) && x in ps
    ensures OneToOne(RemoveFirst(ps, x))
    ensures Firsts(RemoveFirst(ps, x)) == Firsts(ps) - {x.n1}
    ensures Seconds(RemoveFirst(ps, x)) == Seconds(ps) - {x.n2}
    ensures forall y :: y in RemoveFirst(ps, x) <==> y in ps && y != x
  {
    var r := RemoveFirst(ps, x);
    RemoveFirstSubsequence(ps, x);
    SubsequenceOneToOne(r, ps);
    RemoveMembers(ps, x);
    OthersDiffer(ps, x);
  }

  lemma OthersDiffer(ps: seq<Pair>, x: Pair)
    requires OneToOne(ps) && x in ps
    ensures forall y :: y in ps && y != x ==> y.n1 != x.n1 && y.n2 != x.n2
  {
    forall y | y in ps && y != x ensures y.n1 != x.n1 && y.n2 != x.n2 {
      var j :| 0 <= j < |ps| && ps[j] == y;
      var k :| 0 <= k < |ps| && ps[k] == x;
    }
  }

  lemma RemoveMembers(ps: seq<Pair>, x: Pair)
    requires OneToOne(ps) && x in ps
    ensures forall y :: y in RemoveFirst(ps, x) <==> y in ps && y != x
  {
    var r := RemoveFirst(ps, x);
    var k :| 0 <= k < |ps| && ps[k] == x;
    SingleOccurrence(ps, k);
    RemoveFirstCount(ps, x);
    forall y ensures y in r <==> y in ps && y != x {
      assert y in r <==> y in multiset(r);
      assert y in ps <==> y in multiset(ps);
    }
  }

  /** In a one-to-one list every entry occurs once. */
  lemma {:induction false} SingleOccurrence(ps: seq<Pair>, k: nat)
    requires OneToOne(ps) && k < |ps|
    ensures multiset(ps)[ps[k]] == 1
    decreases |ps|
  {
    var m := |ps| - 1;
    var pre := ps[..m];
    assert ps == pre + [ps[m]];
    assert OneToOne(pre) by {
      forall i, j | 0 <= i < j < |pre| ensures pre[i].n1 != pre[j].n1 && pre[i].n2 != pre[j].n2 {
        assert pre[i] == ps[i] && pre[j] == ps[j];
      }
    }
    if k < m {
      SingleOccurrence(pre, k);
      assert pre[k] == ps[k];
      assert ps[m] != ps[k];
    } else {
      assert ps[m] !in pre by {
        LastIsNew(ps);
      }
    }
  }

  /** Number of entries equal to `x`. */
  function CountOf<T(==)>(s: seq<T>, x: T): nat {
    if s == [] then 0 else (if s[0] == x then 1 else 0) + CountOf(s[1..], x)
  }

  lemma {:induction false} CountOfAppend<T>(s: seq<T>, t: seq<T>, x: T)
    ensures CountOf(s + t, x) == CountOf(s, x) + CountOf(t, x)
    decreases |s|
  {
    if s == [] {
      assert s + t == t;
    } else {
      assert (s + t)[1..] == s[1..] + t;
      CountOfAppend(s[1..], t, x);
    }
  }

  /** Overwriting one entry moves one unit of count from the old value to
      the new one. */
  lemma {:induction false} CountOfUpdate<T>(s: seq<T>, i: nat, v: T, w: T)
    requires i < |s|
    ensures CountOf(s[i := v], w) == CountOf(s, w) - (if s[i] == w then 1 else 0) + (if v == w then 1 else 0)
    decreases i
  {
    if i > 0 {
      assert s[i := v][1..] == s[1..][i - 1 := v];
      CountOfUpdate(s[1..], i - 1, v, w);
    } else {
      assert s[i := v][1..] == s[1..];
    }
  }

  /** A value occurs in a sequence exactly when its count is positive. */
  lemma {:induction false} CountOfPositive<T>(s: seq<T>, x: T)
    ensures CountOf(s, x) > 0 <==> x in s
    decreases |s|
  {
    if s != [] {
      CountOfPositive(s[1..], x);
      assert s == [s[0]] + s[1..];
    }
  }

  lemma CardAdd<T>(a: set<T>, x: T, b: set<T>)
    requires x !in a && b == a + {x}
    ensures |b| == |a| + 1
  {
  }

  lemma PrefixAll<T>(s: seq<T>)
    ensures s[..|s|] == s
  {
  }

  /** The set {0, ..., n-1}. */
  function Range(n: nat): (r: set<nat>)
    ensures forall i: int :: i in r <==> 0 <= i < n
  {
    if n == 0 then {} else Range(n - 1) + {n - 1}
  }

  lemma {:induction false} RangeSize(n: nat)
    ensures |Range(n)| == n
  {
    if n == 0 {
      assert Range(n) == {};
    } else {
      RangeSize(n - 1);
      CardAdd(Range(n - 1), n - 1, Range(n));
    }
  }

  /** A set of indices below `n` with fewer than `n` members misses one of them. */
  lemma MissingIndex(s: set<nat>, n: nat) returns (x: nat)
    requires forall i :: i in s ==> i < n
    requires |s| < n
    ensures x < n && x !in s
  {
    var missing := Range(n) - s;
    if missing == {} {
      assert Range(n) <= s;
      RangeSize(n);
      SubsetSize(Range(n), s);
    }
    assert missing != {};
    x :| x in missing;
  }

  lemma {:induction false} SubsetSize<T>(a: set<T>, b: set<T>)
    requires a <= b
    ensures |a| <= |b|
  {
    assert b == a + (b - a);
  }

  /** The set of entries of a sequence. */
  function Elements<T>(s: seq<T>): set<T> {
    set x | x in s
  }

  lemma {:induction false} DistinctElements<T>(s: seq<T>)
    requires forall a, b :: 0 <= a < b < |s| ==> s[a] != s[b]
    ensures |Elements(s)| == |s|
    decreases |s|
  {
    if s != [] {
      var m := |s| - 1;
      DistinctElements(s[..m]);
      assert Elements(s) == Elements(s[..m]) + {s[m]};
      assert s[m] !in Elements(s[..m]);
    }
  }

  /** No entry occurs twice. */
  predicate Distinct<T(==)>(s: seq<T>) {
    forall a, b :: 0 <= a < b < |s| ==> s[a] != s[b]
  }

  /** Every entry is below `n` (a valid index into something of length `n`). */
  predicate Below(s: seq<nat>, n: nat) {
    forall i :: 0 <= i < |s| ==> s[i] < n
  }

  /** `n` distinct entries below `n` cover every index below `n`. */
  lemma DistinctBelowCovers(s: seq<nat>, n: nat)
    requires |s| == n && Distinct(s) && Below(s, n)
    ensures forall x :: 0 <= x < n ==> x in s
  {
    DistinctElements(s);
    assert forall y :: y in Elements(s) ==> y < n;
    SubsetFull(Elements(s), n);
    forall x | 0 <= x < n ensures x in s {
      assert x in Range(n);
    }
  }

  /** True when every flag is set. */
  predicate AllSet(flags: seq<bool>) {
    forall i :: 0 <= i < |flags| ==> flags[i]
  }

  /** Number of flags still unset. */
  function CountUnset(flags: seq<bool>): (r: nat)
    ensures r <= |flags|
    ensures r == 0 <==> AllSet(flags)
  {
    if flags == [] then 0
    else
      var rest := CountUnset(flags[1..]);
      assert AllSet(flags) <==> flags[0] && AllSet(flags[1..]) by {
        if flags[0] && AllSet(flags[1..]) {
          forall i | 0 <= i < |flags| ensures flags[i] {
            if i > 0 { assert flags[i] == flags[1..][i - 1]; }
          }
        }
      }
      (if flags[0] then 0 else 1) + rest
  }

  lemma {:induction false} CountUnsetSet(flags: seq<bool>, i: nat)
    requires i < |flags| && !flags[i]
    ensures CountUnset(flags[i := true]) == CountUnset(flags) - 1
    decreases |flags|
  {
    if i > 0 {
      assert flags[i := true][1..] == flags[1..][i - 1 := true];
      CountUnsetSet(flags[1..], i - 1);
    } else {
      assert flags[i := true][1..] == flags[1..];
    }
  }
}
