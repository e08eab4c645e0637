/** The two orders the tables use: department names in Python's string
    order (`sorted(departments.keys())`), and a department's candidates by
    votes, highest first, earlier entries first among equal votes
    (`sorted(candidates, key=votes, reverse=True)`, a stable sort). */
module Ordering {
  import opened Snapshot

  /** `a < b` on Python strings: lexicographic by code point, a proper
      prefix before the longer string. */
  predicate Below(a: string, b: string)
  {
    if |a| == 0 then |b| > 0
    else |b| > 0 && (a[0] < b[0] || (a[0] == b[0] && Below(a[1..], b[1..])))
  }

  lemma {:induction false} BelowIrreflexive(a: string)
    ensures !Below(a, a)
  {
    if |a| > 0 { BelowIrreflexive(a[1..]); }
  }

  lemma {:induction false} BelowTotal(a: string, b: string)
    requires a != b
    ensures Below(a, b) || Below(b, a)
  {
    if |a| > 0 && |b| > 0 && a[0] == b[0] {
      assert a == [a[0]] + a[1..] && b == [b[0]] + b[1..];
      BelowTotal(a[1..], b[1..]);
    }
  }

  lemma {:induction false} BelowAsymmetric(a: string, b: string)
    requires Below(a, b)
    ensures !Below(b, a)
  {
    if |a| > 0 && a[0] == b[0] { BelowAsymmetric(a[1..], b[1..]); }
  }

  lemma {:induction false} BelowTransitive(a: string, b: string, c: string)
    requires Below(a, b) && Below(b, c)
    ensures Below(a, c)
  {
    if |a| > 0 && a[0] == b[0] && b[0] == c[0] {
      BelowTransitive(a[1..], b[1..], c[1..]);
    }
  }

  /** Strictly ascending in string order (keys of a mapping are distinct). */
  predicate Ascending(s: seq<string>)
  {
    forall i, j :: 0 <= i < j < |s| ==> Below(s[i], s[j])
  }

  function InsertName(x: string, s: seq<string>): (r: seq<string>)
    ensures multiset(r) == multiset(s) + multiset{x}
  {
    if s == [] then [x]
    else if Below(x, s[0]) then [x] + s
    else
      assert s == [s[0]] + s[1..];
      [s[0]] + InsertName(x, s[1..])
  }

  /** `sorted(names)` */
  function SortNames(s: seq<string>): (r: seq<string>)
    ensures multiset(r) == multiset(s)
  {
    if s == [] then []
    else
      assert s == [s[0]] + s[1..];
      InsertName(s[0], SortNames(s[1..]))
  }

  /** Inserting a name above a bound into names above it keeps them above it. */
  lemma {:induction false} InsertNameAbove(lo: string, x: string, t: seq<string>)
    requires Below(lo, x) && forall k :: 0 <= k < |t| ==> Below(lo, t[k])
    ensures forall k :: 0 <= k < |InsertName(x, t)| ==> Below(lo, InsertName(x, t)[k])
  {
    if t != [] && !Below(x, t[0]) {
      InsertNameAbove(lo, x, t[1..]);
      assert InsertName(x, t) == [t[0]] + InsertName(x, t[1..]);
    }
  }

  lemma {:induction false} InsertNameAscending(x: string, s: seq<string>)
    requires Ascending(s) && x !in s
    ensures Ascending(InsertName(x, s))
  {
    if s != [] && !Below(x, s[0]) {
      var t := s[1..];
      assert Ascending(t);
      assert x !in t;
      InsertNameAscending(x, t);
      BelowTotal(x, s[0]);
      assert forall k :: 0 <= k < |t| ==> t[k] == s[k + 1];
      InsertNameAbove(s[0], x, t);
    } else if s != [] {
      forall k | 0 < k < |s| ensures Below(x, s[k]) {
        BelowTransitive(x, s[0], s[k]);
      }
    }
  }

  /** Sorting distinct names yields the same names in strictly ascending
      order. */
  lemma {:induction false} SortNamesAscending(s: seq<string>)
    requires Distinct(s)
    ensures Ascending(SortNames(s))
  {
    if s != [] {
      var t := s[1..];
      assert Distinct(t);
      SortNamesAscending(t);
      assert forall m :: 0 <= m < |t| ==> t[m] == s[m + 1] != s[0];
      assert s[0] !in multiset(SortNames(t));
      InsertNameAscending(s[0], SortNames(t));
    }
  }

  /** Candidate `i` comes before candidate `j` in the stable descending
      sort: more votes, or as many votes and an earlier position. */
  predicate Precedes(cands: seq<Candidate>, i: nat, j: nat)
  {
    && i < |cands| && j < |cands|
    && (|| VotesOrZero(cands[i]) > VotesOrZero(cands[j])
        || (VotesOrZero(cands[i]) == VotesOrZero(cands[j]) && i < j))
  }

  /** A sequence of candidate positions in stable descending order. */
  predicate RankedOrder(cands: seq<Candidate>, order: seq<nat>)
  {
    && (forall k :: 0 <= k < |order| ==> order[k] < |cands|)
    && (forall k, m :: 0 <= k < m < |order| ==> Precedes(cands, order[k], order[m]))
  }

  function InsertIndex(cands: seq<Candidate>, i: nat, s: seq<nat>): (r: seq<nat>)
    ensures |r| == |s| + 1
    ensures forall x :: x in r <==> x == i || x in s
  {
    if s == [] then [i]
    else if Precedes(cands, i, s[0]) then [i] + s
    else
      assert s == [s[0]] + s[1..];
      [s[0]] + InsertIndex(cands, i, s[1..])
  }

  /** The positions `0 .. n-1` of `cands` in stable descending order of
      votes, built by inserting each position after the earlier ones. */
  function RankOrder(cands: seq<Candidate>, n: nat): (order: seq<nat>)
    ensures |order| == n
    ensures forall j: nat :: j in order <==> j < n
  {
    if n == 0 then [] else InsertIndex(cands, n - 1, RankOrder(cands, n - 1))
  }

  /** An element that precedes the remaining tail and the inserted position
      precedes everything the insertion produced. */
  lemma PrecedesInserted(cands: seq<Candidate>, i: nat, s: seq<nat>, r: seq<nat>)
    requires s != [] && RankedOrder(cands, s) && Precedes(cands, s[0], i)
    requires forall x :: x in r ==> x == i || x in s[1..]
    ensures forall k :: 0 <= k < |r| ==> Precedes(cands, s[0], r[k])
  {
    forall k | 0 <= k < |r| ensures Precedes(cands, s[0], r[k]) {
      assert r[k] in r;
      if r[k] != i {
        assert r[k] in s[1..];
        var m :| 1 <= m < |s| && s[m] == r[k];
      }
    }
  }

  lemma {:induction false} InsertIndexRanked(cands: seq<Candidate>, i: nat, s: seq<nat>)
    requires i < |cands| && RankedOrder(cands, s) && i !in s
    ensures RankedOrder(cands, InsertIndex(cands, i, s))
  {
    if s != [] && !Precedes(cands, i, s[0]) {
      var t := s[1..];
      assert RankedOrder(cands, t);
      InsertIndexRanked(cands, i, t);
      var r := InsertIndex(cands, i, t);
      assert s[0] != i;
      assert Precedes(cands, s[0], i);
      PrecedesInserted(cands, i, s, r);
      RankedCons(cands, s[0], r);
      assert InsertIndex(cands, i, s) == [s[0]] + r;
    }
  }

  /** A position that precedes every position of a ranked order can lead it. */
  lemma RankedCons(cands: seq<Candidate>, h: nat, r: seq<nat>)
    requires h < |cands| && RankedOrder(cands, r)
    requires forall k :: 0 <= k < |r| ==> Precedes(cands, h, r[k])
    ensures RankedOrder(cands, [h] + r)
  {
    var s := [h] + r;
    assert forall k :: 0 < k < |s| ==> s[k] == r[k - 1];
  }

  /** The order is the stable descending one. */
  lemma {:induction false} RankOrderRanked(cands: seq<Candidate>, n: nat)
    requires n <= |cands|
    ensures RankedOrder(cands, RankOrder(cands, n))
  {
    if n > 0 {
      RankOrderRanked(cands, n - 1);
      InsertIndexRanked(cands, n - 1, RankOrder(cands, n - 1));
    }
  }
}
