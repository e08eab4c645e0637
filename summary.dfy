/** The summary table: one row per followed candidate with the totals and
    their shares of all followed votes, ranked by projected votes. */
module Summary {
  import opened Snapshot
  import opened Tables

  /** One row of `summary_df`. */
  datatype SummaryRow = SummaryRow(
    candidate: string,
    current: nat,
    currentShare: real,
    projected: nat,
    projectedShare: real)

  /** A summary row with its 1-based rank (the index after `reset_index`
      and `index + 1`). */
  datatype Ranked = Ranked(rank: nat, row: SummaryRow)

  /** `part / whole * 100 if whole > 0 else 0` */
  function Share(part: nat, whole: nat): (r: real)
    ensures whole == 0 ==> r == 0.0
    ensures whole > 0 ==> r * whole as real == part as real * 100.0
    ensures whole > 0 && part <= whole ==> 0.0 <= r <= 100.0
  {
    if whole > 0 then part as real / whole as real * 100.0 else 0.0
  }

  /** The names in order of first occurrence: the keys of a mapping built
      from them, in its insertion order. */
  function Dedup(s: seq<string>): (r: seq<string>)
    ensures Distinct(r)
    ensures forall x :: x in r <==> x in s
  {
    if s == [] then []
    else
      var n := |s| - 1;
      var prev := Dedup(s[..n]);
      assert forall x :: x in s <==> x in s[..n] || x == s[n];
      if s[n] in prev then prev else prev + [s[n]]
  }

  /** Distinct names are their own first occurrences. */
  lemma {:induction false} DedupDistinct(s: seq<string>)
    requires Distinct(s)
    ensures Dedup(s) == s
  {
    if s != [] {
      var n := |s| - 1;
      assert Distinct(s[..n]);
      DedupDistinct(s[..n]);
      assert s[n] !in s[..n];
      assert s[..n] + [s[n]] == s;
    }
  }

  /** One column of a tally: the projected votes or the current ones. */
  function Field(t: Tally, projected: bool): nat
  {
    if projected then t.projected else t.current
  }

  /** `sum(t[field] for t in totals.values())` over the given keys. */
  function SumOver(names: seq<string>, totals: map<string, Tally>, projected: bool): (sum: nat)
    requires forall c :: c in names ==> c in totals
    ensures forall k :: 0 <= k < |names| ==> Field(totals[names[k]], projected) <= sum
  {
    if names == [] then 0
    else
      var n := |names| - 1;
      assert forall k :: 0 <= k < n ==> names[..n][k] == names[k];
      SumOver(names[..n], totals, projected) + Field(totals[names[n]], projected)
  }

  /** The sum of one column over every key of the totals mapping, whose keys
      are the followed names in order of first occurrence. */
  function ColumnTotal(top: seq<string>, totals: map<string, Tally>, projected: bool): (whole: nat)
    requires forall c :: c in top ==> c in totals
    ensures forall c :: c in top ==> Field(totals[c], projected) <= whole
  {
    var keys := Dedup(top);
    assert forall c :: c in top ==> exists k :: 0 <= k < |keys| && keys[k] == c;
    SumOver(keys, totals, projected)
  }

  /** The summary row of one followed name. */
  function SummaryRowFor(cand: string, totals: map<string, Tally>, totalCurrent: nat, totalProjected: nat): (row: SummaryRow)
    requires cand in totals
    ensures row.candidate == cand
    ensures row.current == totals[cand].current && row.projected == totals[cand].projected
    ensures totalCurrent == 0 ==> row.currentShare == 0.0
    ensures totalCurrent > 0 ==> row.currentShare * totalCurrent as real == row.current as real * 100.0
    ensures totalProjected == 0 ==> row.projectedShare == 0.0
    ensures totalProjected > 0 ==> row.projectedShare * totalProjected as real == row.projected as real * 100.0
  {
    var t := totals[cand];
    SummaryRow(cand, t.current, Share(t.current, totalCurrent), t.projected, Share(t.projected, totalProjected))
  }

  /** The summary rows of the given names against the given totals. */
  function SummaryRowsWith(names: seq<string>, totals: map<string, Tally>, tc: nat, tp: nat): (rows: seq<SummaryRow>)
    requires forall c :: c in names ==> c in totals
    ensures |rows| == |names|
  {
    seq(|names|, k requires 0 <= k < |names| => SummaryRowFor(names[k], totals, tc, tp))
  }

  /** `summary_rows`: one row per followed name, in the followed order. */
  function SummaryRows(top: seq<string>, totals: map<string, Tally>): (rows: seq<SummaryRow>)
    requires forall c :: c in top ==> c in totals
    ensures |rows| == |top|
  {
    SummaryRowsWith(top, totals, ColumnTotal(top, totals, false), ColumnTotal(top, totals, true))
  }

  // ---------------------------------------------------------------------
  // Ranking
  // ---------------------------------------------------------------------

  /** Projected votes never increase down the table. */
  predicate DescendingProjected(rows: seq<SummaryRow>)
  {
    forall i, j :: 0 <= i < j < |rows| ==> rows[i].projected >= rows[j].projected
  }

  function InsertByProjected(x: SummaryRow, s: seq<SummaryRow>): (r: seq<SummaryRow>)
    ensures multiset(r) == multiset(s) + multiset{x}
  {
    if s == [] || x.projected >= s[0].projected then [x] + s
    else
      assert s == [s[0]] + s[1..];
      [s[0]] + InsertByProjected(x, s[1..])
  }

  /** `sort_values('Votos Proyectados', ascending=False)`. */
  function SortByProjected(s: seq<SummaryRow>): (r: seq<SummaryRow>)
    ensures multiset(r) == multiset(s)
  {
    if s == [] then []
    else
      assert s == [s[0]] + s[1..];
      InsertByProjected(s[0], SortByProjected(s[1..]))
  }

  /** Inserting a row at or below a bound into rows at or below it keeps
      them at or below it. */
  lemma {:induction false} InsertByProjectedBelow(hi: nat, x: SummaryRow, t: seq<SummaryRow>)
    requires x.projected <= hi && forall k :: 0 <= k < |t| ==> t[k].projected <= hi
    ensures forall k :: 0 <= k < |InsertByProjected(x, t)| ==> InsertByProjected(x, t)[k].projected <= hi
  {
    if t != [] && x.projected < t[0].projected {
      InsertByProjectedBelow(hi, x, t[1..]);
      assert InsertByProjected(x, t) == [t[0]] + InsertByProjected(x, t[1..]);
    }
  }

  lemma {:induction false} InsertByProjectedDescending(x: SummaryRow, s: seq<SummaryRow>)
    requires DescendingProjected(s)
    ensures DescendingProjected(InsertByProjected(x, s))
  {
    if s != [] && x.projected < s[0].projected {
      var t := s[1..];
      assert DescendingProjected(t);
      InsertByProjectedDescending(x, t);
      assert forall k :: 0 <= k < |t| ==> t[k] == s[k + 1];
      InsertByProjectedBelow(s[0].projected, x, t);
    }
  }

  /** The sort yields the same rows with projected votes descending. */
  lemma {:induction false} SortByProjectedDescending(s: seq<SummaryRow>)
    ensures DescendingProjected(SortByProjected(s))
  {
    if s != [] {
      SortByProjectedDescending(s[1..]);
      InsertByProjectedDescending(s[0], SortByProjected(s[1..]));
    }
  }

  /** The rows of a ranked summary, without their ranks. */
  function RowsOf(summary: seq<Ranked>): (rows: seq<SummaryRow>)
    ensures |rows| == |summary| && forall k :: 0 <= k < |summary| ==> rows[k] == summary[k].row
  {
    seq(|summary|, k requires 0 <= k < |summary| => summary[k].row)
  }

  /** `summary_df` as the dashboard shows it: the given rows, rearranged so
      that projected votes never increase, ranked 1, 2, 3 from the top.
      Rows with equal projected votes may come in either order. */
  predicate IsRankedSummary(summary: seq<Ranked>, rows: seq<SummaryRow>)
  {
    && (forall k :: 0 <= k < |summary| ==> summary[k].rank == k + 1)
    && multiset(RowsOf(summary)) == multiset(rows)
    && DescendingProjected(RowsOf(summary))
  }

  /** Builds `summary_rows` in a loop over the followed names, then sorts
      and ranks them. */
  method BuildSummary(top: seq<string>, totals: map<string, Tally>) returns (summary: seq<Ranked>)
    requires forall c :: c in top ==> c in totals
    ensures IsRankedSummary(summary, SummaryRows(top, totals))
    ensures |summary| == |top|
  {
    var totalProjected := ColumnTotal(top, totals, true);
    var totalCurrent := ColumnTotal(top, totals, false);
    var rows := [];
    var k := 0;
    while k < |top|
      invariant 0 <= k <= |top|
      invariant rows == SummaryRowsWith(top[..k], totals, totalCurrent, totalProjected)
    {
      var cand := top[k];
      var t := totals[cand];
      var currentShare := Share(t.current, totalCurrent);
      var projectedShare := Share(t.projected, totalProjected);
      SummaryRowsWithStep(top, k, totals, totalCurrent, totalProjected);
      rows := rows + [SummaryRow(cand, t.current, currentShare, t.projected, projectedShare)];
      k := k + 1;
    }
    assert top[..k] == top;
    var sorted := SortByProjected(rows);
    SortByProjectedDescending(rows);
    summary := Rank(sorted);
    assert |sorted| == |top| by {
      assert |multiset(sorted)| == |multiset(rows)|;
    }
  }

  /** The summary rows of one more followed name. */
  lemma SummaryRowsWithStep(top: seq<string>, k: nat, totals: map<string, Tally>, tc: nat, tp: nat)
    requires k < |top| && forall c :: c in top ==> c in totals
    ensures forall c :: c in top[..k + 1] ==> c in totals
    ensures SummaryRowsWith(top[..k + 1], totals, tc, tp)
      == SummaryRowsWith(top[..k], totals, tc, tp) + [SummaryRowFor(top[k], totals, tc, tp)]
  {
    assert top[..k + 1][..k] == top[..k];
  }

  /** `summary_df.index = range(1, len(summary_df) + 1)`: the rows keep
      their order and are numbered from 1. */
  function Rank(sorted: seq<SummaryRow>): (summary: seq<Ranked>)
    ensures RowsOf(summary) == sorted
    ensures forall k :: 0 <= k < |summary| ==> summary[k].rank == k + 1
  {
    seq(|sorted|, i requires 0 <= i < |sorted| => Ranked(i + 1, sorted[i]))
  }

  // ---------------------------------------------------------------------
  // Shares
  // ---------------------------------------------------------------------

  function RowShare(row: SummaryRow, projected: bool): real
  {
    if projected then row.projectedShare else row.currentShare
  }

  function RowVotes(row: SummaryRow, projected: bool): nat
  {
    if projected then row.projected else row.current
  }

  /** The sum of one share column. */
  function ShareSum(rows: seq<SummaryRow>, projected: bool): real
  {
    if rows == [] then 0.0 else RowShare(rows[0], projected) + ShareSum(rows[1..], projected)
  }

  /** The sum of one vote column. */
  function VotesSum(rows: seq<SummaryRow>, projected: bool): nat
  {
    if rows == [] then 0 else RowVotes(rows[0], projected) + VotesSum(rows[1..], projected)
  }

  /** Taking one row out of the middle takes its share out of the sum. */
  lemma {:induction false} ShareSumRemove(rows: seq<SummaryRow>, j: nat, projected: bool)
    requires j < |rows|
    ensures ShareSum(rows, projected) == RowShare(rows[j], projected) + ShareSum(rows[..j] + rows[j + 1..], projected)
  {
    if j > 0 {
      var t := rows[1..];
      ShareSumRemove(t, j - 1, projected);
      assert rows[..j] + rows[j + 1..] == [rows[0]] + (t[..j - 1] + t[j..]);
    } else {
      assert rows[..j] + rows[j + 1..] == rows[1..];
    }
  }

  /** A position holding an element of the multiset. */
  lemma IndexOf(s: seq<SummaryRow>, x: SummaryRow) returns (j: nat)
    requires x in multiset(s)
    ensures j < |s| && s[j] == x
  {
    assert x in s;
    j :| 0 <= j < |s| && s[j] == x;
  }

  lemma RemoveFirst(s: seq<SummaryRow>)
    requires s != []
    ensures multiset(s[1..]) == multiset(s) - multiset{s[0]}
  {
    assert s == [s[0]] + s[1..];
  }

  /** Taking one element out of a sequence takes it out of its multiset. */
  lemma RemoveOne(s: seq<SummaryRow>, j: nat)
    requires j < |s|
    ensures multiset(s[..j] + s[j + 1..]) == multiset(s) - multiset{s[j]}
  {
    assert s == s[..j] + [s[j]] + s[j + 1..];
  }

  /** Rearranging the rows leaves the sum of a share column unchanged. */
  lemma {:induction false} ShareSumPermutation(a: seq<SummaryRow>, b: seq<SummaryRow>, projected: bool)
    requires multiset(a) == multiset(b)
    ensures ShareSum(a, projected) == ShareSum(b, projected)
    decreases |a|
  {
    if a == [] {
      assert |b| == |multiset(b)| == 0;
    } else {
      var j := IndexOf(b, a[0]);
      var rest := b[..j] + b[j + 1..];
      RemoveOne(b, j);
      RemoveFirst(a);
      assert multiset(a[1..]) == multiset(rest);
      ShareSumPermutation(a[1..], rest, projected);
      ShareSumRemove(b, j, projected);
    }
  }

  /** Every row's share in the column is its votes over `whole`. */
  predicate SharesOf(rows: seq<SummaryRow>, projected: bool, whole: nat)
  {
    forall k :: 0 <= k < |rows| ==> RowShare(rows[k], projected) * whole as real == RowVotes(rows[k], projected) as real * 100.0
  }

  /** The first row and the remaining rows of a column over a whole. */
  lemma SharesOfRest(rows: seq<SummaryRow>, projected: bool, whole: nat)
    requires rows != [] && SharesOf(rows, projected, whole)
    ensures SharesOf(rows[1..], projected, whole)
    ensures RowShare(rows[0], projected) * whole as real == RowVotes(rows[0], projected) as real * 100.0
  {
    assert forall k :: 0 <= k < |rows| - 1 ==> rows[1..][k] == rows[k + 1];
  }

  /** Scaling distributes over one more row. */
  lemma Distribute(s: real, h: real, t: real, w: real, v: real, a: real, b: real)
    requires s == h + t && v == a + b
    requires h * w == a * 100.0 && t * w == b * 100.0
    ensures s * w == v * 100.0
  {
    assert s * w == h * w + t * w;
  }

  /** When every row's share is its votes over a common whole, the shares
      add up to the column's votes over that whole. */
  lemma {:induction false} ShareSumScaled(rows: seq<SummaryRow>, projected: bool, whole: nat)
    requires SharesOf(rows, projected, whole)
    ensures ShareSum(rows, projected) * whole as real == VotesSum(rows, projected) as real * 100.0
  {
    if rows != [] {
      var rest := rows[1..];
      SharesOfRest(rows, projected, whole);
      ShareSumScaled(rest, projected, whole);
      Distribute(ShareSum(rows, projected), RowShare(rows[0], projected), ShareSum(rest, projected), whole as real,
        VotesSum(rows, projected) as real, RowVotes(rows[0], projected) as real, VotesSum(rest, projected) as real);
    }
  }

  /** The vote columns of the summary add up to the sums over the followed
      names. */
  lemma {:induction false} SummaryVotesSum(top: seq<string>, totals: map<string, Tally>, projected: bool, tc: nat, tp: nat)
    requires forall c :: c in top ==> c in totals
    ensures VotesSum(SummaryRowsWith(top, totals, tc, tp), projected) == SumOver(top, totals, projected)
  {
    var rows := SummaryRowsWith(top, totals, tc, tp);
    if top != [] {
      var n := |top| - 1;
      SummaryVotesSum(top[..n], totals, projected, tc, tp);
      VotesSumSnoc(rows, projected);
      assert rows[..n] == SummaryRowsWith(top[..n], totals, tc, tp);
    }
  }

  lemma {:induction false} VotesSumSnoc(rows: seq<SummaryRow>, projected: bool)
    requires rows != []
    ensures VotesSum(rows, projected) == VotesSum(rows[..|rows| - 1], projected) + RowVotes(rows[|rows| - 1], projected)
  {
    if |rows| > 1 {
      VotesSumSnoc(rows[1..], projected);
      assert rows[1..][..|rows| - 2] == rows[..|rows| - 1][1..];
    }
  }

  /** One row's share of a column with a positive total is its votes over
      that total. */
  lemma RowShareAt(names: seq<string>, totals: map<string, Tally>, tc: nat, tp: nat, projected: bool, k: nat)
    requires forall c :: c in names ==> c in totals
    requires (if projected then tp else tc) > 0 && k < |names|
    ensures var row := SummaryRowsWith(names, totals, tc, tp)[k]; var whole := if projected then tp else tc;
      RowShare(row, projected) * whole as real == RowVotes(row, projected) as real * 100.0
  {
    var t := totals[names[k]];
    assert SummaryRowsWith(names, totals, tc, tp)[k] == SummaryRowFor(names[k], totals, tc, tp);
    if projected {
      assert Share(t.projected, tp) * tp as real == t.projected as real * 100.0;
    } else {
      assert Share(t.current, tc) * tc as real == t.current as real * 100.0;
    }
  }

  /** Every share of a column with a positive total is the row's votes over
      that total. */
  lemma SharesOfRowsWith(names: seq<string>, totals: map<string, Tally>, tc: nat, tp: nat, projected: bool)
    requires forall c :: c in names ==> c in totals
    requires (if projected then tp else tc) > 0
    ensures SharesOf(SummaryRowsWith(names, totals, tc, tp), projected, if projected then tp else tc)
  {
    forall k | 0 <= k < |names|
      ensures var row := SummaryRowsWith(names, totals, tc, tp)[k]; var whole := if projected then tp else tc;
        RowShare(row, projected) * whole as real == RowVotes(row, projected) as real * 100.0
    {
      RowShareAt(names, totals, tc, tp, projected, k);
    }
  }

  /** Each share of a column with a positive total is the row's votes over
      that total. */
  lemma SummaryRowShares(top: seq<string>, totals: map<string, Tally>, projected: bool)
    requires forall c :: c in top ==> c in totals
    requires ColumnTotal(top, totals, projected) > 0
    ensures SharesOf(SummaryRows(top, totals), projected, ColumnTotal(top, totals, projected))
  {
    SharesOfRowsWith(top, totals, ColumnTotal(top, totals, false), ColumnTotal(top, totals, true), projected);
  }

  /** With distinct followed names, each vote column of the summary adds up
      to the total that its shares are taken of. */
  lemma SummaryVotesTotal(top: seq<string>, totals: map<string, Tally>, projected: bool)
    requires forall c :: c in top ==> c in totals
    requires Distinct(top)
    ensures VotesSum(SummaryRows(top, totals), projected) == ColumnTotal(top, totals, projected)
  {
    DedupDistinct(top);
    SummaryVotesSum(top, totals, projected, ColumnTotal(top, totals, false), ColumnTotal(top, totals, true));
  }

  /** A sum whose product with a positive total is that total times 100 is
      100. */
  lemma CancelWhole(s: real, w: real, v: real)
    requires w > 0.0 && v == w && s * w == v * 100.0
    ensures s == 100.0
  {
    assert (s - 100.0) * w == 0.0;
  }

  /** Shares over a positive total that the vote column adds up to add up
      to 100. */
  lemma SharesAddUp(rows: seq<SummaryRow>, projected: bool, whole: nat)
    requires whole > 0 && SharesOf(rows, projected, whole) && VotesSum(rows, projected) == whole
    ensures ShareSum(rows, projected) == 100.0
  {
    ShareSumScaled(rows, projected, whole);
    CancelWhole(ShareSum(rows, projected), whole as real, VotesSum(rows, projected) as real);
  }

  /** With distinct followed names and a positive total, each share column
      of the summary adds up to 100. */
  lemma SummarySharesAddUp(top: seq<string>, totals: map<string, Tally>, projected: bool)
    requires forall c :: c in top ==> c in totals
    requires Distinct(top) && ColumnTotal(top, totals, projected) > 0
    ensures ShareSum(SummaryRows(top, totals), projected) == 100.0
  {
    SummaryRowShares(top, totals, projected);
    SummaryVotesTotal(top, totals, projected);
    SharesAddUp(SummaryRows(top, totals), projected, ColumnTotal(top, totals, projected));
  }

  /** A column whose total is zero shows 0 for every share. */
  lemma SummarySharesZero(top: seq<string>, totals: map<string, Tally>, projected: bool, k: nat)
    requires forall c :: c in top ==> c in totals
    requires ColumnTotal(top, totals, projected) == 0 && k < |top|
    ensures RowShare(SummaryRows(top, totals)[k], projected) == 0.0
  {
  }

  /** Ranking keeps the sums: in any ranked summary of the followed names,
      each share column adds up to 100 when its total is positive and the
      names are distinct. */
  lemma RankedSharesAddUp(summary: seq<Ranked>, top: seq<string>, totals: map<string, Tally>, projected: bool)
    requires forall c :: c in top ==> c in totals
    requires IsRankedSummary(summary, SummaryRows(top, totals))
    requires Distinct(top) && ColumnTotal(top, totals, projected) > 0
    ensures ShareSum(RowsOf(summary), projected) == 100.0
  {
    SummarySharesAddUp(top, totals, projected);
    ShareSumPermutation(RowsOf(summary), SummaryRows(top, totals), projected);
  }
}
