/** The department table of the dashboard: the three candidates it follows,
    one row per department with current and projected votes, and the
    running totals behind the TOTAL row. */
module Tables {
  import opened Snapshot
  import opened Projection
  import opened Ordering

  /** How many candidates the table follows. */
  const TopCount: nat := 3

  function Min(a: nat, b: nat): nat
  {
    if a < b then a else b
  }

  // ---------------------------------------------------------------------
  // Choosing the candidates to follow
  // ---------------------------------------------------------------------

  /** A department names the followed candidates when it is not a reserved
      key and it has candidates whose votes add up to more than zero. */
  predicate Qualifies(e: Entry)
  {
    !IsReserved(e.0) && |e.1.candidates| > 0 && VoteSum(e.1.candidates) > 0
  }

  /** `[c['name'] for c in sorted_cands[:3]]`, where `sorted_cands` is the
      stable descending sort of the candidates by votes. */
  function TopNames(cands: seq<Candidate>): (top: seq<string>)
    ensures |top| == Min(TopCount, |cands|)
  {
    var order := RankOrder(cands, |cands|);
    seq(Min(TopCount, |cands|), k requires 0 <= k < Min(TopCount, |cands|) =>
      assert order[k] in order;
      cands[order[k]].name)
  }

  /** The followed names are those of the first positions of the stable
      descending order, and each of those positions comes before every
      position left out: it has more votes, or as many and an earlier place
      in the list. */
  lemma TopNamesLead(cands: seq<Candidate>, k: nat, p: nat)
    requires k < |TopNames(cands)| && p < |cands|
    requires p !in RankOrder(cands, |cands|)[..|TopNames(cands)|]
    ensures var order := RankOrder(cands, |cands|);
      && order[k] < |cands|
      && TopNames(cands)[k] == cands[order[k]].name
      && VotesOrZero(cands[order[k]]) >= VotesOrZero(cands[p])
      && (VotesOrZero(cands[order[k]]) == VotesOrZero(cands[p]) ==> order[k] < p)
  {
    var order := RankOrder(cands, |cands|);
    var m := |TopNames(cands)|;
    RankOrderRanked(cands, |cands|);
    assert p in order;
    var j :| 0 <= j < |order| && order[j] == p;
    assert forall q :: 0 <= q < m ==> order[..m][q] == order[q];
    assert Precedes(cands, order[k], order[j]);
  }

  /** The followed names are listed in descending order of votes. */
  lemma TopNamesDescending(cands: seq<Candidate>, k: nat, m: nat)
    requires k < m < |TopNames(cands)|
    ensures var order := RankOrder(cands, |cands|);
      && order[k] < |cands| && order[m] < |cands|
      && VotesOrZero(cands[order[k]]) >= VotesOrZero(cands[order[m]])
  {
    RankOrderRanked(cands, |cands|);
  }

  /** The names followed: those of the first department in the mapping's
      order that qualifies, or none. */
  function TopCandidates(depts: seq<Entry>): (top: seq<string>)
    ensures |top| <= TopCount
  {
    if depts == [] then []
    else if Qualifies(depts[0]) then TopNames(depts[0].1.candidates)
    else TopCandidates(depts[1..])
  }

  /** No candidates are followed exactly when no department qualifies; and
      otherwise they come from the first department that does, and there
      are at most three. */
  lemma {:induction false} TopCandidatesFirst(depts: seq<Entry>)
    ensures |TopCandidates(depts)| <= TopCount
    ensures TopCandidates(depts) == [] <==> forall k :: 0 <= k < |depts| ==> !Qualifies(depts[k])
    ensures TopCandidates(depts) != [] ==>
      exists k :: 0 <= k < |depts| && Qualifies(depts[k])
        && (forall j :: 0 <= j < k ==> !Qualifies(depts[j]))
        && TopCandidates(depts) == TopNames(depts[k].1.candidates)
  {
    if depts != [] {
      var rest := depts[1..];
      TopCandidatesFirst(rest);
      assert forall j :: 0 <= j < |rest| ==> rest[j] == depts[j + 1];
      if Qualifies(depts[0]) {
        assert |TopNames(depts[0].1.candidates)| > 0;
      } else {
        assert TopCandidates(depts) == TopCandidates(rest);
        if TopCandidates(rest) != [] {
          var k :| 0 <= k < |rest| && Qualifies(rest[k])
            && (forall j :: 0 <= j < k ==> !Qualifies(rest[j]))
            && TopCandidates(rest) == TopNames(rest[k].1.candidates);
          assert forall j :: 0 <= j < k + 1 ==> !Qualifies(depts[j]);
        } else {
          assert forall k :: 0 <= k < |depts| ==> !Qualifies(depts[k]);
        }
      }
    }
  }

  /** With no duplicate names in the qualifying department, no followed name
      repeats. */
  lemma TopNamesDistinct(cands: seq<Candidate>)
    requires forall i, j :: 0 <= i < j < |cands| ==> cands[i].name != cands[j].name
    ensures Distinct(TopNames(cands))
  {
    var order := RankOrder(cands, |cands|);
    var top := TopNames(cands);
    RankOrderRanked(cands, |cands|);
    forall i, j | 0 <= i < j < |top| ensures top[i] != top[j] {
      assert Precedes(cands, order[i], order[j]);
    }
  }

  /** The search loop at the head of `process_department_data`. */
  method SelectTopCandidates(depts: seq<Entry>) returns (top: seq<string>)
    ensures top == TopCandidates(depts)
  {
    top := [];
    var i := 0;
    while i < |depts|
      invariant 0 <= i <= |depts|
      invariant TopCandidates(depts) == TopCandidates(depts[i..])
    {
      var (name, dept) := depts[i];
      assert depts[i..][1..] == depts[i + 1..];
      if IsReserved(name) {
        i := i + 1;
        continue;
      }
      var cands := dept.candidates;
      var total := VoteSum(cands);
      if |cands| > 0 && total > 0 {
        top := TopNames(cands);
        return;
      }
      i := i + 1;
    }
  }

  // ---------------------------------------------------------------------
  // Department rows
  // ---------------------------------------------------------------------

  /** A pair of current and projected vote counts. */
  datatype Tally = Tally(current: nat, projected: nat)

  function Plus(a: Tally, b: Tally): Tally
  {
    Tally(a.current + b.current, a.projected + b.projected)
  }

  /** One department's row: its name, its reporting share, and one tally
      per followed candidate, in the order of the followed names. */
  datatype Row = Row(department: string, actas: real, cells: seq<Tally>)

  /** The key can be read without a KeyError while the table is built:
      it is reserved, or every candidate entry under it carries `votes`. */
  predicate Readable(depts: seq<Entry>, name: string)
  {
    name in Keys(depts) && (IsReserved(name) || AllVotesPresent(Lookup(depts, name).candidates))
  }

  predicate AllReadable(depts: seq<Entry>)
  {
    forall name :: name in Keys(depts) ==> Readable(depts, name)
  }

  /** The tally of one followed candidate in one department:
      `cand_votes.get(cand, 0)` and its projection. */
  function CellFor(table: map<string, nat>, actas: real, cand: string): (cell: Tally)
    ensures cand !in table ==> cell == Tally(0, 0)
    ensures actas <= 0.0 ==> cell.projected == cell.current
    ensures 0.0 < actas <= 100.0 ==> cell.current <= cell.projected
  {
    var votes := if cand in table then table[cand] else 0;
    Tally(votes, RowProjection(votes, actas))
  }

  /** The cells of a row, one per followed name. */
  function RowCells(table: map<string, nat>, actas: real, top: seq<string>): (cells: seq<Tally>)
    ensures |cells| == |top|
  {
    seq(|top|, j requires 0 <= j < |top| => CellFor(table, actas, top[j]))
  }

  function MakeRow(name: string, dept: Department, top: seq<string>): (row: Row)
    requires AllVotesPresent(dept.candidates)
    ensures row.department == name && row.actas == dept.actas && |row.cells| == |top|
  {
    Row(name, dept.actas, RowCells(VoteTable(dept.candidates), dept.actas, top))
  }

  /** A cell holds the votes of the last entry under the followed name, or 0
      when the department has no such candidate, and the truncated
      projection of those votes. */
  lemma MakeRowCell(name: string, dept: Department, top: seq<string>, j: nat)
    requires AllVotesPresent(dept.candidates) && j < |top|
    ensures var cands := dept.candidates; var cell := MakeRow(name, dept, top).cells[j];
      && |MakeRow(name, dept, top).cells| == |top|
      && ((forall i :: 0 <= i < |cands| ==> cands[i].name != top[j]) ==> cell.current == 0)
      && (forall i ::
            (0 <= i < |cands| && cands[i].name == top[j]
             && (forall m :: i < m < |cands| ==> cands[m].name != top[j]))
            ==> cell.current == cands[i].votes.value)
      && cell.projected == RowProjection(cell.current, dept.actas)
  {
    var cands := dept.candidates;
    forall i | 0 <= i < |cands| && cands[i].name == top[j]
      && (forall m :: i < m < |cands| ==> cands[m].name != top[j])
      ensures MakeRow(name, dept, top).cells[j].current == cands[i].votes.value
    {
      VoteTableLast(cands, i);
    }
  }

  /** The rows for `names`, in that order, skipping the reserved keys. */
  function RowsFor(names: seq<string>, depts: seq<Entry>, top: seq<string>): (rows: seq<Row>)
    requires forall name :: name in names ==> Readable(depts, name)
    ensures forall i :: 0 <= i < |rows| ==> |rows[i].cells| == |top|
  {
    if names == [] then []
    else
      var n := |names| - 1;
      var name := names[n];
      assert name in names && Readable(depts, name);
      RowsFor(names[..n], depts, top)
        + (if IsReserved(name) then [] else [MakeRow(name, Lookup(depts, name), top)])
  }

  /** `dept_rows`: one row per key, keys in ascending order. */
  function DepartmentRows(depts: seq<Entry>, top: seq<string>): (rows: seq<Row>)
    requires AllReadable(depts)
    ensures forall i :: 0 <= i < |rows| ==> |rows[i].cells| == |top|
  {
    var names := SortNames(Keys(depts));
    assert forall name :: name in names ==> name in multiset(Keys(depts));
    RowsFor(names, depts, top)
  }

  /** The last name of a non-empty list adds its row, unless it is reserved. */
  lemma RowsForSnoc(names: seq<string>, depts: seq<Entry>, top: seq<string>)
    requires names != [] && forall name :: name in names ==> Readable(depts, name)
    ensures forall name :: name in names[..|names| - 1] ==> name in names
    ensures names[|names| - 1] in names
    ensures RowsFor(names, depts, top) == RowsFor(names[..|names| - 1], depts, top)
      + (if IsReserved(names[|names| - 1]) then [] else
           [MakeRow(names[|names| - 1], Lookup(depts, names[|names| - 1]), top)])
  {
  }

  /** Each row stands for a non-reserved name of the list. */
  lemma {:induction false} RowsForDepartments(names: seq<string>, depts: seq<Entry>, top: seq<string>)
    requires forall name :: name in names ==> Readable(depts, name)
    ensures var rows := RowsFor(names, depts, top);
      forall i :: 0 <= i < |rows| ==> rows[i].department in names && !IsReserved(rows[i].department)
  {
    if names != [] {
      var n := |names| - 1;
      RowsForSnoc(names, depts, top);
      RowsForDepartments(names[..n], depts, top);
    }
  }

  /** Each row is built from the record stored under its name. */
  lemma {:induction false} RowsForBuilt(names: seq<string>, depts: seq<Entry>, top: seq<string>)
    requires forall name :: name in names ==> Readable(depts, name)
    ensures var rows := RowsFor(names, depts, top);
      forall i :: 0 <= i < |rows| ==>
        && Readable(depts, rows[i].department) && !IsReserved(rows[i].department)
        && rows[i] == MakeRow(rows[i].department, Lookup(depts, rows[i].department), top)
  {
    if names != [] {
      var n := |names| - 1;
      RowsForSnoc(names, depts, top);
      RowsForBuilt(names[..n], depts, top);
    }
  }

  /** Every non-reserved name of the list has a row. */
  lemma {:induction false} RowsForCover(names: seq<string>, depts: seq<Entry>, top: seq<string>)
    requires forall name :: name in names ==> Readable(depts, name)
    ensures var rows := RowsFor(names, depts, top);
      forall name :: name in names && !IsReserved(name) ==>
        exists i :: 0 <= i < |rows| && rows[i].department == name
  {
    if names != [] {
      var n := |names| - 1;
      var prefix := names[..n];
      RowsForSnoc(names, depts, top);
      RowsForCover(prefix, depts, top);
      var rows := RowsFor(names, depts, top);
      var prev := RowsFor(prefix, depts, top);
      forall name | name in names && !IsReserved(name)
        ensures exists i :: 0 <= i < |rows| && rows[i].department == name
      {
        if name != names[n] {
          assert name in prefix by {
            var k :| 0 <= k < |names| && names[k] == name;
            assert prefix[k] == name;
          }
          var i :| 0 <= i < |prev| && prev[i].department == name;
          assert rows[i] == prev[i];
        } else {
          assert rows[|prev|].department == name;
        }
      }
    }
  }

  /** Rows built from names in ascending order are in ascending order. */
  lemma {:induction false} RowsForAscending(names: seq<string>, depts: seq<Entry>, top: seq<string>)
    requires forall name :: name in names ==> Readable(depts, name)
    requires Ascending(names)
    ensures var rows := RowsFor(names, depts, top);
      forall i, j :: 0 <= i < j < |rows| ==> Below(rows[i].department, rows[j].department)
  {
    if names != [] {
      var n := |names| - 1;
      var prefix := names[..n];
      RowsForSnoc(names, depts, top);
      assert Ascending(prefix);
      RowsForAscending(prefix, depts, top);
      RowsForDepartments(prefix, depts, top);
      var prev := RowsFor(prefix, depts, top);
      if !IsReserved(names[n]) {
        forall i | 0 <= i < |prev| ensures Below(prev[i].department, names[n]) {
          var m :| 0 <= m < n && prefix[m] == prev[i].department;
          assert Below(names[m], names[n]);
        }
      }
    }
  }

  /** The sorted keys are the keys, each readable when every key is. */
  lemma SortedKeys(depts: seq<Entry>)
    requires AllReadable(depts)
    ensures forall name :: name in SortNames(Keys(depts)) <==> name in Keys(depts)
    ensures forall name :: name in SortNames(Keys(depts)) ==> Readable(depts, name)
    ensures UniqueKeys(depts) ==> Ascending(SortNames(Keys(depts)))
  {
    var keys := Keys(depts);
    SortedKeysMembers(depts);
    if UniqueKeys(depts) {
      assert Distinct(keys);
      SortNamesAscending(keys);
    }
  }

  /** The rows are in ascending order of department name. */
  lemma DepartmentRowsAscending(depts: seq<Entry>, top: seq<string>)
    requires UniqueKeys(depts) && AllReadable(depts)
    ensures var rows := DepartmentRows(depts, top);
      forall i, j :: 0 <= i < j < |rows| ==> Below(rows[i].department, rows[j].department)
  {
    SortedKeys(depts);
    RowsForAscending(SortNames(Keys(depts)), depts, top);
    assert DepartmentRows(depts, top) == RowsFor(SortNames(Keys(depts)), depts, top);
  }

  /** The table has exactly one row for each key other than `raw_data` and
      `Nacional`, each built from the record stored under its key. */
  lemma DepartmentRowsCover(depts: seq<Entry>, top: seq<string>)
    requires UniqueKeys(depts) && AllReadable(depts)
    ensures var rows := DepartmentRows(depts, top);
      && (forall name :: (exists i :: 0 <= i < |rows| && rows[i].department == name)
            <==> name in Keys(depts) && !IsReserved(name))
      && (forall i :: 0 <= i < |rows| ==>
            && rows[i].department in Keys(depts)
            && rows[i] == MakeRow(rows[i].department, Lookup(depts, rows[i].department), top))
  {
    SortedKeys(depts);
    RowsForDepartments(SortNames(Keys(depts)), depts, top);
    RowsForBuilt(SortNames(Keys(depts)), depts, top);
    RowsForCover(SortNames(Keys(depts)), depts, top);
    assert DepartmentRows(depts, top) == RowsFor(SortNames(Keys(depts)), depts, top);
  }

  // ---------------------------------------------------------------------
  // Totals
  // ---------------------------------------------------------------------

  /** `{c: {'current': 0, 'projected': 0} for c in top_candidates}` */
  function ZeroTotals(top: seq<string>): (totals: map<string, Tally>)
    ensures forall c :: c in totals <==> c in top
  {
    map c | c in top :: Tally(0, 0)
  }

  /** Adds one row's cells into the totals, followed name by followed name
      (`totals[cand]['current'] += votes`, `... ['projected'] += projected`). */
  function AddCells(totals: map<string, Tally>, names: seq<string>, cells: seq<Tally>): (r: map<string, Tally>)
    requires |cells| == |names| && forall c :: c in names ==> c in totals
    ensures r.Keys == totals.Keys
  {
    if names == [] then totals
    else
      var n := |names| - 1;
      var t := AddCells(totals, names[..n], cells[..n]);
      t[names[n] := Plus(t[names[n]], cells[n])]
  }

  /** Adds the rows, in order, into the totals. */
  function AddRows(totals: map<string, Tally>, top: seq<string>, rows: seq<Row>): (r: map<string, Tally>)
    requires forall c :: c in top ==> c in totals
    requires forall i :: 0 <= i < |rows| ==> |rows[i].cells| == |top|
    ensures r.Keys == totals.Keys
  {
    if rows == [] then totals
    else
      var n := |rows| - 1;
      AddCells(AddRows(totals, top, rows[..n]), top, rows[n].cells)
  }

  /** The totals once every row is in. */
  function Totals(depts: seq<Entry>, top: seq<string>): (totals: map<string, Tally>)
    requires AllReadable(depts)
    ensures forall c :: c in totals <==> c in top
  {
    AddRows(ZeroTotals(top), top, DepartmentRows(depts, top))
  }

  /** The TOTAL row: the totals of the followed names, in their order. */
  function TotalRow(top: seq<string>, totals: map<string, Tally>): (total: seq<Tally>)
    requires forall c :: c in top ==> c in totals
    ensures |total| == |top| && forall k :: 0 <= k < |top| ==> total[k] == totals[top[k]]
  {
    seq(|top|, k requires 0 <= k < |top| => totals[top[k]])
  }

  /** The sums of column `k` over the rows. */
  function ColumnSum(rows: seq<Row>, k: nat): Tally
    requires forall i :: 0 <= i < |rows| ==> k < |rows[i].cells|
  {
    if rows == [] then Tally(0, 0)
    else Plus(ColumnSum(rows[..|rows| - 1], k), rows[|rows| - 1].cells[k])
  }

  lemma {:induction false} AddCellsOther(totals: map<string, Tally>, names: seq<string>, cells: seq<Tally>, c: string)
    requires |cells| == |names| && forall x :: x in names ==> x in totals
    requires c in totals && c !in names
    ensures AddCells(totals, names, cells)[c] == totals[c]
  {
    if names != [] {
      AddCellsOther(totals, names[..|names| - 1], cells[..|names| - 1], c);
    }
  }

  lemma {:induction false} AddCellsAt(totals: map<string, Tally>, names: seq<string>, cells: seq<Tally>, k: nat)
    requires |cells| == |names| && forall x :: x in names ==> x in totals
    requires Distinct(names) && k < |names|
    ensures AddCells(totals, names, cells)[names[k]] == Plus(totals[names[k]], cells[k])
  {
    var n := |names| - 1;
    if k == n {
      assert names[n] !in names[..n];
      AddCellsOther(totals, names[..n], cells[..n], names[n]);
    } else {
      AddCellsAt(totals, names[..n], cells[..n], k);
    }
  }

  lemma {:induction false} AddRowsAt(totals: map<string, Tally>, top: seq<string>, rows: seq<Row>, k: nat)
    requires forall c :: c in top ==> c in totals
    requires forall i :: 0 <= i < |rows| ==> |rows[i].cells| == |top|
    requires Distinct(top) && k < |top|
    ensures AddRows(totals, top, rows)[top[k]] == Plus(totals[top[k]], ColumnSum(rows, k))
  {
    if rows != [] {
      var n := |rows| - 1;
      AddRowsAt(totals, top, rows[..n], k);
      AddCellsAt(AddRows(totals, top, rows[..n]), top, rows[n].cells, k);
    }
  }

  /** For distinct followed names, each TOTAL entry is the column sum of the
      rows: current votes added up, and the already truncated projections
      added up. */
  lemma TotalRowIsColumnSum(depts: seq<Entry>, top: seq<string>, k: nat)
    requires AllReadable(depts) && Distinct(top) && k < |top|
    ensures TotalRow(top, Totals(depts, top))[k] == ColumnSum(DepartmentRows(depts, top), k)
  {
    AddRowsAt(ZeroTotals(top), top, DepartmentRows(depts, top), k);
  }

  /** One department's row, built by the inner loop over the followed
      names, each cell added into the totals of its name as it is computed. */
  method FillRow(name: string, dept: Department, top: seq<string>, totals: map<string, Tally>)
    returns (row: Row, updated: map<string, Tally>)
    requires AllVotesPresent(dept.candidates)
    requires forall c :: c in top ==> c in totals
    ensures row == MakeRow(name, dept, top)
    ensures updated == AddCells(totals, top, row.cells)
  {
    var table := VoteTable(dept.candidates);
    var cells := [];
    updated := totals;
    var j := 0;
    while j < |top|
      invariant 0 <= j <= |top|
      invariant cells == RowCells(table, dept.actas, top[..j])
      invariant updated == AddCells(totals, top[..j], cells)
    {
      var cand := top[j];
      var votes := if cand in table then table[cand] else 0;
      var cell := Tally(votes, RowProjection(votes, dept.actas));
      RowCellsStep(table, dept.actas, top, j);
      AddCellsStep(totals, top, cells, cell);
      cells := cells + [cell];
      updated := updated[cand := Plus(updated[cand], cell)];
      j := j + 1;
    }
    assert top[..j] == top;
    row := Row(name, dept.actas, cells);
  }

  /** The cells of one more followed name. */
  lemma RowCellsStep(table: map<string, nat>, actas: real, top: seq<string>, j: nat)
    requires j < |top|
    ensures RowCells(table, actas, top[..j + 1]) == RowCells(table, actas, top[..j]) + [CellFor(table, actas, top[j])]
  {
    assert top[..j + 1][..j] == top[..j];
  }

  /** Adding one more cell into the totals. */
  lemma AddCellsStep(totals: map<string, Tally>, top: seq<string>, cells: seq<Tally>, cell: Tally)
    requires |cells| < |top| && forall c :: c in top ==> c in totals
    ensures forall c :: c in top[..|cells| + 1] ==> c in totals
    ensures var j := |cells|; var prev := AddCells(totals, top[..j], cells);
      AddCells(totals, top[..j + 1], cells + [cell]) == prev[top[j] := Plus(prev[top[j]], cell)]
  {
    var j := |cells|;
    assert top[..j + 1][..j] == top[..j];
    assert (cells + [cell])[..j] == cells;
  }

  /** Sorting keeps exactly the keys. */
  lemma SortedKeysMembers(depts: seq<Entry>)
    ensures forall name :: name in SortNames(Keys(depts)) <==> name in Keys(depts)
  {
    var keys := Keys(depts);
    assert forall name :: name in SortNames(keys) <==> name in multiset(keys);
  }

  /** Every sorted key readable means every key readable. */
  lemma AllReadableFromSorted(depts: seq<Entry>, names: seq<string>)
    requires names == SortNames(Keys(depts))
    requires forall name :: name in names ==> Readable(depts, name)
    ensures AllReadable(depts)
  {
    SortedKeysMembers(depts);
  }

  /** The readable prefix grows by one readable name. */
  lemma PrefixReadable(depts: seq<Entry>, names: seq<string>, i: nat)
    requires i < |names|
    requires forall name :: name in names[..i] ==> Readable(depts, name)
    requires Readable(depts, names[i])
    ensures forall name :: name in names[..i + 1] ==> Readable(depts, name)
  {
    assert names[..i + 1] == names[..i] + [names[i]];
  }

  /** One more row adds its cells into the totals. */
  lemma AddRowsExtend(totals: map<string, Tally>, top: seq<string>, rows: seq<Row>, row: Row)
    requires forall c :: c in top ==> c in totals
    requires forall i :: 0 <= i < |rows| ==> |rows[i].cells| == |top|
    requires |row.cells| == |top|
    ensures AddRows(totals, top, rows + [row]) == AddCells(AddRows(totals, top, rows), top, row.cells)
  {
    assert (rows + [row])[..|rows|] == rows;
  }

  /** One more name adds its row, unless it is reserved. */
  lemma RowsForExtend(names: seq<string>, i: nat, depts: seq<Entry>, top: seq<string>)
    requires i < |names|
    requires forall name :: name in names[..i + 1] ==> Readable(depts, name)
    ensures names[i] in names[..i + 1] && forall name :: name in names[..i] ==> name in names[..i + 1]
    ensures IsReserved(names[i]) ==> RowsFor(names[..i + 1], depts, top) == RowsFor(names[..i], depts, top)
    ensures !IsReserved(names[i]) ==>
      RowsFor(names[..i + 1], depts, top) == RowsFor(names[..i], depts, top) + [MakeRow(names[i], Lookup(depts, names[i]), top)]
  {
    assert names[..i + 1][..i] == names[..i];
    assert names[..i + 1][i] == names[i];
  }

  /** The loop over the sorted keys that builds `dept_rows` and `totals`;
      `ok` is false when a candidate entry without `votes` raises the
      KeyError. */
  method BuildDepartmentRows(depts: seq<Entry>, top: seq<string>)
    returns (ok: bool, rows: seq<Row>, totals: map<string, Tally>)
    ensures ok == AllReadable(depts)
    ensures ok ==> rows == DepartmentRows(depts, top) && totals == Totals(depts, top)
  {
    var names := SortNames(Keys(depts));
    SortedKeysMembers(depts);
    totals := ZeroTotals(top);
    rows := [];
    var i := 0;
    while i < |names|
      invariant 0 <= i <= |names|
      invariant forall name :: name in names[..i] ==> Readable(depts, name)
      invariant rows == RowsFor(names[..i], depts, top)
      invariant totals == AddRows(ZeroTotals(top), top, rows)
    {
      var name := names[i];
      assert name in names;
      if !IsReserved(name) && !AllVotesPresent(Lookup(depts, name).candidates) {
        assert !Readable(depts, name);
        ok := false;
        return;
      }
      assert Readable(depts, name);
      PrefixReadable(depts, names, i);
      RowsForExtend(names, i, depts, top);
      if !IsReserved(name) {
        var row;
        row, totals := FillRow(name, Lookup(depts, name), top, totals);
        AddRowsExtend(ZeroTotals(top), top, rows, row);
        rows := rows + [row];
        assert rows == RowsFor(names[..i + 1], depts, top);
      }
      i := i + 1;
    }
    assert names[..i] == names;
    AllReadableFromSorted(depts, names);
    ok := true;
  }
}
