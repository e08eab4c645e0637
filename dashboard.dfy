/** `process_department_data`: from the departments of a snapshot to the
    department table, its TOTAL row and the ranked summary. */
module Dashboard {
  import opened Snapshot
  import opened Tables
  import opened Summary
  import opened Ordering
  import opened Projection

  /** What the function hands back: the three tables, nothing (the
      `None, None, None` result), or the KeyError raised when a department
      lists a candidate without `votes`. */
  datatype Outcome =
    | NoData
    | MissingVotes
    | Report(rows: seq<Row>, total: seq<Tally>, summary: seq<Ranked>)

  /** `departments` is None when the document is empty or has no
      `departments` key; a mapping never repeats a key. */
  method ProcessDepartmentData(departments: Option<seq<Entry>>) returns (out: Outcome)
    requires departments.Some? ==> UniqueKeys(departments.value)
    ensures departments.None? ==> out == NoData
    ensures departments.Some? && TopCandidates(departments.value) == [] ==> out == NoData
    ensures departments.Some? && TopCandidates(departments.value) != [] && !AllReadable(departments.value)
      ==> out == MissingVotes
    ensures departments.Some? && TopCandidates(departments.value) != [] && AllReadable(departments.value)
      ==> var depts := departments.value;
          var top := TopCandidates(depts);
          && out.Report?
          && out.rows == DepartmentRows(depts, top)
          && out.total == TotalRow(top, Totals(depts, top))
          && IsRankedSummary(out.summary, SummaryRows(top, Totals(depts, top)))
          && forall i, j :: 0 <= i < j < |out.rows| ==> Below(out.rows[i].department, out.rows[j].department)
  {
    if departments.None? {
      return NoData;
    }
    var depts := departments.value;
    var top := SelectTopCandidates(depts);
    if top == [] {
      return NoData;
    }
    var ok, rows, totals := BuildDepartmentRows(depts, top);
    if !ok {
      return MissingVotes;
    }
    var total := TotalRow(top, totals);
    var summary := BuildSummary(top, totals);
    DepartmentRowsAscending(depts, top);
    out := Report(rows, total, summary);
  }

  /** Two departments reporting candidate X with 100 votes each, one with
      half of its tally sheets counted and one with all of them. */
  function TwoDepartments(): seq<Entry>
  {
    [("A", Department(50.0, [Candidate("X", Some(100))])),
     ("B", Department(100.0, [Candidate("X", Some(100))]))]
  }

  /** X is the followed candidate of the two departments. */
  lemma TwoDepartmentsTop()
    ensures TopCandidates(TwoDepartments()) == ["X"]
  {
    var a := TwoDepartments()[0];
    assert Qualifies(a);
    assert TopNames(a.1.candidates) == ["X"];
  }

  /** Both keys are found, in order, and every entry carries its votes. */
  lemma TwoDepartmentsKeys()
    ensures Keys(TwoDepartments()) == ["A", "B"]
    ensures Lookup(TwoDepartments(), "A") == TwoDepartments()[0].1
    ensures Lookup(TwoDepartments(), "B") == TwoDepartments()[1].1
    ensures AllReadable(TwoDepartments())
  {
    var depts := TwoDepartments();
    assert Keys(depts) == ["A", "B"];
    assert Lookup(depts, "A") == depts[0].1;
    assert Lookup(depts, "B") == depts[1].1;
  }

  /** The table of the two departments: X is followed, and the rows hold
      100 votes projected to 200 at 50%, and 100 votes kept at 100%. */
  lemma TwoDepartmentsRows()
    ensures TopCandidates(TwoDepartments()) == ["X"]
    ensures AllReadable(TwoDepartments())
    ensures var rows := DepartmentRows(TwoDepartments(), ["X"]);
      && |rows| == 2
      && rows[0].department == "A" && rows[0].cells == [Tally(100, 200)]
      && rows[1].department == "B" && rows[1].cells == [Tally(100, 100)]
  {
    TwoDepartmentsTop();
    TwoDepartmentsKeys();
    TwoDepartmentsSorted();
    TwoDepartmentsRowsFor();
    assert DepartmentRows(TwoDepartments(), ["X"]) == RowsFor(["A", "B"], TwoDepartments(), ["X"]);
  }

  /** `sorted` puts A before B. */
  lemma TwoDepartmentsSorted()
    ensures SortNames(["A", "B"]) == ["A", "B"]
  {
    assert Below("A", "B");
    assert ["A", "B"][1..] == ["B"] && ["B"][1..] == [];
  }

  /** The rows of A and B, in that order. */
  lemma TwoDepartmentsRowsFor()
    ensures forall name :: name in ["A", "B"] ==> Readable(TwoDepartments(), name)
    ensures var rows := RowsFor(["A", "B"], TwoDepartments(), ["X"]);
      && |rows| == 2
      && rows[0].department == "A" && rows[0].cells == [Tally(100, 200)]
      && rows[1].department == "B" && rows[1].cells == [Tally(100, 100)]
  {
    TwoDepartmentsKeys();
    TwoDepartmentsCells();
    var depts := TwoDepartments();
    var top := ["X"];
    assert Readable(depts, "A") && Readable(depts, "B");
    RowsForSnoc(["A", "B"], depts, top);
    assert ["A", "B"][..1] == ["A"];
    RowsForSnoc(["A"], depts, top);
    assert ["A"][..0] == [];
  }

  /** At 50% the 100 votes project to 200; at 100% they stay 100. */
  lemma TwoDepartmentsCells()
    ensures MakeRow("A", TwoDepartments()[0].1, ["X"]).cells == [Tally(100, 200)]
    ensures MakeRow("B", TwoDepartments()[1].1, ["X"]).cells == [Tally(100, 100)]
  {
    var cands := [Candidate("X", Some(100))];
    assert cands[..0] == [];
    assert VoteTable(cands) == map["X" := 100];
    assert CalculateProjection(100.0, 50.0) == 200.0;
    assert RowProjection(100, 50.0) == 200;
  }

  /** Column X of the table adds up to 200 current and 300 projected votes. */
  lemma TwoDepartmentsColumn()
    ensures AllReadable(TwoDepartments())
    ensures ColumnSum(DepartmentRows(TwoDepartments(), ["X"]), 0) == Tally(200, 300)
  {
    TwoDepartmentsRows();
    ColumnSumOfTwo(DepartmentRows(TwoDepartments(), ["X"]));
  }

  /** The first column of a two-row table: the two first cells added. */
  lemma ColumnSumOfTwo(rows: seq<Row>)
    requires |rows| == 2 && |rows[0].cells| > 0 && |rows[1].cells| > 0
    ensures ColumnSum(rows, 0) == Plus(rows[0].cells[0], rows[1].cells[0])
  {
    var c := rows[0].cells[0];
    assert rows[..1] == [rows[0]] && [rows[0]][..0] == [];
    assert ColumnSum(rows[..1], 0) == Plus(Tally(0, 0), c) == c;
  }

  /** The TOTAL row of the two departments shows 200 current and 300
      projected votes for X. */
  lemma TwoDepartmentsTotal()
    ensures AllReadable(TwoDepartments())
    ensures TotalRow(["X"], Totals(TwoDepartments(), ["X"])) == [Tally(200, 300)]
  {
    TwoDepartmentsColumn();
    TotalRowIsColumnSum(TwoDepartments(), ["X"], 0);
  }
}
