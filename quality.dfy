/** The advisory data-quality scan: departments that report no votes. */
module Quality {
  import opened Snapshot

  /** Keys the scan passes over: the two reserved keys and the overseas
      bucket, which is legitimately empty until its results arrive. */
  predicate IsExempt(name: string)
  {
    IsReserved(name) || name == Abroad
  }

  predicate IsZeroReport(e: Entry)
  {
    !IsExempt(e.0) && VoteSum(e.1.candidates) == 0
  }

  /** The names of the zero-vote departments, in the mapping's order. */
  function ZeroVoteDepartments(depts: seq<Entry>): (issues: seq<string>)
    ensures |issues| <= |depts|
  {
    if depts == [] then []
    else
      var last := depts[|depts| - 1];
      ZeroVoteDepartments(depts[..|depts| - 1]) + (if IsZeroReport(last) then [last.0] else [])
  }

  /** `check_data_quality`: `departments` is None when the document is
      empty or has no `departments` key; a mapping never repeats a key. */
  method CheckDataQuality(departments: Option<seq<Entry>>) returns (issues: seq<string>)
    requires departments.Some? ==> UniqueKeys(departments.value)
    ensures departments.None? ==> issues == []
    ensures departments.Some? ==> issues == ZeroVoteDepartments(departments.value)
    ensures Distinct(issues)
  {
    issues := [];
    if departments.None? {
      return;
    }
    var depts := departments.value;
    var i := 0;
    while i < |depts|
      invariant 0 <= i <= |depts|
      invariant issues == ZeroVoteDepartments(depts[..i])
    {
      var (name, dept) := depts[i];
      assert depts[..i + 1][..i] == depts[..i];
      if IsExempt(name) {
        i := i + 1;
        continue;
      }
      var total := VoteSum(dept.candidates);
      if total == 0 {
        issues := issues + [name];
      }
      i := i + 1;
    }
    assert depts[..i] == depts;
    ZeroVoteDepartmentsDistinct(depts);
  }

  /** A name is reported exactly when some department under that name is
      neither reserved nor the overseas bucket and all of its candidate
      entries have zero or missing votes. */
  lemma {:induction false} ZeroVoteDepartmentsMembers(depts: seq<Entry>, name: string)
    ensures name in ZeroVoteDepartments(depts) <==>
      exists k :: 0 <= k < |depts| && depts[k].0 == name && !IsExempt(name)
        && forall c :: 0 <= c < |depts[k].1.candidates| ==> VotesOrZero(depts[k].1.candidates[c]) == 0
  {
    if depts != [] {
      var n := |depts| - 1;
      ZeroVoteDepartmentsMembers(depts[..n], name);
      forall k | 0 <= k < n ensures depts[..n][k] == depts[k] { }
      forall k | 0 <= k < |depts| && depts[k].0 == name
        ensures VoteSum(depts[k].1.candidates) == 0 <==>
          forall c :: 0 <= c < |depts[k].1.candidates| ==> VotesOrZero(depts[k].1.candidates[c]) == 0
      {
        VoteSumZero(depts[k].1.candidates);
      }
    }
  }

  /** The report lists each flagged department once: no name repeats when
      the mapping's keys are unique. */
  lemma {:induction false} ZeroVoteDepartmentsDistinct(depts: seq<Entry>)
    requires UniqueKeys(depts)
    ensures Distinct(ZeroVoteDepartments(depts))
    ensures |ZeroVoteDepartments(depts)| <= |depts|
  {
    if depts != [] {
      var n := |depts| - 1;
      var prev := depts[..n];
      assert UniqueKeys(prev);
      ZeroVoteDepartmentsDistinct(prev);
      if IsZeroReport(depts[n]) {
        var name := depts[n].0;
        ZeroVoteDepartmentsMembers(prev, name);
        assert name !in ZeroVoteDepartments(prev) by {
          forall k | 0 <= k < |prev| ensures prev[k].0 != name {
            assert prev[k] == depts[k];
          }
        }
      }
    }
  }
}
