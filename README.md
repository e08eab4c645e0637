# Election dashboard projection core, in Dafny

The dashboard (`app.py`) reads a cached scrape of election results. The scrape is a
`departments` mapping from department name to a record: the share of tally sheets
("actas") already counted, and the candidate list with vote counts. From it the
dashboard computes three things:

- **Projections.** `calculate_projection` scales a vote count up to the full count:
  `votes * 100 / actas`. With no sheets counted the count is kept as it is.
- **Data-quality scan.** `check_data_quality` lists the departments whose candidate
  votes add up to zero. It passes over the two reserved keys (`raw_data`,
  `Nacional`) and the overseas bucket (`VOTO EN EL EXTERIOR`).
- **Tables.** `process_department_data` works in four steps:
  - it picks the three leading candidates of the first department with votes;
  - it builds one row per department with the current and projected votes of
    those candidates, in ascending name order;
  - it adds the rows into a TOTAL row;
  - it ranks a summary of the three by projected votes, with each candidate's share
    of the followed votes.

The model follows the code's own shape:

- `CalculateProjection` is a function.
- The zero-vote scan, the search for the followed candidates, the loop over the
  sorted keys with its inner loop over the followed names, and the summary loop are
  methods with loops. Each is proved equal to a specification function.
- Properties of those functions are proved as lemmas.

Modules:

- `Snapshot`: the input document and lookups.
- `Projection`: the extrapolation.
- `Ordering`: Python's string order and the stable descending sort of candidates.
- `Quality`: the scan.
- `Tables`: the followed candidates, rows and totals.
- `Summary`: shares and ranking.
- `Dashboard`: the whole `process_department_data`.

How the input and outputs are represented:

- **The mapping.** The `departments` mapping is a sequence of `(name, record)` pairs
  in insertion order. A Python dict never repeats a key, so the two entry points
  require unique names (`Snapshot.UniqueKeys`). `None` stands for a document that
  is empty or has no `departments` key.
- **Defaults.** A record's `actas_percentage` and `candidates` are taken with the
  code's defaults (0 and the empty list).
- **Missing votes.** A candidate's `votes` may be missing. It then counts as 0
  wherever the code uses `.get('votes', 0)`. Building the vote table of a
  non-reserved department raises `KeyError` on such an entry. The model reports this
  as the `MissingVotes` outcome.
- **Reals.** Percentages and projections are real numbers. Python's `int()` of a
  non-negative projection is its floor.

The TOTAL row's projected votes are the sum of the rows' already truncated
projections (`app.py:136`, `app.py:142`), not a rounding of the exact sum.
`Projection.TruncatedSumBelowRoundedSum` shows two departments for which the two
differ.

Duplicate candidate names are not excluded. The code builds `cand_votes` with a dict
comprehension, so a later entry wins (`Snapshot.VoteTableLast`). The TOTAL row
(`app.py:149-152`) has one entry per followed name, repeats included. The summary
denominators `total_current` and `total_projected` (`app.py:155-156`) instead sum over
the keys of `totals`, i.e. the followed names without repeats (`Summary.Dedup`,
`Summary.ColumnTotal`).
Each lemma that needs distinct followed names says so in its precondition.
`Tables.TopNamesDistinct` gives that precondition when the first qualifying department
lists distinct names.

## Model

| member | source | states |
|---|---|---|
| Projection.CalculateProjection | app.py:60-64 | with no sheets counted (actas <= 0) the count is returned unchanged; otherwise the result times actas equals the count times 100; at 100% it is the identity; for 0 < actas <= 100 it never falls below a non-negative count |
| Projection.RowProjection | app.py:135-136 | a cell's projection is the count itself when actas <= 0, otherwise the integer part of the exact projection (p <= projection < p + 1); it is never below the votes for 0 < actas <= 100 and equals them at 100% |
| Projection.TruncatedSumBelowRoundedSum | app.py:136-142 | adding truncated projections can differ from rounding the exact sum: two departments with 1 vote at 30% give 6 where the exact projections add up to more than 6.5 |
| Snapshot.VoteSum | app.py:110 | `sum(c.get('votes', 0) for c in candidates)`, the same sum `check_data_quality` takes; `Snapshot.VoteSumZero` states when it is zero |
| Snapshot.VoteSumZero | app.py:89-92 | a department's vote sum is zero exactly when every candidate entry has zero or missing votes |
| Snapshot.Keys | app.py:123 | the keys of the mapping, one per entry, in entry order |
| Snapshot.Lookup | app.py:127 | `departments[name]` for a key of the mapping; `Snapshot.LookupUnique` states that it is the record stored under that key |
| Snapshot.LookupUnique | app.py:127 | with unique keys, `departments[name]` is the record stored under that name |
| Snapshot.VoteTable | app.py:130 | the vote table has an entry for exactly the names that occur in the candidate list |
| Snapshot.VoteTableLast | app.py:130 | a name's vote-table entry is the votes of the last candidate entry with that name |
| Quality.ZeroVoteDepartments | app.py:85-93 | the names of the zero-vote departments in the mapping's order, never more than the mapping has entries; `Quality.ZeroVoteDepartmentsMembers` states exactly which names |
| Quality.CheckDataQuality | app.py:78-95 | no document or no departments gives no issues; otherwise the issues are exactly the zero-vote scan of the departments in iteration order, with no name listed twice |
| Quality.ZeroVoteDepartmentsMembers | app.py:85-93 | a name is listed exactly when a department under it is neither reserved nor the overseas bucket and all its candidate entries have zero or missing votes |
| Quality.ZeroVoteDepartmentsDistinct | app.py:85-93 | with unique keys no department is listed twice, and the list is no longer than the mapping |
| Ordering.BelowIrreflexive | app.py:123 | no string sorts before itself |
| Ordering.BelowTotal | app.py:123 | of two different strings one sorts before the other |
| Ordering.BelowAsymmetric | app.py:123 | two strings never sort before each other |
| Ordering.BelowTransitive | app.py:123 | the string order is transitive |
| Ordering.InsertName | app.py:123 | inserting a name into a list adds exactly that name |
| Ordering.SortNames | app.py:123 | `sorted(keys)` is a permutation of the keys |
| Ordering.InsertNameAbove | app.py:123 | inserting a name into names that all sort after a bound, when the name does too, gives names that all sort after the bound |
| Ordering.SortNamesAscending | app.py:123 | sorting distinct names yields them in strictly ascending string order |
| Ordering.RankOrder | app.py:112 | the stable descending sort orders every candidate position exactly once |
| Ordering.InsertIndexRanked | app.py:112 | inserting a position into a stably sorted order keeps it stably sorted |
| Ordering.RankOrderRanked | app.py:112 | the positions are ordered by votes descending, and among equal votes by earlier position (stability) |
| Tables.TopNames | app.py:112-113 | the followed names are min(3, number of candidates) many |
| Tables.TopNamesLead | app.py:112-113 | each followed name is the candidate at a leading position of the stable sort, and that position beats every position left out: more votes, or as many and earlier in the list |
| Tables.TopNamesDescending | app.py:112-113 | the followed candidates' votes do not increase from the first to the third |
| Tables.TopNamesDistinct | app.py:113 | a department with distinct candidate names yields distinct followed names |
| Tables.TopCandidates | app.py:105-114 | at most three followed names; `Tables.TopCandidatesFirst` states where they come from |
| Tables.TopCandidatesFirst | app.py:105-117 | at most three names; none exactly when no non-reserved department has candidates with a positive vote sum; otherwise they come from the first such department in iteration order |
| Tables.SelectTopCandidates | app.py:105-114 | the search loop with `break` yields exactly the followed names of the first qualifying department |
| Tables.CellFor | app.py:134-136 | a followed name the department does not list gets 0 votes and 0 projected; with no sheets counted the projection is the count; with 0 < actas <= 100 it is at least the count |
| Tables.RowCells | app.py:134-139 | a row has one cell per followed name |
| Tables.MakeRow | app.py:127-139 | the row carries the department's name, its reporting share and one cell per followed name; `Tables.MakeRowCell` states each cell |
| Tables.MakeRowCell | app.py:130-136 | a cell holds the votes of the last entry with the followed name, or 0 when the department has no such candidate, and the row projection of those votes |
| Tables.RowsFor | app.py:123-144 | every row built from a list of names has one cell per followed name |
| Tables.RowsForDepartments | app.py:123-144 | each row stands for a listed name that is not reserved |
| Tables.RowsForBuilt | app.py:127-144 | each row is built from the record stored under its name, which can be read without a KeyError |
| Tables.RowsForCover | app.py:123-144 | every listed name that is not reserved has a row |
| Tables.RowsForAscending | app.py:123-144 | rows built from ascending names are in ascending order |
| Tables.SortedKeys | app.py:123 | the sorted keys are exactly the keys, ascending when keys are unique |
| Tables.SortedKeysMembers | app.py:123 | a name is among the sorted keys exactly when it is a key |
| Tables.DepartmentRows | app.py:123-144 | every row has one cell per followed name; `Tables.DepartmentRowsCover` and `Tables.DepartmentRowsAscending` state which rows there are and in what order |
| Tables.DepartmentRowsAscending | app.py:123-144 | the department rows are in strictly ascending name order |
| Tables.DepartmentRowsCover | app.py:123-144 | there is a row for a name exactly when it is a key other than `raw_data` and `Nacional`, and each row is built from the record under its key |
| Tables.ZeroTotals | app.py:121 | the totals start with exactly the followed names |
| Tables.AddCells | app.py:141-142 | adding a row's cells keeps the set of totals keys |
| Tables.AddCellsOther | app.py:141-142 | adding a row leaves the totals of names it does not follow unchanged |
| Tables.AddCellsAt | app.py:141-142 | for distinct followed names, a name's total grows by exactly its cell |
| Tables.AddRows | app.py:123-144 | adding rows keeps the set of totals keys |
| Tables.AddRowsAt | app.py:141-142 | for distinct followed names, each total grows by the column sum of the rows |
| Tables.Totals | app.py:121-144 | the final totals are kept for exactly the followed names, so no other candidate contributes |
| Tables.TotalRow | app.py:149-152 | the TOTAL row has one entry per followed name, holding that name's totals |
| Tables.TotalRowIsColumnSum | app.py:141-152 | for distinct followed names, each TOTAL entry is the sum of its column over the department rows: current votes added up, truncated projections added up |
| Tables.FillRow | app.py:132-142 | the inner loop builds exactly the department's row and adds its cells into the totals |
| Tables.AddCellsStep | app.py:141-142 | adding one more cell into the totals adds it to the total of its followed name |
| Tables.AllReadableFromSorted | app.py:123-130 | when every sorted key can be read without a KeyError, every key can |
| Tables.RowsForExtend | app.py:123-144 | one more key adds its row, unless it is reserved |
| Tables.BuildDepartmentRows | app.py:119-144 | the loop over the sorted keys succeeds exactly when no non-reserved department lists a candidate without votes, and then yields exactly the department rows and the totals of those rows |
| Summary.Share | app.py:160-161 | a share is 0 for a zero total; otherwise the share times the total is the votes times 100, and it lies between 0 and 100 for votes within the total |
| Summary.Dedup | app.py:121 | the keys of `totals`: distinct, and exactly the followed names |
| Summary.SumOver | app.py:155-156 | no summed total exceeds the sum |
| Summary.ColumnTotal | app.py:155-156 | no followed name's total exceeds the column's denominator, so its share is at most 100 |
| Summary.DedupDistinct | app.py:121 | distinct followed names are themselves the keys of `totals` |
| Summary.SummaryRowFor | app.py:159-168 | the row carries the candidate and its current and projected totals; each share is 0 when its column total is 0, and otherwise its votes times 100 over that total |
| Summary.SummaryRowsWith | app.py:158-168 | one summary row per name |
| Summary.SummaryRows | app.py:155-168 | one summary row per followed name |
| Summary.InsertByProjected | app.py:171 | inserting a row into a table adds exactly that row |
| Summary.SortByProjected | app.py:171 | the sort is a permutation of the summary rows |
| Summary.InsertByProjectedDescending | app.py:171 | inserting a row into a descending table keeps it descending |
| Summary.InsertByProjectedBelow | app.py:171 | inserting a row at or below a bound into rows at or below it gives rows that all stay at or below it |
| Summary.SortByProjectedDescending | app.py:171 | the sorted summary has projected votes descending |
| Summary.RowsOf | app.py:170-172 | the rows of a ranked summary, one per rank |
| Summary.Rank | app.py:172 | numbering the rows from 1 keeps their order and gives the row at position k the rank k + 1 |
| Summary.BuildSummary | app.py:155-172 | the summary is the summary rows rearranged with projected votes descending, ranked 1, 2, 3 from the top, one entry per followed name |
| Summary.ShareSumRemove | app.py:171 | taking one row out takes its share out of the column sum |
| Summary.ShareSumPermutation | app.py:171 | rearranging the summary leaves every share column's sum unchanged |
| Summary.ShareSumScaled | app.py:160-161 | shares over a common total add up to the column's votes over that total |
| Summary.SummaryVotesSum | app.py:155-166 | the summary's vote columns add up to the sums over the followed names |
| Summary.VotesSumSnoc | app.py:155-156 | a vote column's sum splits off its last row |
| Summary.SummaryRowShares | app.py:160-161 | each share in a column with a positive total is the row's votes over that total |
| Summary.RowShareAt | app.py:160-161 | one summary row's share in a column with a positive total, times that total, is the row's votes times 100 |
| Summary.SharesOfRowsWith | app.py:158-168 | every share in a column with a positive total is the row's votes over that total |
| Summary.SummaryVotesTotal | app.py:155-156 | for distinct followed names each vote column adds up to the total its shares are taken of |
| Summary.SharesAddUp | app.py:160-161 | shares over a positive total that their vote column adds up to add up to 100 |
| Summary.SummarySharesAddUp | app.py:155-168 | for distinct followed names and a positive total, each share column adds up to 100 |
| Summary.SummarySharesZero | app.py:160-161 | when a column's total is zero every share in it is 0 |
| Summary.RankedSharesAddUp | app.py:155-172 | in the ranked summary each share column with a positive total adds up to 100 for distinct followed names |
| Dashboard.ProcessDepartmentData | app.py:97-174 | no document, or no qualifying department, gives no tables; a non-reserved department with a candidate lacking votes raises the KeyError; otherwise the result is the department rows in strictly ascending name order, the TOTAL row of their totals and the ranked summary |
| Dashboard.TwoDepartmentsTop | app.py:105-114 | for X with 100 votes in A, X is the only followed candidate |
| Dashboard.TwoDepartmentsKeys | app.py:123-130 | the keys are A then B, each looked up to its own record, and every entry carries its votes |
| Dashboard.TwoDepartmentsSorted | app.py:123 | `sorted` puts A before B |
| Dashboard.TwoDepartmentsCells | app.py:134-136 | 100 votes at 50% project to 200; 100 votes at 100% stay 100 |
| Dashboard.TwoDepartmentsRowsFor | app.py:123-144 | the rows built for A and B, in that order, hold 100/200 and 100/100 |
| Dashboard.TwoDepartmentsRows | app.py:105-144 | for X with 100 votes at 50% in A and 100 votes at 100% in B, X is followed and the rows hold 100/200 and 100/100 |
| Dashboard.TwoDepartmentsColumn | app.py:141-142 | the X column of those rows adds up to 200 current and 300 projected votes |
| Dashboard.TwoDepartmentsTotal | app.py:119-152 | for the same two departments the TOTAL row shows 200 current and 300 projected votes for X |

Proof steps that model no line of their own have no row: `Ordering.RankedCons`,
`Ordering.PrecedesInserted`, `Tables.RowsForSnoc`, `Tables.PrefixReadable`,
`Tables.RowCellsStep`, `Tables.AddRowsExtend`, `Summary.SummaryRowsWithStep`,
`Summary.IndexOf`, `Summary.RemoveFirst`, `Summary.RemoveOne`, `Summary.SharesOfRest`,
`Summary.Distribute`, `Summary.CancelWhole` and `Dashboard.ColumnSumOfTwo`.

## Left out

- The rest of `app.py`: the file-based signalling and cache reading
  (`check_for_new_data`, `is_scraper_running`, `trigger_scrape`, `load_cached_data`),
  the Streamlit `main` with its layout and polling loop, and `format_timestamp` /
  `format_number`. These are file-system I/O, UI, clock and locale formatting.
- `analisis.py` is not part of this model. It only loads and writes CSV files, plots
  charts and prompts on the console.
- The display labels of the table columns (`cand[:15]` with "(Actual)" and
  "(Proyectado)"), the empty "Actas %" cell of the TOTAL row, and the DataFrame
  objects. Rows hold one tally per followed name in the followed order instead, so
  label collisions between long names are not modelled.
- Floating point. Projections and shares are exact reals, and `int()` of a
  non-negative projection is its floor. IEEE rounding of the divisions is not
  modelled.
- A candidate entry without `name` (the KeyError at `app.py:113` and `app.py:130`).
  Every modelled entry has a name. A missing `votes` is modelled.
- Values of the wrong type in the document (a non-numeric `actas_percentage`, or
  negative votes). Votes are naturals.
- The order of equal projected votes in the summary. The DataFrame sort is not
  stable, so the model fixes only the descending order, the permutation and the
  ranks. `Summary.SortByProjected` is one sort that meets this.
- Summary.SummarySharesAddUp: requires distinct followed names. With a repeated name
  the code lists that name twice in the summary but counts it once in the total, so
  the percentages then add up to more than 100.
- Summary.RankedSharesAddUp: requires distinct followed names, for the same reason.
- Tables.TotalRowIsColumnSum: requires distinct followed names. A repeated name is
  added once per occurrence in each row.
