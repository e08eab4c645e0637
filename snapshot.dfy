/** The input document handed to the dashboard: the `departments` mapping of
    a cached scrape, kept as a sequence of (name, record) pairs in the
    mapping's insertion order. */
module Snapshot {

  datatype Option<+T> = None | Some(value: T)

  /** One entry of a department's `candidates` list. `votes` is None when the
      entry has no `votes` key. */
  datatype Candidate = Candidate(name: string, votes: Option<nat>)

  /** A department record. `actas` is its `actas_percentage` (0 when the key
      is absent) and `candidates` its candidate list ([] when absent). */
  datatype Department = Department(actas: real, candidates: seq<Candidate>)

  type Entry = (string, Department)

  /** Reserved keys of the `departments` mapping that are not departments. */
  const RawData: string := "raw_data"
  const National: string := "Nacional"
  /** The overseas bucket, structurally zero until its results arrive. */
  const Abroad: string := "VOTO EN EL EXTERIOR"

  predicate IsReserved(name: string)
  {
    name == RawData || name == National
  }

  /** A candidate's votes as `c.get('votes', 0)` reads them. */
  function VotesOrZero(c: Candidate): nat
  {
    match c.votes
    case Some(v) => v
    case None => 0
  }

  /** `sum(c.get('votes', 0) for c in candidates)` */
  function VoteSum(cands: seq<Candidate>): nat
  {
    if cands == [] then 0 else VoteSum(cands[..|cands| - 1]) + VotesOrZero(cands[|cands| - 1])
  }

  /** A vote sum is zero exactly when every entry's votes are zero or missing. */
  lemma {:induction false} VoteSumZero(cands: seq<Candidate>)
    ensures VoteSum(cands) == 0 <==> forall i :: 0 <= i < |cands| ==> VotesOrZero(cands[i]) == 0
  {
    if cands != [] {
      var n := |cands| - 1;
      VoteSumZero(cands[..n]);
      assert forall i :: 0 <= i < n ==> cands[..n][i] == cands[i];
    }
  }

  /** The keys of the mapping, in insertion order. */
  function Keys(depts: seq<Entry>): (ks: seq<string>)
    ensures |ks| == |depts|
    ensures forall i :: 0 <= i < |depts| ==> ks[i] == depts[i].0
  {
    if depts == [] then [] else Keys(depts[..|depts| - 1]) + [depts[|depts| - 1].0]
  }

  /** A mapping never holds the same key twice. */
  predicate UniqueKeys(depts: seq<Entry>)
  {
    forall i, j :: 0 <= i < j < |depts| ==> depts[i].0 != depts[j].0
  }

  predicate Distinct<T(==)>(s: seq<T>)
  {
    forall i, j :: 0 <= i < j < |s| ==> s[i] != s[j]
  }

  /** `departments[name]` for a key of the mapping. */
  function Lookup(depts: seq<Entry>, name: string): Department
    requires name in Keys(depts)
  {
    if depts[0].0 == name then depts[0].1
    else
      assert Keys(depts) == [depts[0].0] + Keys(depts[1..]);
      Lookup(depts[1..], name)
  }

  /** With unique keys, the lookup yields the record stored under the key. */
  lemma {:induction false} LookupUnique(depts: seq<Entry>, i: nat)
    requires UniqueKeys(depts) && i < |depts|
    ensures depts[i].0 in Keys(depts) && Lookup(depts, depts[i].0) == depts[i].1
  {
    assert Keys(depts)[i] == depts[i].0;
    if i > 0 {
      assert Keys(depts) == [depts[0].0] + Keys(depts[1..]);
      LookupUnique(depts[1..], i - 1);
    }
  }

  /** Every candidate entry of a department carries `votes`. */
  predicate AllVotesPresent(cands: seq<Candidate>)
  {
    forall i :: 0 <= i < |cands| ==> cands[i].votes.Some?
  }

  /** `{c['name']: c['votes'] for c in candidates}`: a later entry with the
      same name overwrites an earlier one. */
  function VoteTable(cands: seq<Candidate>): (t: map<string, nat>)
    requires AllVotesPresent(cands)
    ensures forall name :: name in t <==> exists i :: 0 <= i < |cands| && cands[i].name == name
  {
    if cands == [] then map[]
    else
      var n := |cands| - 1;
      var t := VoteTable(cands[..n]);
      assert forall i :: 0 <= i < n ==> cands[..n][i] == cands[i];
      t[cands[n].name := cands[n].votes.value]
  }

  /** A name's entry in the vote table comes from the LAST candidate entry
      that carries that name. */
  lemma {:induction false} VoteTableLast(cands: seq<Candidate>, i: nat)
    requires AllVotesPresent(cands) && i < |cands|
    requires forall j :: i < j < |cands| ==> cands[j].name != cands[i].name
    ensures cands[i].name in VoteTable(cands)
    ensures VoteTable(cands)[cands[i].name] == cands[i].votes.value
  {
    var n := |cands| - 1;
    var prev := cands[..n];
    assert VoteTable(cands) == VoteTable(prev)[cands[n].name := cands[n].votes.value];
    if i < n {
      assert prev[i] == cands[i];
      assert cands[n].name != cands[i].name;
      assert forall j :: i < j < n ==> prev[j] == cands[j];
      VoteTableLast(prev, i);
    }
  }
}
