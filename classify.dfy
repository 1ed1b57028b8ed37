/**
 * The sentinel classifier: for each field, the positions of the rows whose
 * value is missing (clean_population_data.py, find_missing_data_index).
 */
module Classify {
  import opened Wrappers
  import opened Table

  /** The positions of `t`, in ascending order, whose field `f` is missing. */
  function MissingRows(t: seq<Row>, f: Field): (r: seq<nat>)
    ensures forall k :: 0 <= k < |r| ==> r[k] < |t| && IsMissing(t[r[k]], f)
    ensures forall j :: 0 <= j < |t| && IsMissing(t[j], f) ==> j in r
    ensures forall k, l :: 0 <= k < l < |r| ==> r[k] < r[l]
    decreases |t|
  {
    if t == [] then []
    else
      var n := |t| - 1;
      var before := MissingRows(t[..n], f);
      before + if IsMissing(t[n], f) then [n] else []
  }

  /** The five index lists, in the order the source returns them. */
  datatype MissingIndex = MissingIndex(
    income: seq<nat>, age: seq<nat>, gender: seq<nat>, year: seq<nat>, population: seq<nat>)

  predicate Ascending(r: seq<nat>)
  {
    forall k, l :: 0 <= k < l < |r| ==> r[k] < r[l]
  }

  function FindMissingDataIndex(t: seq<Row>): (m: MissingIndex)
    ensures forall j: nat :: j in m.income <==> j < |t| && t[j].income.None?
    ensures forall j: nat :: j in m.age <==> j < |t| && t[j].age == -1
    ensures forall j: nat :: j in m.gender <==> j < |t| && (t[j].gender == -1 || t[j].gender == 3)
    ensures forall j: nat :: j in m.year <==> j < |t| && t[j].year == -1
    ensures forall j: nat :: j in m.population <==> j < |t| && t[j].population == -1
    ensures Ascending(m.income) && Ascending(m.age) && Ascending(m.gender)
    ensures Ascending(m.year) && Ascending(m.population)
  {
    MissingIndex(
      MissingRows(t, Income), MissingRows(t, Age), MissingRows(t, Gender),
      MissingRows(t, Year), MissingRows(t, Population))
  }

  lemma {:induction false} NoMissingRows(t: seq<Row>, f: Field)
    requires forall j :: 0 <= j < |t| ==> !IsMissing(t[j], f)
    ensures MissingRows(t, f) == []
    decreases |t|
  {
    if t != [] {
      NoMissingRows(t[..|t| - 1], f);
    }
  }

  /** A table in which no row has a missing field yields five empty lists. */
  lemma NothingMissing(t: seq<Row>)
    requires forall j, f :: 0 <= j < |t| ==> !IsMissing(t[j], f)
    ensures FindMissingDataIndex(t) == MissingIndex([], [], [], [], [])
  {
    forall f | true
      ensures MissingRows(t, f) == []
    {
      NoMissingRows(t, f);
    }
  }
}
