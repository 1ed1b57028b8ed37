/**
 * The gender completer (clean_population_data.py, fill_missing_gender).
 * Rows of one (income, age, year) cohort are expected to hold one record of
 * each gender code 1 and 2; a listed row whose cohort shows exactly one of
 * the two codes gets the other one. The rows are processed in list order on
 * the table as it stands, so a gender filled earlier in the pass is evidence
 * for the rows processed after it.
 */
module GenderFill {
  import opened Wrappers
  import opened Table

  /**
   * Peer `p` belongs to the cohort of a row with this income, age and year.
   * A null income matches no row, and a peer's age must not be the sentinel;
   * the year is compared as it is, -1 included.
   */
  predicate InCohort(p: Row, income: Option<string>, age: int, year: int)
  {
    income.Some? && p.income == income && p.age != Missing && p.age == age && p.year == year
  }

  /** The distinct gender codes found in the cohort of row `i` (the row itself included). */
  function CohortGenders(t: seq<Row>, i: nat): set<int>
    requires i < |t|
  {
    set j: nat | j < |t| && InCohort(t[j], t[i].income, t[i].age, t[i].year) :: t[j].gender
  }

  /** Some row of the cohort of row `i` carries gender code `g`. */
  ghost predicate PeerHas(t: seq<Row>, i: nat, g: int)
    requires i < |t|
  {
    exists j :: 0 <= j < |t| && InCohort(t[j], t[i].income, t[i].age, t[i].year) && t[j].gender == g
  }

  /** The code row `i` is completed with, when its cohort shows exactly one of 1 and 2. */
  function InferGender(t: seq<Row>, i: nat): (g: Option<int>)
    requires i < |t|
    ensures g == Some(2) <==> PeerHas(t, i, 1) && !PeerHas(t, i, 2)
    ensures g == Some(1) <==> PeerHas(t, i, 2) && !PeerHas(t, i, 1)
    ensures g == None <==> (PeerHas(t, i, 1) <==> PeerHas(t, i, 2))
  {
    var gs := CohortGenders(t, i);
    assert 1 in gs <==> PeerHas(t, i, 1);
    assert 2 in gs <==> PeerHas(t, i, 2);
    if 2 in gs && 1 !in gs then Some(1)
    else if 1 in gs && 2 !in gs then Some(2)
    else None
  }

  /** The table after one iteration of the completer's loop, on row `i`. */
  function GenderStep(t: seq<Row>, i: nat): (r: seq<Row>)
    requires i < |t|
    ensures |r| == |t|
    ensures forall j :: 0 <= j < |t| && j != i ==> r[j] == t[j]
    ensures r[i] == t[i].(gender := r[i].gender)
    ensures PeerHas(t, i, 1) && !PeerHas(t, i, 2) ==> r[i].gender == 2
    ensures PeerHas(t, i, 2) && !PeerHas(t, i, 1) ==> r[i].gender == 1
    ensures (PeerHas(t, i, 1) <==> PeerHas(t, i, 2)) ==> r == t
  {
    match InferGender(t, i)
    case Some(g) => t[i := t[i].(gender := g)]
    case None => t
  }

  /** The table after the whole loop over the index list `idx`, processed in order. */
  function GenderPass(t: seq<Row>, idx: seq<nat>): (r: seq<Row>)
    requires ValidIndices(idx, |t|)
    ensures |r| == |t|
    ensures forall j :: 0 <= j < |t| ==> r[j] == t[j].(gender := r[j].gender)
    ensures forall j :: 0 <= j < |t| && j !in idx ==> r[j] == t[j]
    ensures forall j :: 0 <= j < |t| && r[j] != t[j] ==> r[j].gender == 1 || r[j].gender == 2
    decreases |idx|
  {
    if idx == [] then t
    else
      var n := |idx| - 1;
      assert forall j :: j in idx[..n] ==> j in idx;
      GenderStep(GenderPass(t, idx[..n]), idx[n])
  }

  /** A row with a null income or a missing age has no cohort, so the pass never changes it. */
  lemma {:induction false} NoCohortUnchanged(t: seq<Row>, idx: seq<nat>, j: nat)
    requires ValidIndices(idx, |t|) && j < |t|
    requires t[j].income.None? || t[j].age == Missing
    ensures GenderPass(t, idx)[j] == t[j]
    decreases |idx|
  {
    if idx != [] {
      var n := |idx| - 1;
      NoCohortUnchanged(t, idx[..n], j);
      var u := GenderPass(t, idx[..n]);
      assert !PeerHas(u, j, 1) && !PeerHas(u, j, 2);
    }
  }

  /**
   * The pass works on the table as it is being changed: in a cohort with one
   * row of gender 1 and two rows missing their gender, the first listed row
   * gets 2, and that 2 then makes the cohort ambiguous for the second one,
   * which is left as it was.
   */
  lemma EarlierFillIsEvidence()
    ensures var t := [Row(Some("low_income"), 30, Missing, 2000, 10),
                      Row(Some("low_income"), 30, InvalidGender, 2000, 11),
                      Row(Some("low_income"), 30, 1, 2000, 12)];
            GenderPass(t, [0, 1]) == [t[0].(gender := 2), t[1], t[2]]
  {
  }

  /** fill_missing_gender: the loop over the index list, writing the table in place. */
  method FillMissingGender(a: array<Row>, idx: seq<nat>)
    requires ValidIndices(idx, a.Length)
    modifies a
    ensures a[..] == GenderPass(old(a[..]), idx)
  {
    for k := 0 to |idx|
      invariant a[..] == GenderPass(old(a[..]), idx[..k])
    {
      var i := idx[k];
      var g := InferGender(a[..], i);
      if g.Some? {
        a[i] := a[i].(gender := g.value);
      }
      assert idx[..k + 1][..k] == idx[..k];
    }
    assert idx[..|idx|] == idx;
  }
}
