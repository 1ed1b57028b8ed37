/**
 * The income-bracket completer (clean_population_data.py,
 * fill_missing_incomegroups). Rows of one (gender, age, year) cohort are
 * expected to hold one record per income bracket; when the cohort has
 * exactly four rows and the brackets it already shows leave exactly one of
 * the four unaccounted for, the listed row gets that bracket. As with the
 * gender completer, rows are processed in list order on the table as it
 * stands.
 */
module IncomeFill {
  import opened Wrappers
  import opened Table

  /**
   * Peer `p` belongs to the cohort of a row with this gender, age and year:
   * same three values, none of them the sentinel, and gender not the invalid
   * code. The row being completed is a member of its own cohort.
   */
  predicate InCohort(p: Row, gender: int, age: int, year: int)
  {
    p.gender == gender && p.age == age && p.year == year &&
    p.age != Missing && p.year != Missing && p.gender != Missing && p.gender != InvalidGender
  }

  /**
   * The positions of the cohort of row `i`. The row belongs to its own cohort
   * exactly when its key is valid; an invalid key has no cohort at all.
   */
  function Cohort(t: seq<Row>, i: nat): (c: set<nat>)
    requires i < |t|
    ensures forall j :: j in c ==> j < |t|
    ensures i in c <==> t[i].age != -1 && t[i].year != -1 && t[i].gender != -1 && t[i].gender != 3
    ensures t[i].age == -1 || t[i].year == -1 || t[i].gender == -1 || t[i].gender == 3 ==> c == {}
  {
    set j: nat | j < |t| && InCohort(t[j], t[i].gender, t[i].age, t[i].year)
  }

  /** The non-null income values among the rows at positions `c`. */
  function Present(t: seq<Row>, c: set<nat>): set<string>
    requires forall j :: j in c ==> j < |t|
  {
    set j | j in c && t[j].income.Some? :: t[j].income.value
  }

  lemma Singleton<T>(m: set<T>)
    requires |m| == 1
    ensures exists b :: m == {b}
  {
    var b :| b in m;
    assert |m - {b}| == 0;
    assert m - {b} == {};
  }

  /** The only expected bracket absent from `present`, if exactly one is. */
  function SoleMissing(present: set<string>): (r: Option<string>)
    ensures r.Some? <==> |ExpectedGroups - present| == 1
    ensures r.Some? ==> ExpectedGroups - present == {r.value}
  {
    var m := ExpectedGroups - present;
    if |m| == 1 then
      Singleton(m);
      var b :| b in m;
      Some(b)
    else None
  }

  /** The table after one iteration of the completer's loop, on row `i`. */
  function IncomeStep(t: seq<Row>, i: nat): (r: seq<Row>)
    requires i < |t|
    ensures |r| == |t|
    ensures forall j :: 0 <= j < |t| && j != i ==> r[j] == t[j]
    ensures r[i] == t[i].(income := r[i].income)
  {
    var c := Cohort(t, i);
    if |c| != 4 then t
    else
      match SoleMissing(Present(t, c))
      case None => t
      case Some(b) => t[i := t[i].(income := Some(b))]
  }

  /** Some row of the cohort of row `i` carries bracket `b`. */
  ghost predicate CohortCarries(t: seq<Row>, i: nat, b: string)
    requires i < |t|
  {
    exists j :: 0 <= j < |t| && InCohort(t[j], t[i].gender, t[i].age, t[i].year) && t[j].income == Some(b)
  }

  /** `b` is the one expected bracket that no row of the cohort of row `i` carries. */
  ghost predicate SoleAbsent(t: seq<Row>, i: nat, b: string)
    requires i < |t|
  {
    b in ExpectedGroups && !CohortCarries(t, i, b) &&
    forall b' :: b' in ExpectedGroups && b' != b ==> CohortCarries(t, i, b')
  }

  lemma PresentMeansCarried(t: seq<Row>, i: nat, b: string)
    requires i < |t|
    ensures b in Present(t, Cohort(t, i)) <==> CohortCarries(t, i, b)
  {
  }

  lemma {:induction false} SoleMissingMeansSoleAbsent(t: seq<Row>, i: nat, b: string)
    requires i < |t|
    ensures ExpectedGroups - Present(t, Cohort(t, i)) == {b} <==> SoleAbsent(t, i, b)
  {
    var p := Present(t, Cohort(t, i));
    forall x | true
      ensures x in p <==> CohortCarries(t, i, x)
    {
      PresentMeansCarried(t, i, x);
    }
    if SoleAbsent(t, i, b) {
      assert forall x :: x in ExpectedGroups - p <==> x == b;
    }
    if ExpectedGroups - p == {b} {
      assert b in ExpectedGroups - p;
      forall b' | b' in ExpectedGroups && b' != b
        ensures CohortCarries(t, i, b')
      {
        assert b' !in ExpectedGroups - p;
      }
    }
  }

  /**
   * Quartet completion: a row whose cohort has exactly four rows among which
   * every expected bracket but `b` appears gets `b`.
   */
  lemma QuartetCompletion(t: seq<Row>, i: nat, b: string)
    requires i < |t|
    requires |Cohort(t, i)| == 4 && SoleAbsent(t, i, b)
    ensures IncomeStep(t, i)[i].income == Some(b)
  {
    SoleMissingMeansSoleAbsent(t, i, b);
  }

  /**
   * The converse: whenever the step changes the table, the cohort has exactly
   * four rows and the value written is the one expected bracket it lacks.
   */
  lemma OnlyDeterminedBracketWritten(t: seq<Row>, i: nat)
    requires i < |t|
    requires IncomeStep(t, i) != t
    ensures |Cohort(t, i)| == 4
    ensures exists b :: SoleAbsent(t, i, b) && IncomeStep(t, i)[i].income == Some(b)
  {
    var b := SoleMissing(Present(t, Cohort(t, i))).value;
    SoleMissingMeansSoleAbsent(t, i, b);
  }

  /**
   * Quartet non-completion: a cohort that does not have exactly four rows,
   * that already shows all four brackets, or that lacks two or more of them
   * leaves the table unchanged.
   */
  lemma AmbiguousCohortSkipped(t: seq<Row>, i: nat)
    requires i < |t|
    requires || |Cohort(t, i)| != 4
             || (forall b :: b in ExpectedGroups ==> CohortCarries(t, i, b))
             || (exists b1, b2 :: b1 in ExpectedGroups && b2 in ExpectedGroups && b1 != b2 &&
                                 !CohortCarries(t, i, b1) && !CohortCarries(t, i, b2))
    ensures IncomeStep(t, i) == t
  {
    if IncomeStep(t, i) != t {
      OnlyDeterminedBracketWritten(t, i);
    }
  }

  /**
   * A row whose own gender is missing or invalid, or whose age or year is
   * missing, has an empty cohort, so the step never changes the table.
   */
  lemma InvalidKeyNeverFilled(t: seq<Row>, i: nat)
    requires i < |t|
    requires t[i].gender == Missing || t[i].gender == InvalidGender || t[i].age == Missing || t[i].year == Missing
    ensures IncomeStep(t, i) == t
  {
    assert Cohort(t, i) == {};
  }

  /** The table after the whole loop over the index list `idx`, processed in order. */
  function IncomePass(t: seq<Row>, idx: seq<nat>): (r: seq<Row>)
    requires ValidIndices(idx, |t|)
    ensures |r| == |t|
    ensures forall j :: 0 <= j < |t| ==> r[j] == t[j].(income := r[j].income)
    ensures forall j :: 0 <= j < |t| && j !in idx ==> r[j] == t[j]
    ensures forall j :: 0 <= j < |t| && r[j] != t[j] ==> r[j].income.Some? && r[j].income.value in ExpectedGroups
    decreases |idx|
  {
    if idx == [] then t
    else
      var n := |idx| - 1;
      assert forall j :: j in idx[..n] ==> j in idx;
      IncomeStep(IncomePass(t, idx[..n]), idx[n])
  }

  /** A row whose gender, age or year rules out any cohort is never changed by the pass. */
  lemma {:induction false} InvalidKeyUnchanged(t: seq<Row>, idx: seq<nat>, j: nat)
    requires ValidIndices(idx, |t|) && j < |t|
    requires t[j].gender == Missing || t[j].gender == InvalidGender || t[j].age == Missing || t[j].year == Missing
    ensures IncomePass(t, idx)[j] == t[j]
    decreases |idx|
  {
    if idx != [] {
      var n := |idx| - 1;
      InvalidKeyUnchanged(t, idx[..n], j);
      if idx[n] == j {
        InvalidKeyNeverFilled(IncomePass(t, idx[..n]), j);
      }
    }
  }

  /** fill_missing_incomegroups: the loop over the index list, writing the table in place. */
  method FillMissingIncomeGroups(a: array<Row>, idx: seq<nat>)
    requires ValidIndices(idx, a.Length)
    modifies a
    ensures a[..] == IncomePass(old(a[..]), idx)
  {
    for k := 0 to |idx|
      invariant a[..] == IncomePass(old(a[..]), idx[..k])
    {
      var i := idx[k];
      var group := Cohort(a[..], i);
      if |group| == 4 {
        var missing := SoleMissing(Present(a[..], group));
        if missing.Some? {
          a[i] := a[i].(income := missing);
        }
      }
      assert idx[..k + 1][..k] == idx[..k];
    }
    assert idx[..|idx|] == idx;
  }
}
