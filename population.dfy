/**
 * The population carry-forward (clean_population_data.py,
 * fill_missing_population): every missing population takes the value of the
 * nearest earlier row that has one, in table order. Rows before the first
 * known population have nothing to carry and stay missing; the sentinel -1
 * stands for the resulting NA.
 */
module PopulationFill {
  import opened Wrappers
  import opened Table

  /** The table after forward-filling the population column. */
  function ForwardFill(t: seq<Row>): (r: seq<Row>)
    ensures |r| == |t|
    ensures forall j :: 0 <= j < |t| ==> r[j] == t[j].(population := r[j].population)
    ensures forall j :: 0 <= j < |t| && t[j].population != Missing ==> r[j] == t[j]
    decreases |t|
  {
    if t == [] then []
    else
      var n := |t| - 1;
      var done := ForwardFill(t[..n]);
      var last := if n == 0 then Missing else done[n - 1].population;
      done + [if t[n].population == Missing then t[n].(population := last) else t[n]]
  }

  /** Filling a prefix gives the prefix of the filled table. */
  lemma {:induction false} FillPrefix(t: seq<Row>, m: nat)
    requires m <= |t|
    ensures ForwardFill(t[..m]) == ForwardFill(t)[..m]
    decreases |t|
  {
    if m < |t| {
      var n := |t| - 1;
      FillPrefix(t[..n], m);
      assert t[..n][..m] == t[..m];
    } else {
      assert t[..m] == t;
    }
  }

  /** Row `j` after the fill, in terms of row `j` before it and row `j - 1` after it. */
  lemma FillAt(t: seq<Row>, j: nat)
    requires j < |t|
    ensures ForwardFill(t)[j].population ==
      if t[j].population != Missing then t[j].population
      else if j == 0 then Missing
      else ForwardFill(t)[j - 1].population
  {
    FillPrefix(t, j + 1);
    assert t[..j + 1][..j] == t[..j];
    FillPrefix(t, j);
  }

  /**
   * A missing population takes the value of the nearest earlier row `k` that
   * has one.
   */
  lemma {:induction false} NearestEarlierCarried(t: seq<Row>, k: nat, j: nat)
    requires k <= j < |t|
    requires t[k].population != Missing
    requires forall m :: k < m <= j ==> t[m].population == Missing
    ensures ForwardFill(t)[j].population == t[k].population
    decreases j
  {
    FillAt(t, j);
    if j > k {
      NearestEarlierCarried(t, k, j - 1);
    }
  }

  /** A row with no known population at or before it stays missing. */
  lemma {:induction false} LeadingMissingStays(t: seq<Row>, j: nat)
    requires j < |t|
    requires forall m :: 0 <= m <= j ==> t[m].population == Missing
    ensures ForwardFill(t)[j].population == Missing
    decreases j
  {
    FillAt(t, j);
    if j > 0 {
      LeadingMissingStays(t, j - 1);
    }
  }

  /** A table without a missing population is left as it is. */
  lemma NothingToFill(t: seq<Row>)
    requires forall j :: 0 <= j < |t| ==> t[j].population != Missing
    ensures ForwardFill(t) == t
  {
  }

  function PopulationRow(p: int): Row
  {
    Row(Some("low_income"), 30, 1, 2000, p)
  }

  /** [50, missing, missing, 80] becomes [50, 50, 50, 80]; [missing, 7] stays [missing, 7]. */
  lemma FillExamples()
    ensures var t := [PopulationRow(50), PopulationRow(Missing), PopulationRow(Missing), PopulationRow(80)];
            ForwardFill(t) == [PopulationRow(50), PopulationRow(50), PopulationRow(50), PopulationRow(80)]
    ensures ForwardFill([PopulationRow(Missing), PopulationRow(7)]) == [PopulationRow(Missing), PopulationRow(7)]
  {
    var t := [PopulationRow(50), PopulationRow(Missing), PopulationRow(Missing), PopulationRow(80)];
    NearestEarlierCarried(t, 0, 1);
    NearestEarlierCarried(t, 0, 2);
    var u := [PopulationRow(Missing), PopulationRow(7)];
    LeadingMissingStays(u, 0);
  }

  /** Filling one more row of a prefix appends that row, filled from the row before it. */
  lemma FillExtend(s: seq<Row>, j: nat)
    requires j < |s|
    ensures var done := ForwardFill(s[..j]);
            var last := if j == 0 then Missing else done[j - 1].population;
            ForwardFill(s[..j + 1]) ==
              done + [if s[j].population == Missing then s[j].(population := last) else s[j]]
  {
    assert s[..j + 1][..j] == s[..j];
  }

  /** Overwriting the first unfilled row of a partly filled table extends the filled part. */
  lemma WriteNext(done: seq<Row>, s: seq<Row>, x: Row)
    requires |done| < |s|
    ensures (done + s[|done|..])[|done| := x] == (done + [x]) + s[|done| + 1..]
  {
  }

  /** fill_missing_population: a forward scan over the table carrying the last known value. */
  method FillMissingPopulation(a: array<Row>)
    modifies a
    ensures a[..] == ForwardFill(old(a[..]))
  {
    ghost var s := a[..];
    var last := Missing;
    for j := 0 to a.Length
      invariant a[..] == ForwardFill(s[..j]) + s[j..]
      invariant last == if j == 0 then Missing else a[j - 1].population
    {
      ghost var done := ForwardFill(s[..j]);
      FillExtend(s, j);
      assert a[j] == s[j];
      var row := a[j];
      if row.population == Missing {
        row := row.(population := last);
      } else {
        last := row.population;
      }
      WriteNext(done, s, row);
      a[j] := row;
    }
    assert s[..a.Length] == s;
  }
}
