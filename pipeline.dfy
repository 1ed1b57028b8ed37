/**
 * The missing-value repair in the order the script runs it
 * (clean_population_data.py, lines 188-195): the index lists are computed
 * once on the converted table, then the gender pass, then the income pass
 * (which sees the genders the first pass filled), then the population
 * carry-forward, and finally the residual filter.
 */
module Pipeline {
  import opened Table
  import opened Classify
  import opened GenderFill
  import opened IncomeFill
  import opened PopulationFill
  import opened Residual

  function Repair(t: seq<Row>): (r: seq<Row>)
    ensures forall x :: x in r ==> Resolved(x)
    ensures |r| <= |t|
  {
    var m := FindMissingDataIndex(t);
    var gendered := GenderPass(t, m.gender);
    var completed := IncomePass(gendered, m.income);
    DropResidual(ForwardFill(completed))
  }

  /** A table whose every row is already resolved comes out unchanged. */
  lemma ResolvedTableUnchanged(t: seq<Row>)
    requires forall x :: x in t ==> Resolved(x)
    ensures Repair(t) == t
  {
    forall j, f | 0 <= j < |t|
      ensures !IsMissing(t[j], f)
    {
      assert t[j] in t;
      ResolvedIffNothingMissing(t[j]);
    }
    NothingMissing(t);
    NothingToFill(t);
  }

  /** Repairing a second time changes nothing. */
  lemma RepairIdempotent(t: seq<Row>)
    ensures Repair(Repair(t)) == Repair(t)
  {
    ResolvedTableUnchanged(Repair(t));
  }

  /** The repair as the script performs it, on the table in place. */
  method RepairMissingValues(a: array<Row>) returns (cleaned: seq<Row>)
    modifies a
    ensures a[..] == ForwardFill(IncomePass(GenderPass(old(a[..]), FindMissingDataIndex(old(a[..])).gender),
                                            FindMissingDataIndex(old(a[..])).income))
    ensures cleaned == Repair(old(a[..]))
    ensures forall x :: x in cleaned ==> Resolved(x)
    ensures |cleaned| <= a.Length
  {
    var m := FindMissingDataIndex(a[..]);
    FillMissingGender(a, m.gender);
    FillMissingIncomeGroups(a, m.income);
    FillMissingPopulation(a);
    cleaned := DropResidual(a[..]);
  }
}
