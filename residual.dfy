/**
 * The residual filter that closes the repair (clean_population_data.py,
 * lines 193-195): rows still holding -1 in an integer column, the invalid
 * gender code 3 or a null are dropped.
 */
module Residual {
  import opened Table

  /** A row that survives all three filters of the residual step. */
  predicate Resolved(r: Row)
  {
    r.age != Missing && r.gender != Missing && r.year != Missing && r.population != Missing &&
    r.gender != InvalidGender &&
    r.income.Some?
  }

  function DropResidual(t: seq<Row>): (r: seq<Row>)
    ensures forall x :: x in r ==>
      x.income.Some? && x.age != -1 && x.gender != -1 && x.gender != 3 && x.year != -1 && x.population != -1
    ensures forall x :: x in t && Resolved(x) ==> x in r
    ensures forall x :: multiset(r)[x] == if Resolved(x) then multiset(t)[x] else 0
    ensures IsSubsequence(r, t) && |r| <= |t|
  {
    Filter(t, Resolved)
  }

  /** Surviving the filter is the same as having no field the classifier reports missing. */
  lemma ResolvedIffNothingMissing(x: Row)
    ensures Resolved(x) <==> forall f :: !IsMissing(x, f)
  {
    if !Resolved(x) {
      if x.income.None? { assert IsMissing(x, Income); }
      else if x.age == Missing { assert IsMissing(x, Age); }
      else if x.year == Missing { assert IsMissing(x, Year); }
      else if x.population == Missing { assert IsMissing(x, Population); }
      else { assert IsMissing(x, Gender); }
    }
  }

  /** A table of resolved rows passes the filter unchanged. */
  lemma CleanTableKept(t: seq<Row>)
    requires forall x :: x in t ==> Resolved(x)
    ensures DropResidual(t) == t
  {
  }
}
