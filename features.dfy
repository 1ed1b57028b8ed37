/**
 * The year range filter and the age and era binning applied after the repair
 * (clean_population_data.py, lines 220 and 227-231). Bins are right-closed
 * intervals; a value outside every bin gets no label.
 */
module Features {
  import opened Wrappers
  import opened Table

  predicate ReasonableYear(r: Row)
  {
    1950 <= r.year <= 2100
  }

  function KeepReasonableYears(t: seq<Row>): (r: seq<Row>)
    ensures forall x :: x in r ==> 1950 <= x.year <= 2100
    ensures forall x :: x in t && 1950 <= x.year <= 2100 ==> x in r
    ensures forall x :: multiset(r)[x] == if 1950 <= x.year <= 2100 then multiset(t)[x] else 0
    ensures IsSubsequence(r, t)
  {
    Filter(t, ReasonableYear)
  }

  datatype AgeGroup = Child | YoungAdult | Adult | Elderly

  /** The bin edges of the age labels, in label order. */
  const AgeBins: seq<int> := [-1, 18, 35, 60, 100]

  /** The age label: the label of rank k covers the right-closed interval (AgeBins[k], AgeBins[k + 1]]. */
  function AgeGroupOf(age: int): (g: Option<AgeGroup>)
    ensures g.Some? <==> AgeBins[0] < age <= AgeBins[4]
    ensures g.Some? ==> AgeBins[AgeRank(g.value)] < age <= AgeBins[AgeRank(g.value) + 1]
  {
    if -1 < age <= 18 then Some(Child)
    else if 18 < age <= 35 then Some(YoungAdult)
    else if 35 < age <= 60 then Some(Adult)
    else if 60 < age <= 100 then Some(Elderly)
    else None
  }

  datatype Era = Middle50th | Late20th | Early21st | Future

  /** The bin edges of the era labels, in label order. */
  const EraBins: seq<int> := [1949, 1980, 2000, 2025, 2100]

  /** The era label: the label of rank k covers the right-closed interval (EraBins[k], EraBins[k + 1]]. */
  function EraOf(year: int): (e: Option<Era>)
    ensures e.Some? <==> EraBins[0] < year <= EraBins[4]
    ensures e.Some? ==> EraBins[EraRank(e.value)] < year <= EraBins[EraRank(e.value) + 1]
  {
    if 1949 < year <= 1980 then Some(Middle50th)
    else if 1980 < year <= 2000 then Some(Late20th)
    else if 2000 < year <= 2025 then Some(Early21st)
    else if 2025 < year <= 2100 then Some(Future)
    else None
  }

  function AgeRank(g: AgeGroup): (k: nat)
    ensures k < 4
  {
    match g
    case Child => 0
    case YoungAdult => 1
    case Adult => 2
    case Elderly => 3
  }

  function EraRank(e: Era): (k: nat)
    ensures k < 4
  {
    match e
    case Middle50th => 0
    case Late20th => 1
    case Early21st => 2
    case Future => 3
  }

  /**
   * The age bins cover exactly the ages 0 to 100 and are ordered: an older
   * person never falls in an earlier bin.
   */
  lemma AgeBinsOrdered(a: int, b: int)
    ensures AgeGroupOf(a).Some? <==> 0 <= a <= 100
    ensures a <= b && AgeGroupOf(a).Some? && AgeGroupOf(b).Some? ==>
      AgeRank(AgeGroupOf(a).value) <= AgeRank(AgeGroupOf(b).value)
  {
  }

  /** Every row left by the year filter falls in an era, and later years in later eras. */
  lemma EraDefinedAfterYearFilter(t: seq<Row>, x: Row, y: Row)
    requires x in KeepReasonableYears(t) && y in KeepReasonableYears(t)
    ensures EraOf(x.year).Some?
    ensures x.year <= y.year ==> EraRank(EraOf(x.year).value) <= EraRank(EraOf(y.year).value)
  {
  }
}
