/**
 * The population table after type conversion: one record per observation,
 * with the integer sentinel -1 standing for an absent age, gender, year or
 * population and a null (None) for an absent income bracket.
 */
module Table {
  import opened Wrappers

  /** Integer written by the type conversion for an absent integer cell. */
  const Missing: int := -1

  /** Gender code the data uses for an invalid entry; counted as missing. */
  const InvalidGender: int := 3

  /** The four income brackets every (gender, age, year) cohort is expected to cover. */
  const ExpectedGroups: set<string> := {"low_income", "high_income", "lower_middle_income", "upper_middle_income"}

  datatype Row = Row(income: Option<string>, age: int, gender: int, year: int, population: int)

  datatype Field = Income | Age | Gender | Year | Population

  /** The per-field missing-value rule. */
  predicate IsMissing(r: Row, f: Field)
  {
    match f
    case Income => r.income.None?
    case Age => r.age == Missing
    case Gender => r.gender == Missing || r.gender == InvalidGender
    case Year => r.year == Missing
    case Population => r.population == Missing
  }

  /** Every entry of the index list `idx` names a row of a table with `n` rows. */
  predicate ValidIndices(idx: seq<nat>, n: nat)
  {
    forall k :: 0 <= k < |idx| ==> idx[k] < n
  }

  predicate Distinct<T(==)>(s: seq<T>)
  {
    forall i, j :: 0 <= i < j < |s| ==> s[i] != s[j]
  }

  /** `r` is obtained from `s` by deleting elements, keeping the order of the rest. */
  predicate IsSubsequence<T(==)>(r: seq<T>, s: seq<T>)
    decreases |s|
  {
    r == [] ||
    (s != [] &&
     ((r[|r| - 1] == s[|s| - 1] && IsSubsequence(r[..|r| - 1], s[..|s| - 1])) ||
      IsSubsequence(r, s[..|s| - 1])))
  }

  lemma {:induction false} SubsequenceNoLonger<T>(r: seq<T>, s: seq<T>)
    requires IsSubsequence(r, s)
    ensures |r| <= |s|
    decreases |s|
  {
    if r != [] {
      if r[|r| - 1] == s[|s| - 1] && IsSubsequence(r[..|r| - 1], s[..|s| - 1]) {
        SubsequenceNoLonger(r[..|r| - 1], s[..|s| - 1]);
      } else {
        SubsequenceNoLonger(r, s[..|s| - 1]);
      }
    }
  }

  /** The elements of `s` that satisfy `p`, in their original order. */
  function Filter<T(==,!new)>(s: seq<T>, p: T -> bool): (r: seq<T>)
    ensures forall x :: x in r <==> x in s && p(x)
    ensures forall x :: multiset(r)[x] == if p(x) then multiset(s)[x] else 0
    ensures IsSubsequence(r, s)
    ensures |r| <= |s|
    ensures (forall x :: x in s ==> p(x)) ==> r == s
    decreases |s|
  {
    if s == [] then []
    else
      var n := |s| - 1;
      var rest := Filter(s[..n], p);
      assert s == s[..n] + [s[n]];
      assert forall x :: x in s <==> x in s[..n] || x == s[n];
      assert multiset(s) == multiset(s[..n]) + multiset{s[n]};
      var r := if p(s[n]) then rest + [s[n]] else rest;
      assert p(s[n]) ==> r[..|r| - 1] == rest;
      SubsequenceNoLonger(r, s);
      r
  }
}
