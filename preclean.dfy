/**
 * The two clean-ups run before type conversion
 * (clean_population_data.py, remove_typos and remove_duplicates).
 */
module PreClean {
  import opened Wrappers
  import opened Table

  const Typo: string := "_typo"

  /** An occurrence of "_typo" starts at position `k` of `s`. */
  predicate TypoAt(s: string, k: nat)
  {
    k + |Typo| <= |s| && s[k..k + |Typo|] == Typo
  }

  ghost predicate HasTypo(s: string)
  {
    exists k: nat :: TypoAt(s, k)
  }

  /**
   * Every occurrence of "_typo" deleted, scanning left to right and resuming
   * after each deleted occurrence, as string replacement does.
   */
  function StripTypo(s: string): (r: string)
    ensures |r| <= |s|
    decreases |s|
  {
    if TypoAt(s, 0) then StripTypo(s[|Typo|..])
    else if s == [] then []
    else [s[0]] + StripTypo(s[1..])
  }

  /** A string without "_typo" is left unchanged. */
  lemma {:induction false} NoTypoUnchanged(s: string)
    requires !HasTypo(s)
    ensures StripTypo(s) == s
    decreases |s|
  {
    assert !TypoAt(s, 0);
    if s != [] {
      forall k: nat | TypoAt(s[1..], k)
        ensures TypoAt(s, k + 1)
      {
        assert s[1..][k..k + |Typo|] == s[k + 1..k + 1 + |Typo|];
      }
      NoTypoUnchanged(s[1..]);
    }
  }

  /** "_typo" cannot overlap itself, so no occurrence starts inside a short prefix of it. */
  lemma NoOverlap(s: string)
    requires 0 < |s| < |Typo|
    ensures !TypoAt(s + Typo, 0)
  {
    assert (s + Typo)[|s|] == '_';
  }

  /**
   * An occurrence of "_typo" anywhere in a string is deleted, and the text on
   * each side of it is stripped on its own: no occurrence can straddle it.
   */
  lemma {:induction false} TypoDeleted(x: string, y: string)
    ensures StripTypo(x + Typo + y) == StripTypo(x) + StripTypo(y)
    decreases |x|
  {
    var st := x + Typo + y;
    if x == [] {
      assert st == Typo + y;
      assert st[|Typo|..] == y;
    } else if |x| < |Typo| {
      assert !TypoAt(st, 0) by {
        NoOverlap(x);
        assert st[..|Typo|] == (x + Typo)[..|Typo|];
      }
      assert st[1..] == x[1..] + Typo + y;
      TypoDeleted(x[1..], y);
    } else if TypoAt(x, 0) {
      assert st[..|Typo|] == x[..|Typo|];
      assert st[|Typo|..] == x[|Typo|..] + Typo + y;
      TypoDeleted(x[|Typo|..], y);
    } else {
      assert st[..|Typo|] == x[..|Typo|];
      assert st[1..] == x[1..] + Typo + y;
      TypoDeleted(x[1..], y);
    }
  }

  /**
   * The first occurrence of "_typo" is deleted, the text before it is kept
   * as it is and the rest is stripped in turn; with `NoTypoUnchanged` this
   * fixes the result on every string.
   */
  lemma FirstTypoDeleted(x: string, y: string)
    requires !HasTypo(x)
    ensures StripTypo(x + Typo + y) == x + StripTypo(y)
  {
    TypoDeleted(x, y);
    NoTypoUnchanged(x);
  }

  /**
   * A "_typo" in the middle of a value is deleted as well as a trailing one.
   * The string is a parameter fixed by `requires`: a string literal in the
   * ensures makes the solver unroll `StripTypo` character by character.
   */
  lemma InnerTypoExample(s: string)
    requires s == "low_typo_income"
    ensures StripTypo(s) == "low_income"
  {
    var x, y := s[..3], s[8..];
    assert x + Typo + y == s;
    assert x + y == "low_income";
    NoTypoWithoutY(x);
    NoTypoWithoutY(y);
    NoTypoUnchanged(y);
    FirstTypoDeleted(x, y);
  }

  /**
   * Two occurrences are both deleted.
   * The string is a parameter fixed by `requires`: a string literal in the
   * ensures makes the solver unroll `StripTypo` character by character.
   */
  lemma TwoTyposExample(s: string)
    requires s == "low_typo_typo"
    ensures StripTypo(s) == "low"
  {
    var x: string := "low";
    NoTypoWithoutY(x);
    FirstTypoDeleted(x, Typo);
    TypoDeleted([], []);
    assert [] + Typo + [] == Typo;
    assert x + Typo + Typo == s;
  }

  /**
   * Deleting an occurrence can join its neighbours into a new "_typo", which
   * stays: the replacement is a single left-to-right pass.
   * The string is a parameter fixed by `requires`: a string literal in the
   * ensures makes the solver unroll `StripTypo` character by character.
   */
  lemma JoinedTypoExample(s: string)
    requires s == "_ty_typopo"
    ensures StripTypo(s) == "_typo"
  {
    var x, y := "_ty", "po";
    assert !HasTypo(x) by {
      forall k: nat ensures !TypoAt(x, k) { }
    }
    NoTypoWithoutY(y);
    FirstTypoDeleted(x, y);
    NoTypoUnchanged(y);
    assert x + Typo + y == s;
    assert x + y == "_typo";
  }

  /** A trailing "_typo" is deleted and nothing else changes on its account. */
  lemma TrailingTypoDropped(s: string)
    ensures StripTypo(s + Typo) == StripTypo(s)
  {
    TypoDeleted(s, []);
    assert s + Typo + [] == s + Typo;
    assert StripTypo([]) == [];
  }

  /** Every occurrence of "_typo" contains a 'y'. */
  lemma NoTypoWithoutY(s: string)
    requires 'y' !in s
    ensures !HasTypo(s)
  {
    forall k: nat | k + |Typo| <= |s|
      ensures !TypoAt(s, k)
    {
      assert s[k..k + |Typo|][2] == s[k + 2];
    }
  }

  /** Each expected bracket with "_typo" appended is mapped back to the bracket. */
  lemma BracketTyposRepaired(b: string)
    requires b in ExpectedGroups
    ensures StripTypo(b + Typo) == b
  {
    assert 'y' !in b;
    NoTypoWithoutY(b);
    TypoSuffixRepaired(b);
  }

  /** A string without "_typo" followed by "_typo" is mapped back to the string. */
  lemma TypoSuffixRepaired(s: string)
    requires !HasTypo(s)
    ensures StripTypo(s + Typo) == s
  {
    TrailingTypoDropped(s);
    NoTypoUnchanged(s);
  }

  lemma CleanStringsUnchanged()
    ensures forall s :: !HasTypo(s) ==> StripTypo(s) == s
  {
    forall s | !HasTypo(s)
      ensures StripTypo(s) == s
    {
      NoTypoUnchanged(s);
    }
  }

  /** remove_typos: the income column with "_typo" deleted; nulls stay null. */
  function RemoveTypos(t: seq<Row>): (r: seq<Row>)
    ensures |r| == |t|
    ensures forall j :: 0 <= j < |t| ==> r[j] == t[j].(income := r[j].income)
    ensures forall j :: 0 <= j < |t| ==> r[j].income.None? == t[j].income.None?
    ensures forall j :: 0 <= j < |t| && t[j].income.Some? && !HasTypo(t[j].income.value) ==> r[j] == t[j]
  {
    CleanStringsUnchanged();
    seq(|t|, j requires 0 <= j < |t| =>
      match t[j].income
      case None => t[j]
      case Some(s) => t[j].(income := Some(StripTypo(s))))
  }

  /** remove_duplicates: each row kept at its first occurrence only, in table order. */
  function RemoveDuplicates(t: seq<Row>): (r: seq<Row>)
    ensures |r| <= |t|
    decreases |t|
  {
    if t == [] then []
    else
      var n := |t| - 1;
      var kept := RemoveDuplicates(t[..n]);
      if t[n] in t[..n] then kept else kept + [t[n]]
  }

  /** The kept rows are pairwise distinct and are exactly the rows of the table. */
  lemma {:induction false} DuplicatesRemoved(t: seq<Row>)
    ensures Distinct(RemoveDuplicates(t))
    ensures forall x :: x in RemoveDuplicates(t) <==> x in t
    decreases |t|
  {
    if t != [] {
      var n := |t| - 1;
      DuplicatesRemoved(t[..n]);
      assert t == t[..n] + [t[n]];
    }
  }

  /** The kept rows appear in the table in the same order. */
  lemma {:induction false} KeptInOrder(t: seq<Row>)
    ensures IsSubsequence(RemoveDuplicates(t), t)
    decreases |t|
  {
    if t != [] {
      var n := |t| - 1;
      KeptInOrder(t[..n]);
      var kept := RemoveDuplicates(t[..n]);
      if t[n] !in t[..n] {
        assert (kept + [t[n]])[..|kept|] == kept;
      }
    }
  }

  /**
   * Rows are kept in the order of their first occurrences: the rows kept from
   * any prefix of the table come first, in the same order.
   */
  lemma {:induction false} KeptPrefix(t: seq<Row>, k: nat)
    requires k <= |t|
    ensures RemoveDuplicates(t[..k]) <= RemoveDuplicates(t)
    decreases |t|
  {
    if k < |t| {
      var n := |t| - 1;
      KeptPrefix(t[..n], k);
      assert t[..n][..k] == t[..k];
      assert RemoveDuplicates(t[..k]) <= RemoveDuplicates(t[..n]) <= RemoveDuplicates(t);
    } else {
      assert t[..k] == t;
    }
  }

  /** A table without repeated rows is returned as it is. */
  lemma {:induction false} DistinctKept(t: seq<Row>)
    requires Distinct(t)
    ensures RemoveDuplicates(t) == t
    decreases |t|
  {
    if t != [] {
      var n := |t| - 1;
      DistinctKept(t[..n]);
      assert t[n] !in t[..n];
      assert t == t[..n] + [t[n]];
    }
  }
}
