/**
 * `UniversityStudent.calculateConnectionStrength`: an additive integer
 * score of one student towards another.
 *   +4  the other's name is (exactly, case-sensitively) in this student's preferences
 *   +3  for every pair of internship entries, one from each side, that are equal
 *       ignoring case, where neither is `null` nor "None" in any case
 *   +2  both majors non-null, this one non-empty, equal ignoring case
 *   +1  both ages positive and equal
 * and 0 when the other reference is not a `UniversityStudent`.
 */
module Scoring {
  import opened Wrappers
  import opened Students
  import Text

  /** An internship entry that can take part in a match: non-null and not "None" in any case. */
  predicate Counts(c: Option<string>) {
    c.Some? && !Text.EqualsIgnoreCase(c.value, "None")
  }

  /** Two internship entries that earn the +3 bonus. */
  predicate Shared(c: Option<string>, d: Option<string>) {
    Counts(c) && Counts(d) && Text.EqualsIgnoreCase(c.value, d.value)
  }

  lemma SharedSymmetric(c: Option<string>, d: Option<string>)
    ensures Shared(c, d) <==> Shared(d, c)
  {
  }

  /** The inner internship loop: how many entries of `ys` share with `c`. */
  function RowMatches(c: Option<string>, ys: seq<Option<string>>): nat
  {
    if ys == [] then 0
    else RowMatches(c, ys[..|ys| - 1]) + (if Shared(c, ys[|ys| - 1]) then 1 else 0)
  }

  /** The outer internship loop: the number of sharing pairs, duplicates included. */
  function SharedCount(xs: seq<Option<string>>, ys: seq<Option<string>>): nat
  {
    if xs == [] then 0
    else SharedCount(xs[..|xs| - 1], ys) + RowMatches(xs[|xs| - 1], ys)
  }

  /** Reference definition: the set of index pairs (i, j) whose entries share. */
  function SharedPairs(xs: seq<Option<string>>, ys: seq<Option<string>>): set<(int, int)>
  {
    set i, j | 0 <= i < |xs| && 0 <= j < |ys| && Shared(xs[i], ys[j]) :: (i, j)
  }

  /** The pairs of `SharedPairs` whose first index is `i`. */
  function RowPairs(c: Option<string>, i: int, ys: seq<Option<string>>): set<(int, int)>
  {
    set j | 0 <= j < |ys| && Shared(c, ys[j]) :: (i, j)
  }

  lemma {:induction false} RowMatchesIsRowPairs(c: Option<string>, i: int, ys: seq<Option<string>>)
    ensures RowMatches(c, ys) == |RowPairs(c, i, ys)|
  {
    if ys != [] {
      var n := |ys| - 1;
      var init := ys[..n];
      RowMatchesIsRowPairs(c, i, init);
      var extra: set<(int, int)> := if Shared(c, ys[n]) then {(i, n)} else {};
      assert RowPairs(c, i, ys) == RowPairs(c, i, init) + extra by {
        forall p | p in RowPairs(c, i, ys)
          ensures p in RowPairs(c, i, init) + extra
        {
          var j :| 0 <= j < |ys| && Shared(c, ys[j]) && p == (i, j);
          if j < n {
            assert init[j] == ys[j];
          }
        }
        forall p | p in RowPairs(c, i, init)
          ensures p in RowPairs(c, i, ys)
        {
          var j :| 0 <= j < |init| && Shared(c, init[j]) && p == (i, j);
          assert ys[j] == init[j];
        }
      }
      assert (i, n) !in RowPairs(c, i, init);
    }
  }

  /** The nested loops count exactly the sharing index pairs. */
  lemma {:induction false} SharedCountIsPairCount(xs: seq<Option<string>>, ys: seq<Option<string>>)
    ensures SharedCount(xs, ys) == |SharedPairs(xs, ys)|
  {
    if xs != [] {
      var n := |xs| - 1;
      var init := xs[..n];
      SharedCountIsPairCount(init, ys);
      RowMatchesIsRowPairs(xs[n], n, ys);
      var row := RowPairs(xs[n], n, ys);
      assert SharedPairs(xs, ys) == SharedPairs(init, ys) + row by {
        forall p | p in SharedPairs(xs, ys)
          ensures p in SharedPairs(init, ys) + row
        {
          var i, j :| 0 <= i < |xs| && 0 <= j < |ys| && Shared(xs[i], ys[j]) && p == (i, j);
          if i < n {
            assert init[i] == xs[i];
          }
        }
        forall p | p in SharedPairs(init, ys)
          ensures p in SharedPairs(xs, ys)
        {
          var i, j :| 0 <= i < |init| && 0 <= j < |ys| && Shared(init[i], ys[j]) && p == (i, j);
          assert xs[i] == init[i];
        }
      }
      assert SharedPairs(init, ys) !! row;
    }
  }

  /** Appending one entry on the right adds the entry's matches against the left list. */
  lemma {:induction false} SharedCountSnoc(xs: seq<Option<string>>, ys: seq<Option<string>>, y: Option<string>)
    ensures SharedCount(xs, ys + [y]) == SharedCount(xs, ys) + RowMatches(y, xs)
  {
    if xs != [] {
      var n := |xs| - 1;
      SharedCountSnoc(xs[..n], ys, y);
      assert (ys + [y])[..|ys|] == ys;
      SharedSymmetric(xs[n], y);
    }
  }

  /** The internship count does not depend on which student is asked. */
  lemma {:induction false} SharedCountSymmetric(xs: seq<Option<string>>, ys: seq<Option<string>>)
    ensures SharedCount(xs, ys) == SharedCount(ys, xs)
  {
    if ys == [] {
      SharedCountEmptyRight(xs);
    } else {
      var n := |ys| - 1;
      SharedCountSymmetric(xs, ys[..n]);
      SharedCountSnoc(xs, ys[..n], ys[n]);
      assert ys[..n] + [ys[n]] == ys;
    }
  }

  lemma {:induction false} SharedCountEmptyRight(xs: seq<Option<string>>)
    ensures SharedCount(xs, []) == 0
  {
    if xs != [] {
      SharedCountEmptyRight(xs[..|xs| - 1]);
    }
  }

  /** An entry that is `null` or "None" in any case matches nothing. */
  lemma {:induction false} RowMatchesOfIgnored(c: Option<string>, ys: seq<Option<string>>)
    requires !Counts(c)
    ensures RowMatches(c, ys) == 0
  {
    if ys != [] {
      RowMatchesOfIgnored(c, ys[..|ys| - 1]);
    }
  }

  /** The outer loop over a concatenation is the sum over its two parts. */
  lemma {:induction false} SharedCountAppend(a: seq<Option<string>>, b: seq<Option<string>>, ys: seq<Option<string>>)
    ensures SharedCount(a + b, ys) == SharedCount(a, ys) + SharedCount(b, ys)
  {
    if b == [] {
      assert a + b == a;
    } else {
      var n := |b| - 1;
      SharedCountAppend(a, b[..n], ys);
      assert (a + b)[..|a + b| - 1] == a + b[..n];
    }
  }

  /**
   * An entry that is `null` or "None" in any case never contributes: taking
   * it out of either student's list leaves the count unchanged.
   */
  lemma NoneNeverShares(xs: seq<Option<string>>, ys: seq<Option<string>>, j: nat)
    requires j < |ys| && !Counts(ys[j])
    ensures SharedCount(xs, ys[..j] + ys[j + 1..]) == SharedCount(xs, ys)
    ensures SharedCount(ys[..j] + ys[j + 1..], xs) == SharedCount(ys, xs)
  {
    var rest := ys[..j] + ys[j + 1..];
    assert ys == ys[..j] + [ys[j]] + ys[j + 1..];
    SharedCountAppend(ys[..j] + [ys[j]], ys[j + 1..], xs);
    SharedCountAppend(ys[..j], [ys[j]], xs);
    SharedCountAppend(ys[..j], ys[j + 1..], xs);
    assert [ys[j]][..0] == [];
    RowMatchesOfIgnored(ys[j], xs);
    SharedCountSymmetric(xs, ys);
    SharedCountSymmetric(xs, rest);
  }

  function PreferenceBonus(a: Student, b: Student): nat {
    if b.name in a.prefs then 4 else 0
  }

  function InternshipBonus(a: Student, b: Student): nat {
    3 * SharedCount(a.internships, b.internships)
  }

  function MajorBonus(a: Student, b: Student): nat {
    if a.major.Some? && b.major.Some? && a.major.value != []
       && Text.EqualsIgnoreCase(a.major.value, b.major.value)
    then 2 else 0
  }

  function AgeBonus(a: Student, b: Student): nat {
    if a.age > 0 && b.age > 0 && a.age == b.age then 1 else 0
  }

  /** `calculateConnectionStrength(this = a, other)`. */
  function Score(a: Student, other: Ref): (r: int)
    ensures r >= 0
    ensures !other.University? ==> r == 0
  {
    match other
    case University(b) => PreferenceBonus(a, b) + InternshipBonus(a, b) + MajorBonus(a, b) + AgeBonus(a, b)
    case _ => 0
  }

  /**
   * The score is the sum of the four rules, with the internship rule
   * counting every sharing index pair (a multiset comparison).
   */
  lemma ScoreIsSumOfRules(a: Student, b: Student)
    ensures Score(a, University(b))
         == (if b.name in a.prefs then 4 else 0)
          + 3 * |SharedPairs(a.internships, b.internships)|
          + (if a.major.Some? && b.major.Some? && |a.major.value| > 0
                && Text.EqualsIgnoreCase(a.major.value, b.major.value) then 2 else 0)
          + (if 0 < a.age == b.age then 1 else 0)
  {
    SharedCountIsPairCount(a.internships, b.internships);
  }

  /**
   * Without the preference bonus the score is symmetric: the +4 is the only
   * source of asymmetry between `Score(a, b)` and `Score(b, a)`.
   */
  lemma ScoreAsymmetryIsPreferenceOnly(a: Student, b: Student)
    ensures Score(a, University(b)) - (if b.name in a.prefs then 4 else 0)
         == Score(b, University(a)) - (if a.name in b.prefs then 4 else 0)
  {
    SharedCountSymmetric(a.internships, b.internships);
    if a.major.Some? && b.major.Some? {
      Text.EqualsIgnoreCaseIsEquivalence(a.major.value, b.major.value, a.major.value);
    }
  }

  /** Giving `b` one more internship never lowers `a`'s score towards `b`. */
  lemma ScoreMonotoneInInternships(a: Student, b: Student, y: Option<string>)
    ensures Score(a, University(b.(internships := b.internships + [y])))
         == Score(a, University(b)) + 3 * RowMatches(y, a.internships)
  {
    SharedCountSnoc(a.internships, b.internships, y);
  }

  /** A name-only student scores 0 towards anyone, and earns only the preference bonus. */
  lemma NameOnlyScores(n: string, x: Student)
    ensures Score(NameOnly(n), University(x)) == 0
    ensures Score(x, University(NameOnly(n))) == (if n in x.prefs then 4 else 0)
  {
    SharedCountEmptyRight(x.internships);
  }
}
