/**
 * The parts of Python's `str` that the renumbering script relies on:
 * `startswith`, `endswith`, the `in` operator, the ordering `<` and
 * `sorted(..., reverse=True)` over a list of names.
 */
module Strings {

  /** `s.startswith(p)`. */
  predicate StartsWith(s: string, p: string)
  {
    |p| <= |s| && s[..|p|] == p
  }

  /** `s.endswith(p)`; every string ends with the empty string. */
  predicate EndsWith(s: string, p: string)
  {
    |p| <= |s| && s[|s| - |p|..] == p
  }

  /** `sub in s`: some window of `s` equals `sub`; the empty string is in every string. */
  predicate Contains(s: string, sub: string)
  {
    exists i | 0 <= i <= |s| - |sub| :: OccursAt(s, sub, i)
  }

  predicate OccursAt(s: string, sub: string, i: int)
  {
    0 <= i <= |s| - |sub| && s[i..i + |sub|] == sub
  }

  /** No name occurs twice. */
  predicate Distinct(s: seq<string>)
  {
    forall i, j | 0 <= i < j < |s| :: s[i] != s[j]
  }

  /**
   * Python's `a < b` on `str`: compare code point by code point; a proper
   * prefix is smaller than the longer string.
   */
  predicate LexLess(a: string, b: string)
  {
    if |a| == 0 then |b| > 0
    else if |b| == 0 then false
    else if a[0] != b[0] then a[0] < b[0]
    else LexLess(a[1..], b[1..])
  }

  lemma {:induction false} LexLessIrreflexive(a: string)
    ensures !LexLess(a, a)
  {
    if |a| > 0 {
      LexLessIrreflexive(a[1..]);
    }
  }

  lemma {:induction false} LexLessTransitive(a: string, b: string, c: string)
    requires LexLess(a, b) && LexLess(b, c)
    ensures LexLess(a, c)
  {
    if |a| > 0 && |b| > 0 && |c| > 0 && a[0] == b[0] && b[0] == c[0] {
      LexLessTransitive(a[1..], b[1..], c[1..]);
    }
  }

  /** The order is total: of two different names one is the smaller. */
  lemma {:induction false} LexLessTotal(a: string, b: string)
    ensures a == b || LexLess(a, b) || LexLess(b, a)
  {
    if |a| > 0 && |b| > 0 && a[0] == b[0] {
      LexLessTotal(a[1..], b[1..]);
      if a[1..] == b[1..] {
        assert a == [a[0]] + a[1..] && b == [b[0]] + b[1..];
      }
    }
  }

  lemma {:induction false} LexLessAsymmetric(a: string, b: string)
    requires LexLess(a, b)
    ensures !LexLess(b, a)
  {
    if |a| > 0 && |b| > 0 && a[0] == b[0] {
      LexLessAsymmetric(a[1..], b[1..]);
    }
  }

  /** "Not smaller" is transitive too. */
  lemma NotLessTransitive(a: string, b: string, c: string)
    requires !LexLess(a, b) && !LexLess(b, c)
    ensures !LexLess(a, c)
  {
    LexLessTotal(a, b);
    LexLessTotal(b, c);
    if LexLess(a, c) {
      if a != b && b != c {
        LexLessTransitive(c, b, a);
        LexLessAsymmetric(c, a);
      }
    }
  }

  /** Two strings that agree up to position `p` and differ there are ordered by that character. */
  lemma {:induction false} LexLessAtFirstDifference(a: string, b: string, p: nat)
    requires p < |a| && p < |b|
    requires a[..p] == b[..p] && a[p] < b[p]
    ensures LexLess(a, b)
  {
    if p > 0 {
      assert a[0] == a[..p][0] == b[..p][0] == b[0];
      assert a[1..][..p - 1] == a[1..p] == a[..p][1..];
      assert b[1..][..p - 1] == b[1..p] == b[..p][1..];
      LexLessAtFirstDifference(a[1..], b[1..], p - 1);
    }
  }

  /** Sorted as by `sorted(xs, reverse=True)`: no element is smaller than a later one. */
  ghost predicate Descending(s: seq<string>)
  {
    forall i, j | 0 <= i < j < |s| :: !LexLess(s[i], s[j])
  }

  /** Inserts `x` before the first element it is not smaller than (stable for equal names). */
  function Insert(x: string, s: seq<string>): seq<string>
  {
    if s == [] then [x]
    else if !LexLess(x, s[0]) then [x] + s
    else [s[0]] + Insert(x, s[1..])
  }

  /** `sorted(xs, reverse=True)`: an insertion sort into descending order. */
  function SortDescending(xs: seq<string>): seq<string>
  {
    if xs == [] then [] else Insert(xs[0], SortDescending(xs[1..]))
  }

  lemma {:induction false} InsertElements(x: string, s: seq<string>)
    ensures multiset(Insert(x, s)) == multiset(s) + multiset{x}
  {
    if s != [] && LexLess(x, s[0]) {
      InsertElements(x, s[1..]);
      assert s == [s[0]] + s[1..];
    }
  }

  lemma {:induction false} InsertDescending(x: string, s: seq<string>)
    requires Descending(s)
    ensures Descending(Insert(x, s))
  {
    if s == [] {
    } else if !LexLess(x, s[0]) {
      forall j | 0 <= j < |s|
        ensures !LexLess(x, s[j])
      {
        if j > 0 {
          NotLessTransitive(x, s[0], s[j]);
        }
      }
      ConsDescending(x, s);
    } else {
      var t := Insert(x, s[1..]);
      InsertDescending(x, s[1..]);
      InsertElements(x, s[1..]);
      forall j | 0 <= j < |t|
        ensures !LexLess(s[0], t[j])
      {
        InsertedBelowHead(x, s, t[j]);
      }
      ConsDescending(s[0], t);
    }
  }

  /** A name not below any element of a descending list can go in front of it. */
  lemma ConsDescending(h: string, t: seq<string>)
    requires Descending(t)
    requires forall j | 0 <= j < |t| :: !LexLess(h, t[j])
    ensures Descending([h] + t)
  {
    var r := [h] + t;
    forall i, j | 0 <= i < j < |r|
      ensures !LexLess(r[i], r[j])
    {
      assert r[j] == t[j - 1];
      if i > 0 {
        assert r[i] == t[i - 1];
      }
    }
  }

  /** What follows the head of a descending list, plus a name smaller than the head, is not above the head. */
  lemma InsertedBelowHead(x: string, s: seq<string>, y: string)
    requires s != [] && Descending(s) && LexLess(x, s[0])
    requires y in multiset(s[1..]) + multiset{x}
    ensures !LexLess(s[0], y)
  {
    if y == x {
      LexLessAsymmetric(x, s[0]);
    } else {
      assert y in multiset(s[1..]);
      var k :| 0 <= k < |s[1..]| && s[1..][k] == y;
      assert s[k + 1] == y;
    }
  }

  /** `sorted(xs, reverse=True)` is a descending permutation of `xs`. */
  lemma {:induction false} SortDescendingCorrect(xs: seq<string>)
    ensures Descending(SortDescending(xs))
    ensures multiset(SortDescending(xs)) == multiset(xs)
  {
    if xs != [] {
      SortDescendingCorrect(xs[1..]);
      InsertDescending(xs[0], SortDescending(xs[1..]));
      InsertElements(xs[0], SortDescending(xs[1..]));
      assert xs == [xs[0]] + xs[1..];
    }
  }

  /** A sequence without repetitions has every element at most once in its multiset. */
  lemma {:induction false} DistinctMultiset(s: seq<string>)
    ensures Distinct(s) <==> forall x :: multiset(s)[x] <= 1
  {
    if s != [] {
      DistinctMultiset(s[1..]);
      assert s == [s[0]] + s[1..];
      if Distinct(s) {
        assert Distinct(s[1..]) by {
          forall i, j | 0 <= i < j < |s[1..]| ensures s[1..][i] != s[1..][j] {
            assert s[i + 1] != s[j + 1];
          }
        }
      } else {
        var i, j :| 0 <= i < j < |s| && s[i] == s[j];
        if i == 0 {
          assert s[j] == s[1..][j - 1];
          assert multiset(s)[s[0]] >= 2;
        } else {
          assert s[1..][i - 1] == s[1..][j - 1];
          assert !Distinct(s[1..]);
          var x :| multiset(s[1..])[x] > 1;
          assert multiset(s)[x] > 1;
        }
      }
    }
  }

  /** Sorting neither adds nor drops a name. */
  lemma SortDescendingSameElements(xs: seq<string>)
    ensures forall n :: n in SortDescending(xs) <==> n in xs
  {
    SortDescendingCorrect(xs);
    forall n
      ensures n in SortDescending(xs) <==> n in xs
    {
      assert n in SortDescending(xs) <==> n in multiset(SortDescending(xs));
      assert n in xs <==> n in multiset(xs);
    }
  }

  /** Sorting the names of a directory keeps them distinct. */
  lemma SortDescendingDistinct(xs: seq<string>)
    requires Distinct(xs)
    ensures Distinct(SortDescending(xs))
  {
    SortDescendingCorrect(xs);
    DistinctMultiset(xs);
    DistinctMultiset(SortDescending(xs));
  }

  /**
   * In a descending list without repetitions every element is strictly
   * smaller than each one before it.
   */
  lemma StrictlyDescending(s: seq<string>, i: nat, j: nat)
    requires Descending(s) && Distinct(s)
    requires i < j < |s|
    ensures LexLess(s[j], s[i])
  {
    LexLessTotal(s[i], s[j]);
  }

  /**
   * Dropping the first element of a descending list without repetitions
   * leaves one, every element of which is smaller than the one dropped.
   */
  lemma DescendingTail(s: seq<string>)
    requires s != [] && Descending(s) && Distinct(s)
    ensures Descending(s[1..]) && Distinct(s[1..])
    ensures forall k | k in s[1..] :: LexLess(k, s[0])
  {
    var rest := s[1..];
    forall i, j | 0 <= i < j < |rest| ensures !LexLess(rest[i], rest[j]) && rest[i] != rest[j] {
      assert rest[i] == s[i + 1] && rest[j] == s[j + 1];
    }
    forall k | k in rest ensures LexLess(k, s[0]) {
      var j :| 0 <= j < |rest| && rest[j] == k;
      StrictlyDescending(s, 0, j + 1);
    }
  }
}
