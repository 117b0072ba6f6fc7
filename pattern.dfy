/**
 * The regular expression `_t(\d{3})_` and `re.search` with it: the
 * leftmost offset where `_`, `t`, three digits and `_` follow each other.
 */
module Pattern {
  import opened Wrappers
  import opened Numerals

  /** The pattern matches `s` at offset `i`. */
  predicate MatchAt(s: string, i: int)
  {
    0 <= i && i + 6 <= |s| &&
    s[i] == '_' && s[i + 1] == 't' &&
    IsDigit(s[i + 2]) && IsDigit(s[i + 3]) && IsDigit(s[i + 4]) &&
    s[i + 5] == '_'
  }

  /** The leftmost match at or after offset `from`, if any. */
  function SearchFrom(s: string, from: nat): (r: Option<nat>)
    decreases |s| - from
    ensures r.Some? ==> from <= r.value && MatchAt(s, r.value)
    ensures r.Some? ==> forall j | from <= j < r.value :: !MatchAt(s, j)
    ensures r.None? ==> forall j | from <= j :: !MatchAt(s, j)
  {
    if from + 6 > |s| then None
    else if MatchAt(s, from) then Some(from)
    else SearchFrom(s, from + 1)
  }

  /** `re.search('_t(\d{3})_', s)`: the start of the leftmost match. */
  function Search(s: string): (r: Option<nat>)
    ensures r.Some? ==> MatchAt(s, r.value) && forall j | j < r.value :: !MatchAt(s, j)
    ensures r.None? <==> forall j :: !MatchAt(s, j)
  {
    SearchFrom(s, 0)
  }

  /** `s` and `t` agree everywhere except at places where both hold a digit. */
  predicate SameShape(s: string, t: string)
  {
    |s| == |t| &&
    forall i | 0 <= i < |s| :: s[i] == t[i] || (IsDigit(s[i]) && IsDigit(t[i]))
  }

  /** Matching cannot tell two strings of the same shape apart. */
  lemma SameShapeSearch(s: string, t: string)
    requires SameShape(s, t)
    ensures Search(s) == Search(t)
  {
    assert forall i :: MatchAt(s, i) <==> MatchAt(t, i);
  }

  /**
   * Putting other digits in place of the three digits of a match keeps the
   * shape of the string, and is the same as rewriting the whole `_tNNN_` field.
   */
  lemma ReplaceDigits(s: string, k: nat, digits: string)
    requires MatchAt(s, k)
    requires |digits| == 3 && AllDigits(digits)
    ensures s[..k] + "_t" + digits + "_" + s[k + 6..] == s[..k + 2] + digits + s[k + 5..]
    ensures SameShape(s, s[..k + 2] + digits + s[k + 5..])
  {
    assert s[..k + 2] == s[..k] + "_t";
    assert s[k + 5..] == "_" + s[k + 6..];
    var t := s[..k + 2] + digits + s[k + 5..];
    forall i | 0 <= i < |s|
      ensures s[i] == t[i] || (IsDigit(s[i]) && IsDigit(t[i]))
    {
      if k + 2 <= i < k + 5 {
        assert t[i] == digits[i - (k + 2)];
      }
    }
  }

  /** Matching depends only on the six characters at the offset. */
  lemma MatchAtSameWindow(s: string, i: nat, t: string, j: nat)
    requires i + 6 <= |s| && j + 6 <= |t| && s[i..i + 6] == t[j..j + 6]
    ensures MatchAt(s, i) <==> MatchAt(t, j)
  {
    var w := s[i..i + 6];
    assert s[i] == w[0] == t[j] && s[i + 1] == w[1] == t[j + 1] && s[i + 2] == w[2] == t[j + 2];
    assert s[i + 3] == w[3] == t[j + 3] && s[i + 4] == w[4] == t[j + 4] && s[i + 5] == w[5] == t[j + 5];
  }

  /** Appending the same text to two strings of the same shape keeps them of the same shape. */
  lemma SameShapeAppend(s: string, t: string, e: string)
    requires SameShape(s, t)
    ensures SameShape(s + e, t + e)
  {
    forall i | 0 <= i < |s + e|
      ensures (s + e)[i] == (t + e)[i] || (IsDigit((s + e)[i]) && IsDigit((t + e)[i]))
    {
      if i < |s| {
        assert (s + e)[i] == s[i] && (t + e)[i] == t[i];
      }
    }
  }
}
