/**
 * `os.path.splitext` as the POSIX flavour of Python's `os.path` defines it:
 * the extension starts at the last `.` of the last path component, unless
 * everything before that dot in the component is dots.
 */
module Paths {

  /** `s.rfind(c)` for one character: the last index holding `c`, or -1. */
  function RFind(s: string, c: char): (r: int)
    ensures -1 <= r < |s|
    ensures r >= 0 ==> s[r] == c
    ensures forall i | r < i < |s| :: s[i] != c
  {
    RFindBefore(s, c, |s|)
  }

  /** The last index below `n` holding `c`, or -1. */
  function RFindBefore(s: string, c: char, n: nat): (r: int)
    requires n <= |s|
    ensures -1 <= r < n
    ensures r >= 0 ==> s[r] == c
    ensures forall i | r < i < n :: s[i] != c
  {
    if n == 0 then -1
    else if s[n - 1] == c then n - 1
    else RFindBefore(s, c, n - 1)
  }

  /** Where the extension begins, or `|p|` when there is none. */
  function ExtensionStart(p: string): (k: nat)
    ensures k <= |p|
  {
    var sep := RFind(p, '/');
    var dot := RFind(p, '.');
    if dot > sep && exists i | sep < i < dot :: p[i] != '.' then dot else |p|
  }

  /** `os.path.splitext(p)`: the root and the extension put back together give the path. */
  function SplitExt(p: string): (r: (string, string))
    ensures r.0 + r.1 == p
    ensures r.1 == [] || r.1[0] == '.'
  {
    var k := ExtensionStart(p);
    (p[..k], p[k..])
  }

  /**
   * Reference description of a split point: the dot at `d` has neither a
   * dot nor a separator after it, and some character of the same path
   * component before it is not a dot.
   */
  ghost predicate ExtensionAt(p: string, d: int)
  {
    0 <= d < |p| && p[d] == '.' &&
    (forall j | d < j < |p| :: p[j] != '.' && p[j] != '/') &&
    exists i | 0 <= i < d :: p[i] != '.' && NoSeparator(p, i, d)
  }

  predicate NoSeparator(p: string, lo: int, hi: int)
    requires 0 <= lo <= hi <= |p|
  {
    forall j | lo <= j < hi :: p[j] != '/'
  }

  /**
   * `splitext` splits exactly at the dot described by `ExtensionAt`, and
   * returns an empty extension exactly when no dot qualifies.
   */
  lemma ExtensionStartSpec(p: string)
    ensures ExtensionStart(p) < |p| ==> ExtensionAt(p, ExtensionStart(p))
    ensures ExtensionStart(p) == |p| ==> forall d :: !ExtensionAt(p, d)
  {
    var sep := RFind(p, '/');
    var dot := RFind(p, '.');
    if ExtensionStart(p) < |p| {
      var i :| sep < i < dot && p[i] != '.';
      assert NoSeparator(p, i, dot);
    }
    forall d | ExtensionAt(p, d)
      ensures ExtensionStart(p) == d
    {
      ExtensionAtIsSplit(p, d);
    }
  }

  /** Only the dot `splitext` picks can be described by `ExtensionAt`. */
  lemma ExtensionAtIsSplit(p: string, d: int)
    requires ExtensionAt(p, d)
    ensures ExtensionStart(p) == d
  {
    var sep := RFind(p, '/');
    var i :| 0 <= i < d && p[i] != '.' && NoSeparator(p, i, d);
    assert d == RFind(p, '.');
    assert sep < i;
  }

  /** Two paths with dots and separators at the same places. */
  predicate SameSeparators(p: string, q: string)
  {
    |p| == |q| &&
    forall i | 0 <= i < |p| :: (p[i] == '.' <==> q[i] == '.') && (p[i] == '/' <==> q[i] == '/')
  }

  lemma {:induction false} RFindSame(p: string, q: string, c: char, n: nat)
    requires n <= |p| == |q|
    requires forall i | 0 <= i < |p| :: p[i] == c <==> q[i] == c
    ensures RFindBefore(p, c, n) == RFindBefore(q, c, n)
  {
    if n > 0 && p[n - 1] != c {
      RFindSame(p, q, c, n - 1);
    }
  }

  /** Where `splitext` splits depends only on where the dots and separators are. */
  lemma ExtensionStartSame(p: string, q: string)
    requires SameSeparators(p, q)
    ensures ExtensionStart(p) == ExtensionStart(q)
  {
    RFindSame(p, q, '/', |p|);
    RFindSame(p, q, '.', |p|);
  }
}
