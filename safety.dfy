/**
 * Why the listing is sorted in descending order before the loop: when the
 * input and output directory are the same and every timepoint is below
 * 999, each file is renamed to a name greater than its own, which the
 * loop has already visited, and moved away if it was selected, so no
 * rename replaces a file that still has to be renamed. Names are compared
 * exactly, as on a case-sensitive volume.
 */
module Safety {
  import opened Wrappers
  import opened Strings
  import opened Increment
  import opened FileSystem
  import opened Renamer

  /**
   * A name the loop renames: `NameSelected` and `IsFile`, the latter read
   * on the snapshot `d` of the directory rather than on the whole tree.
   */
  predicate Chosen(d: Directory, cfg: Config, n: string)
  {
    n in d && NameSelected(n, cfg) && d[n].RegularFile?
  }

  /** Every chosen name carries a timepoint, and none is 999 (whose successor has four digits). */
  predicate TimepointsBelowLimit(d: Directory, cfg: Config)
  {
    forall n | n in d && Chosen(d, cfg, n) :: Timepoint(n).Some? && Timepoint(n).value < 999
  }

  /** An entry at the new name of a chosen file is itself chosen, so the loop moves it out of the way. */
  predicate NoBlockers(d: Directory, cfg: Config)
  {
    forall n | n in d && Chosen(d, cfg, n) && IncrementFilename(n).Ok? && IncrementFilename(n).value in d ::
      Chosen(d, cfg, IncrementFilename(n).value)
  }

  /** Every chosen name not in `rest` is greater than every name in `rest`. */
  ghost predicate Above(d0: Directory, cfg: Config, rest: seq<string>)
  {
    forall n, m | Chosen(d0, cfg, n) && n !in rest && m in rest :: LexLess(m, n)
  }

  /** `k` is the new name of a chosen file the loop has already visited. */
  ghost predicate NewName(d0: Directory, cfg: Config, rest: seq<string>, k: string)
  {
    exists n | Chosen(d0, cfg, n) && n !in rest :: IncrementFilename(n) == Ok(k)
  }

  /** The renames the loop should print for `names`: each chosen name, in order, to its incremented name. */
  function Planned(d0: Directory, cfg: Config, names: seq<string>): seq<Renaming>
  {
    if names == [] then []
    else if Chosen(d0, cfg, names[0]) && IncrementFilename(names[0]).Ok? then
      [Renaming(names[0], IncrementFilename(names[0]).value)] + Planned(d0, cfg, names[1..])
    else Planned(d0, cfg, names[1..])
  }

  /** The content of each chosen name outside `rest` sits at its new name in `d`. */
  ghost predicate MovedSoFar(d0: Directory, cfg: Config, d: Directory, rest: seq<string>)
  {
    forall n | Chosen(d0, cfg, n) && n !in rest && IncrementFilename(n).Ok? ::
      IncrementFilename(n).value in d && d[IncrementFilename(n).value] == d0[n]
  }

  /** Every name still to be visited is an original entry, unchanged in `d`. */
  ghost predicate Unvisited(d0: Directory, d: Directory, rest: seq<string>)
  {
    forall k | k in rest :: k in d0 && k in d && d[k] == d0[k]
  }

  /**
   * `d'` is `d` with the entry at `m` moved to the different name `inc`,
   * replacing whatever was there.
   */
  ghost predicate Relocated(d: Directory, d': Directory, m: string, inc: string)
  {
    m in d && inc in d' && d'[inc] == d[m] && m !in d' &&
    (forall n | n in d && n != m && n != inc :: n in d' && d'[n] == d[n]) &&
    (forall n | n in d' :: n == inc || n in d)
  }

  /**
   * `d` is the directory `d0` once the chosen names outside `rest` have
   * been renamed: each of their contents sits at its new name, every other
   * original entry is untouched, and nothing else is there.
   */
  ghost predicate Renumbered(d0: Directory, cfg: Config, d: Directory, rest: seq<string>)
  {
    MovedSoFar(d0, cfg, d, rest) &&
    (forall k | k in d0 && (k in rest || !Chosen(d0, cfg, k)) :: k in d && d[k] == d0[k]) &&
    (forall k | k in d :: (k in d0 && (k in rest || !Chosen(d0, cfg, k))) || NewName(d0, cfg, rest, k))
  }

  /**
   * With the loop about to visit `rest[0]`, the checks made on the current
   * directory select it exactly when it was chosen in the original one.
   */
  lemma ChosenWhenVisited(d0: Directory, cfg: Config, d: Directory, rest: seq<string>)
    requires rest != [] && Above(d0, cfg, rest) && Renumbered(d0, cfg, d, rest)
    requires TimepointsBelowLimit(d0, cfg)
    ensures (NameSelected(rest[0], cfg) && rest[0] in d && d[rest[0]].RegularFile?) <==> Chosen(d0, cfg, rest[0])
  {
    var m := rest[0];
    if m in d && !(m in d0 && (m in rest || !Chosen(d0, cfg, m))) {
      var n :| Chosen(d0, cfg, n) && n !in rest && IncrementFilename(n) == Ok(m);
      IncrementFilenameIncreases(n);
      LexLessTransitive(m, n, m);
      LexLessIrreflexive(m);
    }
  }

  /** Visiting a name that was not chosen changes nothing and keeps the invariant. */
  lemma RenumberedAfterSkip(d0: Directory, cfg: Config, d: Directory, rest: seq<string>)
    requires rest != [] && !Chosen(d0, cfg, rest[0])
    requires Above(d0, cfg, rest) && Renumbered(d0, cfg, d, rest)
    ensures Above(d0, cfg, rest[1..]) && Renumbered(d0, cfg, d, rest[1..])
  {
    var m := rest[0];
    assert forall k | k in rest :: k == m || k in rest[1..];
  }

  /**
   * The loop is about to rename the chosen file `rest[0]` within the
   * directory, turning `d` into `d'`, with the invariant holding so far.
   */
  ghost predicate MoveStep(d0: Directory, cfg: Config, d: Directory, d': Directory, rest: seq<string>)
  {
    rest != [] && Descending(rest) && Distinct(rest) &&
    TimepointsBelowLimit(d0, cfg) && NoBlockers(d0, cfg) &&
    Above(d0, cfg, rest) && Renumbered(d0, cfg, d, rest) &&
    Chosen(d0, cfg, rest[0]) && IncrementFilename(rest[0]).Ok? &&
    Relocated(d, d', rest[0], IncrementFilename(rest[0]).value)
  }

  /**
   * Renaming the chosen file `rest[0]` within the directory keeps the
   * invariant: its new name is greater than every name visited later and
   * different from every other new name, and an original entry there was
   * chosen and has already been moved away.
   */
  lemma RenumberedAfterMove(d0: Directory, cfg: Config, d: Directory, d': Directory, rest: seq<string>)
    requires MoveStep(d0, cfg, d, d', rest)
    ensures Above(d0, cfg, rest[1..]) && Renumbered(d0, cfg, d', rest[1..])
  {
    NewNameIsClear(d0, cfg, rest);
    MovedFilesInPlace(d0, cfg, d, d', rest);
    OtherEntriesKept(d0, cfg, d, d', rest);
    NothingElseAppears(d0, cfg, d, d', rest);
  }

  /** After the move, every file moved so far is at its new name with its original content. */
  lemma MovedFilesInPlace(d0: Directory, cfg: Config, d: Directory, d': Directory, rest: seq<string>)
    requires MoveStep(d0, cfg, d, d', rest)
    ensures forall n | Chosen(d0, cfg, n) && n !in rest[1..] && IncrementFilename(n).Ok? ::
      IncrementFilename(n).value in d' && d'[IncrementFilename(n).value] == d0[n]
  {
    var m := rest[0];
    NewNameIsClear(d0, cfg, rest);
    assert forall k | k in rest :: k == m || k in rest[1..];
  }

  /** After the move, every entry not yet moved and every entry left alone is unchanged. */
  lemma OtherEntriesKept(d0: Directory, cfg: Config, d: Directory, d': Directory, rest: seq<string>)
    requires MoveStep(d0, cfg, d, d', rest)
    ensures forall k | k in d0 && (k in rest[1..] || !Chosen(d0, cfg, k)) :: k in d' && d'[k] == d0[k]
  {
    var m := rest[0];
    NewNameIsClear(d0, cfg, rest);
    assert m !in rest[1..] by {
      DescendingTail(rest);
      LexLessIrreflexive(m);
    }
  }

  /** After the move, the directory holds nothing but entries not yet moved, entries left alone and new names. */
  lemma NothingElseAppears(d0: Directory, cfg: Config, d: Directory, d': Directory, rest: seq<string>)
    requires MoveStep(d0, cfg, d, d', rest)
    ensures forall k | k in d' :: (k in d0 && (k in rest[1..] || !Chosen(d0, cfg, k))) || NewName(d0, cfg, rest[1..], k)
  {
    var m, inc := rest[0], IncrementFilename(rest[0]).value;
    assert m !in rest[1..] by {
      DescendingTail(rest);
      LexLessIrreflexive(m);
    }
    forall k | k in d'
      ensures (k in d0 && (k in rest[1..] || !Chosen(d0, cfg, k))) || NewName(d0, cfg, rest[1..], k)
    {
      if k == inc {
        assert Chosen(d0, cfg, m) && m !in rest[1..] && IncrementFilename(m) == Ok(k);
      } else if NewName(d0, cfg, rest, k) {
        var n :| Chosen(d0, cfg, n) && n !in rest && IncrementFilename(n) == Ok(k);
        assert n !in rest[1..];
      } else {
        assert k in rest ==> k == m || k in rest[1..];
      }
    }
  }

  /**
   * The new name of the file visited now is neither a name still to be
   * visited nor the new name of a file moved earlier; and those new names
   * are not the name visited now.
   */
  lemma NewNameIsClear(d0: Directory, cfg: Config, rest: seq<string>)
    requires rest != [] && Descending(rest) && Distinct(rest)
    requires TimepointsBelowLimit(d0, cfg)
    requires Above(d0, cfg, rest) && Chosen(d0, cfg, rest[0])
    ensures IncrementFilename(rest[0]).Ok?
    ensures var m, inc := rest[0], IncrementFilename(rest[0]).value;
      (forall k | k in rest[1..] :: k != inc && LexLess(k, m)) &&
      (forall n | Chosen(d0, cfg, n) && n !in rest ::
        IncrementFilename(n).Ok? && IncrementFilename(n).value != m && IncrementFilename(n).value != inc) &&
      Above(d0, cfg, rest[1..])
  {
    var m := rest[0];
    IncrementFilenameIncreases(m);
    var inc := IncrementFilename(m).value;
    DescendingTail(rest);
    forall k | k in rest[1..] ensures k != inc {
      LexLessTransitive(k, m, inc);
      LexLessIrreflexive(k);
    }
    forall n | Chosen(d0, cfg, n) && n !in rest
      ensures IncrementFilename(n).Ok? && IncrementFilename(n).value != m && IncrementFilename(n).value != inc
    {
      IncrementFilenameIncreases(n);
      LexLessTransitive(m, n, IncrementFilename(n).value);
      LexLessIrreflexive(m);
      if IncrementFilename(n).value == inc {
        IncrementFilenameInjective(n, m);
      }
    }
    assert forall k | k in rest :: k == m || k in rest[1..];
  }

  /**
   * The loop over the part `rest` of a descending listing still to be
   * visited, started from a directory that satisfies the invariant, stops
   * without an error and leaves every chosen file renamed.
   */
  lemma {:induction false} RenumberSuffix(t: Tree, dir: string, cfg: Config, d0: Directory, rest: seq<string>)
    requires dir in t && Descending(rest) && Distinct(rest)
    requires TimepointsBelowLimit(d0, cfg) && NoBlockers(d0, cfg)
    requires Above(d0, cfg, rest) && Renumbered(d0, cfg, t[dir], rest)
    ensures var o := Process(t, dir, dir, cfg, rest);
      o.error.None? && o.renamed == Planned(d0, cfg, rest) && Renumbered(d0, cfg, o.tree[dir], [])
  {
    if rest != [] {
      var m := rest[0];
      DescendingTail(rest);
      ChosenWhenVisited(d0, cfg, t[dir], rest);
      if Chosen(d0, cfg, m) {
        IncrementFilenameIncreases(m);
        IncrementFilenameChanges(m);
        var inc := IncrementFilename(m).value;
        var moved := Move(t, dir, m, dir, inc);
        RenumberedAfterMove(d0, cfg, t[dir], moved[dir], rest);
        ProcessMoves(t, dir, dir, cfg, rest);
        RenumberSuffix(moved, dir, cfg, d0, rest[1..]);
      } else {
        RenumberedAfterSkip(d0, cfg, t[dir], rest);
        ProcessSkips(t, dir, dir, cfg, rest);
        RenumberSuffix(t, dir, cfg, d0, rest[1..]);
      }
    }
  }

  /**
   * The loop is about to rename the chosen file `rest[0]` within the
   * directory, turning `d` into `d'`; the files visited so far are at their
   * new names and the names still to be visited are untouched.
   */
  ghost predicate KeepStep(d0: Directory, cfg: Config, d: Directory, d': Directory, rest: seq<string>)
  {
    rest != [] && Descending(rest) && Distinct(rest) && TimepointsBelowLimit(d0, cfg) &&
    Above(d0, cfg, rest) && MovedSoFar(d0, cfg, d, rest) && Unvisited(d0, d, rest) &&
    Chosen(d0, cfg, rest[0]) && IncrementFilename(rest[0]).Ok? &&
    Relocated(d, d', rest[0], IncrementFilename(rest[0]).value)
  }

  /**
   * Renaming the chosen file `rest[0]` in place overwrites neither a file
   * moved earlier nor a name still to be visited.
   */
  lemma KeptAfterMove(d0: Directory, cfg: Config, d: Directory, d': Directory, rest: seq<string>)
    requires KeepStep(d0, cfg, d, d', rest)
    ensures Above(d0, cfg, rest[1..]) && MovedSoFar(d0, cfg, d', rest[1..]) && Unvisited(d0, d', rest[1..])
  {
    var m := rest[0];
    NewNameIsClear(d0, cfg, rest);
    assert m !in rest[1..] by {
      DescendingTail(rest);
      LexLessIrreflexive(m);
    }
    assert forall k | k in rest :: k == m || k in rest[1..];
    assert forall k | k in rest[1..] :: k in rest;
  }

  /**
   * The loop over the part `rest` of a descending listing still to be
   * visited, in place, raises no error and leaves every chosen file's
   * content at its new name, whatever else the directory holds.
   */
  lemma {:induction false} KeepSuffix(t: Tree, dir: string, cfg: Config, d0: Directory, rest: seq<string>)
    requires dir in t && Descending(rest) && Distinct(rest) && TimepointsBelowLimit(d0, cfg)
    requires Above(d0, cfg, rest) && MovedSoFar(d0, cfg, t[dir], rest) && Unvisited(d0, t[dir], rest)
    ensures var o := Process(t, dir, dir, cfg, rest);
      o.error.None? && o.renamed == Planned(d0, cfg, rest) && MovedSoFar(d0, cfg, o.tree[dir], [])
  {
    if rest != [] {
      var m := rest[0];
      DescendingTail(rest);
      assert (NameSelected(m, cfg) && IsFile(t, dir, m)) <==> Chosen(d0, cfg, m);
      if Chosen(d0, cfg, m) {
        IncrementFilenameIncreases(m);
        IncrementFilenameChanges(m);
        var inc := IncrementFilename(m).value;
        var moved := Move(t, dir, m, dir, inc);
        KeptAfterMove(d0, cfg, t[dir], moved[dir], rest);
        ProcessMoves(t, dir, dir, cfg, rest);
        KeepSuffix(moved, dir, cfg, d0, rest[1..]);
      } else {
        ProcessSkips(t, dir, dir, cfg, rest);
        assert Above(d0, cfg, rest[1..]) && MovedSoFar(d0, cfg, t[dir], rest[1..]) by {
          assert forall k | k in rest :: k == m || k in rest[1..];
        }
        KeepSuffix(t, dir, cfg, d0, rest[1..]);
      }
    }
  }

  /**
   * The point of `sorted(files, reverse=True)`: renumbering a directory in
   * place, with every selected timepoint below 999, raises no error and
   * loses no selected file. Every chosen file is renamed, in listing order,
   * and afterwards its content is at its incremented name. An unselected
   * entry at such a name is replaced.
   */
  lemma DescendingKeepsSelected(t: Tree, dir: string, cfg: Config, files: seq<string>)
    requires dir in t && SortedListing(files, t[dir]) && TimepointsBelowLimit(t[dir], cfg)
    ensures var o := Process(t, dir, dir, cfg, files);
      o.error.None? && o.renamed == Planned(t[dir], cfg, files) &&
      forall n | Chosen(t[dir], cfg, n) ::
        IncrementFilename(n).Ok? && IncrementFilename(n).value in o.tree[dir] &&
        o.tree[dir][IncrementFilename(n).value] == t[dir][n]
  {
    KeepSuffix(t, dir, cfg, t[dir], files);
  }

  /**
   * The point of `sorted(files, reverse=True)`: renumbering a directory in
   * place, with every timepoint below 999 and no unselected entry in the
   * way, raises no error and loses no file. Every chosen file is renamed, in
   * listing order, and afterwards each chosen file's
   * content is at its incremented name, every other original entry is
   * unchanged, and the directory holds nothing else.
   */
  lemma DescendingOrderAvoidsOverwrites(t: Tree, dir: string, cfg: Config, files: seq<string>)
    requires dir in t && SortedListing(files, t[dir])
    requires TimepointsBelowLimit(t[dir], cfg) && NoBlockers(t[dir], cfg)
    ensures var o := Process(t, dir, dir, cfg, files);
      o.error.None? && o.renamed == Planned(t[dir], cfg, files) && Renumbered(t[dir], cfg, o.tree[dir], [])
  {
    RenumberSuffix(t, dir, cfg, t[dir], files);
  }

  /**
   * Why the order matters: visiting a file before the file already holding
   * its incremented name replaces that second file, whose content is lost,
   * and the directory ends with one entry fewer.
   */
  lemma AscendingOrderLosesAFile(t: Tree, dir: string, cfg: Config, a: string, b: string)
    requires dir in t && Chosen(t[dir], cfg, a) && Chosen(t[dir], cfg, b)
    requires Timepoint(a).Some? && Timepoint(a).value < 999
    requires Timepoint(b).Some? && Timepoint(b).value < 999
    requires IncrementFilename(a) == Ok(b) && IncrementFilename(b).Ok? && IncrementFilename(b).value !in t[dir]
    ensures var o := Process(t, dir, dir, cfg, [a, b]);
      o.error.None? && a !in o.tree[dir] && b !in o.tree[dir] &&
      IncrementFilename(b).value in o.tree[dir] && o.tree[dir][IncrementFilename(b).value] == t[dir][a] &&
      |o.tree[dir].Keys| == |t[dir].Keys| - 1
  {
    var c := IncrementFilename(b).value;
    assert a != b && c != a && c != b by {
      IncrementFilenameIncreases(a);
      IncrementFilenameIncreases(b);
      LexLessTransitive(a, b, c);
      LexLessIrreflexive(a);
      LexLessIrreflexive(b);
    }
    var t1 := Move(t, dir, a, dir, b);
    MoveTwice(t, dir, a, b, c);
    assert IsFile(t1, dir, b);
    VisitTwo(t, dir, cfg, a, b, c);
  }

  /** Visiting `a` then `b`, when `a` goes to `b` and `b` to `c`, makes exactly those two moves. */
  lemma VisitTwo(t: Tree, dir: string, cfg: Config, a: string, b: string, c: string)
    requires dir in t && NameSelected(a, cfg) && NameSelected(b, cfg) && IsFile(t, dir, a)
    requires IncrementFilename(a) == Ok(b) && IncrementFilename(b) == Ok(c)
    requires IsFile(Move(t, dir, a, dir, b), dir, b)
    ensures var o := Process(t, dir, dir, cfg, [a, b]);
      o.error.None? && o.tree == Move(Move(t, dir, a, dir, b), dir, b, dir, c)
  {
    var t1 := Move(t, dir, a, dir, b);
    assert Process(t, dir, dir, cfg, [a, b]) == After([Renaming(a, b)], Process(t1, dir, dir, cfg, [b])) by {
      ProcessMoves(t, dir, dir, cfg, [a, b]);
      assert [a, b][1..] == [b];
    }
    assert Process(t1, dir, dir, cfg, [b]).tree == Move(t1, dir, b, dir, c) by {
      ProcessMoves(t1, dir, dir, cfg, [b]);
      assert [b][1..] == [];
    }
  }

  /** Moving `a` onto `b` and then `b` to the free name `c` leaves `a`'s content at `c` and one name fewer. */
  lemma MoveTwice(t: Tree, dir: string, a: string, b: string, c: string)
    requires dir in t && a in t[dir] && b in t[dir] && c !in t[dir]
    requires a != b
    ensures var t2 := Move(Move(t, dir, a, dir, b), dir, b, dir, c);
      a !in t2[dir] && b !in t2[dir] && c in t2[dir] && t2[dir][c] == t[dir][a] &&
      |t2[dir].Keys| == |t[dir].Keys| - 1
  {
    var t1 := Move(t, dir, a, dir, b);
    var t2 := Move(t1, dir, b, dir, c);
    var keys := t[dir].Keys;
    MoveKeys(t, dir, a, b);
    MoveKeys(t1, dir, b, c);
    assert t1[dir].Keys == keys - {a};
    assert |keys - {a}| == |keys| - 1;
    assert t2[dir].Keys == (keys - {a} - {b}) + {c};
    assert |keys - {a} - {b}| == |keys| - 2;
  }

  /** Within one directory, a move takes away the source name and adds the destination name. */
  lemma MoveKeys(t: Tree, dir: string, src: string, dst: string)
    requires dir in t && src in t[dir] && src != dst
    ensures Move(t, dir, src, dir, dst)[dir].Keys == t[dir].Keys - {src} + {dst}
  {
  }
}
