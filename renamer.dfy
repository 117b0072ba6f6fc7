/**
 * `rename_files_in_directory`: list the input directory once, sort the
 * names in descending order, and move every selected file to its
 * incremented name in the output directory, stopping at the first name
 * without a timepoint.
 */
module Renamer {
  import opened Wrappers
  import opened Strings
  import opened Increment
  import opened FileSystem

  /** The script's two settings, `image_extension` and `containString`. */
  datatype Config = Config(imageExtension: string, containString: string)

  /** The checks on the name alone: not a dotfile, the image extension, the required substring. */
  predicate NameSelected(name: string, cfg: Config)
  {
    !StartsWith(name, ".") && EndsWith(name, cfg.imageExtension) && Contains(name, cfg.containString)
  }

  /** One rename the loop carried out (the `Renamed old -> new` line it prints). */
  datatype Renaming = Renaming(from: string, to: string)

  /** The file system afterwards, the renames done, and the error that stopped the loop, if any. */
  datatype Outcome = Outcome(tree: Tree, renamed: seq<Renaming>, error: Option<Error>)

  /** An outcome with `log` recorded before its own renames. */
  function After(log: seq<Renaming>, o: Outcome): Outcome
  {
    o.(renamed := log + o.renamed)
  }

  /**
   * The loop body applied to `files` in order: a selected regular file is
   * moved to its incremented name, any other name is skipped, and an error
   * ends the loop with everything done so far left in place.
   */
  function Process(t: Tree, inputDir: string, outputDir: string, cfg: Config, files: seq<string>): (o: Outcome)
    requires inputDir in t && outputDir in t
    ensures o.tree.Keys == t.Keys
    ensures forall d | d in t && d != inputDir && d != outputDir :: o.tree[d] == t[d]
    decreases |files|
  {
    if files == [] then Outcome(t, [], None)
    else
      var filename := files[0];
      if NameSelected(filename, cfg) && IsFile(t, inputDir, filename) then
        match IncrementFilename(filename)
        case Err(e) => Outcome(t, [], Some(e))
        case Ok(newFilename) =>
          var moved := Move(t, inputDir, filename, outputDir, newFilename);
          After([Renaming(filename, newFilename)], Process(moved, inputDir, outputDir, cfg, files[1..]))
      else
        Process(t, inputDir, outputDir, cfg, files[1..])
  }

  /** `files` lists the names of `dir`, each once, in descending order. */
  ghost predicate SortedListing(files: seq<string>, dir: Directory)
  {
    Distinct(files) && Descending(files) && forall n :: n in files <==> n in dir
  }

  /**
   * `rename_files_in_directory(inputdir, outputdir)`. The listing is taken
   * once and sorted in descending order; the result is what `Process` says
   * of that order. `error` is the exception the call raises, if any.
   */
  method RenameFilesInDirectory(fs: Volume, inputDir: string, outputDir: string, cfg: Config)
    returns (error: Option<Error>, ghost files: seq<string>, ghost renamed: seq<Renaming>)
    requires inputDir in fs.tree && outputDir in fs.tree
    modifies fs
    ensures SortedListing(files, old(fs.tree)[inputDir])
    ensures Process(old(fs.tree), inputDir, outputDir, cfg, files) == Outcome(fs.tree, renamed, error)
  {
    var listing := fs.ListDir(inputDir);
    var sorted := SortDescending(listing);
    SortedListingOfListDir(listing, fs.tree[inputDir]);
    files, renamed, error := sorted, [], None;
    ghost var before := fs.tree;
    for i := 0 to |sorted|
      invariant inputDir in fs.tree && outputDir in fs.tree
      invariant Process(before, inputDir, outputDir, cfg, sorted)
             == After(renamed, Process(fs.tree, inputDir, outputDir, cfg, sorted[i..]))
    {
      var filename := sorted[i];
      ghost var current := fs.tree;
      assert sorted[i..][0] == filename && sorted[i..][1..] == sorted[i + 1..];
      if StartsWith(filename, ".") {
        ProcessSkips(current, inputDir, outputDir, cfg, sorted[i..]);
        continue;
      }
      if EndsWith(filename, cfg.imageExtension) {
        if !Contains(filename, cfg.containString) {
          ProcessSkips(current, inputDir, outputDir, cfg, sorted[i..]);
          continue;
        }
        if IsFile(fs.tree, inputDir, filename) {
          var result := IncrementFilename(filename);
          if result.Err? {
            ProcessStops(current, inputDir, outputDir, cfg, sorted[i..]);
            error := Some(result.error);
            return;
          }
          var newFilename := result.value;
          fs.Rename(inputDir, filename, outputDir, newFilename);
          ProcessMoves(current, inputDir, outputDir, cfg, sorted[i..]);
          AfterAfter(renamed, [Renaming(filename, newFilename)], Process(fs.tree, inputDir, outputDir, cfg, sorted[i + 1..]));
          renamed := renamed + [Renaming(filename, newFilename)];
        } else {
          ProcessSkips(current, inputDir, outputDir, cfg, sorted[i..]);
        }
      } else {
        ProcessSkips(current, inputDir, outputDir, cfg, sorted[i..]);
      }
    }
    assert sorted[|sorted|..] == [];
  }

  /** Recording two logs one after the other is recording their concatenation. */
  lemma AfterAfter(a: seq<Renaming>, b: seq<Renaming>, o: Outcome)
    ensures After(a, After(b, o)) == After(a + b, o)
  {
    assert a + (b + o.renamed) == (a + b) + o.renamed;
  }

  /** Sorting what `os.listdir` returned gives the names of the directory, once each, in descending order. */
  lemma SortedListingOfListDir(listing: seq<string>, dir: Directory)
    requires Distinct(listing) && forall n :: n in listing <==> n in dir
    ensures SortedListing(SortDescending(listing), dir)
  {
    SortDescendingCorrect(listing);
    SortDescendingDistinct(listing);
    SortDescendingSameElements(listing);
  }

  lemma ProcessSkips(t: Tree, inputDir: string, outputDir: string, cfg: Config, files: seq<string>)
    requires inputDir in t && outputDir in t && files != []
    requires !NameSelected(files[0], cfg) || !IsFile(t, inputDir, files[0])
    ensures Process(t, inputDir, outputDir, cfg, files) == Process(t, inputDir, outputDir, cfg, files[1..])
  {
  }

  lemma ProcessStops(t: Tree, inputDir: string, outputDir: string, cfg: Config, files: seq<string>)
    requires inputDir in t && outputDir in t && files != []
    requires NameSelected(files[0], cfg) && IsFile(t, inputDir, files[0])
    requires IncrementFilename(files[0]).Err?
    ensures Process(t, inputDir, outputDir, cfg, files) == Outcome(t, [], Some(IncrementFilename(files[0]).error))
  {
  }

  lemma ProcessMoves(t: Tree, inputDir: string, outputDir: string, cfg: Config, files: seq<string>)
    requires inputDir in t && outputDir in t && files != []
    requires NameSelected(files[0], cfg) && IsFile(t, inputDir, files[0])
    requires IncrementFilename(files[0]).Ok?
    ensures var newFilename := IncrementFilename(files[0]).value;
      Process(t, inputDir, outputDir, cfg, files)
      == After([Renaming(files[0], newFilename)],
               Process(Move(t, inputDir, files[0], outputDir, newFilename), inputDir, outputDir, cfg, files[1..]))
  {
  }

  /**
   * Every rename the loop performs is of a listed name that passed the name
   * checks, to the name `increment_filename` gives it.
   */
  lemma {:induction false} ProcessRenamesOnlySelected(t: Tree, inputDir: string, outputDir: string, cfg: Config, files: seq<string>)
    requires inputDir in t && outputDir in t
    ensures forall r | r in Process(t, inputDir, outputDir, cfg, files).renamed ::
      r.from in files && NameSelected(r.from, cfg) && IncrementFilename(r.from) == Ok(r.to)
  {
    if files != [] {
      var filename := files[0];
      if NameSelected(filename, cfg) && IsFile(t, inputDir, filename) && IncrementFilename(filename).Ok? {
        var moved := Move(t, inputDir, filename, outputDir, IncrementFilename(filename).value);
        ProcessMoves(t, inputDir, outputDir, cfg, files);
        ProcessRenamesOnlySelected(moved, inputDir, outputDir, cfg, files[1..]);
        assert forall n | n in files[1..] :: n in files;
      } else if !(NameSelected(filename, cfg) && IsFile(t, inputDir, filename)) {
        ProcessSkips(t, inputDir, outputDir, cfg, files);
        ProcessRenamesOnlySelected(t, inputDir, outputDir, cfg, files[1..]);
        assert forall n | n in files[1..] :: n in files;
      } else {
        ProcessStops(t, inputDir, outputDir, cfg, files);
      }
    }
  }

  /**
   * Over a descending listing without repetitions the renames happen
   * highest name first, and no name is renamed twice.
   */
  lemma {:induction false} ProcessRenamesInDescendingOrder(t: Tree, inputDir: string, outputDir: string, cfg: Config, files: seq<string>)
    requires inputDir in t && outputDir in t
    requires Descending(files) && Distinct(files)
    ensures var log := Process(t, inputDir, outputDir, cfg, files).renamed;
      forall i, j | 0 <= i < j < |log| :: LexLess(log[j].from, log[i].from)
  {
    if files != [] {
      var filename := files[0];
      var rest := files[1..];
      DescendingTail(files);
      if !(NameSelected(filename, cfg) && IsFile(t, inputDir, filename)) {
        ProcessSkips(t, inputDir, outputDir, cfg, files);
        ProcessRenamesInDescendingOrder(t, inputDir, outputDir, cfg, rest);
      } else if IncrementFilename(filename).Ok? {
        var moved := Move(t, inputDir, filename, outputDir, IncrementFilename(filename).value);
        ProcessRenamesInDescendingOrder(moved, inputDir, outputDir, cfg, rest);
        ProcessRenamesOnlySelected(moved, inputDir, outputDir, cfg, rest);
        ProcessMoves(t, inputDir, outputDir, cfg, files);
        PrependDescending(files, Renaming(filename, IncrementFilename(filename).value), Process(moved, inputDir, outputDir, cfg, rest).renamed);
      } else {
        ProcessStops(t, inputDir, outputDir, cfg, files);
      }
    }
  }

  /** A rename of the first listed name, put before renames of later names in descending order, keeps the order. */
  lemma PrependDescending(files: seq<string>, first: Renaming, later: seq<Renaming>)
    requires files != [] && first.from == files[0]
    requires Descending(files) && Distinct(files)
    requires forall r | r in later :: r.from in files[1..]
    requires forall i, j | 0 <= i < j < |later| :: LexLess(later[j].from, later[i].from)
    ensures var log := [first] + later;
      forall i, j | 0 <= i < j < |log| :: LexLess(log[j].from, log[i].from)
  {
    var log := [first] + later;
    forall i, j | 0 <= i < j < |log|
      ensures LexLess(log[j].from, log[i].from)
    {
      assert log[j] == later[j - 1] && log[j] in later;
      if i == 0 {
        var m :| 0 <= m < |files| - 1 && files[1..][m] == log[j].from;
        StrictlyDescending(files, 0, m + 1);
      } else {
        assert log[i] == later[i - 1];
      }
    }
  }

  /**
   * An entry of the input directory that is never renamed, and (when the
   * output directory is the same) never a destination, keeps its content.
   */
  lemma {:induction false} ProcessKeepsUntouched(t: Tree, inputDir: string, outputDir: string, cfg: Config, files: seq<string>, n: string)
    requires inputDir in t && outputDir in t && n in t[inputDir]
    requires forall r | r in Process(t, inputDir, outputDir, cfg, files).renamed ::
      r.from != n && (inputDir != outputDir || r.to != n)
    ensures var o := Process(t, inputDir, outputDir, cfg, files);
      n in o.tree[inputDir] && o.tree[inputDir][n] == t[inputDir][n]
  {
    if files != [] {
      var filename := files[0];
      if NameSelected(filename, cfg) && IsFile(t, inputDir, filename) && IncrementFilename(filename).Ok? {
        var newFilename := IncrementFilename(filename).value;
        var moved := Move(t, inputDir, filename, outputDir, newFilename);
        ProcessMoves(t, inputDir, outputDir, cfg, files);
        assert Renaming(filename, newFilename) in Process(t, inputDir, outputDir, cfg, files).renamed;
        ProcessKeepsUntouched(moved, inputDir, outputDir, cfg, files[1..], n);
      } else if !(NameSelected(filename, cfg) && IsFile(t, inputDir, filename)) {
        ProcessSkips(t, inputDir, outputDir, cfg, files);
        ProcessKeepsUntouched(t, inputDir, outputDir, cfg, files[1..], n);
      } else {
        ProcessStops(t, inputDir, outputDir, cfg, files);
      }
    }
  }

  /**
   * With a separate output directory, an entry there that no rename
   * targets keeps its content.
   */
  lemma {:induction false} OutputEntriesKept(t: Tree, inputDir: string, outputDir: string, cfg: Config, files: seq<string>, n: string)
    requires inputDir in t && outputDir in t && inputDir != outputDir && n in t[outputDir]
    requires forall r | r in Process(t, inputDir, outputDir, cfg, files).renamed :: r.to != n
    ensures var o := Process(t, inputDir, outputDir, cfg, files);
      n in o.tree[outputDir] && o.tree[outputDir][n] == t[outputDir][n]
  {
    if files != [] {
      var filename := files[0];
      if NameSelected(filename, cfg) && IsFile(t, inputDir, filename) && IncrementFilename(filename).Ok? {
        var newFilename := IncrementFilename(filename).value;
        var moved := Move(t, inputDir, filename, outputDir, newFilename);
        ProcessMoves(t, inputDir, outputDir, cfg, files);
        assert Renaming(filename, newFilename) in Process(t, inputDir, outputDir, cfg, files).renamed;
        OutputEntriesKept(moved, inputDir, outputDir, cfg, files[1..], n);
      } else if !(NameSelected(filename, cfg) && IsFile(t, inputDir, filename)) {
        ProcessSkips(t, inputDir, outputDir, cfg, files);
        OutputEntriesKept(t, inputDir, outputDir, cfg, files[1..], n);
      } else {
        ProcessStops(t, inputDir, outputDir, cfg, files);
      }
    }
  }

  /**
   * The filter: an entry that is a dotfile, lacks the image extension,
   * lacks the required substring or is not a regular file is never
   * renamed, and keeps its content unless it is the destination of another
   * file's rename into the same directory.
   */
  lemma UnselectedEntriesKept(t: Tree, inputDir: string, outputDir: string, cfg: Config, files: seq<string>, n: string)
    requires inputDir in t && outputDir in t && n in t[inputDir]
    requires !NameSelected(n, cfg) || !t[inputDir][n].RegularFile?
    requires inputDir != outputDir || forall r | r in Process(t, inputDir, outputDir, cfg, files).renamed :: r.to != n
    ensures forall r | r in Process(t, inputDir, outputDir, cfg, files).renamed :: r.from != n
    ensures var o := Process(t, inputDir, outputDir, cfg, files);
      n in o.tree[inputDir] && o.tree[inputDir][n] == t[inputDir][n]
  {
    if !NameSelected(n, cfg) {
      ProcessRenamesOnlySelected(t, inputDir, outputDir, cfg, files);
    } else {
      NonFilesNeverRenamed(t, inputDir, outputDir, cfg, files, n);
    }
    ProcessKeepsUntouched(t, inputDir, outputDir, cfg, files, n);
  }

  /**
   * The `os.path.isfile` test: an entry that is not a regular file, and
   * onto which nothing is renamed, is never renamed itself.
   */
  lemma {:induction false} NonFilesNeverRenamed(t: Tree, inputDir: string, outputDir: string, cfg: Config, files: seq<string>, n: string)
    requires inputDir in t && outputDir in t && n in t[inputDir] && !t[inputDir][n].RegularFile?
    requires inputDir != outputDir || forall r | r in Process(t, inputDir, outputDir, cfg, files).renamed :: r.to != n
    ensures forall r | r in Process(t, inputDir, outputDir, cfg, files).renamed :: r.from != n
  {
    if files != [] {
      var filename := files[0];
      if NameSelected(filename, cfg) && IsFile(t, inputDir, filename) && IncrementFilename(filename).Ok? {
        var newFilename := IncrementFilename(filename).value;
        var moved := Move(t, inputDir, filename, outputDir, newFilename);
        ProcessMoves(t, inputDir, outputDir, cfg, files);
        assert Renaming(filename, newFilename) in Process(t, inputDir, outputDir, cfg, files).renamed;
        NonFilesNeverRenamed(moved, inputDir, outputDir, cfg, files[1..], n);
      } else if !(NameSelected(filename, cfg) && IsFile(t, inputDir, filename)) {
        ProcessSkips(t, inputDir, outputDir, cfg, files);
        NonFilesNeverRenamed(t, inputDir, outputDir, cfg, files[1..], n);
      } else {
        ProcessStops(t, inputDir, outputDir, cfg, files);
      }
    }
  }

  /**
   * Every renamed name held a regular file when the loop started, or, with
   * the output directory the same as the input one, an earlier rename put
   * a file there.
   */
  lemma {:induction false} ProcessRenamesOnlyFiles(t: Tree, inputDir: string, outputDir: string, cfg: Config, files: seq<string>)
    requires inputDir in t && outputDir in t
    ensures var log := Process(t, inputDir, outputDir, cfg, files).renamed;
      forall i | 0 <= i < |log| ::
        (log[i].from in t[inputDir] && t[inputDir][log[i].from].RegularFile?) ||
        (inputDir == outputDir && exists j | 0 <= j < i :: log[j].to == log[i].from)
  {
    if files != [] {
      var filename := files[0];
      if NameSelected(filename, cfg) && IsFile(t, inputDir, filename) && IncrementFilename(filename).Ok? {
        var newFilename := IncrementFilename(filename).value;
        var moved := Move(t, inputDir, filename, outputDir, newFilename);
        ProcessMoves(t, inputDir, outputDir, cfg, files);
        ProcessRenamesOnlyFiles(moved, inputDir, outputDir, cfg, files[1..]);
        MovedFilesWereFiles(t, inputDir, outputDir, filename, newFilename, Process(moved, inputDir, outputDir, cfg, files[1..]).renamed);
      } else if !(NameSelected(filename, cfg) && IsFile(t, inputDir, filename)) {
        ProcessSkips(t, inputDir, outputDir, cfg, files);
        ProcessRenamesOnlyFiles(t, inputDir, outputDir, cfg, files[1..]);
      } else {
        ProcessStops(t, inputDir, outputDir, cfg, files);
      }
    }
  }

  /** One step of `ProcessRenamesOnlyFiles`: the first rename is of a regular file, and the later ones lift through the move. */
  lemma MovedFilesWereFiles(t: Tree, inputDir: string, outputDir: string, filename: string, newFilename: string, later: seq<Renaming>)
    requires inputDir in t && outputDir in t && IsFile(t, inputDir, filename)
    requires var moved := Move(t, inputDir, filename, outputDir, newFilename);
      forall i | 0 <= i < |later| ::
        (later[i].from in moved[inputDir] && moved[inputDir][later[i].from].RegularFile?) ||
        (inputDir == outputDir && exists j | 0 <= j < i :: later[j].to == later[i].from)
    ensures var log := [Renaming(filename, newFilename)] + later;
      forall i | 0 <= i < |log| ::
        (log[i].from in t[inputDir] && t[inputDir][log[i].from].RegularFile?) ||
        (inputDir == outputDir && exists j | 0 <= j < i :: log[j].to == log[i].from)
  {
    var log := [Renaming(filename, newFilename)] + later;
    forall i | 0 < i < |log|
      ensures (log[i].from in t[inputDir] && t[inputDir][log[i].from].RegularFile?) ||
        (inputDir == outputDir && exists j | 0 <= j < i :: log[j].to == log[i].from)
    {
      var x := later[i - 1].from;
      assert log[i] == later[i - 1];
      if inputDir == outputDir && x == newFilename {
        assert log[0].to == x;
      } else if inputDir == outputDir && exists j | 0 <= j < i - 1 :: later[j].to == x {
        var j :| 0 <= j < i - 1 && later[j].to == x;
        assert log[j + 1] == later[j];
      }
    }
  }

  /**
   * When an error stops the loop it comes from a selected regular file
   * whose name has no timepoint; everything before it in the order has
   * been done and nothing is undone.
   */
  lemma {:induction false} ProcessStopsAtFirstError(t: Tree, inputDir: string, outputDir: string, cfg: Config, files: seq<string>)
    returns (k: nat)
    requires inputDir in t && outputDir in t
    requires Process(t, inputDir, outputDir, cfg, files).error.Some?
    ensures var o := Process(t, inputDir, outputDir, cfg, files);
      k < |files| &&
      Process(t, inputDir, outputDir, cfg, files[..k]) == Outcome(o.tree, o.renamed, None) &&
      NameSelected(files[k], cfg) && IsFile(o.tree, inputDir, files[k]) &&
      IncrementFilename(files[k]) == Err(o.error.value)
  {
    var filename := files[0];
    if NameSelected(filename, cfg) && IsFile(t, inputDir, filename) && IncrementFilename(filename).Ok? {
      var moved := Move(t, inputDir, filename, outputDir, IncrementFilename(filename).value);
      ProcessMoves(t, inputDir, outputDir, cfg, files);
      var j := ProcessStopsAtFirstError(moved, inputDir, outputDir, cfg, files[1..]);
      k := j + 1;
      assert files[k] == files[1..][j];
      assert Process(t, inputDir, outputDir, cfg, files).tree == Process(moved, inputDir, outputDir, cfg, files[1..]).tree;
      PrefixTail(files, k);
      ProcessMoves(t, inputDir, outputDir, cfg, files[..k]);
    } else if !(NameSelected(filename, cfg) && IsFile(t, inputDir, filename)) {
      ProcessSkips(t, inputDir, outputDir, cfg, files);
      var j := ProcessStopsAtFirstError(t, inputDir, outputDir, cfg, files[1..]);
      k := j + 1;
      assert files[k] == files[1..][j];
      PrefixTail(files, k);
      ProcessSkips(t, inputDir, outputDir, cfg, files[..k]);
    } else {
      k := 0;
      ProcessStops(t, inputDir, outputDir, cfg, files);
      assert files[..0] == [];
    }
  }

  /** The first `k` names, without their first, are the first `k - 1` of the rest. */
  lemma PrefixTail(files: seq<string>, k: nat)
    requires 0 < k <= |files|
    ensures files[..k] != [] && files[..k][0] == files[0] && files[..k][1..] == files[1..][..k - 1]
  {
  }
}
