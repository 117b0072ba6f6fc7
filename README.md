# renumber_sequence, modelled in Dafny

`renumber_sequence.py` renumbers a time-lapse image sequence in place. Its
file names carry a timepoint field `_tNNN_`, as in `A1_max_m1_t000_c001.tif`.
The script has two parts:

- `increment_filename` splits off the extension with `os.path.splitext`. It
  finds the leftmost `_t` + three digits + `_` in the rest of the name
  (the root), adds one to the number, and re-renders it with `zfill(3)`.
  It splices the new number back and re-appends the extension. When the
  root has no such field, it raises `ValueError`.
- `rename_files_in_directory` lists the input directory once and sorts the
  names in descending order. It skips dotfiles, names without the image
  extension, names without the required substring, and entries that are not
  regular files. It moves every remaining file to its incremented name in
  the output directory with `os.rename`, which replaces whatever is already
  at that name.

The model is organised as follows:

- `Wrappers`: the `Option` and `Result` types.
- `Strings`: `startswith`, `endswith` and `in` on strings; Python's
  ordering of strings (`LexLess`); and `sorted(reverse=True)` as an
  insertion sort.
- `Numerals`: `int()`, `str()` and `zfill`.
- `Paths`: the POSIX `splitext`.
- `Pattern`: the regular expression and `re.search`.
- `Increment`: `increment_filename`.
- `FileSystem`: the directories as maps, and a `Volume` class whose
  `ListDir` and `Rename` stand for `os.listdir` and `os.rename`.
- `Renamer`: the loop. `Process` is a function that states what the loop
  does to a given order of names. The method `RenameFilesInDirectory` runs
  the loop and is proved to agree with `Process`.
- `Safety`: why the descending order matters.

The two settings `image_extension` and `containString` are a `Config`
parameter. The script fixes them to `.tif` and `D1`.

Points of the code's behaviour that the model states outright:

- A name may hold several `_tNNN_` fields. The code rewrites the leftmost
  field of the root and leaves any later ones alone. It rejects only a root
  with no field.
- The code sorts the whole listing and applies the filters to each name as
  it reaches it. `os.path.isfile` sees the directory as it is at that
  moment.
- Renumbering in place on a case-sensitive volume, with every selected
  timepoint below 999, raises no error and never lets a processed file collide with a file still to be
  processed: every selected file's content ends at its incremented name
  (`Safety.DescendingKeepsSelected`). An unselected entry that sits at an
  incremented name is replaced. With no such entry, every other original
  entry is unchanged as well (`Safety.DescendingOrderAvoidsOverwrites`).

## Model

| member | source | states |
|---|---|---|
| Increment.IncrementFilename | renumber_sequence.py:33-55 | the call raises the error exactly when the root (the name minus its `splitext` extension) has no `_tNNN_` field; a field that appears only in the extension still raises |
| Increment.Timepoint | renumber_sequence.py:40-47 | the timepoint is absent exactly when the root has no field, and it is always below 1000 |
| Increment.FieldOffset | renumber_sequence.py:43 | the rewritten field starts at a match in the root, no match lies to its left, and it exists exactly when a timepoint exists |
| Increment.IncrementFilenameSplice | renumber_sequence.py:40-53 | on success the result is the name up to the digits, the incremented digits, then the name after the digits; prefix, suffix and extension are kept character for character, and the field is the leftmost match in the whole name |
| Increment.IncrementFilenameKeepsLaterFields | renumber_sequence.py:43-52 | any later `_tNNN_` occurrence is still there in the result: at the same offset below 999, one place later when 999 widens to 1000 |
| Increment.FieldInName | renumber_sequence.py:40-43 | the field found in the root is the leftmost match in the whole name, lies inside the root, and its digits hold the timepoint |
| Increment.IncrementedValue | renumber_sequence.py:49 | the re-rendered number has value old + 1; below 999 it is three digits, and 999 becomes `1000` |
| Increment.Incremented | renumber_sequence.py:49 | `str(int(number) + 1).zfill(3)` is a string of digits, at least three long |
| Increment.IncrementFilenameExample | renumber_sequence.py:40-53 | `f_t000_.tif` becomes `f_t001_.tif` |
| Increment.FieldInExtensionExample | renumber_sequence.py:40-55 | `a.b_t000_` raises: `splitext` puts its field in the extension |
| Increment.IncrementedExamples | renumber_sequence.py:49 | 000 becomes 001 and 009 becomes 010: leading zeros are kept |
| Increment.IncrementedLastExamples | renumber_sequence.py:49 | 998 becomes 999, and 999 becomes 1000 with no wrap-around |
| Increment.IncrementFilenameChanges | renumber_sequence.py:49-53 | a successful result never equals the input name |
| Increment.IncrementFilenameAdvances | renumber_sequence.py:40-53 | below 999 the result differs from the input only in digits, has the same extension and field offset, and its timepoint is one higher |
| Increment.IncrementFilenameInjective | renumber_sequence.py:49-53 | below 999, two different names never get the same new name |
| Increment.IncrementFilenameIncreases | renumber_sequence.py:49-53 | below 999 the new name sorts after the old one in Python's string order |
| Paths.RFind | renumber_sequence.py:40 | the last index holding the character, or -1 when there is none |
| Paths.ExtensionStartSpec | renumber_sequence.py:40 | `splitext` splits at the last dot of the last component when some non-dot character precedes that dot in the component, and returns an empty extension exactly when no dot qualifies |
| Paths.SplitExt | renumber_sequence.py:40 | root + extension is the original name, and the extension is empty or starts with a dot |
| Paths.ExtensionStartSame | renumber_sequence.py:40 | names with dots and slashes at the same places split at the same index |
| Pattern.MatchAt | renumber_sequence.py:43 | the pattern `_t(\d{3})_` matches at an offset: `_`, `t`, three digits, `_` |
| Pattern.Search | renumber_sequence.py:43 | `re.search` gives the leftmost match, and none exactly when the string has no match |
| Pattern.SearchFrom | renumber_sequence.py:43 | the search returns the leftmost match, and none exactly when there is no match |
| Pattern.SameShapeSearch | renumber_sequence.py:43 | changing digits into other digits does not move the leftmost match |
| Pattern.ReplaceDigits | renumber_sequence.py:52 | splicing `_t` + new digits + `_` around the old match replaces just the three digits |
| Numerals.DecimalValue | renumber_sequence.py:49 | `int(number)` for a string of digits, leading zeros allowed |
| Numerals.DecimalString | renumber_sequence.py:49 | `str(n)` is a non-empty string of digits without a leading zero |
| Numerals.ZFill | renumber_sequence.py:49 | `zfill(width)` gives a string of the larger of its input's length and `width` |
| Numerals.DecimalRoundTrip | renumber_sequence.py:49 | `int(str(n)) == n` |
| Numerals.DecimalStringLength | renumber_sequence.py:49 | `str(n)` has at most three digits exactly when n < 1000 |
| Numerals.ZFillDigits | renumber_sequence.py:49 | `zfill` keeps the value, pads to at least the width, and pads only with digits |
| Numerals.DecimalValueInjective | renumber_sequence.py:49 | digit strings of equal length with equal value are equal |
| Strings.StartsWith | renumber_sequence.py:62 | `str.startswith`: the string begins with the prefix |
| Strings.EndsWith | renumber_sequence.py:64 | `str.endswith`: the string ends with the suffix; every string ends with the empty one |
| Strings.Contains | renumber_sequence.py:65 | the `in` operator on strings: some window equals the substring; the empty string is in every string |
| Strings.LexLess | renumber_sequence.py:60 | Python's `<` on `str`: code point by code point, a proper prefix being smaller |
| Strings.SortDescending | renumber_sequence.py:60 | `sorted(files, reverse=True)`, as an insertion sort |
| Strings.SortDescendingCorrect | renumber_sequence.py:60 | `sorted(files, reverse=True)` is in descending order and is a permutation of its input |
| Strings.SortDescendingDistinct | renumber_sequence.py:59-60 | sorting a listing without repetitions keeps it free of repetitions |
| Strings.LexLessTransitive | renumber_sequence.py:60 | Python's string order is transitive |
| Strings.LexLessTotal | renumber_sequence.py:60 | of two different strings, one is smaller |
| FileSystem.IsFile | renumber_sequence.py:67-68 | `os.path.isfile`: the entry exists and is a regular file |
| FileSystem.Move | renumber_sequence.py:74 | the entry leaves its old name and replaces the destination; every other entry and directory is unchanged, and no other name appears |
| FileSystem.Volume.ListDir | renumber_sequence.py:59 | every name of the directory, each once |
| FileSystem.Volume.Rename | renumber_sequence.py:74 | the volume afterwards is the old volume with the move applied |
| Renamer.NameSelected | renumber_sequence.py:62-66 | the checks on the name alone: not a dotfile, the image extension, the required substring |
| Renamer.Process | renumber_sequence.py:61-76 | the loop keeps the set of directories and touches no directory other than the input and output ones |
| Renamer.RenameFilesInDirectory | renumber_sequence.py:58-77 | the listing is taken once, before any rename, and sorted descending; the directory afterwards, the renames done and the error raised are what `Process` gives for that order |
| Renamer.ProcessRenamesOnlySelected | renumber_sequence.py:61-70 | every rename is of a listed name that passes the name checks, to the name `increment_filename` gives it |
| Renamer.ProcessRenamesInDescendingOrder | renumber_sequence.py:59-61 | renames happen in strictly descending order of the old name, so no name is renamed twice |
| Renamer.UnselectedEntriesKept | renumber_sequence.py:62-68 | a dotfile, a name without the extension, a name without the substring or an entry that is not a regular file is never renamed, and keeps its content unless another file is renamed onto it |
| Renamer.NonFilesNeverRenamed | renumber_sequence.py:67-68 | an entry that is not a regular file, and onto which nothing is renamed, is never renamed |
| Renamer.ProcessRenamesOnlyFiles | renumber_sequence.py:67-74 | every renamed name held a regular file when the loop started, or (output directory the same as the input one) an earlier rename in the log put a file there |
| Renamer.ProcessKeepsUntouched | renumber_sequence.py:61-74 | an entry of the input directory that is neither renamed nor a destination keeps its content |
| Renamer.OutputEntriesKept | renumber_sequence.py:72-74 | with a separate output directory, an entry there that no rename targets keeps its content |
| Renamer.ProcessStopsAtFirstError | renumber_sequence.py:61-74 | an error comes from the first selected regular file without a timepoint; the loop stops there, every rename before it stays done, and nothing later is touched |
| Safety.ChosenWhenVisited | renumber_sequence.py:62-68 | during an in-place renumbering, the checks made when a name is reached select it exactly when it was selectable in the original directory |
| Safety.NewNameIsClear | renumber_sequence.py:60-74 | the new name of the file being renamed is not a name still to be visited and not the new name of an earlier file |
| Safety.KeptAfterMove | renumber_sequence.py:70-74 | one in-place rename keeps every file moved so far at its new name and every name still to be visited untouched |
| Safety.KeepSuffix | renumber_sequence.py:60-76 | from any point of a descending listing, the rest of the loop raises no error, renames exactly the selectable files in order, and leaves each at its new name |
| Safety.DescendingKeepsSelected | renumber_sequence.py:60-74 | in place, with selected timepoints below 999, no error is raised and each selected file's content ends up at its incremented name |
| Safety.RenumberedAfterMove | renumber_sequence.py:70-74 | one in-place rename of the next selected file keeps the invariant: files moved so far sit at their new names, every other original entry is unchanged, nothing else appears, and every remaining name is below every moved one |
| Safety.RenumberSuffix | renumber_sequence.py:60-76 | from any point of a descending listing, the rest of the loop raises no error, renames exactly the selectable files in order, and completes the renumbering |
| Safety.DescendingOrderAvoidsOverwrites | renumber_sequence.py:60-74 | the strengthening when no unselected entry sits at an incremented name: no error is raised and no file is lost: each selected file's content ends up at its incremented name, every other original entry is unchanged, and nothing else is in the directory |
| Safety.AscendingOrderLosesAFile | renumber_sequence.py:60 | visiting a file before the file already holding its incremented name destroys that file's content and leaves one entry fewer |
| Safety.MoveTwice | renumber_sequence.py:74 | moving a file onto another and then on to a free name leaves the first file's content there and one name fewer |

## Left out

- The `print` calls produce no behaviour to verify. The `Renaming` log of `Process` records the renames that the "Renamed" line reports.
- The hard-coded directories and the top-level call are configuration.
- The commented-out `shutil.copy` line is dead code.
- Operating-system failures are not modelled: a missing directory, permissions, renaming across devices, renaming onto a directory. `os.rename` always succeeds and always overwrites.
- `os.path.join` is not modelled. A file is addressed by its directory and its name. Symbolic links and two paths naming the same directory are not modelled.
- `os.listdir` returns its names in an order the system chooses. `ListDir` may return any order, and the loop sorts the names anyway.
- `\d` is modelled as the ASCII digits `0`-`9`. Python's Unicode digits are not modelled.
- `splitext` is the POSIX flavour. The Windows flavour, which also treats `\` as a separator, is not modelled.
- Safety.DescendingKeepsSelected: stated only for selected timepoints below 999. A file at `_t999_` moves to `_t1000_`, which sorts below it, so it can replace a file the loop has not reached yet.
- Safety.DescendingOrderAvoidsOverwrites: also needs that no unselected entry sits at an incremented name. That condition is needed only for "every other original entry is unchanged", because the rename replaces such an entry.
- Concrete directory scenarios, such as `f_t000_.tif` and `f_t001_.tif` renamed in place, are not stated as separate lemmas. `Safety.DescendingOrderAvoidsOverwrites` covers them.
- Names are compared exactly, as on a case-sensitive file system. A volume that treats names differing only in case or Unicode normalization as one entry, such as the default macOS or Windows volume, is not modelled. On such a volume a rename can replace a file the loop has not reached yet: `f_t000_D1.tif` sorts above `F_t001_D1.tif`, and its new name `f_t001_D1.tif` is that same entry.
- `os.listdir` decodes undecodable bytes in names to lone surrogates (`surrogateescape`). A lone surrogate cannot occur in a Dafny `string`, so such names are not modelled.
