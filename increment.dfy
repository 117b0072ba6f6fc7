/**
 * `increment_filename`: find the timepoint field `_tNNN_` in the root of a
 * file name (the name without its `splitext` extension), add one to NNN,
 * re-render it with `zfill(3)` and splice it back, keeping everything else.
 */
module Increment {
  import opened Wrappers
  import opened Strings
  import opened Numerals
  import opened Paths
  import opened Pattern

  /** The `ValueError("No number found in filename.")` the function raises. */
  datatype Error = NoNumberFound

  /** `str(int(number) + 1).zfill(3)`. */
  function Incremented(number: string): (r: string)
    requires AllDigits(number)
    ensures AllDigits(r) && |r| >= 3
  {
    ZFillDigits(DecimalString(DecimalValue(number) + 1), 3);
    ZFill(DecimalString(DecimalValue(number) + 1), 3)
  }

  /**
   * `increment_filename(filename)`; `Err` stands for the raised `ValueError`,
   * which happens exactly when the root has no `_tNNN_` field.
   */
  function IncrementFilename(filename: string): (r: Result<string, Error>)
    ensures r.Err? <==> forall j :: !MatchAt(SplitExt(filename).0, j)
  {
    var base := SplitExt(filename).0;
    var ext := SplitExt(filename).1;
    match Search(base)
    case None => Err(NoNumberFound)
    case Some(start) =>
      var number := base[start + 2..start + 5];
      Ok(base[..start] + "_t" + Incremented(number) + "_" + base[start + 6..] + ext)
  }

  /**
   * The timepoint a file name carries: the value of the leftmost `_tNNN_`
   * field of its root, or `None` when the root has no such field (a field
   * that only appears in the extension does not count).
   */
  function Timepoint(filename: string): (t: Option<nat>)
    ensures t.None? <==> forall j :: !MatchAt(SplitExt(filename).0, j)
    ensures t.Some? ==> t.value < 1000
  {
    var base := SplitExt(filename).0;
    match Search(base)
    case None => None
    case Some(start) =>
      ThreeDigitValue(base[start + 2..start + 5]);
      Some(DecimalValue(base[start + 2..start + 5]))
  }

  /** Where the rewritten field starts: the leftmost match in the root. */
  function FieldOffset(filename: string): (k: Option<nat>)
    ensures k.Some? ==> MatchAt(SplitExt(filename).0, k.value)
    ensures k.Some? ==> forall j | j < k.value :: !MatchAt(SplitExt(filename).0, j)
    ensures k.None? <==> Timepoint(filename).None?
  {
    Search(SplitExt(filename).0)
  }

  /**
   * The re-rendered number has exactly the value `old + 1`; below 999 it is
   * three digits with leading zeros, and 999 becomes the four digits `1000`.
   */
  lemma IncrementedValue(number: string)
    requires AllDigits(number) && |number| == 3
    ensures AllDigits(Incremented(number))
    ensures DecimalValue(Incremented(number)) == DecimalValue(number) + 1
    ensures DecimalValue(number) < 999 ==> |Incremented(number)| == 3
    ensures DecimalValue(number) == 999 ==> Incremented(number) == "1000"
  {
    var n := DecimalValue(number) + 1;
    ThreeDigitValue(number);
    DecimalRoundTrip(n);
    DecimalStringLength(n);
    ZFillDigits(DecimalString(n), 3);
    if n == 1000 {
      ThousandString();
    }
  }

  /** `str(1000)`. */
  lemma ThousandString()
    ensures DecimalString(1000) == "1000"
  {
    assert DecimalString(1) == "1";
    assert DecimalString(10) == "10";
    assert DecimalString(100) == "100";
  }

  /** Leading zeros are kept on low numbers. */
  lemma IncrementedExamples()
    ensures Incremented("000") == "001"
    ensures Incremented("009") == "010"
  {
    ThreeDigitsIncremented("000", "001");
    ThreeDigitsIncremented("009", "010");
  }

  /** The last three-digit timepoint stays three digits, and 999 widens to 1000. */
  lemma IncrementedLastExamples()
    ensures Incremented("998") == "999"
    ensures Incremented("999") == "1000"
  {
    ThreeDigitsIncremented("998", "999");
    IncrementedValue("999");
    ThreeDigitValue("999");
  }

  /** A whole name: the field in the root is rewritten and the extension is kept. */
  lemma IncrementFilenameExample()
    ensures IncrementFilename("f_t000_.tif") == Ok("f_t001_.tif")
  {
    SplitExample();
    SearchExample();
    IncrementedExamples();
    assert "f" + "_t" + "001" + "_" + [] + ".tif" == "f_t001_.tif";
  }

  /** The field of `f_t000_` is found at offset 1 and holds `000`. */
  lemma SearchExample()
    ensures var base := "f_t000_";
      Search(base) == Some(1) && base[3..6] == "000" && base[..1] == "f" && base[7..] == []
  {
    var base := "f_t000_";
    assert !MatchAt(base, 0) && MatchAt(base, 1);
  }

  /** `splitext("f_t000_.tif") == ("f_t000_", ".tif")`. */
  lemma SplitExample()
    ensures SplitExt("f_t000_.tif") == ("f_t000_", ".tif")
  {
    var s := "f_t000_.tif";
    assert s[0] == 'f' && s[1] == '_' && s[2] == 't' && s[3] == '0' && s[4] == '0' && s[5] == '0';
    assert s[6] == '_' && s[7] == '.' && s[8] == 't' && s[9] == 'i' && s[10] == 'f' && |s| == 11;
    assert RFind(s, '/') == -1;
    assert RFind(s, '.') == 7;
    assert ExtensionStart(s) == 7 by {
      assert s[0] != '.';
    }
    assert s[..7] == "f_t000_" && s[7..] == ".tif";
  }

  /** A field that only appears in the extension is not found: `splitext("a.b_t000_")` has root `a`. */
  lemma FieldInExtensionExample()
    ensures IncrementFilename("a.b_t000_") == Err(NoNumberFound)
  {
    var s := "a.b_t000_";
    assert s[0] == 'a' && s[1] == '.' && forall i | 1 < i < |s| :: s[i] != '.' && s[i] != '/';
    assert RFind(s, '/') == -1;
    assert RFind(s, '.') == 1;
    assert ExtensionStart(s) == 1 by {
      assert s[0] != '.';
    }
    assert |SplitExt(s).0| == 1;
  }

  lemma ThreeDigitsIncremented(number: string, expected: string)
    requires |number| == 3 && AllDigits(number) && |expected| == 3 && AllDigits(expected)
    requires 100 * DigitValue(number[0]) + 10 * DigitValue(number[1]) + DigitValue(number[2]) < 999
    requires 100 * DigitValue(expected[0]) + 10 * DigitValue(expected[1]) + DigitValue(expected[2])
          == 100 * DigitValue(number[0]) + 10 * DigitValue(number[1]) + DigitValue(number[2]) + 1
    ensures Incremented(number) == expected
  {
    ThreeDigitValue(number);
    ThreeDigitValue(expected);
    IncrementedValue(number);
    DecimalValueInjective(Incremented(number), expected);
  }

  /** A match that lies inside a prefix of a string is a match of that prefix. */
  lemma MatchInPrefix(s: string, n: nat, j: int)
    requires n <= |s| && 0 <= j && j + 6 <= n
    ensures MatchAt(s, j) <==> MatchAt(s[..n], j)
  {
  }

  /**
   * The leftmost field of the root is the leftmost field of the whole
   * name, lies inside the root, and holds the timepoint.
   */
  lemma FieldInName(filename: string)
    requires Timepoint(filename).Some?
    ensures FieldOffset(filename).Some?
    ensures var k := FieldOffset(filename).value;
      MatchAt(filename, k) && k + 6 <= |SplitExt(filename).0| &&
      filename[..k + 6] == SplitExt(filename).0[..k + 6] &&
      (forall j | j < k :: !MatchAt(filename, j)) &&
      AllDigits(filename[k + 2..k + 5]) &&
      Timepoint(filename).value == DecimalValue(filename[k + 2..k + 5])
  {
    var base := SplitExt(filename).0;
    var k := FieldOffset(filename).value;
    assert filename[..|base|] == base;
    MatchInPrefix(filename, |base|, k);
    forall j | j < k
      ensures !MatchAt(filename, j)
    {
      if 0 <= j {
        MatchInPrefix(filename, |base|, j);
      }
    }
    assert filename[k + 2..k + 5] == base[k + 2..k + 5];
  }

  /**
   * On success the leftmost field of the root is the leftmost field of the
   * whole name, and exactly its three digits are replaced by the
   * incremented number: the characters before them and after them (the
   * rest of the root and the extension) are kept as they were.
   */
  lemma IncrementFilenameSplice(filename: string)
    requires Timepoint(filename).Some?
    ensures FieldOffset(filename).Some?
    ensures var k := FieldOffset(filename).value;
      MatchAt(filename, k) && k + 6 <= |SplitExt(filename).0| &&
      (forall j | j < k :: !MatchAt(filename, j)) &&
      AllDigits(filename[k + 2..k + 5]) &&
      Timepoint(filename).value == DecimalValue(filename[k + 2..k + 5]) &&
      IncrementFilename(filename) == Ok(filename[..k + 2] + Incremented(filename[k + 2..k + 5]) + filename[k + 5..])
  {
    FieldInName(filename);
    var base, ext := SplitExt(filename).0, SplitExt(filename).1;
    var k := FieldOffset(filename).value;
    var f := Incremented(filename[k + 2..k + 5]);
    assert base[k + 2..k + 5] == filename[k + 2..k + 5];
    assert IncrementFilename(filename) == Ok(base[..k] + "_t" + f + "_" + base[k + 6..] + ext);
    SpliceOfRoot(filename, base, ext, k, f);
  }

  /** Splicing into the root and re-appending the extension is splicing into the whole name. */
  lemma SpliceOfRoot(filename: string, base: string, ext: string, k: nat, f: string)
    requires filename == base + ext && MatchAt(base, k)
    ensures base[..k] + "_t" + f + "_" + base[k + 6..] + ext == filename[..k + 2] + f + filename[k + 5..]
  {
    assert filename[..k + 2] == base[..k] + "_t";
    assert filename[k + 5..] == "_" + base[k + 6..] + ext;
  }

  /** Any later occurrence of the pattern is carried over untouched (shifted when 999 widens to 1000). */
  lemma IncrementFilenameKeepsLaterFields(filename: string, j: nat)
    requires Timepoint(filename).Some?
    requires FieldOffset(filename).Some? && FieldOffset(filename).value + 5 <= j
    requires MatchAt(filename, j)
    ensures Timepoint(filename).value < 999 ==> MatchAt(IncrementFilename(filename).value, j)
    ensures Timepoint(filename).value == 999 ==> MatchAt(IncrementFilename(filename).value, j + 1)
  {
    IncrementFilenameSplice(filename);
    var k := FieldOffset(filename).value;
    var f := Incremented(filename[k + 2..k + 5]);
    IncrementedValue(filename[k + 2..k + 5]);
    var shift := if Timepoint(filename).value < 999 then 0 else 1;
    SplicedKeepsLaterMatch(filename, k, f, j, IncrementFilename(filename).value, j + shift);
  }

  /** A match after the replaced digits is carried over, shifted by the change in length. */
  lemma SplicedKeepsLaterMatch(x: string, k: nat, f: string, j: nat, r: string, at: int)
    requires k + 5 <= j && MatchAt(x, j) && r == x[..k + 2] + f + x[k + 5..]
    requires at == j + |f| - 3
    ensures MatchAt(r, at)
  {
    var head := x[..k + 2] + f;
    assert r == head + x[k + 5..];
    var off := j - (k + 5);
    assert r[|head| + off..|head| + off + 6] == x[k + 5..][off..off + 6] == x[j..j + 6];
    MatchAtSameWindow(r, |head| + off, x, j);
  }

  /** Digits are neither dots nor separators. */
  lemma SameShapeSeparators(s: string, t: string)
    requires SameShape(s, t)
    ensures SameSeparators(s, t)
  {
  }

  /**
   * Below 999 the result has the shape of the input, `splitext` splits it
   * at the same place with the same extension, its field is at the same
   * offset and its timepoint is one higher.
   */
  lemma IncrementFilenameAdvances(filename: string)
    requires Timepoint(filename).Some? && Timepoint(filename).value < 999
    ensures IncrementFilename(filename).Ok?
    ensures var r := IncrementFilename(filename).value;
      SameShape(filename, r) &&
      SplitExt(r).1 == SplitExt(filename).1 &&
      FieldOffset(r) == FieldOffset(filename) &&
      Timepoint(r) == Some(Timepoint(filename).value + 1)
  {
    var base, ext := SplitExt(filename).0, SplitExt(filename).1;
    var k := FieldOffset(filename).value;
    var newBase := NewRoot(filename);
    var r := IncrementFilename(filename).value;
    SameShapeAppend(base, newBase, ext);
    SameShapeSeparators(filename, r);
    ExtensionStartSame(filename, r);
    assert r[..|base|] == newBase && r[|base|..] == ext;
    assert SplitExt(r) == (newBase, ext);
    SameShapeSearch(base, newBase);
  }

  /**
   * Below 999 the incremented root: the root with its field's three digits
   * replaced by three others whose value is one higher.
   */
  lemma NewRoot(filename: string) returns (newBase: string)
    requires Timepoint(filename).Some? && Timepoint(filename).value < 999
    ensures var base := SplitExt(filename).0;
      var k := FieldOffset(filename).value;
      IncrementFilename(filename) == Ok(newBase + SplitExt(filename).1) &&
      SameShape(base, newBase) &&
      MatchAt(newBase, k) &&
      AllDigits(newBase[k + 2..k + 5]) &&
      DecimalValue(newBase[k + 2..k + 5]) == Timepoint(filename).value + 1
  {
    var base := SplitExt(filename).0;
    var k := FieldOffset(filename).value;
    var number := base[k + 2..k + 5];
    var f := Incremented(number);
    IncrementedValue(number);
    ReplaceDigits(base, k, f);
    newBase := base[..k + 2] + f + base[k + 5..];
    assert newBase[k + 2..k + 5] == f;
  }

  /** The output never equals the input: the field always changes (and 999 even widens). */
  lemma IncrementFilenameChanges(filename: string)
    requires IncrementFilename(filename).Ok?
    ensures IncrementFilename(filename).value != filename
  {
    assert Timepoint(filename).Some?;
    IncrementFilenameSplice(filename);
    var k := FieldOffset(filename).value;
    var number := filename[k + 2..k + 5];
    var f := Incremented(number);
    assert f != number by {
      IncrementedValue(number);
    }
    SplicedDiffers(filename, k, f);
  }

  /** Replacing three characters by a different string changes the string. */
  lemma SplicedDiffers(x: string, k: nat, f: string)
    requires k + 5 <= |x| && f != x[k + 2..k + 5]
    ensures x[..k + 2] + f + x[k + 5..] != x
  {
    var r := x[..k + 2] + f + x[k + 5..];
    if |f| == 3 {
      assert r[k + 2..k + 5] == f;
    } else {
      assert |r| != |x|;
    }
  }

  /**
   * Below 999 two different names never get the same new name, so one
   * rename never lands on the destination of another.
   */
  lemma IncrementFilenameInjective(a: string, b: string)
    requires Timepoint(a).Some? && Timepoint(a).value < 999
    requires Timepoint(b).Some? && Timepoint(b).value < 999
    requires IncrementFilename(a) == IncrementFilename(b)
    ensures a == b
  {
    var k := FieldOffset(a).value;
    assert FieldOffset(b) == Some(k) by {
      IncrementFilenameAdvances(a);
      IncrementFilenameAdvances(b);
    }
    SpliceAt(a, k);
    SpliceAt(b, k);
    var da, db := a[k + 2..k + 5], b[k + 2..k + 5];
    IncrementedValue(da);
    IncrementedValue(db);
    SplicedSameParts(a, b, k, Incremented(da), Incremented(db));
    DecimalValueInjective(da, db);
  }

  /** `IncrementFilenameSplice` at a known offset below 999. */
  lemma SpliceAt(filename: string, k: nat)
    requires Timepoint(filename).Some? && Timepoint(filename).value < 999
    requires FieldOffset(filename) == Some(k)
    ensures k + 5 <= |filename| && |filename[k + 2..k + 5]| == 3 && AllDigits(filename[k + 2..k + 5])
    ensures DecimalValue(filename[k + 2..k + 5]) < 999
    ensures IncrementFilename(filename) == Ok(filename[..k + 2] + Incremented(filename[k + 2..k + 5]) + filename[k + 5..])
  {
    IncrementFilenameSplice(filename);
  }

  /** Two three-character splices at the same place that give the same string agree piece by piece. */
  lemma SplicedSameParts(a: string, b: string, k: nat, fa: string, fb: string)
    requires k + 5 <= |a| && k + 5 <= |b| && |fa| == 3 && |fb| == 3
    requires a[..k + 2] + fa + a[k + 5..] == b[..k + 2] + fb + b[k + 5..]
    ensures a[..k + 2] == b[..k + 2] && fa == fb && a[k + 5..] == b[k + 5..]
    ensures a == a[..k + 2] + a[k + 2..k + 5] + a[k + 5..] && b == b[..k + 2] + b[k + 2..k + 5] + b[k + 5..]
  {
    var r := a[..k + 2] + fa + a[k + 5..];
    SpliceParts(a, k, fa, r);
    SpliceParts(b, k, fb, r);
  }

  /** The pieces of a name whose three digits at `k + 2` were replaced by `f`. */
  lemma SpliceParts(x: string, k: nat, f: string, r: string)
    requires k + 5 <= |x| && |f| == 3 && r == x[..k + 2] + f + x[k + 5..]
    ensures r[..k + 2] == x[..k + 2] && r[k + 2..k + 5] == f && r[k + 5..] == x[k + 5..]
    ensures x == x[..k + 2] + x[k + 2..k + 5] + x[k + 5..]
  {
  }

  /**
   * Below 999 the new name sorts after the old one: they agree up to the
   * first digit that grows.
   */
  lemma IncrementFilenameIncreases(filename: string)
    requires Timepoint(filename).Some? && Timepoint(filename).value < 999
    ensures IncrementFilename(filename).Ok?
    ensures LexLess(filename, IncrementFilename(filename).value)
  {
    IncrementFilenameSplice(filename);
    var k := FieldOffset(filename).value;
    var d := filename[k + 2..k + 5];
    IncrementedValue(d);
    SplicedGrows(filename, k, Incremented(d), IncrementFilename(filename).value);
  }

  /** Replacing three digits by three digits of higher value gives a greater string. */
  lemma SplicedGrows(x: string, k: nat, f: string, r: string)
    requires k + 5 <= |x| && |f| == 3 && AllDigits(f) && AllDigits(x[k + 2..k + 5])
    requires DecimalValue(x[k + 2..k + 5]) < DecimalValue(f)
    requires r == x[..k + 2] + f + x[k + 5..]
    ensures LexLess(x, r)
  {
    var d := x[k + 2..k + 5];
    var p := ThreeDigitOrder(d, f);
    SpliceParts(x, k, f, r);
    assert x[..k + 2 + p] == x[..k + 2] + d[..p];
    assert r[..k + 2 + p] == x[..k + 2] + f[..p];
    assert x[k + 2 + p] == d[p] && r[k + 2 + p] == f[p];
    LexLessAtFirstDifference(x, r, k + 2 + p);
  }
}
