/** The output file name of one input file (abstract_file_batch.py,
    lines 379-400): an optional extension override, lower-cased when the
    inputs are checked (lines 213-214), then an optional suffix inserted
    in front of the extension. An empty override or suffix stands for
    Python's `None` or `""`, both of which switch the step off. */
module OutputNaming {
  import opened Text
  import opened PosixPath

  /** Lines 213-214: the override is stored lower-cased. */
  function NormalizeOutputExtension(ext: string): (r: string)
    ensures |r| == |ext|
    ensures forall i :: 0 <= i < |r| ==> !('A' <= r[i] <= 'Z')
    ensures forall i :: 0 <= i < |r| ==> LowerChar(ext[i]) == r[i]
  {
    Lower(ext)
  }

  /** Lines 380-387: `name[:-len(extension)] + "." + ext` when the name has
      an extension, else `name + "." + ext`. */
  function ReplaceExtension(name: string, ext: string): (r: string)
    requires ext != []
    ensures SplitExt(name).1 != [] ==> r == SplitExt(name).0 + [ExtSep] + ext
    ensures SplitExt(name).1 == [] ==> r == name + [ExtSep] + ext
  {
    var extension := SplitExt(name).1;
    if extension != [] then
      assert name[..|name| - |extension|] == SplitExt(name).0;
      name[..|name| - |extension|] + [ExtSep] + ext
    else name + [ExtSep] + ext
  }

  /** Lines 390-400: `root + suffix + extension`, or `name + suffix` when
      the name has no extension. */
  function InsertSuffix(name: string, suffix: string): string
  {
    var (root, extension) := SplitExt(name);
    if extension != [] then root + suffix + extension else name + suffix
  }

  /** Lines 379-400: the extension step, then the suffix step. */
  function OutputName(name: string, ext: string, suffix: string): string
  {
    var renamed := if ext != [] then ReplaceExtension(name, ext) else name;
    if suffix != [] then InsertSuffix(renamed, suffix) else renamed
  }

  /** An override that is a plain word. */
  predicate PlainWord(s: string)
  {
    ExtSep !in s && Sep !in s
  }

  /** After the override, `splitext` sees the old root and exactly the new
      extension: the override is what later code (the suffix step) reads
      back. Names made of dots only have no stem and are excluded. */
  lemma ReplacedExtensionIsRecognised(name: string, ext: string)
    requires ext != [] && PlainWord(ext)
    requires NamedStem(name)
    ensures SplitExt(ReplaceExtension(name, ext)) == (SplitExt(name).0, [ExtSep] + ext)
  {
    if SplitExt(name).1 != [] {
      SplitExtParts(name);
      SplitExtOfAppendedExtension(SplitExt(name).0, ext);
    } else {
      SplitExtOfAppendedExtension(name, ext);
    }
  }

  /** The suffix goes between root and extension and leaves the extension
      as `splitext` sees it unchanged. */
  lemma SuffixKeepsExtension(name: string, suffix: string)
    requires PlainWord(suffix)
    ensures SplitExt(InsertSuffix(name, suffix)) == (SplitExt(name).0 + suffix, SplitExt(name).1)
  {
    var split := SplitExt(name);
    if split.1 != [] {
      SplitExtParts(name);
      SuffixBeforeExtension(split.0, suffix, split.1);
    } else {
      SplitExtOfAppendedPlain(name, suffix);
    }
  }

  lemma SuffixBeforeExtension(root: string, suffix: string, extension: string)
    requires NamedStem(root) && PlainWord(suffix)
    requires extension != [] && extension[0] == ExtSep && PlainWord(extension[1..])
    ensures SplitExt(root + suffix + extension) == (root + suffix, extension)
  {
    NamedStemAppend(root, suffix);
    assert root + suffix + extension == (root + suffix) + [ExtSep] + extension[1..];
    SplitExtOfAppendedExtension(root + suffix, extension[1..]);
  }

  /** Whether or not the name has an extension, the suffix lands between
      `splitext`'s root and extension. */
  lemma InsertSuffixSplits(name: string, suffix: string)
    ensures InsertSuffix(name, suffix) == SplitExt(name).0 + suffix + SplitExt(name).1
  {
    var split := SplitExt(name);
    if split.1 == [] {
      assert split.0 == name;
    }
  }

  /** The whole transform: the stem, then the suffix, then the override
      (or the original extension). */
  lemma OutputNameShape(name: string, ext: string, suffix: string)
    requires PlainWord(ext) && PlainWord(suffix)
    requires ext != [] ==> NamedStem(name)
    ensures OutputName(name, ext, suffix)
         == SplitExt(name).0 + suffix + (if ext != [] then [ExtSep] + ext else SplitExt(name).1)
  {
    var split := SplitExt(name);
    if ext != [] {
      var renamed := ReplaceExtension(name, ext);
      if split.1 == [] { assert split.0 == name; }
      assert renamed == split.0 + ([ExtSep] + ext);
      if suffix != [] {
        ReplacedExtensionIsRecognised(name, ext);
        InsertSuffixSplits(renamed, suffix);
      }
    } else if suffix != [] {
      InsertSuffixSplits(name, suffix);
    } else {
      assert split.0 + [] + split.1 == name;
    }
  }

  /** With neither setting the name is kept. */
  lemma OutputNameUnchanged(name: string)
    ensures OutputName(name, [], []) == name
  {
  }

  /** A plain word with a non-empty stem and a plain extension, such as
      `report.csv`: with override `out` and suffix `_v2` it becomes
      `report_v2.out`. */
  lemma StemAndExtension(stem: string, extension: string, ext: string, suffix: string)
    requires stem != [] && PlainWord(stem) && PlainWord(extension)
    requires PlainWord(ext) && PlainWord(suffix)
    ensures OutputName(stem + [ExtSep] + extension, ext, suffix)
         == stem + suffix + [ExtSep] + (if ext != [] then ext else extension)
  {
    var name := stem + [ExtSep] + extension;
    assert NamedStem(stem) by {
      RFindUnique(stem, Sep, -1);
      assert stem[0..] == stem;
    }
    SplitExtOfAppendedExtension(stem, extension);
    NamedStemAppend(stem, [ExtSep] + extension);
    assert name == stem + ([ExtSep] + extension);
    OutputNameShape(name, ext, suffix);
  }

  /** A name without any `.`, such as `README`: the suffix is appended and
      an override is added after it. */
  lemma NameWithoutDot(name: string, ext: string, suffix: string)
    requires name != [] && PlainWord(name)
    requires PlainWord(ext) && PlainWord(suffix)
    ensures OutputName(name, ext, suffix) == name + suffix + (if ext != [] then [ExtSep] + ext else [])
  {
    RFindUnique(name, ExtSep, -1);
    RFindUnique(name, Sep, -1);
    assert SplitExt(name) == (name, []);
    assert NamedStem(name) by {
      assert name[0..] == name;
    }
    OutputNameShape(name, ext, suffix);
  }

  /** An override given in any case ends the name as `.` plus its lower-case
      form once normalised. */
  lemma OverrideIsLowerCased(name: string, ext: string)
    requires ext != [] && PlainWord(ext)
    requires NamedStem(name)
    ensures SplitExt(OutputName(name, NormalizeOutputExtension(ext), [])).1
         == [ExtSep] + Lower(ext)
  {
    var low := NormalizeOutputExtension(ext);
    assert PlainWord(low) by {
      forall i | 0 <= i < |low| ensures low[i] != ExtSep && low[i] != Sep {
        assert LowerChar(ext[i]) == low[i];
      }
    }
    ReplacedExtensionIsRecognised(name, low);
  }
}
