/** Where outputs go (abstract_file_batch.py): the configured output
    directory is classified once while the inputs are checked (lines
    273-310), then turned into a directory per input file while processing
    (lines 358-371). */
module OutputDirs {
  import opened Text
  import opened PosixPath
  import opened Wrappers
  import opened Fs

  const InputDirToken: string := "<INPUT_DIR>"
  const InPlaceToken: string := "<IN_PLACE>"

  /** The four branches of lines 282-310. */
  datatype OutputMode = CommonRelative | CommonAbsolute | CommonTemplated | Separate

  /** Lines 282, 289, 296 and 302, tried in that order. */
  function Classify(outputDir: string): (m: OutputMode)
    ensures m == CommonRelative <==> StartsWith(outputDir, ".")
    ensures m == CommonAbsolute <==> !StartsWith(outputDir, ".") && IsAbs(outputDir)
    ensures m == CommonTemplated
        <==> !StartsWith(outputDir, ".") && !IsAbs(outputDir) && StartsWith(outputDir, InputDirToken)
    ensures m == Separate
        <==> !StartsWith(outputDir, ".") && !IsAbs(outputDir) && !StartsWith(outputDir, InputDirToken)
  {
    if outputDir != [] && outputDir[0] == '.' then CommonRelative
    else if IsAbs(outputDir) then CommonAbsolute
    else if StartsWith(outputDir, InputDirToken) then CommonTemplated
    else Separate
  }

  /** Lines 274-280: a missing or empty setting takes the class default,
      then white space is stripped. */
  function ChosenOutputDir(configured: string, default: string): string
  {
    Strip(if configured == [] then default else configured)
  }

  /** Lines 273-310: the value `outputDir` holds after the inputs are
      checked, or the error `checkpath` raises for a common directory
      that exists but is not a directory. */
  function ResolveOutputDir(configured: string, default: string, inputDir: string,
                            files: set<string>, dirs: set<string>): (r: Result<string, Error>)
    ensures var d := ChosenOutputDir(configured, default);
      && (r.Failure? <==> (Classify(d) == CommonRelative || Classify(d) == CommonAbsolute) && d in files && d !in dirs)
      && (r.Failure? ==> r.error == NotADirectory(d))
      && (r.Success? && (Classify(d) == CommonRelative || Classify(d) == CommonAbsolute) ==> r.value == d)
      && (Classify(d) == CommonTemplated ==>
            && r.Success? && StartsWith(r.value, inputDir)
            && r.value == inputDir + ReplaceAll(d[|InputDirToken|..], InputDirToken, inputDir))
      && (Classify(d) == Separate ==> r.Success? && StartsWith(r.value, InPlaceToken))
  {
    var d := ChosenOutputDir(configured, default);
    match Classify(d)
    case CommonRelative =>
      if CheckPath(files, dirs, d, false).Fail? then Failure(NotADirectory(d)) else Success(d)
    case CommonAbsolute =>
      if CheckPath(files, dirs, d, false).Fail? then Failure(NotADirectory(d)) else Success(d)
    case CommonTemplated =>
      TemplateReplaced(d, inputDir);
      Success(ReplaceAll(d, InputDirToken, inputDir))
    case Separate =>
      if d == [] then Success(InPlaceToken)
      else
        TokenJoin(d);
        Success(Join(InPlaceToken, d))
  }

  /** A setting that starts with `<INPUT_DIR>` becomes the input directory
      followed by the rest of the setting, replaced in turn. */
  lemma TemplateReplaced(d: string, inputDir: string)
    requires StartsWith(d, InputDirToken)
    ensures ReplaceAll(d, InputDirToken, inputDir)
         == inputDir + ReplaceAll(d[|InputDirToken|..], InputDirToken, inputDir)
  {
    assert d == InputDirToken + d[|InputDirToken|..];
    ReplaceAllFront(InputDirToken, d[|InputDirToken|..], inputDir);
  }

  /** Lines 367-371 as written: when `inputDir` occurs anywhere in the
      file's directory, EVERY occurrence is deleted and the rest is
      appended to the output directory. */
  function MirroredDirAsWritten(outputDir: string, inputDir: string, filePath: string): string
  {
    if Contains(filePath, inputDir) then outputDir + ReplaceAll(filePath, inputDir, [])
    else outputDir
  }

  /** Lines 367-371 as evidently intended: a directory below the input
      root is mirrored below the output directory. */
  function MirroredDir(outputDir: string, inputDir: string, filePath: string): string
  {
    if StartsWith(filePath, inputDir) then outputDir + filePath[|inputDir|..] else outputDir
  }

  /** The intended property: the path relative to the input root is kept
      whole below the output directory. */
  lemma MirroredDirKeepsRelativePath(outputDir: string, inputDir: string, rel: string)
    ensures MirroredDir(outputDir, inputDir, inputDir + rel) == outputDir + rel
  {
    assert (inputDir + rel)[..|inputDir|] == inputDir;
    assert (inputDir + rel)[|inputDir|..] == rel;
  }

  /** The code as written loses a repeated directory name: with input root
      `data`, a file in `data/data` goes to `<out>/` instead of `<out>/data`. */
  lemma MirroredDirAsWrittenLosesRepeatedName(outputDir: string, name: string)
    requires name != [] && Sep !in name
    ensures MirroredDirAsWritten(outputDir, name, name + [Sep] + name) == outputDir + [Sep]
    ensures MirroredDir(outputDir, name, name + [Sep] + name) == outputDir + [Sep] + name
    ensures outputDir + [Sep] != outputDir + [Sep] + name
  {
    var dir := name + ([Sep] + name);
    assert dir == name + [Sep] + name;
    assert Contains(dir, name) by { assert dir[..|name|] == name; }
    DeleteAtPrefix(name, [Sep] + name);
    DeleteAfterOtherChar(Sep, name);
    DeleteAtPrefix(name, []);
    assert name + [] == name;
    MirroredDirKeepsRelativePath(outputDir, name, [Sep] + name);
    assert |outputDir + [Sep]| < |outputDir + [Sep] + name|;
  }

  /** As written and as intended agree when the path below the input root
      does not repeat the root's name. */
  lemma MirroredDirAsWrittenAgrees(outputDir: string, inputDir: string, rel: string)
    requires inputDir != [] && !Contains(rel, inputDir)
    ensures MirroredDirAsWritten(outputDir, inputDir, inputDir + rel) == outputDir + rel
    ensures MirroredDirAsWritten(outputDir, inputDir, inputDir + rel) == MirroredDir(outputDir, inputDir, inputDir + rel)
  {
    assert Contains(inputDir + rel, inputDir) by { assert (inputDir + rel)[..|inputDir|] == inputDir; }
    ReplaceAllAtPrefix(inputDir, rel, []);
    MirroredDirKeepsRelativePath(outputDir, inputDir, rel);
  }

  /** With the default input root `.`, the code as written also deletes
      every dot of the mirrored path: a file in `./v1.2` goes to
      `<out>/v12`, not `<out>/v1.2`. */
  lemma MirroredDirAsWrittenDropsDots(outputDir: string)
    ensures MirroredDirAsWritten(outputDir, ".", "./v1.2") == outputDir + "/v12"
    ensures MirroredDir(outputDir, ".", "./v1.2") == outputDir + "/v1.2"
  {
    var dot := ".";
    DotsDeletedInTail();
    assert "v1.2" == ['v'] + "1.2";
    ReplaceAllSkip('v', "1.2", dot, []);
    assert "/v1.2" == ['/'] + "v1.2";
    ReplaceAllSkip('/', "v1.2", dot, []);
    assert ReplaceAll("/v1.2", dot, []) == "/v12";
    assert "./v1.2" == dot + "/v1.2";
    assert Contains("./v1.2", dot) by { assert StartsWith("./v1.2", dot); }
    ReplaceAllFront(dot, "/v1.2", []);
    MirroredDirKeepsRelativePath(outputDir, dot, "/v1.2");
  }

  /** The last step of `MirroredDirAsWrittenDropsDots`. */
  lemma DotsDeletedInTail()
    ensures ReplaceAll("1.2", ".", []) == "12"
  {
    var dot := ".";
    assert "2" == ['2'] + [];
    ReplaceAllSkip('2', [], dot, []);
    assert ".2" == dot + "2";
    ReplaceAllFront(dot, "2", []);
    assert "1.2" == ['1'] + ".2";
    ReplaceAllSkip('1', ".2", dot, []);
  }

  /** When the input root occurs in the file's directory but not at its
      front, the code as written still appends what is left: a file in
      `x/in` under the root `in` goes to `outx/`, where the intended rule
      keeps `out`. */
  lemma MirroredDirAsWrittenOffPrefix()
    ensures MirroredDirAsWritten("out", "in", "x/in") == "outx/"
    ensures MirroredDir("out", "in", "x/in") == "out"
  {
    var name := "in";
    assert "x/in" == ['x'] + "/in" && "/in" == ['/'] + name;
    assert Contains("x/in", name) by {
      assert "x/in"[1..] == "/in" && "/in"[1..] == name;
      assert StartsWith(name, name);
    }
    assert !StartsWith("x/in", name) by { assert "x/in"[0] != name[0]; }
    ReplaceAllSkip('x', "/in", name, []);
    assert !StartsWith("/in", name) by { assert "/in"[0] != name[0]; }
    ReplaceAllSkip('/', name, name, []);
    assert name == name + [];
    ReplaceAllFront(name, [], []);
    assert ReplaceAll([], name, []) == [];
  }

  lemma DeleteAtPrefix(name: string, rest: string)
    requires name != []
    ensures ReplaceAll(name + rest, name, []) == ReplaceAll(rest, name, [])
  {
    assert (name + rest)[..|name|] == name;
    assert (name + rest)[|name|..] == rest;
  }

  lemma DeleteAfterOtherChar(c: char, name: string)
    requires name != [] && c != name[0]
    ensures ReplaceAll([c] + name, name, []) == [c] + ReplaceAll(name, name, [])
  {
    var s := [c] + name;
    assert s[..|name|][0] == c;
    assert s[1..] == name;
  }

  /** Lines 362-371: the directory one input file's output goes to, with
      a common output directory mirrored as the code is written. */
  function FileOutputDir(outputDir: string, inputDir: string, filePath: string): string
  {
    if Contains(outputDir, InPlaceToken) then ReplaceAll(outputDir, InPlaceToken, filePath)
    else MirroredDirAsWritten(outputDir, inputDir, filePath)
  }

  /** The default setting writes each output next to its input. */
  lemma InPlaceIsInputDirectory(inputDir: string, filePath: string)
    ensures FileOutputDir(InPlaceToken, inputDir, filePath) == filePath
  {
    assert StartsWith(InPlaceToken, InPlaceToken);
    ReplaceAllAtPrefix(InPlaceToken, [], filePath);
    assert InPlaceToken + [] == InPlaceToken;
  }

  /** A relative setting `sub` writes each output to `sub` below its
      input's directory, as `join(dirname, sub)`. */
  lemma InPlaceSubdirectoryIsJoin(sub: string, inputDir: string, filePath: string)
    requires !IsAbs(sub) && !Contains(sub, InPlaceToken)
    requires filePath != [] && filePath[|filePath| - 1] != Sep
    ensures FileOutputDir(Join(InPlaceToken, sub), inputDir, filePath) == Join(filePath, sub)
  {
    var rest := [Sep] + sub;
    TokenJoin(sub);
    ContainsCons(Sep, sub, InPlaceToken);
    TokenReplaced(rest, inputDir, filePath);
    assert Join(filePath, sub) == filePath + rest by {
      assert filePath + [Sep] + sub == filePath + ([Sep] + sub);
    }
  }

  /** The setting `sub` is stored as `join("<IN_PLACE>", sub)`. */
  lemma TokenJoin(sub: string)
    requires !IsAbs(sub)
    ensures Join(InPlaceToken, sub) == InPlaceToken + ([Sep] + sub)
    ensures StartsWith(Join(InPlaceToken, sub), InPlaceToken)
  {
    assert (InPlaceToken + ([Sep] + sub))[..|InPlaceToken|] == InPlaceToken;
  }

  /** A setting that starts with the token once has it replaced by the
      input's directory. */
  lemma TokenReplaced(rest: string, inputDir: string, filePath: string)
    requires !Contains(rest, InPlaceToken)
    ensures FileOutputDir(InPlaceToken + rest, inputDir, filePath) == filePath + rest
  {
    assert StartsWith(InPlaceToken + rest, InPlaceToken) by {
      assert (InPlaceToken + rest)[..|InPlaceToken|] == InPlaceToken;
    }
    ReplaceAllAtPrefix(InPlaceToken, rest, filePath);
  }

  /** From the configured setting to the per-file directory: an empty
      setting (the default) writes next to the input, a relative one to a
      sub-directory of the input's directory. */
  lemma SeparateModeDirectories(configured: string, default: string, inputDir: string,
                                files: set<string>, dirs: set<string>, filePath: string)
    requires Classify(ChosenOutputDir(configured, default)) == Separate
    requires !Contains(ChosenOutputDir(configured, default), InPlaceToken)
    requires filePath != [] && filePath[|filePath| - 1] != Sep
    ensures ResolveOutputDir(configured, default, inputDir, files, dirs).Success?
    ensures var d := ChosenOutputDir(configured, default);
      FileOutputDir(ResolveOutputDir(configured, default, inputDir, files, dirs).value, inputDir, filePath)
        == if d == [] then filePath else Join(filePath, d)
  {
    var d := ChosenOutputDir(configured, default);
    if d == [] {
      InPlaceIsInputDirectory(inputDir, filePath);
    } else {
      InPlaceSubdirectoryIsJoin(d, inputDir, filePath);
    }
  }
}
