/** The batch engine of abstract_file_batch.py: checking the settings
    (`__checkinputs`, lines 205-312), planning one job per input file and
    draining them (`process`, lines 337-468), and the hook sequence of
    `run` (lines 315-334). The user's hooks and `processfile` are
    parameters. */
module Batch {
  import opened Text
  import opened PosixPath
  import opened Wrappers
  import opened Fs
  import opened OutputDirs
  import opened OutputNaming
  import opened Backup
  import opened Extensions
  import opened FileListing
  import opened Inputs
  import opened Worker

  /** Line 45: outputs are written next to their inputs. */
  const DefaultOutputDir: string := ""

  /** The attributes `__checkinputs` and `process` read. Python's `None`
      for `inputFiles`, `extensions` and `outputExtension` is the empty
      value, which every test in the source treats alike. */
  datatype Settings = Settings(
    inputDir: string,
    inputFiles: seq<string>,
    outputDir: string,
    outputExtension: string,
    outputSuffix: string,
    extensions: seq<string>,
    noBackup: bool,
    subDir: bool)

  /** Lines 43-58. */
  const Defaults: Settings := Settings(DefaultInputDir, [], DefaultOutputDir, [], [], [], false, true)

  /** The settings after the check, and whether it raised. */
  datatype Checked = Checked(settings: Settings, outcome: Outcome<Error>)

  /** Lines 207-223: the extensions split and lower-cased, the output
      extension lower-cased, the input directory stripped or defaulted. */
  function Normalized(st: Settings, listSeparator: char): Settings
  {
    st.(extensions := if st.extensions != [] then LowerAll(Pieces(st.extensions, listSeparator)) else st.extensions,
        outputExtension :=
          if st.outputExtension != [] then NormalizeOutputExtension(st.outputExtension) else st.outputExtension,
        inputDir := InputDirSetting(st.inputDir))
  }

  /** Line 229: given inputs are split into pieces. */
  function GivenInputs(st: Settings, listSeparator: char): seq<string>
  {
    if st.inputFiles != [] then Pieces(st.inputFiles, listSeparator) else st.inputFiles
  }

  /** The paths `__checkfile` is applied to: the given inputs resolved
      (lines 232-236), or else the files `getfiles` finds joined to the
      input directory (lines 254-261). */
  function Candidates(st: Settings, tree: Entry, listSeparator: char): seq<string>
  {
    var n := Normalized(st, listSeparator);
    if st.inputFiles != [] then ResolveAll(n.inputDir, GivenInputs(st, listSeparator))
    else UnderInputDir(n.inputDir, Listing(tree, n.extensions, st.subDir, []))
  }

  /** Lines 205-310: each attribute as it stands when the check ends, by
      returning or by raising. An `OSError` of `checkpath` on the input
      directory or on a common output directory, and the `ValueError` of
      `__checkfile`, end the check. */
  function CheckedInputs(st: Settings, files: set<string>, dirs: set<string>, tree: Entry,
                         listSeparator: char, hookRefuses: set<string>): Checked
  {
    var s1 := Normalized(st, listSeparator);
    var dirCheck := CheckPath(files, dirs, s1.inputDir, true);
    if dirCheck.Fail? then Checked(s1, dirCheck)
    else
      var s2 := s1.(inputFiles := GivenInputs(st, listSeparator));
      match AcceptInputFiles(files, Candidates(st, tree, listSeparator), s1.extensions, hookRefuses)
      case Failure(e) => Checked(s2, Fail(e))
      case Success(kept) =>
        SettledOutputDir(s2.(inputFiles := kept), files, dirs)
  }

  /** Once the input directory is found, the check is decided by the input
      files and then by the output directory. */
  lemma CheckedInputsAfterInputDir(st: Settings, files: set<string>, dirs: set<string>, tree: Entry,
                                   listSeparator: char, hookRefuses: set<string>)
    requires CheckPath(files, dirs, Normalized(st, listSeparator).inputDir, true) == Pass
    ensures var n := Normalized(st, listSeparator);
      var accepted := AcceptInputFiles(files, Candidates(st, tree, listSeparator), n.extensions, hookRefuses);
      CheckedInputs(st, files, dirs, tree, listSeparator, hookRefuses)
      == if accepted.Failure? then Checked(n.(inputFiles := GivenInputs(st, listSeparator)), Fail(accepted.error))
         else SettledOutputDir(n.(inputFiles := accepted.value), files, dirs)
  {
  }

  /** Lines 273-310: the output directory chosen and, when it is a common
      one, checked. */
  function SettledOutputDir(s: Settings, files: set<string>, dirs: set<string>): Checked
  {
    match ResolveOutputDir(s.outputDir, DefaultOutputDir, s.inputDir, files, dirs)
    case Failure(e) => Checked(s.(outputDir := ChosenOutputDir(s.outputDir, DefaultOutputDir)), Fail(e))
    case Success(d) => Checked(s.(outputDir := d), Pass)
  }

  /** After a check that did not raise: the input directory exists, every
      input file exists, has a listed extension and passed the hook, the
      extensions are single lower-case words, and the output extension is
      lower-case. */
  lemma CheckedInputsMeaning(st: Settings, files: set<string>, dirs: set<string>, tree: Entry,
                             listSeparator: char, hookRefuses: set<string>)
    requires !('a' <= listSeparator <= 'z')
    requires CheckedInputs(st, files, dirs, tree, listSeparator, hookRefuses).outcome == Pass
    ensures var s := CheckedInputs(st, files, dirs, tree, listSeparator, hookRefuses).settings;
      && s.inputDir in dirs
      && (forall p :: p in s.inputFiles ==> p in files && Accepted(p, s.extensions) && p !in hookRefuses)
      && (forall i :: 0 <= i < |s.extensions| ==>
            Comma !in s.extensions[i] && listSeparator !in s.extensions[i]
            && forall k :: 0 <= k < |s.extensions[i]| ==> !('A' <= s.extensions[i][k] <= 'Z'))
      && (forall k :: 0 <= k < |s.outputExtension| ==> !('A' <= s.outputExtension[k] <= 'Z'))
  {
    var n := Normalized(st, listSeparator);
    var s := CheckedInputs(st, files, dirs, tree, listSeparator, hookRefuses).settings;
    CheckedInputsPass(st, files, dirs, tree, listSeparator, hookRefuses);
    AcceptInputFilesMeaning(files, Candidates(st, tree, listSeparator), n.extensions, hookRefuses);
    NormalizedExtensions(st, listSeparator);
  }

  /** A check that did not raise keeps the normalised settings, with the
      accepted files as inputs. */
  lemma CheckedInputsPass(st: Settings, files: set<string>, dirs: set<string>, tree: Entry,
                          listSeparator: char, hookRefuses: set<string>)
    requires CheckedInputs(st, files, dirs, tree, listSeparator, hookRefuses).outcome == Pass
    ensures var n := Normalized(st, listSeparator);
      var s := CheckedInputs(st, files, dirs, tree, listSeparator, hookRefuses).settings;
      var accepted := AcceptInputFiles(files, Candidates(st, tree, listSeparator), n.extensions, hookRefuses);
      && n.inputDir in dirs && accepted.Success? && s.inputFiles == accepted.value
      && s.inputDir == n.inputDir && s.extensions == n.extensions && s.outputExtension == n.outputExtension
  {
    var n := Normalized(st, listSeparator);
    assert CheckPath(files, dirs, n.inputDir, true) == Pass;
  }

  /** The extensions after line 212: no separator, no upper case. */
  lemma NormalizedExtensions(st: Settings, listSeparator: char)
    requires !('a' <= listSeparator <= 'z')
    ensures var e := Normalized(st, listSeparator).extensions;
      st.extensions != [] ==> forall i :: 0 <= i < |e| ==>
        Comma !in e[i] && listSeparator !in e[i] && forall k :: 0 <= k < |e[i]| ==> !('A' <= e[i][k] <= 'Z')
  {
    if st.extensions != [] {
      var pieces := Pieces(st.extensions, listSeparator);
      PiecesClean(st.extensions, listSeparator);
      var e := LowerAll(pieces);
      forall i | 0 <= i < |e|
        ensures Comma !in e[i] && listSeparator !in e[i]
      {
        assert e[i] == Lower(pieces[i]);
        forall k | 0 <= k < |e[i]| ensures e[i][k] != Comma && e[i][k] != listSeparator {
          assert e[i][k] == LowerChar(pieces[i][k]);
          assert pieces[i][k] in pieces[i];
        }
      }
    }
  }

  /** With the default settings the check raises only when the input
      directory is missing, and every output goes next to its input. */
  lemma DefaultsCheck(files: set<string>, dirs: set<string>, tree: Entry, listSeparator: char,
                      hookRefuses: set<string>)
    requires DefaultInputDir in dirs
    ensures CheckedInputs(Defaults, files, dirs, tree, listSeparator, hookRefuses).outcome == Pass
    ensures CheckedInputs(Defaults, files, dirs, tree, listSeparator, hookRefuses).settings.outputDir == InPlaceToken
  {
    var candidates := UnderInputDir(DefaultInputDir, Listing(tree, [], true, []));
    AcceptInputFilesMeaning(files, candidates, [], hookRefuses);
    assert Strip(DefaultInputDir) == DefaultInputDir;
    assert ChosenOutputDir(DefaultOutputDir, DefaultOutputDir) == [];
  }

  /** Lines 359-371: the output directory of one input file. */
  function OutputDirOf(s: Settings, inputFile: string): string
  {
    FileOutputDir(s.outputDir, s.inputDir, Dirname(inputFile))
  }

  /** Lines 379-402: the output file of one input file. */
  function OutputFileOf(s: Settings, inputFile: string): string
  {
    Join(OutputDirOf(s, inputFile), OutputName(Basename(inputFile), s.outputExtension, s.outputSuffix))
  }

  /** With the output directory `<IN_PLACE>` and neither an extension nor a
      suffix, as the defaults give, every input is its own output, so each
      one is backed up before it is processed. */
  lemma InPlaceOutputIsInput(s: Settings, inputFile: string)
    requires s.outputDir == InPlaceToken && s.outputExtension == [] && s.outputSuffix == []
    requires NoDoubleSlash(inputFile)
    ensures OutputFileOf(s, inputFile) == inputFile
  {
    InPlaceIsInputDirectory(s.inputDir, Dirname(inputFile));
    OutputNameUnchanged(Basename(inputFile));
    JoinDirnameBasename(inputFile);
  }

  /** What the loop of lines 355-432 has produced: the queued jobs, the
      backups made, the inputs queued and those skipped because their
      backup failed, the files and directories, and the exception that
      ended it, if any. */
  datatype PlanState = PlanState(jobs: seq<Job>, tempFiles: seq<string>, planned: seq<string>,
                                 skipped: seq<string>, files: set<string>, dirs: set<string>,
                                 aborted: Option<Error>)

  /** Lines 365 and 373-377: the directories once an output directory has
      been checked (only for an `<IN_PLACE>` setting) and made, or the
      exception raised on the way. */
  function PrepareDir(inPlace: bool, outputDir: string, files: set<string>, dirs: set<string>)
    : (r: Result<set<string>, Error>)
    ensures r.Success? ==> r.value == dirs + {outputDir}
    ensures r.Failure? <==> outputDir !in dirs && (outputDir == [] || outputDir in files || BelowFile(files, outputDir))
    ensures r.Failure? && outputDir != [] && outputDir !in files ==> r.error == NotADirectory(outputDir)
  {
    if outputDir in dirs then Success(dirs)
    else if inPlace && outputDir in files then Failure(NotADirectory(outputDir))
    else if outputDir == [] then Failure(NotFound(outputDir))
    else if outputDir in files then Failure(FileExists(outputDir))
    else if BelowFile(files, outputDir) then Failure(NotADirectory(outputDir))
    else Success(dirs + {outputDir})
  }

  /** One input file: its output directory is made ready, then an output
      equal to the input is first renamed to its backup name and queued as
      an overwrite job (lines 406-429); any other file is queued as it is
      (line 432). An input to back up that is missing or blocked cannot
      be renamed: it is skipped, with no job and no backup, and planning
      goes on. */
  function PlanStep(s: Settings, renames: Renames, st: PlanState, inputFile: string): PlanState
  {
    if st.aborted.Some? then st
    else
      match PrepareDir(Contains(s.outputDir, InPlaceToken), OutputDirOf(s, inputFile), st.files, st.dirs)
      case Failure(e) => st.(aborted := Some(e))
      case Success(dirs) =>
        var job := JobOf(s, renames, inputFile);
        if job.overwrite && (inputFile !in st.files || inputFile in renames.blocked) then st.(dirs := dirs, skipped := st.skipped + [inputFile])
        else
        st.(jobs := st.jobs + [job],
            tempFiles := if job.overwrite then st.tempFiles + [job.fileIn] else st.tempFiles,
            planned := st.planned + [inputFile],
            files := if job.overwrite then st.files - {inputFile} + {job.fileIn} else st.files,
            dirs := dirs)
  }

  function Plan(s: Settings, renames: Renames, inputFiles: seq<string>, files: set<string>,
                dirs: set<string>): PlanState
    decreases |inputFiles|
  {
    if inputFiles == [] then PlanState([], [], [], [], files, dirs, None)
    else PlanStep(s, renames, Plan(s, renames, inputFiles[..|inputFiles| - 1], files, dirs),
                  inputFiles[|inputFiles| - 1])
  }

  /** The job an input file gets when planning does not raise. */
  function JobOf(s: Settings, renames: Renames, inputFile: string): Job
  {
    var outputFile := OutputFileOf(s, inputFile);
    if outputFile == inputFile then Job(BackupName(inputFile, renames.refused), outputFile, true)
    else Job(inputFile, outputFile, false)
  }

  /** The code as written loops on an input given twice under the
      default settings: the first copy's step renames the input to its
      backup, so for the second copy every `os.rename` of lines 411 and
      419 raises, and the loop of lines 417-426, which retries after any
      exception, finds no name whose rename succeeds while the input is
      missing. Here the queue is drained only after planning, so nothing
      brings the input back. */
  lemma DuplicateInputRenameNeverSucceeds(s: Settings, renames: Renames, f: string,
                                          files: set<string>, dirs: set<string>)
    requires s.outputDir == InPlaceToken && s.outputExtension == [] && s.outputSuffix == []
    requires NoDoubleSlash(f) && f in files && f !in renames.blocked && Dirname(f) in dirs
    ensures var p := Plan(s, renames, [f], files, dirs);
      && p.aborted == None && p.jobs == [JobOf(s, renames, f)]
      && JobOf(s, renames, f).overwrite && OutputDirOf(s, f) in p.dirs
      && forall i :: !RenameSucceeds(p.files, renames, f, Candidate(f, i))
  {
    var p0 := PlanState([], [], [], [], files, dirs, None);
    InPlaceOutputIsInput(s, f);
    InPlaceIsInputDirectory(s.inputDir, Dirname(f));
    assert [f][..0] == [];
    assert Plan(s, renames, [f], files, dirs) == PlanStep(s, renames, p0, f);
    CandidateShape(f, BackupIndex(f, renames.refused));
    assert BackupName(f, renames.refused) != f;
  }

  /** When a missing input is skipped instead, an input given twice is
      queued once, its second copy is skipped, and `process` reports
      failure without raising (without `noBackup` no removal can raise). */
  lemma DuplicateInputSkipped(s: Settings, renames: Renames, f: string, files: set<string>,
                              dirs: set<string>, transform: (string, string) -> TransformOutcome,
                              oldResults: seq<JobResult>)
    requires s.outputDir == InPlaceToken && s.outputExtension == [] && s.outputSuffix == []
    requires s.inputFiles == [f, f] && !s.noBackup
    requires NoDoubleSlash(f) && f in files && f !in renames.blocked && Dirname(f) in dirs
    ensures var p := Plan(s, renames, [f, f], files, dirs);
      && p.aborted == None && p.jobs == [JobOf(s, renames, f)] && p.planned == [f] && p.skipped == [f]
    ensures ProcessSpec(s, renames, files, dirs, transform, oldResults).result == Success(false)
  {
    var p := Plan(s, renames, [f], files, dirs);
    assert [f, f][..1] == [f];
    assert Plan(s, renames, [f, f], files, dirs) == PlanStep(s, renames, p, f);
    DuplicateInputRenameNeverSucceeds(s, renames, f, files, dirs);
    assert !RenameSucceeds(p.files, renames, f, Candidate(f, 0));
    assert [f][..0] == [];
    assert p.planned == [f] && p.skipped == [];
    MissingInputSkipped(s, renames, p, f);
    var plan := Plan(s, renames, s.inputFiles, files, dirs);
    var drained := Drain(plan.jobs, plan.files, transform);
    AggregateMeaning(drained.results, plan.tempFiles, s.noBackup, drained.files);
  }

  /** The code as written also loops for ever on an input whose every
      rename raises (in a read-only directory, or with a name too long for
      `.bak`): under the default settings the input is to be backed up,
      and no name tried at lines 411 and 419 is ever accepted, whatever
      the files are. */
  lemma BlockedInputRenameNeverSucceeds(s: Settings, renames: Renames, f: string, files: set<string>)
    requires s.outputDir == InPlaceToken && s.outputExtension == [] && s.outputSuffix == []
    requires NoDoubleSlash(f) && f in renames.blocked
    ensures JobOf(s, renames, f).overwrite
    ensures forall i :: !RenameSucceeds(files, renames, f, Candidate(f, i))
  {
    InPlaceOutputIsInput(s, f);
  }

  /** When an input that cannot be renamed is skipped instead, a run over
      it alone queues nothing, leaves the files as they were, and `process`
      reports failure without raising. */
  lemma BlockedInputSkipped(s: Settings, renames: Renames, f: string, files: set<string>,
                            dirs: set<string>, transform: (string, string) -> TransformOutcome,
                            oldResults: seq<JobResult>)
    requires s.outputDir == InPlaceToken && s.outputExtension == [] && s.outputSuffix == []
    requires s.inputFiles == [f]
    requires NoDoubleSlash(f) && f in files && f in renames.blocked && Dirname(f) in dirs
    ensures var p := Plan(s, renames, [f], files, dirs);
      && p.aborted == None && p.jobs == [] && p.planned == [] && p.skipped == [f] && p.files == files
    ensures var r := ProcessSpec(s, renames, files, dirs, transform, oldResults);
      r.result == Success(false) && r.results == [] && r.files == files
  {
    var p0 := PlanState([], [], [], [], files, dirs, None);
    InPlaceOutputIsInput(s, f);
    InPlaceIsInputDirectory(s.inputDir, Dirname(f));
    assert [f][..0] == [];
    assert Plan(s, renames, [f], files, dirs) == PlanStep(s, renames, p0, f);
    MissingInputSkipped(s, renames, p0, f);
    var plan := Plan(s, renames, s.inputFiles, files, dirs);
    assert plan.jobs == [] && plan.tempFiles == [] && plan.skipped == [f];
    var drained := Drain(plan.jobs, plan.files, transform);
    assert drained.results == [] && drained.files == files;
    AggregateMeaning(drained.results, plan.tempFiles, s.noBackup, drained.files);
  }

  /** A step whose output directory is ready but whose input, to be
      backed up, is missing or blocked skips that input: nothing is
      queued, and the input is recorded as skipped. */
  lemma MissingInputSkipped(s: Settings, renames: Renames, st: PlanState, f: string)
    requires st.aborted == None && OutputDirOf(s, f) in st.dirs
    requires JobOf(s, renames, f).overwrite && (f !in st.files || f in renames.blocked)
    ensures PlanStep(s, renames, st, f) == st.(skipped := st.skipped + [f])
  {
  }

  /** The backups of a job list: the input of every overwrite job, in order. */
  function BackupsOf(jobs: seq<Job>): seq<string>
    decreases |jobs|
  {
    if jobs == [] then []
    else
      var job := jobs[|jobs| - 1];
      BackupsOf(jobs[..|jobs| - 1]) + (if job.overwrite then [job.fileIn] else [])
  }

  /** `xs` is `a` and `b` merged, each kept in its own order. */
  predicate Interleaving(xs: seq<string>, a: seq<string>, b: seq<string>)
    decreases |xs|
  {
    if xs == [] then a == [] && b == []
    else
      var x := xs[|xs| - 1];
      || (a != [] && a[|a| - 1] == x && Interleaving(xs[..|xs| - 1], a[..|a| - 1], b))
      || (b != [] && b[|b| - 1] == x && Interleaving(xs[..|xs| - 1], a, b[..|b| - 1]))
  }

  /** Merged with nothing, a sequence is the whole of `xs`. */
  lemma {:induction false} InterleavingWithNothing(xs: seq<string>, a: seq<string>)
    requires Interleaving(xs, a, [])
    ensures a == xs
    decreases |xs|
  {
    if xs != [] {
      InterleavingWithNothing(xs[..|xs| - 1], a[..|a| - 1]);
    }
  }

  /** The facts PlanMeaning states, for a plan of the inputs `xs`. */
  predicate PlanFacts(s: Settings, renames: Renames, xs: seq<string>, p: PlanState)
  {
    && p.jobs == JobsOf(s, renames, p.planned) && p.tempFiles == BackupsOf(p.jobs)
    && Interleaving(xs, p.planned, p.skipped)
    && (forall i :: 0 <= i < |p.skipped| ==> JobOf(s, renames, p.skipped[i]).overwrite)
  }

  /** A step that does not raise follows a plan that had not raised. */
  lemma PlanStepKeepsAbort(s: Settings, renames: Renames, st: PlanState, inputFile: string)
    requires PlanStep(s, renames, st, inputFile).aborted == None
    ensures st.aborted == None
  {
  }

  /** A step that does not raise keeps the facts, for the last input of `xs`. */
  lemma PlanFactsStep(s: Settings, renames: Renames, xs: seq<string>, st: PlanState)
    requires xs != [] && PlanFacts(s, renames, xs[..|xs| - 1], st)
    requires PlanStep(s, renames, st, xs[|xs| - 1]).aborted == None
    ensures PlanFacts(s, renames, xs, PlanStep(s, renames, st, xs[|xs| - 1]))
  {
    var x := xs[|xs| - 1];
    var q := PlanStep(s, renames, st, x);
    PlanStepQueuesJob(s, renames, st, x);
    if q.skipped == st.skipped {
      PlanFactsQueued(s, renames, xs, st, q);
    } else {
      PlanFactsSkipped(s, renames, xs, st, q);
    }
  }

  /** Queuing the last input of `xs` keeps the facts. */
  lemma PlanFactsQueued(s: Settings, renames: Renames, xs: seq<string>, st: PlanState, q: PlanState)
    requires xs != [] && PlanFacts(s, renames, xs[..|xs| - 1], st)
    requires var job := JobOf(s, renames, xs[|xs| - 1]);
      && q.jobs == st.jobs + [job] && q.planned == st.planned + [xs[|xs| - 1]] && q.skipped == st.skipped
      && q.tempFiles == st.tempFiles + (if job.overwrite then [job.fileIn] else [])
    ensures PlanFacts(s, renames, xs, q)
  {
    assert q.planned[..|q.planned| - 1] == st.planned;
    assert q.jobs[..|q.jobs| - 1] == st.jobs;
    assert JobsOf(s, renames, q.planned) == JobsOf(s, renames, st.planned) + [JobOf(s, renames, xs[|xs| - 1])];
  }

  /** Skipping the last input of `xs`, one to be backed up, keeps the facts. */
  lemma PlanFactsSkipped(s: Settings, renames: Renames, xs: seq<string>, st: PlanState, q: PlanState)
    requires xs != [] && PlanFacts(s, renames, xs[..|xs| - 1], st)
    requires JobOf(s, renames, xs[|xs| - 1]).overwrite
    requires q.jobs == st.jobs && q.tempFiles == st.tempFiles && q.planned == st.planned
    requires q.skipped == st.skipped + [xs[|xs| - 1]]
    ensures PlanFacts(s, renames, xs, q)
  {
    assert q.skipped[..|q.skipped| - 1] == st.skipped;
  }

  /** When planning does not raise, the inputs split, in order, into those
      queued and those skipped; every queued input gets exactly its job, in
      order, a backup job exactly when its output is the input itself; the
      backups recorded are those of the overwrite jobs; only inputs to be
      backed up are ever skipped, and with none skipped every input is
      queued. */
  lemma {:induction false} PlanMeaning(s: Settings, renames: Renames, inputFiles: seq<string>,
                                       files: set<string>, dirs: set<string>)
    requires Plan(s, renames, inputFiles, files, dirs).aborted == None
    ensures var p := Plan(s, renames, inputFiles, files, dirs);
      && p.jobs == JobsOf(s, renames, p.planned) && p.tempFiles == BackupsOf(p.jobs)
      && Interleaving(inputFiles, p.planned, p.skipped)
      && (forall i :: 0 <= i < |p.skipped| ==> JobOf(s, renames, p.skipped[i]).overwrite)
      && (p.skipped == [] ==> p.planned == inputFiles)
  {
    PlanFactsHold(s, renames, inputFiles, files, dirs);
    var p := Plan(s, renames, inputFiles, files, dirs);
    if p.skipped == [] {
      InterleavingWithNothing(inputFiles, p.planned);
    }
  }

  lemma {:induction false} PlanFactsHold(s: Settings, renames: Renames, inputFiles: seq<string>,
                                         files: set<string>, dirs: set<string>)
    requires Plan(s, renames, inputFiles, files, dirs).aborted == None
    ensures PlanFacts(s, renames, inputFiles, Plan(s, renames, inputFiles, files, dirs))
    decreases |inputFiles|
  {
    if inputFiles == [] {
      assert Interleaving([], [], []);
    } else {
      var prefix := inputFiles[..|inputFiles| - 1];
      var last := inputFiles[|inputFiles| - 1];
      var before := Plan(s, renames, prefix, files, dirs);
      PlanStepKeepsAbort(s, renames, before, last);
      PlanFactsHold(s, renames, prefix, files, dirs);
      PlanFactsStep(s, renames, inputFiles, before);
    }
  }

  /** `f` applied to each element, in order. */
  function MapSeq<A, B>(f: A -> B, xs: seq<A>): (r: seq<B>)
    ensures |r| == |xs|
    ensures forall i :: 0 <= i < |xs| ==> r[i] == f(xs[i])
    decreases |xs|
  {
    if xs == [] then [] else MapSeq(f, xs[..|xs| - 1]) + [f(xs[|xs| - 1])]
  }

  /** The job of each input file, in order. */
  function JobsOf(s: Settings, renames: Renames, inputFiles: seq<string>): (r: seq<Job>)
    ensures |r| == |inputFiles|
    ensures forall i :: 0 <= i < |inputFiles| ==> r[i] == JobOf(s, renames, inputFiles[i])
  {
    MapSeq((inputFile: string) => JobOf(s, renames, inputFile), inputFiles)
  }

  /** A step that does not raise either queues the input's job, recording
      its backup when it is an overwrite job, or, exactly when the input to
      be backed up is missing or blocked, skips it and queues nothing. */
  lemma PlanStepQueuesJob(s: Settings, renames: Renames, st: PlanState, inputFile: string)
    requires PlanStep(s, renames, st, inputFile).aborted == None
    ensures st.aborted == None
    ensures var q := PlanStep(s, renames, st, inputFile);
      var job := JobOf(s, renames, inputFile);
      if job.overwrite && (inputFile !in st.files || inputFile in renames.blocked) then
        && q.jobs == st.jobs && q.tempFiles == st.tempFiles && q.planned == st.planned
        && q.skipped == st.skipped + [inputFile] && q.files == st.files
      else
        && q.jobs == st.jobs + [job] && q.planned == st.planned + [inputFile] && q.skipped == st.skipped
        && q.tempFiles == st.tempFiles + (if job.overwrite then [job.fileIn] else [])
  {
  }

  /** The plan of one more input is one more step. */
  lemma PlanPrefixStep(s: Settings, renames: Renames, inputFiles: seq<string>, i: nat,
                       files: set<string>, dirs: set<string>)
    requires i < |inputFiles|
    ensures Plan(s, renames, inputFiles[..i + 1], files, dirs)
         == PlanStep(s, renames, Plan(s, renames, inputFiles[..i], files, dirs), inputFiles[i])
  {
    assert inputFiles[..i + 1][..i] == inputFiles[..i];
  }

  /** Once planning has raised, later inputs change nothing. */
  lemma {:induction false} PlanAbortStays(s: Settings, renames: Renames, inputFiles: seq<string>, k: nat,
                                          files: set<string>, dirs: set<string>)
    requires k <= |inputFiles|
    requires Plan(s, renames, inputFiles[..k], files, dirs).aborted.Some?
    ensures Plan(s, renames, inputFiles, files, dirs) == Plan(s, renames, inputFiles[..k], files, dirs)
    decreases |inputFiles| - k
  {
    if k < |inputFiles| {
      assert inputFiles[..k + 1][..k] == inputFiles[..k];
      PlanAbortStays(s, renames, inputFiles, k + 1, files, dirs);
    } else {
      assert inputFiles[..k] == inputFiles;
    }
  }

  /** Line 444: a status is an error when it is a non-empty string; an
      empty exception message counts as success, as in the source. */
  predicate Truthy(error: Option<string>)
  {
    error.Some? && error.value != []
  }

  /** What the loop of lines 442-465 has done: whether an error was seen,
      the files left, and the `os.remove` failure that ended it, if any. */
  datatype AggregateState = AggregateState(errors: bool, files: set<string>, failed: Option<Error>)

  function AggregateStep(st: AggregateState, result: JobResult, tempFiles: seq<string>, noBackup: bool)
    : AggregateState
  {
    if st.failed.Some? then st
    else if Truthy(result.error) then st.(errors := true)
    else if result.fileIn in tempFiles && noBackup then
      if result.fileIn in st.files then st.(files := st.files - {result.fileIn})
      else st.(failed := Some(NotFound(result.fileIn)))
    else st
  }

  function Aggregate(results: seq<JobResult>, tempFiles: seq<string>, noBackup: bool, files: set<string>)
    : AggregateState
    decreases |results|
  {
    if results == [] then AggregateState(false, files, None)
    else AggregateStep(Aggregate(results[..|results| - 1], tempFiles, noBackup, files),
                       results[|results| - 1], tempFiles, noBackup)
  }

  /** The backups a successful pass deletes: those of results without an
      error, when `noBackup` is set. */
  function Deleted(results: seq<JobResult>, tempFiles: seq<string>, noBackup: bool): (r: set<string>)
    ensures !noBackup ==> r == {}
  {
    if noBackup then
      set i | 0 <= i < |results| && !Truthy(results[i].error) && results[i].fileIn in tempFiles :: results[i].fileIn
    else {}
  }

  /** Lines 442-468: unless a removal raised, an error is reported exactly
      when some result is truthy, and the files deleted are exactly the
      backups of successful results when `noBackup` is set; a failed result
      never deletes anything. Without `noBackup` nothing is deleted and
      nothing can raise. */
  lemma {:induction false} AggregateMeaning(results: seq<JobResult>, tempFiles: seq<string>, noBackup: bool,
                                            files: set<string>)
    ensures var a := Aggregate(results, tempFiles, noBackup, files);
      && (a.failed == None ==> (a.errors <==> exists i :: 0 <= i < |results| && Truthy(results[i].error)))
      && (a.failed == None ==> a.files == files - Deleted(results, tempFiles, noBackup))
      && (a.failed.Some? ==> noBackup && exists i ::
            0 <= i < |results| && !Truthy(results[i].error)
            && results[i].fileIn in tempFiles && a.failed == Some(NotFound(results[i].fileIn)))
      && (!noBackup ==> a.failed == None && a.files == files)
    decreases |results|
  {
    if results != [] {
      var prefix := results[..|results| - 1];
      var last := results[|results| - 1];
      AggregateMeaning(prefix, tempFiles, noBackup, files);
      var a0 := Aggregate(prefix, tempFiles, noBackup, files);
      assert forall i :: 0 <= i < |prefix| ==> results[i] == prefix[i];
      if a0.failed == None && noBackup {
        var d0 := Deleted(prefix, tempFiles, noBackup);
        var d := Deleted(results, tempFiles, noBackup);
        if !Truthy(last.error) && last.fileIn in tempFiles {
          assert d == d0 + {last.fileIn} by {
            forall t | t in d ensures t in d0 + {last.fileIn} {
              var i :| 0 <= i < |results| && !Truthy(results[i].error) && results[i].fileIn in tempFiles
                && results[i].fileIn == t;
              if i < |prefix| { assert prefix[i] == results[i]; }
            }
            forall t | t in d0 ensures t in d {
              var i :| 0 <= i < |prefix| && !Truthy(prefix[i].error) && prefix[i].fileIn in tempFiles
                && prefix[i].fileIn == t;
              assert results[i] == prefix[i];
            }
          }
        } else {
          assert d == d0 by {
            forall t | t in d ensures t in d0 {
              var i :| 0 <= i < |results| && !Truthy(results[i].error) && results[i].fileIn in tempFiles
                && results[i].fileIn == t;
              assert i < |prefix|;
              assert prefix[i] == results[i];
            }
            forall t | t in d0 ensures t in d {
              var i :| 0 <= i < |prefix| && !Truthy(prefix[i].error) && prefix[i].fileIn in tempFiles
                && prefix[i].fileIn == t;
              assert results[i] == prefix[i];
            }
          }
        }
      }
    }
  }

  /** The outcome of `process` and the state it leaves. */
  datatype Processed = Processed(result: Result<bool, Error>, results: seq<JobResult>,
                                 files: set<string>, dirs: set<string>)

  /** Lines 337-468, with the worker pool as one sequential drain of the
      queue. An exception while planning leaves `self.results` as it was;
      a skipped input makes the run fail. */
  function ProcessSpec(s: Settings, renames: Renames, files: set<string>, dirs: set<string>,
                       transform: (string, string) -> TransformOutcome, oldResults: seq<JobResult>): Processed
  {
    var plan := Plan(s, renames, s.inputFiles, files, dirs);
    if plan.aborted.Some? then Processed(Failure(plan.aborted.value), oldResults, plan.files, plan.dirs)
    else
      var drained := Drain(plan.jobs, plan.files, transform);
      var agg := Aggregate(drained.results, plan.tempFiles, s.noBackup, drained.files);
      Processed(if agg.failed.Some? then Failure(agg.failed.value) else Success(!agg.errors && plan.skipped == []),
                drained.results, agg.files, plan.dirs)
  }

  /** End to end: when nothing raises, there is one result per queued
      input, carrying that input's job, and every input is queued unless
      it was skipped; `process` succeeds exactly when no input was skipped
      and no result carries an error; and the only files deleted are the
      backups of successful jobs, and only with `noBackup`. */
  lemma ProcessMeaning(s: Settings, renames: Renames, files: set<string>, dirs: set<string>,
                       transform: (string, string) -> TransformOutcome, oldResults: seq<JobResult>)
    requires ProcessSpec(s, renames, files, dirs, transform, oldResults).result.Success?
    ensures var p := ProcessSpec(s, renames, files, dirs, transform, oldResults);
      var plan := Plan(s, renames, s.inputFiles, files, dirs);
      && |p.results| == |plan.planned|
      && (forall i :: 0 <= i < |plan.planned| ==>
            p.results[i].fileIn == JobOf(s, renames, plan.planned[i]).fileIn
            && p.results[i].fileOut == OutputFileOf(s, plan.planned[i]))
      && (plan.skipped == [] ==> plan.planned == s.inputFiles)
      && (p.result.value <==> plan.skipped == [] && forall i :: 0 <= i < |p.results| ==> !Truthy(p.results[i].error))
      && p.files == Drain(plan.jobs, plan.files, transform).files - Deleted(p.results, plan.tempFiles, s.noBackup)
  {
    var plan := Plan(s, renames, s.inputFiles, files, dirs);
    var drained := Drain(plan.jobs, plan.files, transform);
    var agg := Aggregate(drained.results, plan.tempFiles, s.noBackup, drained.files);
    var p := ProcessSpec(s, renames, files, dirs, transform, oldResults);
    assert plan.aborted == None && agg.failed == None;
    assert p.results == drained.results && p.files == agg.files
        && p.result == Success(!agg.errors && plan.skipped == []);
    ProcessResultsMatchInputs(s, renames, files, dirs, transform);
    AggregateMeaning(drained.results, plan.tempFiles, s.noBackup, drained.files);
  }

  /** One result per queued input, carrying that input's job, whenever
      planning does not raise; with no input skipped, one per input file. */
  lemma ProcessResultsMatchInputs(s: Settings, renames: Renames, files: set<string>, dirs: set<string>,
                                  transform: (string, string) -> TransformOutcome)
    requires Plan(s, renames, s.inputFiles, files, dirs).aborted == None
    ensures var plan := Plan(s, renames, s.inputFiles, files, dirs);
      var results := Drain(plan.jobs, plan.files, transform).results;
      && |results| == |plan.planned|
      && (forall i :: 0 <= i < |plan.planned| ==>
           results[i].fileIn == JobOf(s, renames, plan.planned[i]).fileIn
           && results[i].fileOut == OutputFileOf(s, plan.planned[i]))
      && (plan.skipped == [] ==> plan.planned == s.inputFiles)
  {
    var plan := Plan(s, renames, s.inputFiles, files, dirs);
    PlanMeaning(s, renames, s.inputFiles, files, dirs);
    DrainKeepsPaths(plan.jobs, plan.files, transform);
    ResultsFollowJobs(s, renames, plan.planned, plan.jobs, Drain(plan.jobs, plan.files, transform).results);
  }

  /** Results that carry the paths of the jobs of `planned` carry each
      input's job input and output file. */
  lemma ResultsFollowJobs(s: Settings, renames: Renames, planned: seq<string>, jobs: seq<Job>,
                          results: seq<JobResult>)
    requires jobs == JobsOf(s, renames, planned) && |results| == |jobs|
    requires forall i :: 0 <= i < |jobs| ==> results[i].fileIn == jobs[i].fileIn && results[i].fileOut == jobs[i].fileOut
    ensures forall i :: 0 <= i < |planned| ==>
      results[i].fileIn == JobOf(s, renames, planned[i]).fileIn && results[i].fileOut == OutputFileOf(s, planned[i])
  {
    forall i | 0 <= i < |planned|
      ensures results[i].fileIn == JobOf(s, renames, planned[i]).fileIn
      ensures results[i].fileOut == OutputFileOf(s, planned[i])
    {
      assert jobs[i] == JobOf(s, renames, planned[i]);
    }
  }

  /** The stages of `run` in the order they are called. */
  datatype Stage = Preprocessing | Processing | Postprocessing(status: bool)

  datatype RunOutcome = RunOutcome(calls: seq<Stage>, result: Result<bool, Error>)

  /** Lines 315-334: the hooks called and what `run` returns, given whether
      there are inputs, what `preprocess` returns, what `process` would
      return or raise, and what `postprocess` returns for a status. */
  function RunSequence(hasInputs: bool, preprocessOk: bool, processResult: Result<bool, Error>,
                       postprocess: bool -> bool): RunOutcome
  {
    if !hasInputs then RunOutcome([], Success(true))
    else if !preprocessOk then RunOutcome([Preprocessing], Success(false))
    else
      match processResult
      case Failure(e) => RunOutcome([Preprocessing, Processing], Failure(e))
      case Success(success) =>
        RunOutcome([Preprocessing, Processing, Postprocessing(success)],
                   Success(if !postprocess(success) then false else success))
  }

  /** No inputs: `run` succeeds and calls nothing. A failed `preprocess`:
      `run` fails and `process` is never called. Otherwise `process` comes
      right after `preprocess`, and when it returns `postprocess` always
      follows with its status; `run` returns that status unless
      `postprocess` fails. */
  lemma RunOrdering(hasInputs: bool, preprocessOk: bool, processResult: Result<bool, Error>,
                    postprocess: bool -> bool)
    ensures var r := RunSequence(hasInputs, preprocessOk, processResult, postprocess);
      && (!hasInputs ==> r.calls == [] && r.result == Success(true))
      && (hasInputs ==> |r.calls| >= 1 && r.calls[0] == Preprocessing)
      && (hasInputs && !preprocessOk ==> Processing !in r.calls && r.result == Success(false))
      && (Processing in r.calls ==> hasInputs && preprocessOk && r.calls[..2] == [Preprocessing, Processing])
      && (hasInputs && preprocessOk && processResult.Success? ==>
            r.calls == [Preprocessing, Processing, Postprocessing(processResult.value)]
            && r.result == Success(processResult.value && postprocess(processResult.value)))
      && (hasInputs && preprocessOk && processResult.Failure? ==> r.result == processResult)
  {
  }

  /** The engine object: the attributes it reads and updates. */
  class FileBatch {
    var inputDir: string
    var inputFiles: seq<string>
    var outputDir: string
    var outputExtension: string
    var outputSuffix: string
    var extensions: seq<string>
    var noBackup: bool
    var subDir: bool
    var results: seq<JobResult>

    function Current(): Settings
      reads this
    {
      Settings(inputDir, inputFiles, outputDir, outputExtension, outputSuffix, extensions, noBackup, subDir)
    }

    /** The attributes after argument parsing (lines 69-80 and 195-199). */
    constructor (parsed: Settings)
      ensures Current() == parsed && results == []
    {
      inputDir, inputFiles, outputDir := parsed.inputDir, parsed.inputFiles, parsed.outputDir;
      outputExtension, outputSuffix := parsed.outputExtension, parsed.outputSuffix;
      extensions, noBackup, subDir := parsed.extensions, parsed.noBackup, parsed.subDir;
      results := [];
    }

    /** Lines 205-310. `tree` is what `os.listdir` shows below the input
        directory; `hookRefuses` the files the user's `checkfile` rejects. */
    method CheckInputs(fs: FileSystem, tree: Entry, listSeparator: char, hookRefuses: set<string>)
      returns (outcome: Outcome<Error>)
      modifies this
      ensures var c := CheckedInputs(old(Current()), fs.files, fs.dirs, tree, listSeparator, hookRefuses);
        Current() == c.settings && outcome == c.outcome
      ensures results == old(results)
    {
      ghost var st := Current();
      ghost var c := CheckedInputs(st, fs.files, fs.dirs, tree, listSeparator, hookRefuses);
      NormalizeSettings(listSeparator);
      ghost var n := Current();
      outcome := CheckPath(fs.files, fs.dirs, inputDir, true);
      if outcome.Fail? {
        assert c == Checked(n, outcome);
        return;
      }
      outcome := CheckInputFiles(fs, tree, listSeparator, hookRefuses, st);
    }

    /** Lines 226-310, once the input directory has passed `checkpath`. */
    method CheckInputFiles(fs: FileSystem, tree: Entry, listSeparator: char, hookRefuses: set<string>,
                           ghost st: Settings)
      returns (outcome: Outcome<Error>)
      requires Current() == Normalized(st, listSeparator)
      requires CheckPath(fs.files, fs.dirs, inputDir, true) == Pass
      modifies this
      ensures var c := CheckedInputs(st, fs.files, fs.dirs, tree, listSeparator, hookRefuses);
        Current() == c.settings && outcome == c.outcome
      ensures results == old(results)
    {
      ghost var n := Current();
      CheckedInputsAfterInputDir(st, fs.files, fs.dirs, tree, listSeparator, hookRefuses);
      var candidates := GatherCandidates(tree, listSeparator, st);
      var accepted := FilterInputFiles(fs.files, candidates, extensions, hookRefuses);
      if accepted.Failure? {
        return Fail(accepted.error);
      }
      inputFiles := accepted.value;
      assert Current() == n.(inputFiles := accepted.value);
      outcome := SettleOutputDir(fs);
    }

    /** Lines 273-310: the output directory chosen, and checked when it is
        a common one. */
    method SettleOutputDir(fs: FileSystem) returns (outcome: Outcome<Error>)
      modifies this
      ensures var settled := SettledOutputDir(old(Current()), fs.files, fs.dirs);
        Current() == settled.settings && outcome == settled.outcome
      ensures results == old(results)
    {
      ghost var before := Current();
      var resolved := ResolveOutputDir(outputDir, DefaultOutputDir, inputDir, fs.files, fs.dirs);
      assert resolved == ResolveOutputDir(before.outputDir, DefaultOutputDir, before.inputDir, fs.files, fs.dirs);
      if resolved.Failure? {
        outputDir := ChosenOutputDir(outputDir, DefaultOutputDir);
        assert Current() == before.(outputDir := ChosenOutputDir(before.outputDir, DefaultOutputDir));
        return Fail(resolved.error);
      }
      outputDir := resolved.value;
      assert Current() == before.(outputDir := resolved.value);
      outcome := Pass;
    }

    /** Lines 207-223. */
    method NormalizeSettings(listSeparator: char)
      modifies this
      ensures Current() == Normalized(old(Current()), listSeparator) && results == old(results)
    {
      ghost var n := Normalized(Current(), listSeparator);
      var newExtensions := extensions;
      if extensions != [] {
        var split := SplitValues(extensions, listSeparator);
        newExtensions := LowerAll(split);
      }
      var newOutputExtension := outputExtension;
      if outputExtension != [] {
        newOutputExtension := NormalizeOutputExtension(outputExtension);
      }
      var newInputDir := InputDirSetting(inputDir);
      assert newExtensions == n.extensions && newOutputExtension == n.outputExtension && newInputDir == n.inputDir;
      extensions, outputExtension, inputDir := newExtensions, newOutputExtension, newInputDir;
    }

    /** Lines 226-261: the given inputs split, and the paths to check. */
    method GatherCandidates(tree: Entry, listSeparator: char, ghost st: Settings) returns (candidates: seq<string>)
      requires Current() == Normalized(st, listSeparator)
      modifies this
      ensures Current() == Normalized(st, listSeparator).(inputFiles := GivenInputs(st, listSeparator))
      ensures candidates == Candidates(st, tree, listSeparator) && results == old(results)
    {
      if inputFiles != [] {
        inputFiles := SplitValues(inputFiles, listSeparator);
        candidates := ResolveAll(inputDir, inputFiles);
      } else {
        var found := GetFiles(tree, extensions, subDir, []);
        candidates := UnderInputDir(inputDir, found);
      }
    }

    /** Lines 337-468. */
    method Process(fs: FileSystem, transform: (string, string) -> TransformOutcome) returns (r: Result<bool, Error>)
      modifies this, fs
      ensures var p := ProcessSpec(old(Current()), fs.renames, old(fs.files), old(fs.dirs), transform, old(results));
        r == p.result && results == p.results && fs.files == p.files && fs.dirs == p.dirs
      ensures Current() == old(Current())
    {
      ghost var settings, files0, dirs0, results0 := Current(), fs.files, fs.dirs, results;
      ghost var plan := Plan(settings, fs.renames, inputFiles, files0, dirs0);
      var worker := new ConvertThread();
      var tempFiles, errors, aborted := PlanJobs(fs, worker);
      if aborted.Some? {
        return Failure(aborted.value);
      }
      r := FinishJobs(fs, worker, transform, tempFiles);
      if errors && r.Success? {
        r := Success(false);
      }
    }

    /** Lines 434-468: the queue drained, its results collected into
        `self.results` and aggregated. */
    method FinishJobs(fs: FileSystem, worker: ConvertThread, transform: (string, string) -> TransformOutcome,
                      tempFiles: seq<string>) returns (r: Result<bool, Error>)
      requires worker.outQueue == [] && worker.unfinished == |worker.queue|
      modifies this, fs, worker
      ensures var drained := Drain(old(worker.queue), old(fs.files), transform);
        var agg := Aggregate(drained.results, tempFiles, noBackup, drained.files);
        && results == drained.results && fs.files == agg.files && fs.dirs == old(fs.dirs)
        && r == (if agg.failed.Some? then Failure(agg.failed.value) else Success(!agg.errors))
      ensures Current() == old(Current())
    {
      worker.Run(fs, transform);
      results := worker.outQueue;
      r := AggregateResults(fs, results, tempFiles);
    }

    /** Lines 354-432: one job per input file onto the worker's queue;
        `errors` (line 354) is set when an input is skipped. */
    method PlanJobs(fs: FileSystem, worker: ConvertThread)
      returns (tempFiles: seq<string>, errors: bool, aborted: Option<Error>)
      requires worker.queue == [] && worker.outQueue == [] && worker.unfinished == 0
      modifies fs, worker
      ensures var p := Plan(Current(), fs.renames, inputFiles, old(fs.files), old(fs.dirs));
        && worker.queue == p.jobs && tempFiles == p.tempFiles && aborted == p.aborted
        && (aborted == None ==> errors == (p.skipped != []))
        && fs.files == p.files && fs.dirs == p.dirs
      ensures worker.outQueue == [] && worker.unfinished == |worker.queue|
    {
      ghost var settings, files0, dirs0 := Current(), fs.files, fs.dirs;
      tempFiles := [];
      errors := false;
      aborted := None;
      var i := 0;
      while i < |inputFiles|
        invariant 0 <= i <= |inputFiles|
        invariant var p := Plan(settings, fs.renames, inputFiles[..i], files0, dirs0);
          && worker.queue == p.jobs && tempFiles == p.tempFiles && p.aborted == None && aborted == None
          && errors == (p.skipped != []) && fs.files == p.files && fs.dirs == p.dirs
        invariant worker.outQueue == [] && worker.unfinished == |worker.queue|
      {
        ghost var before := Plan(settings, fs.renames, inputFiles[..i], files0, dirs0);
        PlanPrefixStep(settings, fs.renames, inputFiles, i, files0, dirs0);
        var skipped;
        tempFiles, skipped, aborted := PlanOne(fs, worker, inputFiles[i], before, tempFiles);
        if aborted.Some? {
          PlanAbortStays(settings, fs.renames, inputFiles, i + 1, files0, dirs0);
          return;
        }
        errors := errors || skipped;
        i := i + 1;
      }
      assert inputFiles[..i] == inputFiles;
    }

    /** Lines 356-432 for one input file; `skipped` tells whether it was
        skipped because its backup failed. */
    method PlanOne(fs: FileSystem, worker: ConvertThread, inputFile: string, ghost st: PlanState,
                   tempFiles0: seq<string>) returns (tempFiles: seq<string>, skipped: bool, aborted: Option<Error>)
      requires st.aborted == None && worker.queue == st.jobs && tempFiles0 == st.tempFiles
      requires fs.files == st.files && fs.dirs == st.dirs
      requires worker.outQueue == [] && worker.unfinished == |worker.queue|
      modifies fs, worker
      ensures var p := PlanStep(Current(), fs.renames, st, inputFile);
        && worker.queue == p.jobs && tempFiles == p.tempFiles && aborted == p.aborted
        && (aborted == None ==> p.skipped == st.skipped + (if skipped then [inputFile] else []))
        && fs.files == p.files && fs.dirs == p.dirs
      ensures worker.outQueue == [] && worker.unfinished == |worker.queue|
    {
      skipped := false;
      var outputDirectory := OutputDirectory(inputFile);
      aborted := MakeOutputDir(fs, Contains(outputDir, InPlaceToken), outputDirectory);
      if aborted.Some? {
        return tempFiles0, false, aborted;
      }
      var job, failure := QueueFile(fs, worker, inputFile, outputDirectory);
      skipped := failure.Some?;
      tempFiles := if !skipped && job.overwrite then tempFiles0 + [job.fileIn] else tempFiles0;
    }

    /** Lines 359-371. */
    method OutputDirectory(inputFile: string) returns (outputDirectory: string)
      ensures outputDirectory == OutputDirOf(Current(), inputFile)
    {
      var filePath := Dirname(inputFile);
      if Contains(outputDir, InPlaceToken) {
        outputDirectory := ReplaceAll(outputDir, InPlaceToken, filePath);
      } else if Contains(filePath, inputDir) {
        outputDirectory := outputDir + ReplaceAll(filePath, inputDir, []);
      } else {
        outputDirectory := outputDir;
      }
    }

    /** Lines 365 and 373-377. */
    method MakeOutputDir(fs: FileSystem, inPlace: bool, outputDirectory: string) returns (failure: Option<Error>)
      modifies fs
      ensures var r := PrepareDir(inPlace, outputDirectory, old(fs.files), old(fs.dirs));
        && (r.Failure? ==> failure == Some(r.error) && fs.dirs == old(fs.dirs))
        && (r.Success? ==> failure == None && fs.dirs == r.value)
      ensures fs.files == old(fs.files)
    {
      if inPlace {
        var check := CheckPath(fs.files, fs.dirs, outputDirectory, false);
        if check.Fail? {
          return Some(check.error);
        }
      }
      if outputDirectory !in fs.dirs {
        var made := fs.MakeDirs(outputDirectory);
        if !made {
          return Some(if outputDirectory == [] then NotFound(outputDirectory)
                      else if outputDirectory in fs.files then FileExists(outputDirectory)
                      else NotADirectory(outputDirectory));
        }
      }
      failure := None;
    }

    /** Lines 379-432 once the output directory exists: the output name,
        the backup of an input that would be overwritten, and the job. */
    method QueueFile(fs: FileSystem, worker: ConvertThread, inputFile: string, outputDirectory: string)
      returns (job: Job, failure: Option<Error>)
      requires outputDirectory == OutputDirOf(Current(), inputFile)
      modifies fs, worker
      ensures failure == None <==> !JobOf(Current(), fs.renames, inputFile).overwrite
                                   || (inputFile in old(fs.files) && inputFile !in fs.renames.blocked)
      ensures failure == None ==> job == JobOf(Current(), fs.renames, inputFile)
      ensures failure != None ==> failure == Some(if inputFile in old(fs.files) then RenameBlocked(inputFile)
                                                  else NotFound(inputFile))
      ensures failure != None ==> worker.queue == old(worker.queue) && worker.unfinished == old(worker.unfinished)
      ensures failure == None ==> worker.queue == old(worker.queue) + [job] && worker.unfinished == old(worker.unfinished) + 1
      ensures worker.outQueue == old(worker.outQueue)
      ensures fs.files == if failure == None && job.overwrite then old(fs.files) - {inputFile} + {job.fileIn} else old(fs.files)
      ensures fs.dirs == old(fs.dirs)
    {
      var fileNameOut := OutputName(Basename(inputFile), outputExtension, outputSuffix);
      var outputFile := Join(outputDirectory, fileNameOut);
      if outputFile == inputFile {
        var backupFile;
        backupFile, failure := MakeBackup(fs, inputFile);
        job := Job(backupFile, outputFile, true);
        if failure.Some? {
          return;
        }
      } else {
        job := Job(inputFile, outputFile, false);
        failure := None;
      }
      worker.Put(job);
    }

    /** Lines 442-468, over the results collected from the out-queue. */
    method AggregateResults(fs: FileSystem, jobResults: seq<JobResult>, tempFiles: seq<string>)
      returns (r: Result<bool, Error>)
      modifies fs
      ensures var a := Aggregate(jobResults, tempFiles, noBackup, old(fs.files));
        && fs.files == a.files && fs.dirs == old(fs.dirs)
        && r == if a.failed.Some? then Failure(a.failed.value) else Success(!a.errors)
    {
      var errors := false;
      var i := 0;
      while i < |jobResults|
        invariant 0 <= i <= |jobResults|
        invariant Aggregate(jobResults[..i], tempFiles, noBackup, old(fs.files))
               == AggregateState(errors, fs.files, None)
        invariant fs.dirs == old(fs.dirs)
      {
        assert jobResults[..i + 1][..i] == jobResults[..i];
        var result := jobResults[i];
        if result.error.Some? && result.error.value != [] {
          errors := true;
        } else if result.fileIn in tempFiles && noBackup {
          var removed := fs.Remove(result.fileIn);
          if !removed {
            AggregateAbortStays(jobResults, i + 1, tempFiles, noBackup, old(fs.files));
            return Failure(NotFound(result.fileIn));
          }
        }
        i := i + 1;
      }
      assert jobResults[..i] == jobResults;
      r := Success(!errors);
    }

    /** Lines 315-334, with the user's `preprocess` result and
        `postprocess` as parameters. */
    method Run(fs: FileSystem, transform: (string, string) -> TransformOutcome,
               preprocessOk: bool, postprocess: bool -> bool) returns (calls: seq<Stage>, r: Result<bool, Error>)
      modifies this, fs
      ensures var p := ProcessSpec(old(Current()), fs.renames, old(fs.files), old(fs.dirs), transform, old(results));
        && RunOutcome(calls, r) == RunSequence(old(inputFiles) != [], preprocessOk, p.result, postprocess)
        && (Processing in calls ==> results == p.results && fs.files == p.files && fs.dirs == p.dirs)
        && (Processing !in calls ==> results == old(results) && fs.files == old(fs.files) && fs.dirs == old(fs.dirs))
      ensures Current() == old(Current())
    {
      if inputFiles == [] {
        return [], Success(true);
      }
      if !preprocessOk {
        return [Preprocessing], Success(false);
      }
      var processed := Process(fs, transform);
      if processed.Failure? {
        return [Preprocessing, Processing], Failure(processed.error);
      }
      var success := processed.value;
      calls := [Preprocessing, Processing, Postprocessing(success)];
      if !postprocess(success) {
        return calls, Success(false);
      }
      r := Success(success);
    }
  }

  /** Once a removal has raised, later results change nothing. */
  lemma {:induction false} AggregateAbortStays(results: seq<JobResult>, k: nat, tempFiles: seq<string>,
                                               noBackup: bool, files: set<string>)
    requires k <= |results|
    requires Aggregate(results[..k], tempFiles, noBackup, files).failed.Some?
    ensures Aggregate(results, tempFiles, noBackup, files) == Aggregate(results[..k], tempFiles, noBackup, files)
    decreases |results| - k
  {
    if k < |results| {
      assert results[..k + 1][..k] == results[..k];
      AggregateAbortStays(results, k + 1, tempFiles, noBackup, files);
    } else {
      assert results[..k] == results;
    }
  }
}
