/** How `__checkinputs` (abstract_file_batch.py, lines 205-271) turns the
    parsed settings into the list of input files: list values are split
    (`__splitvalues`, lines 613-629), each input is resolved against the
    input directory and checked (`__checkfile`, lines 576-609). */
module Inputs {
  import opened Text
  import opened PosixPath
  import opened Wrappers
  import opened Fs
  import opened Extensions
  import opened FileListing

  const Comma: char := ','
  const DefaultInputDir: string := "."

  /** One value of `__splitvalues` (lines 622-627): the platform list
      separator becomes `,`; a value holding a `,` is split on it, any
      other value is kept as given. */
  function SplitValue(value: string, listSeparator: char): (pieces: seq<string>)
    ensures |pieces| >= 1
  {
    var temp := ReplaceAll(value, [listSeparator], [Comma]);
    if Comma in temp then Split(temp, Comma) else [value]
  }

  /** No piece holds `,` or the list separator. */
  lemma SplitValueClean(value: string, listSeparator: char)
    ensures var pieces := SplitValue(value, listSeparator);
      forall i :: 0 <= i < |pieces| ==> Comma !in pieces[i] && listSeparator !in pieces[i]
  {
    var temp := ReplaceAll(value, [listSeparator], [Comma]);
    ReplaceAllOneChar(value, listSeparator, Comma);
    if Comma in temp {
      var parts := Split(temp, Comma);
      SplitPiecesFree(temp, Comma);
      forall i | 0 <= i < |parts| ensures listSeparator !in parts[i] {
        if listSeparator in parts[i] {
          SplitPieceChars(temp, Comma, i, listSeparator);
        }
      }
    } else {
      forall k | 0 <= k < |value| ensures value[k] != listSeparator && value[k] != Comma {
        assert temp[k] != Comma;
      }
    }
  }

  /** Whichever branch is taken, the pieces are those of the value with
      its separators normalised to `,`, and they join back to it. */
  lemma SplitValueNormalises(value: string, listSeparator: char)
    ensures SplitValue(value, listSeparator) == Split(ReplaceChar(value, listSeparator, Comma), Comma)
    ensures JoinWith(SplitValue(value, listSeparator), Comma) == ReplaceChar(value, listSeparator, Comma)
  {
    var temp := ReplaceChar(value, listSeparator, Comma);
    ReplaceAllOneChar(value, listSeparator, Comma);
    if Comma !in temp {
      assert temp == value by {
        forall k | 0 <= k < |value| ensures temp[k] == value[k] {
          assert temp[k] != Comma;
        }
      }
      SplitWithoutSeparator(temp, Comma);
    }
    JoinSplit(temp, Comma);
  }

  /** The lists `f` gives for each element, concatenated in order. */
  function ConcatMap<A, B>(f: A -> seq<B>, xs: seq<A>): seq<B>
    decreases |xs|
  {
    if xs == [] then [] else ConcatMap(f, xs[..|xs| - 1]) + f(xs[|xs| - 1])
  }

  /** Mapping a concatenation maps each part. */
  lemma {:induction false} ConcatMapOfConcat<A, B>(f: A -> seq<B>, a: seq<A>, b: seq<A>)
    ensures ConcatMap(f, a + b) == ConcatMap(f, a) + ConcatMap(f, b)
    decreases |b|
  {
    if b == [] {
      assert a + b == a;
    } else {
      var b0, last := b[..|b| - 1], b[|b| - 1];
      ConcatMapOfConcat(f, a, b0);
      assert (a + b)[..|a + b| - 1] == a + b0;
      assert (a + b)[|a + b| - 1] == last;
      assert (ConcatMap(f, a) + ConcatMap(f, b0)) + f(last) == ConcatMap(f, a) + (ConcatMap(f, b0) + f(last));
    }
  }

  /** The whole of `__splitvalues`: the pieces of each value, in order. */
  function Pieces(values: seq<string>, listSeparator: char): seq<string>
  {
    ConcatMap((value: string) => SplitValue(value, listSeparator), values)
  }

  /** No piece holds `,` or the list separator. */
  lemma {:induction false} PiecesClean(values: seq<string>, listSeparator: char)
    ensures forall i :: 0 <= i < |Pieces(values, listSeparator)| ==>
      Comma !in Pieces(values, listSeparator)[i] && listSeparator !in Pieces(values, listSeparator)[i]
    decreases |values|
  {
    if values != [] {
      PiecesClean(values[..|values| - 1], listSeparator);
      var r0, last := Pieces(values[..|values| - 1], listSeparator), SplitValue(values[|values| - 1], listSeparator);
      var r := r0 + last;
      SplitValueClean(values[|values| - 1], listSeparator);
      forall i | 0 <= i < |r| ensures Comma !in r[i] && listSeparator !in r[i] {
        if i >= |r0| {
          assert r[i] == last[i - |r0|];
        } else {
          assert r[i] == r0[i];
        }
      }
    }
  }

  /** Splitting a concatenation splits each part. */
  lemma PiecesOfConcat(a: seq<string>, b: seq<string>, listSeparator: char)
    ensures Pieces(a + b, listSeparator) == Pieces(a, listSeparator) + Pieces(b, listSeparator)
  {
    ConcatMapOfConcat((value: string) => SplitValue(value, listSeparator), a, b);
  }

  lemma PiecesSnoc(values: seq<string>, last: string, listSeparator: char)
    ensures Pieces(values + [last], listSeparator) == Pieces(values, listSeparator) + SplitValue(last, listSeparator)
  {
    var vs := values + [last];
    assert vs[..|vs| - 1] == values;
  }

  /** Values that hold neither `,` nor the list separator, as given one
      per argument, are kept as they are. */
  lemma {:induction false} PiecesOfPlainValues(values: seq<string>, listSeparator: char)
    requires forall i :: 0 <= i < |values| ==> Comma !in values[i] && listSeparator !in values[i]
    ensures Pieces(values, listSeparator) == values
    decreases |values|
  {
    if values != [] {
      var v := values[|values| - 1];
      PiecesOfPlainValues(values[..|values| - 1], listSeparator);
      ReplaceAllOneChar(v, listSeparator, Comma);
      assert ReplaceChar(v, listSeparator, Comma) == v;
    }
  }

  /** Lines 613-629, with the platform separator as a parameter. */
  method SplitValues(values: seq<string>, listSeparator: char) returns (splitValues: seq<string>)
    ensures splitValues == Pieces(values, listSeparator)
  {
    splitValues := [];
    var i := 0;
    while i < |values|
      invariant 0 <= i <= |values|
      invariant splitValues == Pieces(values[..i], listSeparator)
    {
      assert values[..i + 1][..i] == values[..i];
      var value := values[i];
      var tempValue := ReplaceAll(value, [listSeparator], [Comma]);
      if Comma in tempValue {
        splitValues := splitValues + Split(tempValue, Comma);
      } else {
        splitValues := splitValues + [value];
      }
      i := i + 1;
    }
    assert values[..i] == values;
  }

  /** Lines 217-223: the input directory setting, stripped, or `.` when
      empty. */
  function InputDirSetting(configured: string): (r: string)
    ensures r == [] || (!IsSpace(r[0]) && !IsSpace(r[|r| - 1]))
    ensures configured == [] ==> r == DefaultInputDir
    ensures configured != [] ==> exists i :: TrimmedAt(configured, r, i)
  {
    if configured != [] then Strip(configured) else DefaultInputDir
  }

  /** Lines 233-236: a given input, stripped and, when relative, joined to
      the input directory. */
  function ResolveInputFile(inputDir: string, value: string): (r: string)
    ensures var v := Strip(value); |v| <= |r| && r[|r| - |v|..] == v
    ensures IsAbs(Strip(value)) ==> r == Strip(value)
    ensures !IsAbs(Strip(value)) ==> StartsWith(r, inputDir)
    ensures !IsAbs(Strip(value)) && inputDir != [] && inputDir[|inputDir| - 1] != Sep ==>
              StartsWith(r, inputDir + [Sep])
  {
    var inputFile := Strip(value);
    JoinParts(inputDir, inputFile);
    if IsAbs(inputFile) then inputFile else Join(inputDir, inputFile)
  }

  /** A relative input name resolves to a file directly inside the input
      directory, which `dirname` and `basename` take apart again. */
  lemma ResolvedInputInInputDir(inputDir: string, name: string)
    requires NormalDir(inputDir)
    requires name != [] && Sep !in name && Strip(name) == name
    ensures Dirname(ResolveInputFile(inputDir, name)) == inputDir
    ensures Basename(ResolveInputFile(inputDir, name)) == name
  {
    DirnameBasenameOfJoin(inputDir, name);
  }

  /** `__checkfile` (lines 576-609): a missing path or one that is not a
      file raises ENOENT; a path whose extension is not listed raises the
      `ValueError`; then the user's `checkfile` hook may raise an `OSError`,
      modelled by the set of paths it refuses. */
  function CheckFile(files: set<string>, path: string, extensions: seq<string>, hookRefuses: set<string>)
    : (r: Outcome<Error>)
    ensures r == Pass <==> path in files && Accepted(path, extensions) && path !in hookRefuses
    ensures r == Fail(NotFound(path)) <==> path !in files
    ensures r == Fail(InvalidExtension(path)) <==> path in files && !Accepted(path, extensions)
    ensures r == Fail(Rejected(path))
        <==> path in files && Accepted(path, extensions) && path in hookRefuses
  {
    if path !in files then Fail(NotFound(path))
    else if !Accepted(path, extensions) then Fail(InvalidExtension(path))
    else if path in hookRefuses then Fail(Rejected(path))
    else Pass
  }

  /** The loops of lines 232-246 and 260-269: an `OSError` skips the
      candidate, the `ValueError` ends the whole check. */
  function AcceptInputFiles(files: set<string>, candidates: seq<string>, extensions: seq<string>,
                            hookRefuses: set<string>): (r: Result<seq<string>, Error>)
    decreases |candidates|
  {
    if candidates == [] then Success([])
    else
      var candidate := candidates[|candidates| - 1];
      match AcceptInputFiles(files, candidates[..|candidates| - 1], extensions, hookRefuses)
      case Failure(e) => Failure(e)
      case Success(kept) =>
        match CheckFile(files, candidate, extensions, hookRefuses)
        case Pass => Success(kept + [candidate])
        case Fail(e) => if e.InvalidExtension? then Failure(e) else Success(kept)
  }

  /** The candidates that pass `__checkfile`, in their order and with
      their repeats. */
  function Kept(files: set<string>, candidates: seq<string>, extensions: seq<string>,
                hookRefuses: set<string>): (r: seq<string>)
    ensures |r| <= |candidates|
    ensures forall p :: p in r <==> p in candidates && CheckFile(files, p, extensions, hookRefuses) == Pass
    decreases |candidates|
  {
    if candidates == [] then []
    else
      (if CheckFile(files, candidates[0], extensions, hookRefuses) == Pass then [candidates[0]] else [])
      + Kept(files, candidates[1..], extensions, hookRefuses)
  }

  /** One more candidate keeps what was kept and adds itself when it passes. */
  lemma {:induction false} KeptSnoc(files: set<string>, candidates: seq<string>, last: string,
                                    extensions: seq<string>, hookRefuses: set<string>)
    ensures Kept(files, candidates + [last], extensions, hookRefuses)
         == Kept(files, candidates, extensions, hookRefuses)
            + (if CheckFile(files, last, extensions, hookRefuses) == Pass then [last] else [])
    decreases |candidates|
  {
    if candidates != [] {
      assert (candidates + [last])[1..] == candidates[1..] + [last];
      KeptSnoc(files, candidates[1..], last, extensions, hookRefuses);
    } else {
      assert ([] + [last])[1..] == [];
    }
  }

  /** The inputs are accepted exactly when every existing candidate has a
      listed extension; then the kept files are the candidates that pass
      the check, in order and with repeats: the existing, accepted ones the
      hook does not refuse. Otherwise the error names the first existing
      candidate with an unlisted extension. */
  lemma AcceptInputFilesMeaning(files: set<string>, candidates: seq<string>,
                                extensions: seq<string>, hookRefuses: set<string>)
    ensures var r := AcceptInputFiles(files, candidates, extensions, hookRefuses);
      && (r.Success? <==> forall i :: 0 <= i < |candidates| && candidates[i] in files ==> Accepted(candidates[i], extensions))
      && (r.Success? ==> r.value == Kept(files, candidates, extensions, hookRefuses))
      && (r.Success? ==> forall p ::
            p in r.value <==> p in candidates && p in files && Accepted(p, extensions) && p !in hookRefuses)
      && (r.Failure? ==> exists i ::
            0 <= i < |candidates| && candidates[i] in files
            && !Accepted(candidates[i], extensions) && r.error == InvalidExtension(candidates[i])
            && forall j :: 0 <= j < i && candidates[j] in files ==> Accepted(candidates[j], extensions))
  {
    AcceptedAreKept(files, candidates, extensions, hookRefuses);
    FirstUnlistedRaises(files, candidates, extensions, hookRefuses);
  }

  /** Success exactly without an existing unlisted candidate, keeping the
      candidates that pass. */
  lemma {:induction false} AcceptedAreKept(files: set<string>, candidates: seq<string>,
                                           extensions: seq<string>, hookRefuses: set<string>)
    ensures var r := AcceptInputFiles(files, candidates, extensions, hookRefuses);
      && (r.Success? <==> forall i :: 0 <= i < |candidates| && candidates[i] in files ==> Accepted(candidates[i], extensions))
      && (r.Success? ==> r.value == Kept(files, candidates, extensions, hookRefuses))
    decreases |candidates|
  {
    if candidates != [] {
      var prefix := candidates[..|candidates| - 1];
      var candidate := candidates[|candidates| - 1];
      AcceptedAreKept(files, prefix, extensions, hookRefuses);
      assert candidates == prefix + [candidate];
      KeptSnoc(files, prefix, candidate, extensions, hookRefuses);
      assert forall j :: 0 <= j < |prefix| ==> candidates[j] == prefix[j];
    }
  }

  /** A failure names the first existing candidate with an unlisted extension. */
  lemma {:induction false} FirstUnlistedRaises(files: set<string>, candidates: seq<string>,
                                               extensions: seq<string>, hookRefuses: set<string>)
    ensures var r := AcceptInputFiles(files, candidates, extensions, hookRefuses);
      r.Failure? ==> exists i ::
        0 <= i < |candidates| && candidates[i] in files
        && !Accepted(candidates[i], extensions) && r.error == InvalidExtension(candidates[i])
        && forall j :: 0 <= j < i && candidates[j] in files ==> Accepted(candidates[j], extensions)
    decreases |candidates|
  {
    if candidates != [] {
      var prefix := candidates[..|candidates| - 1];
      var candidate := candidates[|candidates| - 1];
      var r0 := AcceptInputFiles(files, prefix, extensions, hookRefuses);
      assert forall j :: 0 <= j < |prefix| ==> candidates[j] == prefix[j];
      if r0.Failure? {
        FirstUnlistedRaises(files, prefix, extensions, hookRefuses);
        var i :| 0 <= i < |prefix| && prefix[i] in files
            && !Accepted(prefix[i], extensions) && r0.error == InvalidExtension(prefix[i])
            && forall j :: 0 <= j < i && prefix[j] in files ==> Accepted(prefix[j], extensions);
        assert candidates[i] == prefix[i];
      } else {
        AcceptedAreKept(files, prefix, extensions, hookRefuses);
      }
    }
  }

  /** Lines 232-246: each given value resolved against the input directory. */
  function ResolveAll(inputDir: string, values: seq<string>): (r: seq<string>)
    ensures |r| == |values|
    ensures forall i :: 0 <= i < |r| ==> r[i] == ResolveInputFile(inputDir, values[i])
  {
    seq(|values|, i requires 0 <= i < |values| => ResolveInputFile(inputDir, values[i]))
  }

  /** Lines 260-261: each found file joined to the input directory. */
  function UnderInputDir(inputDir: string, found: seq<string>): (r: seq<string>)
    ensures |r| == |found|
    ensures forall i :: 0 <= i < |r| ==> r[i] == Join(inputDir, found[i])
  {
    seq(|found|, i requires 0 <= i < |found| => Join(inputDir, found[i]))
  }

  /** When the inputs are found by `getfiles` with the same extension list,
      no found file can raise the `ValueError`: the check keeps every found
      file that exists and that the hook does not refuse. */
  lemma ListedFilesPassExtensionCheck(files: set<string>, inputDir: string, tree: Entry,
                                      extensions: seq<string>, recursive: bool, hookRefuses: set<string>)
    requires WellNamedBelow(tree)
    ensures AcceptInputFiles(files, UnderInputDir(inputDir, Listing(tree, extensions, recursive, [])),
                             extensions, hookRefuses).Success?
  {
    var found := Listing(tree, extensions, recursive, []);
    var candidates := UnderInputDir(inputDir, found);
    ListingReturnable(tree, extensions, recursive, []);
    forall i | 0 <= i < |candidates| ensures Accepted(candidates[i], extensions) {
      assert found[i] in found;
      AcceptedAfterJoin(inputDir, found[i], extensions);
    }
    AcceptInputFilesMeaning(files, candidates, extensions, hookRefuses);
  }

  /** The body of either loop: the candidates checked one by one. */
  method FilterInputFiles(files: set<string>, candidates: seq<string>, extensions: seq<string>,
                          hookRefuses: set<string>) returns (r: Result<seq<string>, Error>)
    ensures r == AcceptInputFiles(files, candidates, extensions, hookRefuses)
  {
    var inputFiles := [];
    var i := 0;
    while i < |candidates|
      invariant 0 <= i <= |candidates|
      invariant AcceptInputFiles(files, candidates[..i], extensions, hookRefuses) == Success(inputFiles)
    {
      assert candidates[..i + 1][..i] == candidates[..i];
      var inputFile := candidates[i];
      var outcome := CheckFile(files, inputFile, extensions, hookRefuses);
      if outcome.Fail? {
        if outcome.error.InvalidExtension? {
          assert AcceptInputFiles(files, candidates[..i + 1], extensions, hookRefuses) == Failure(outcome.error);
          AcceptAbortStays(files, candidates, i + 1, extensions, hookRefuses);
          return Failure(outcome.error);
        }
      } else {
        inputFiles := inputFiles + [inputFile];
      }
      i := i + 1;
    }
    assert candidates[..i] == candidates;
    r := Success(inputFiles);
  }

  /** Once the check has failed, later candidates do not change the error. */
  lemma {:induction false} AcceptAbortStays(files: set<string>, candidates: seq<string>, k: nat,
                                            extensions: seq<string>, hookRefuses: set<string>)
    requires k <= |candidates|
    requires AcceptInputFiles(files, candidates[..k], extensions, hookRefuses).Failure?
    ensures AcceptInputFiles(files, candidates, extensions, hookRefuses)
         == AcceptInputFiles(files, candidates[..k], extensions, hookRefuses)
    decreases |candidates| - k
  {
    if k < |candidates| {
      assert candidates[..k + 1][..k] == candidates[..k];
      AcceptAbortStays(files, candidates, k + 1, extensions, hookRefuses);
    } else {
      assert candidates[..k] == candidates;
    }
  }
}
