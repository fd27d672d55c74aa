/** The extension filter shared by `getfiles` (abstract_file_batch.py,
    lines 510-517) and `__checkfile` (lines 597-607): a path is kept when
    its `splitext` extension equals `.` plus one of the listed extensions,
    both lower-cased. An empty list (Python's `None` or `[]`) keeps every
    path. */
module Extensions {
  import opened Text
  import opened PosixPath

  /** Lines 513-514 and 600-601. */
  predicate HasExtension(path: string, extension: string)
  {
    Lower(SplitExt(path).1) == [ExtSep] + Lower(extension)
  }

  /** `if extensions:` followed by the `for ... else` loop. */
  predicate Accepted(path: string, extensions: seq<string>)
  {
    extensions == [] || exists x :: x in extensions && HasExtension(path, x)
  }

  /** The `for ... else` loop itself: it stops at the first extension that
      matches. */
  method MatchesAny(path: string, extensions: seq<string>) returns (found: bool)
    ensures found <==> exists x :: x in extensions && HasExtension(path, x)
  {
    var i := 0;
    while i < |extensions|
      invariant 0 <= i <= |extensions|
      invariant forall j :: 0 <= j < i ==> !HasExtension(path, extensions[j])
    {
      var fileExtension := SplitExt(path).1;
      if Lower(fileExtension) == [ExtSep] + Lower(extensions[i]) {
        assert HasExtension(path, extensions[i]) && extensions[i] in extensions;
        return true;
      }
      i := i + 1;
    }
    forall x | x in extensions ensures !HasExtension(path, x) {
      var j :| 0 <= j < |extensions| && extensions[j] == x;
    }
    return false;
  }

  /** The comparison ignores the case of the listed extension, so lower-casing
      the list first (lines 209-212) keeps the same files. */
  lemma HasExtensionIgnoresCase(path: string, extension: string)
    ensures HasExtension(path, Lower(extension)) == HasExtension(path, extension)
  {
    LowerIdempotent(extension);
  }

  lemma AcceptedIgnoresCase(path: string, extensions: seq<string>)
    ensures Accepted(path, LowerAll(extensions)) == Accepted(path, extensions)
  {
    var low := LowerAll(extensions);
    if exists x :: x in extensions && HasExtension(path, x) {
      var x :| x in extensions && HasExtension(path, x);
      var i :| 0 <= i < |extensions| && extensions[i] == x;
      HasExtensionIgnoresCase(path, x);
      assert low[i] in low;
    }
    if exists y :: y in low && HasExtension(path, y) {
      var y :| y in low && HasExtension(path, y);
      var i :| 0 <= i < |low| && low[i] == y;
      HasExtensionIgnoresCase(path, extensions[i]);
      assert extensions[i] in extensions;
    }
  }

  /** Lines 209-212: every listed extension lower-cased. */
  function LowerAll(extensions: seq<string>): (r: seq<string>)
    ensures |r| == |extensions|
    ensures forall i :: 0 <= i < |r| ==> r[i] == Lower(extensions[i])
  {
    seq(|extensions|, i requires 0 <= i < |extensions| => Lower(extensions[i]))
  }

  /** Putting a directory in front of a relative path does not change
      whether it is accepted: `getfiles` filters bare names, `__checkfile`
      the full paths joined to the input directory. */
  lemma AcceptedAfterJoin(dir: string, path: string, extensions: seq<string>)
    requires !IsAbs(path)
    ensures Accepted(Join(dir, path), extensions) == Accepted(path, extensions)
  {
    SplitExtOfJoin(dir, path);
    assert forall x :: HasExtension(Join(dir, path), x) == HasExtension(path, x);
  }
}
