/** `getfiles` (abstract_file_batch.py, lines 474-542) over a directory
    tree: the names `os.listdir` reports, in its order, each with what
    `isfile` and `isdir` say of it. Paths returned are relative to the
    starting directory. */
module FileListing {
  import opened Text
  import opened PosixPath
  import opened Extensions

  datatype Entry =
    | File(name: string)
    | Dir(name: string, children: seq<Entry>)
    | Other(name: string)  // neither a file nor a directory, such as a dangling link

  /** Names `os.listdir` can report: non-empty and without `/`, at every
      level below the starting directory. */
  predicate WellNamed(e: Entry)
    decreases e
  {
    e.name != [] && Sep !in e.name && WellNamedBelow(e)
  }

  predicate WellNamedBelow(e: Entry)
    decreases e, 0
  {
    e.Dir? ==> forall i :: 0 <= i < |e.children| ==> WellNamed(e.children[i])
  }

  /** What every returned path satisfies: a non-empty relative path whose
      extension passes the filter; without recursion, a bare name. */
  predicate Returnable(p: string, extensions: seq<string>, recursive: bool)
  {
    p != [] && !IsAbs(p) && Accepted(p, extensions) && (!recursive ==> Sep !in p)
  }

  /** `os.path.join(item, sub_file)` for every file found below `item`,
      in order (lines 539-540). */
  function Prefixed(item: string, subFiles: seq<string>): (r: seq<string>)
    ensures |r| == |subFiles|
    decreases |subFiles|
  {
    if subFiles == [] then []
    else Prefixed(item, subFiles[..|subFiles| - 1]) + [Join(item, subFiles[|subFiles| - 1])]
  }

  /** Each prefixed path is the corresponding path joined to `item`. */
  lemma {:induction false} PrefixedJoins(item: string, subFiles: seq<string>)
    ensures forall j :: 0 <= j < |subFiles| ==> Prefixed(item, subFiles)[j] == Join(item, subFiles[j])
    decreases |subFiles|
  {
    if subFiles != [] {
      var init := subFiles[..|subFiles| - 1];
      PrefixedJoins(item, init);
      assert forall j :: 0 <= j < |init| ==> init[j] == subFiles[j];
    }
  }

  /** The result of `getfiles(start, extensions, recursive, ignored)`;
      a start that is not a directory gives `[]` (lines 501-502). */
  function Listing(start: Entry, extensions: seq<string>, recursive: bool, ignored: seq<string>): seq<string>
    decreases start, 1, 0
  {
    if start.Dir? then ListingUpTo(start, |start.children|, extensions, recursive, ignored) else []
  }

  /** What the loop of lines 506-540 has gathered after the first `k` items. */
  function ListingUpTo(d: Entry, k: nat, extensions: seq<string>, recursive: bool, ignored: seq<string>): seq<string>
    requires d.Dir? && k <= |d.children|
    decreases d, 0, k
  {
    if k == 0 then []
    else
      ListingUpTo(d, k - 1, extensions, recursive, ignored)
        + ChildContribution(d.children[k - 1], extensions, recursive, ignored)
  }

  /** What one item adds: a file whose extension passes the filter adds its
      name (lines 509-521); a directory, when searching recursively and
      not ignored, adds its own files prefixed by its name (lines 523-540);
      anything else adds nothing. */
  function ChildContribution(item: Entry, extensions: seq<string>, recursive: bool, ignored: seq<string>): seq<string>
    decreases item, 2, 0
  {
    match item
    case File(name) => if Accepted(name, extensions) then [name] else []
    case Dir(name, _) =>
      if recursive && name !in ignored then Prefixed(name, Listing(item, extensions, recursive, ignored))
      else []
    case Other(_) => []
  }

  /** Every path `getfiles` returns from a tree of well-formed names is a
      non-empty relative path whose extension passes the filter, and a bare
      name without recursion. */
  lemma {:induction false} ListingReturnable(start: Entry, extensions: seq<string>, recursive: bool, ignored: seq<string>)
    requires WellNamedBelow(start)
    ensures forall p :: p in Listing(start, extensions, recursive, ignored) ==> Returnable(p, extensions, recursive)
    decreases start, 1
  {
    if start.Dir? {
      ListingUpToReturnable(start, |start.children|, extensions, recursive, ignored);
    }
  }

  lemma {:induction false} ListingUpToReturnable(d: Entry, k: nat, extensions: seq<string>, recursive: bool, ignored: seq<string>)
    requires d.Dir? && k <= |d.children| && WellNamedBelow(d)
    ensures forall p :: p in ListingUpTo(d, k, extensions, recursive, ignored) ==> Returnable(p, extensions, recursive)
    decreases d, 0, k
  {
    if k > 0 {
      ListingUpToReturnable(d, k - 1, extensions, recursive, ignored);
      ChildReturnable(d.children[k - 1], extensions, recursive, ignored);
    }
  }

  lemma {:induction false} ChildReturnable(item: Entry, extensions: seq<string>, recursive: bool, ignored: seq<string>)
    requires WellNamed(item)
    ensures forall p :: p in ChildContribution(item, extensions, recursive, ignored) ==> Returnable(p, extensions, recursive)
    decreases item, 2
  {
    match item
    case File(name) =>
    case Dir(name, _) =>
      if recursive && name !in ignored {
        var subFiles := Listing(item, extensions, recursive, ignored);
        var r := Prefixed(name, subFiles);
        ListingReturnable(item, extensions, recursive, ignored);
        PrefixedJoins(name, subFiles);
        forall p | p in r ensures Returnable(p, extensions, recursive) {
          var j :| 0 <= j < |r| && r[j] == p;
          JoinedIsReturnable(name, subFiles[j], extensions);
        }
      }
    case Other(_) =>
  }

  /** A returnable path below a well-named directory stays returnable once
      prefixed by that directory's name. */
  lemma JoinedIsReturnable(name: string, sub: string, extensions: seq<string>)
    requires name != [] && Sep !in name
    requires Returnable(sub, extensions, true)
    ensures Returnable(Join(name, sub), extensions, true)
  {
    assert name[|name| - 1] in name;
    assert Join(name, sub) == name + [Sep] + sub;
    AcceptedAfterJoin(name, sub, extensions);
  }

  /** The paths contributed by the first `k` items are those contributed by
      one of them. */
  lemma {:induction false} ListingUpToMembers(d: Entry, k: nat, extensions: seq<string>, recursive: bool,
                                              ignored: seq<string>, p: string)
    requires d.Dir? && k <= |d.children|
    ensures p in ListingUpTo(d, k, extensions, recursive, ignored)
        <==> exists i :: 0 <= i < k && p in ChildContribution(d.children[i], extensions, recursive, ignored)
    decreases k
  {
    if k > 0 {
      ListingUpToMembers(d, k - 1, extensions, recursive, ignored, p);
    }
  }

  /** `p` is a path found in a subdirectory of `d` that is not ignored,
      prefixed by that subdirectory's name. */
  predicate ChildDirectoryHolds(d: Entry, extensions: seq<string>, ignored: seq<string>, p: string)
    requires d.Dir?
  {
    exists i, sub ::
      && 0 <= i < |d.children| && d.children[i].Dir? && d.children[i].name !in ignored
      && sub in Listing(d.children[i], extensions, true, ignored)
      && p == Join(d.children[i].name, sub)
  }

  /** Exactly the paths `getfiles` returns from a directory: the names of
      its files whose extension passes the filter, and, when recursive,
      each path found in a subdirectory that is not ignored, prefixed by
      that subdirectory's name. Ignored subdirectories contribute nothing. */
  lemma ListingMembers(d: Entry, extensions: seq<string>, recursive: bool, ignored: seq<string>, p: string)
    requires d.Dir?
    ensures p in Listing(d, extensions, recursive, ignored) <==>
      || (exists i :: 0 <= i < |d.children| && d.children[i] == File(p) && Accepted(p, extensions))
      || (recursive && ChildDirectoryHolds(d, extensions, ignored, p))
  {
    var cs := d.children;
    ListingUpToMembers(d, |cs|, extensions, recursive, ignored, p);
    forall i | 0 <= i < |cs|
      ensures p in ChildContribution(cs[i], extensions, recursive, ignored) <==>
        || (cs[i] == File(p) && Accepted(p, extensions))
        || (recursive && cs[i].Dir? && cs[i].name !in ignored
            && exists sub :: sub in Listing(cs[i], extensions, recursive, ignored) && p == Join(cs[i].name, sub))
    {
      if cs[i].Dir? && recursive && cs[i].name !in ignored {
        var subFiles := Listing(cs[i], extensions, recursive, ignored);
        var r := Prefixed(cs[i].name, subFiles);
        PrefixedJoins(cs[i].name, subFiles);
        if p in r {
          var j :| 0 <= j < |r| && r[j] == p;
          assert subFiles[j] in subFiles;
        }
        if exists sub :: sub in subFiles && p == Join(cs[i].name, sub) {
          var sub :| sub in subFiles && p == Join(cs[i].name, sub);
          var j :| 0 <= j < |subFiles| && subFiles[j] == sub;
          assert r[j] == p;
        }
      }
    }
  }

  /** Without recursion only the directory's own files are returned. */
  lemma FlatListing(d: Entry, extensions: seq<string>, ignored: seq<string>, p: string)
    requires d.Dir?
    ensures p in Listing(d, extensions, false, ignored) <==>
      exists i :: 0 <= i < |d.children| && d.children[i] == File(p) && Accepted(p, extensions)
  {
    ListingMembers(d, extensions, false, ignored, p);
  }

  /** Lines 474-542. */
  method GetFiles(start: Entry, extensions: seq<string>, recursive: bool, ignored: seq<string>)
    returns (files: seq<string>)
    ensures files == Listing(start, extensions, recursive, ignored)
    decreases start, 1
  {
    if !start.Dir? {
      return [];
    }
    files := [];
    var i := 0;
    while i < |start.children|
      invariant 0 <= i <= |start.children|
      invariant files == ListingUpTo(start, i, extensions, recursive, ignored)
    {
      files := AddItem(files, start.children[i], extensions, recursive, ignored);
      i := i + 1;
    }
  }

  /** Lines 507-540 for one item of the listing. */
  method AddItem(files: seq<string>, item: Entry, extensions: seq<string>, recursive: bool, ignored: seq<string>)
    returns (r: seq<string>)
    ensures r == files + ChildContribution(item, extensions, recursive, ignored)
    decreases item, 2
  {
    r := files;
    if item.File? {
      var keep := true;
      if extensions != [] {
        keep := MatchesAny(item.name, extensions);
      }
      if keep {
        r := r + [item.name];
      }
    } else if item.Dir? {
      if recursive && !(ignored != [] && item.name in ignored) {
        var subFiles := GetFiles(item, extensions, recursive, ignored);
        r := AppendJoined(r, item.name, subFiles);
      }
    }
  }

  /** Lines 539-540: `files.append(os.path.join(item, sub_file))` for each
      file found below `item`. */
  method AppendJoined(files: seq<string>, item: string, subFiles: seq<string>) returns (r: seq<string>)
    ensures r == files + Prefixed(item, subFiles)
  {
    r := files;
    var j := 0;
    while j < |subFiles|
      invariant 0 <= j <= |subFiles|
      invariant r == files + Prefixed(item, subFiles[..j])
    {
      PrefixedStep(item, subFiles, j);
      r := r + [Join(item, subFiles[j])];
      j := j + 1;
    }
    assert subFiles[..j] == subFiles;
  }

  /** One more file joined onto the prefixed list. */
  lemma PrefixedStep(item: string, subFiles: seq<string>, j: nat)
    requires j < |subFiles|
    ensures Prefixed(item, subFiles[..j + 1]) == Prefixed(item, subFiles[..j]) + [Join(item, subFiles[j])]
  {
    assert subFiles[..j + 1][..j] == subFiles[..j];
  }
}
