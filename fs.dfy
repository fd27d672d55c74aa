/** The file system as the engine sees it: a set of existing files, a set
    of existing directories, and which renames `os.rename` refuses. The
    errors the engine's file-system checks raise. */
module Fs {
  import opened Wrappers
  import opened Text
  import opened PosixPath

  /** The `OSError`s and the `ValueError` the core raises. */
  datatype Error =
    | NotADirectory(path: string)     // errno.ENOTDIR from checkpath and os.makedirs
    | NotFound(path: string)          // errno.ENOENT from checkpath, __checkfile, os.remove, os.rename
    | FileExists(path: string)        // os.makedirs on an existing non-directory
    | InvalidExtension(path: string)  // the ValueError of __checkfile
    | Rejected(path: string)          // an OSError raised by the user's checkfile hook
    | RenameRefused(path: string)     // an OSError of os.rename onto a target it refuses
    | RenameBlocked(path: string)     // an OSError of every os.rename of this source

  /** `checkpath(path, check_existence)` (abstract_file_batch.py:546-573):
      a directory passes; another existing path is ENOTDIR; a missing path
      is ENOENT only when existence is required. */
  function CheckPath(files: set<string>, dirs: set<string>, path: string, checkExistence: bool): (r: Outcome<Error>)
    ensures r == Pass <==> path in dirs || (path !in files && !checkExistence)
    ensures r == Fail(NotADirectory(path)) <==> path !in dirs && path in files
    ensures r == Fail(NotFound(path)) <==> path !in dirs && path !in files && checkExistence
  {
    if path in dirs then Pass
    else if path in files then Fail(NotADirectory(path))
    else if checkExistence then Fail(NotFound(path))
    else Pass
  }

  /** Some existing file is a proper ancestor of `path`, so no directory
      can be created there. */
  predicate BelowFile(files: set<string>, path: string)
  {
    exists q :: q in files && StartsWith(path, q + [Sep])
  }

  /** Which renames of existing files raise. `refused` is the finite set of
      targets a rename onto fails. `blocked` is the set of sources whose
      every rename fails, whatever the target: a file in a directory the
      process may not write to (EACCES), or one whose name leaves no room
      for `.bak` under the name-length limit (ENAMETOOLONG), since every
      backup name is longer still. */
  datatype Renames = Renames(refused: set<string>, blocked: set<string>)

  /** `os.rename(src, dst)` succeeds: the source exists, is not blocked,
      and the target is not one the platform refuses. */
  predicate RenameSucceeds(files: set<string>, renames: Renames, src: string, dst: string)
  {
    src in files && src !in renames.blocked && dst !in renames.refused
  }

  class FileSystem {
    var files: set<string>
    var dirs: set<string>
    /** Which renames fail. Under POSIX a rename onto an existing file
        silently replaces it, so which renames fail is left abstract. */
    const renames: Renames

    constructor (files0: set<string>, dirs0: set<string>, renames0: Renames)
      ensures files == files0 && dirs == dirs0 && renames == renames0
    {
      files, dirs, renames := files0, dirs0, renames0;
    }

    /** `os.rename(src, dst)`: raises ENOENT for a missing source, another
        `OSError` for a blocked source or a refused target, or else `src`
        is gone and `dst` is a file. */
    method Rename(src: string, dst: string) returns (r: Outcome<Error>)
      modifies this
      ensures r == Pass <==> RenameSucceeds(old(files), renames, src, dst)
      ensures r == Fail(NotFound(src)) <==> src !in old(files)
      ensures r == Fail(RenameBlocked(src)) <==> src in old(files) && src in renames.blocked
      ensures r.Fail? && src in old(files) && src !in renames.blocked ==> r == Fail(RenameRefused(dst))
      ensures files == if r == Pass then old(files) - {src} + {dst} else old(files)
      ensures dirs == old(dirs)
    {
      if src !in files {
        r := Fail(NotFound(src));
      } else if src in renames.blocked {
        r := Fail(RenameBlocked(src));
      } else if dst in renames.refused {
        r := Fail(RenameRefused(dst));
      } else {
        files := files - {src} + {dst};
        r := Pass;
      }
    }

    /** `os.remove(path)`: raises unless `path` is an existing file. */
    method Remove(path: string) returns (ok: bool)
      modifies this
      ensures ok == (path in old(files))
      ensures files == old(files) - {path} && dirs == old(dirs)
    {
      ok := path in files;
      files := files - {path};
    }

    /** `os.makedirs(path)` for a path that is not a directory: raises when
        the path is empty, an existing file, or below an existing file,
        else creates the directory. */
    method MakeDirs(path: string) returns (ok: bool)
      modifies this
      ensures ok == (path != [] && path !in old(files) && !BelowFile(old(files), path))
      ensures files == old(files)
      ensures dirs == if ok then old(dirs) + {path} else old(dirs)
    {
      ok := path != [] && path !in files && !BelowFile(files, path);
      if ok {
        dirs := dirs + {path};
      }
    }

    /** The effect of a completed transform: its destination is a file. */
    method CreateFile(path: string)
      modifies this
      ensures files == old(files) + {path} && dirs == old(dirs)
    {
      files := files + {path};
    }
  }
}
