/** The backup name of an input file that would be overwritten
    (abstract_file_batch.py, lines 409-426): the first of `f.bak`, `f.bak1`,
    `f.bak2`, ... that `os.rename` accepts. When the input itself can be
    renamed, only finitely many targets are refused, so a long enough index
    is always accepted; when it cannot, no index is. */
module Backup {
  import opened Wrappers
  import opened Text
  import opened Fs

  const BackupExt: string := ".bak"

  /** The name tried at attempt `i`: `f.bak` first, then `f.bak` followed
      by `str(i)`. */
  function Candidate(file: string, i: nat): string
  {
    if i == 0 then file + BackupExt else file + BackupExt + NatToString(i)
  }

  /** Every candidate starts with `file.bak`; only the first is exactly that. */
  lemma CandidateShape(file: string, i: nat)
    ensures StartsWith(Candidate(file, i), file + BackupExt)
    ensures i == 0 <==> Candidate(file, i) == file + BackupExt
  {
    var r := Candidate(file, i);
    var p := file + BackupExt;
    if i > 0 {
      assert |NatToString(i)| >= 1;
      assert |r| > |p|;
    }
    assert r[..|p|] == p;
  }

  /** Different attempts try different names, so no name is tried twice. */
  lemma CandidatesDistinct(file: string, i: nat, j: nat)
    requires i != j
    ensures Candidate(file, i) != Candidate(file, j)
  {
    var p := file + BackupExt;
    CandidateShape(file, i);
    CandidateShape(file, j);
    if i != 0 && j != 0 {
      assert Candidate(file, i)[|p|..] == NatToString(i);
      assert Candidate(file, j)[|p|..] == NatToString(j);
      assert DecimalValue(NatToString(i)) != DecimalValue(NatToString(j));
    }
  }

  /** The length of the longest refused name. */
  ghost function MaxLen(names: set<string>): (m: nat)
    ensures forall x :: x in names ==> |x| <= m
    decreases names
  {
    if names == {} then 0
    else
      var x :| x in names;
      var rest := MaxLen(names - {x});
      if |x| > rest then |x| else rest
  }

  /** A refused candidate has an index below `10^MaxLen`: from there on
      every candidate is longer than any refused name. */
  lemma RefusedCandidateIsShort(file: string, refused: set<string>, i: nat)
    requires Candidate(file, i) in refused
    ensures i < Pow10(MaxLen(refused))
  {
    var k := MaxLen(refused);
    if i >= Pow10(k) {
      NatToStringLength(i, k);
    }
  }

  /** The first accepted candidate from attempt `i` on. */
  function FirstFreeFrom(file: string, refused: set<string>, i: nat): (k: nat)
    ensures i <= k
    ensures Candidate(file, k) !in refused
    ensures forall j :: i <= j < k ==> Candidate(file, j) in refused
    decreases Pow10(MaxLen(refused)) - i
  {
    if Candidate(file, i) !in refused then i
    else
      RefusedCandidateIsShort(file, refused, i);
      FirstFreeFrom(file, refused, i + 1)
  }

  /** The attempt at which the backup loop stops. */
  function BackupIndex(file: string, refused: set<string>): nat
  {
    FirstFreeFrom(file, refused, 0)
  }

  /** The name the input file is saved under. */
  function BackupName(file: string, refused: set<string>): string
  {
    Candidate(file, BackupIndex(file, refused))
  }

  /** The backup name is accepted, starts with `file.bak`, and every
      candidate tried before it was refused; it is `file.bak` exactly
      when that name is accepted. */
  lemma BackupNameIsFirstAccepted(file: string, refused: set<string>)
    ensures BackupName(file, refused) !in refused
    ensures StartsWith(BackupName(file, refused), file + BackupExt)
    ensures forall j :: 0 <= j < BackupIndex(file, refused) ==> Candidate(file, j) in refused
    ensures BackupName(file, refused) == file + BackupExt <==> file + BackupExt !in refused
  {
    CandidateShape(file, BackupIndex(file, refused));
  }

  /** Any attempt that is accepted while all earlier ones were refused is
      the one the loop stops at. */
  lemma FirstAcceptedIsBackupIndex(file: string, refused: set<string>, k: nat)
    requires Candidate(file, k) !in refused
    requires forall j :: 0 <= j < k ==> Candidate(file, j) in refused
    ensures BackupIndex(file, refused) == k
  {
  }

  /** The loop of lines 417-426 as written retries after any exception.
      For an input whose every rename raises, no candidate is ever
      accepted, so that loop never ends; the same holds for a missing
      input. Only an existing input that is not blocked gets a backup. */
  lemma NoCandidateAcceptedUnlessRenamable(files: set<string>, renames: Renames, file: string)
    ensures (exists i :: RenameSucceeds(files, renames, file, Candidate(file, i)))
            <==> file in files && file !in renames.blocked
  {
    if file in files && file !in renames.blocked {
      var k := BackupIndex(file, renames.refused);
      assert RenameSucceeds(files, renames, file, Candidate(file, k));
    }
  }

  /** Lines 409-426, retrying only a refused target: rename the input to
      `file.bak`, or, when that target is refused, to `file.bak1`,
      `file.bak2`, ... until a rename succeeds. A rename that fails for
      the input itself, ENOENT for a missing input or the error of a
      blocked one, ends the backup with that error. */
  method MakeBackup(fs: FileSystem, inputFile: string) returns (backupFile: string, failure: Option<Error>)
    modifies fs
    ensures failure == None <==> inputFile in old(fs.files) && inputFile !in fs.renames.blocked
    ensures failure != None ==> fs.files == old(fs.files)
    ensures failure != None ==> failure == Some(if inputFile in old(fs.files) then RenameBlocked(inputFile)
                                                else NotFound(inputFile))
    ensures failure == None ==> backupFile == BackupName(inputFile, fs.renames.refused)
                                && fs.files == old(fs.files) - {inputFile} + {backupFile}
    ensures fs.dirs == old(fs.dirs)
  {
    var refused := fs.renames.refused;
    backupFile := inputFile + BackupExt;
    var r := fs.Rename(inputFile, backupFile);
    if r == Pass {
      FirstAcceptedIsBackupIndex(inputFile, refused, 0);
      return backupFile, None;
    }
    if r == Fail(NotFound(inputFile)) || r == Fail(RenameBlocked(inputFile)) {
      return backupFile, Some(r.error);
    }
    var index := 1;
    while true
      invariant 1 <= index <= Pow10(MaxLen(refused))
      invariant forall j :: 0 <= j < index ==> Candidate(inputFile, j) in refused
      invariant backupFile == inputFile + BackupExt && inputFile in fs.files && inputFile !in fs.renames.blocked
      invariant fs.files == old(fs.files) && fs.dirs == old(fs.dirs)
      decreases Pow10(MaxLen(refused)) - index
    {
      r := fs.Rename(inputFile, backupFile + NatToString(index));
      if r == Pass {
        FirstAcceptedIsBackupIndex(inputFile, refused, index);
        return backupFile + NatToString(index), None;
      }
      RefusedCandidateIsShort(inputFile, refused, index);
      index := index + 1;
    }
  }
}
