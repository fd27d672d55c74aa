# A verified model of the python-file-batch engine

`AbstractFileBatch` is the base class of a small framework for command-line
tools that apply one transformation to many files. A subclass supplies
`processfile(fileIn, fileOut)`; the engine does the rest:

- it checks the settings (`__checkinputs`): list values are split on `,` and
  on the platform's path-list separator, extensions are lower-cased, the
  input directory is stripped or defaulted to `.`, every input file is
  resolved against it and checked (it must exist and carry a listed
  extension), and the output directory is classified as a common one
  (relative to the current directory, absolute, or under `<INPUT_DIR>`) or
  a separate one per input file (under `<IN_PLACE>`);
- without explicit input files it lists the input directory (`getfiles`),
  recursively or not, filtered by extension;
- it processes (`process`): for each input it makes the output directory,
  names the output file (new extension, suffix), renames an input that
  would be overwritten to the first of `f.bak`, `f.bak1`, ... for which
  `os.rename` does not raise (on POSIX an existing `f.bak` is simply
  replaced, so the first name is taken; the model keeps which renames
  raise abstract, as `Fs.Renames`: a finite set of refused targets and a
  set of blocked sources whose every rename raises; for a blocked or
  missing input no such name exists, see "## Findings"),
  queues a job for the worker threads (`ConvertThread`), which refuse to
  overwrite an existing file unless the job is an overwrite job, then
  collects the results, reports errors and deletes backups when asked to;
- `run` calls the user's `preprocess`, then `process`, then `postprocess`.

The model keeps this structure. The engine object is the class
`Batch.FileBatch`, whose methods update its attributes as the source does;
the worker is the class `Worker.ConvertThread` with its two queues; the
file system is the class `Fs.FileSystem`: the set of existing files, the
set of existing directories, and the fixed `Fs.Renames` that say which
renames raise. The directory tree `os.listdir` shows is the datatype
`FileListing.Entry`. Each method is proved against a specification
function (`CheckedInputs`, `Plan`, `Drain`, `Aggregate`, `ProcessSpec`,
`RunSequence`, `Listing`, `BackupName`, ...), and the properties the engine
promises are lemmas about those functions.

The user's code enters as parameters: `processfile` is a function from the
two paths to `Completed` or `Raised(message)`; the `checkfile` hook is the
set of paths it refuses; `preprocess` is its result and `postprocess` a
function of the status. The platform's list separator is a parameter
(`:` on POSIX, `;` on Windows). Paths follow `posixpath`.

Where the engine's documentation and its code differ, the model follows the
code:

- an output extension given by the user is lower-cased before use
  (`abstract_file_batch.py:213-214`);
- the backup loop moves to the next name after any exception of
  `os.rename`, not only when the target is refused (lines 410-426); when
  the input itself is missing every rename raises, and the loop spins
  until the input reappears (a worker thread started at lines 348-351 may
  write it), for ever when the transform never writes it. When the input
  cannot be renamed at all (its directory is read-only, so every rename
  raises EACCES, or its name is 252 to 255 bytes long, so `f.bak` and
  every later name exceed the 255-byte name limit and raise ENAMETOOLONG),
  the loop never ends. The engine instead skips such an input, without a
  job or a backup, goes on with the others and reports the run as failed;
  see "## Findings";
- a common output directory does not simply mirror the sub-directories
  below the input directory: when the input directory's path occurs
  anywhere in a file's directory, every occurrence of it is deleted and
  what is left is appended to the output directory (lines 366-371). The
  engine follows this code; see "## Findings".

Files: `wrappers.dfy` (Option, Result, Outcome), `text.dfy` (string
operations of Python's `str`), `posix_path.dfy` (`os.path`),
`fs.dfy` (file system, `checkpath`), `extensions.dfy` (extension filter),
`listing.dfy` (`getfiles`), `inputs.dfy` (`__splitvalues`, `__checkfile`,
input resolution), `output_dirs.dfy` and `output_naming.dfy` (where outputs
go and what they are called), `backup.dfy` (backup names),
`convert_thread.dfy` (the worker), `file_batch.dfy` (the engine).

## Model

| member | source | states |
|---|---|---|
| Text.ReplaceAll | abstract_file_batch.py:297 | `str.replace`: a string without the pattern is unchanged; one that starts with the pattern starts with the replacement (every occurrence: `ReplaceAllFront`, `ReplaceAllLeftmost`) |
| Text.ReplaceAllFront | abstract_file_batch.py:297 | an occurrence at the front is replaced and the replacement goes on through the rest of the string |
| Text.ReplaceAllSkip | abstract_file_batch.py:297 | a character that does not start an occurrence is kept and the replacement goes on after it |
| Text.ReplaceAllLeftmost | abstract_file_batch.py:297 | the leftmost occurrence, wherever it is, is replaced, the text before it is kept and the replacement goes on after it |
| Text.NoMatchBeforeAt | abstract_file_batch.py:297 | "no occurrence before position `n`", the condition of `ReplaceAllLeftmost`, holds exactly when no position below `n` starts the pattern |
| Text.ReplaceAllAtPrefix | abstract_file_batch.py:297 | replacing a pattern that occurs only at the front swaps that one occurrence and keeps the rest |
| Text.Split | abstract_file_batch.py:624 | `str.split(sep)` for one separator, never an empty list; stated by `SplitPiecesFree`, `JoinSplit`, `SplitJoin`, `SplitWithoutSeparator`, `SplitAround` |
| Text.SplitPiecesFree | abstract_file_batch.py:624 | no piece of `str.split(sep)` contains the separator |
| Text.JoinSplit | abstract_file_batch.py:624 | joining the pieces of a split with the separator gives back the string |
| Text.SplitJoin | abstract_file_batch.py:624 | splitting the join of separator-free pieces gives back exactly those pieces |
| Text.SplitWithoutSeparator | abstract_file_batch.py:624 | a string without the separator splits into itself alone |
| Text.SplitAround | abstract_file_batch.py:624 | splitting `u + sep + v` is splitting `u` followed by splitting `v` |
| Text.SplitPieceChars | abstract_file_batch.py:624 | every character of a piece occurs in the split string |
| Text.ReplaceAllOneChar | abstract_file_batch.py:622 | replacing one character by another is a character-by-character substitution |
| Text.Lower | abstract_file_batch.py:210 | `str.lower`: same length, each character lower-cased, no upper-case letter left |
| Text.LowerIdempotent | abstract_file_batch.py:209-214 | lower-casing twice is lower-casing once |
| Text.TrimStart | abstract_file_batch.py:218 | removes exactly the leading white space: a suffix of the input, not starting with a space, preceded only by spaces |
| Text.TrimEnd | abstract_file_batch.py:218 | removes exactly the trailing white space |
| Text.Strip | abstract_file_batch.py:218 | `str.strip`: the result is a slice of the input with only white space before and after it, has no surrounding white space itself, and a string without surrounding white space is unchanged |
| Text.StripSlice | abstract_file_batch.py:218 | removing leading then trailing white space leaves the slice of the input between them |
| Text.NatToString | abstract_file_batch.py:419 | `str(index)` is a non-empty string of decimal digits whose decimal value is `index` |
| Text.NatToStringInjective | abstract_file_batch.py:419 | different numbers give different strings |
| Text.NatToStringLength | abstract_file_batch.py:417-426 | numbers of at least `10^k` have more than `k` digits |
| PosixPath.RFindLast | abstract_file_batch.py:383 | `str.rfind` finds the last occurrence and `-1` exactly when there is none |
| PosixPath.RFindConcat | abstract_file_batch.py:383 | the last occurrence in `a + b` is in `b` when `b` has one, else it is the one in `a` |
| PosixPath.IsAbs | abstract_file_batch.py:235 | `os.path.isabs` on POSIX: the path starts with `/`; stated by `JoinParts` (an absolute second part wins) and `Inputs.ResolveInputFile` |
| PosixPath.Join | abstract_file_batch.py:402 | `os.path.join` of two parts; its meaning is stated by `JoinParts`, `JoinDirnameBasename` and `DirnameBasenameOfJoin` |
| PosixPath.Dirname | abstract_file_batch.py:359 | `os.path.dirname`; a prefix of the path, empty exactly without `/` (`DirnameBasename`) |
| PosixPath.Basename | abstract_file_batch.py:360 | `os.path.basename`; a suffix without `/` (`DirnameBasename`) |
| PosixPath.JoinParts | abstract_file_batch.py:402 | `os.path.join(a, b)` is `b` for an absolute `b`, else starts with `a` (followed by `/` where needed) and ends with `b` |
| PosixPath.DirnameBasename | abstract_file_batch.py:359-360 | `dirname` is a prefix, empty exactly when there is no `/`; `basename` is a suffix without `/` |
| PosixPath.JoinDirnameBasename | abstract_file_batch.py:359-402 | for a path without doubled slashes, joining its `dirname` and `basename` gives it back |
| PosixPath.DirnameBasenameOfJoin | abstract_file_batch.py:236 | a bare name joined to a directory has that directory as `dirname` and that name as `basename` |
| PosixPath.SplitExt | abstract_file_batch.py:383 | `os.path.splitext` splits a path into root and extension that concatenate back to it |
| PosixPath.SplitExtParts | abstract_file_batch.py:383 | a non-empty extension is a dot followed by no other dot and no `/`, and follows a named stem |
| PosixPath.SplitExtOfAppendedExtension | abstract_file_batch.py:385 | a named stem followed by `.ext` splits into that stem and `.ext` |
| PosixPath.SplitExtOfAppendedPlain | abstract_file_batch.py:399-400 | appending dot-free text to a path without extension leaves it without extension |
| PosixPath.SplitExtAfterDirectory | abstract_file_batch.py:600 | a directory prefix ending in `/` does not change the extension |
| PosixPath.SplitExtOfJoin | abstract_file_batch.py:600 | joining a directory in front of a relative path does not change its extension |
| Fs.CheckPath | abstract_file_batch.py:546-573 | passes exactly for a directory or for a missing path when existence is not required; ENOTDIR exactly for an existing non-directory; ENOENT exactly for a missing path that must exist |
| Fs.FileSystem.Rename | abstract_file_batch.py:411 | `os.rename` succeeds exactly when the source exists, is not blocked and the target is not refused, and then moves the file; a missing source raises ENOENT, a blocked source or a refused target another `OSError` |
| Fs.FileSystem.Remove | abstract_file_batch.py:457 | `os.remove` succeeds exactly for an existing file, which is gone afterwards |
| Fs.FileSystem.MakeDirs | abstract_file_batch.py:377 | `os.makedirs` fails exactly on an empty path, an existing file or a path below an existing file, and otherwise adds the directory |
| Extensions.HasExtension | abstract_file_batch.py:513-514 | a path's `splitext` extension equals `.` plus the listed extension, both lower-cased; stated by `HasExtensionIgnoresCase` and `MatchesAny` |
| Extensions.Accepted | abstract_file_batch.py:510-517 | the whole filter: an empty list keeps every path, otherwise some listed extension must match; stated by `AcceptedIgnoresCase`, `AcceptedAfterJoin`, `FileListing.ListingMembers` and `Inputs.CheckFile` |
| Extensions.MatchesAny | abstract_file_batch.py:510-517 | the `for ... else` loop finds a match exactly when some listed extension equals the path's extension, ignoring case |
| Extensions.HasExtensionIgnoresCase | abstract_file_batch.py:513-514 | the comparison ignores the case of the listed extension |
| Extensions.AcceptedIgnoresCase | abstract_file_batch.py:209-212 | lower-casing the extension list keeps exactly the same files |
| Extensions.AcceptedAfterJoin | abstract_file_batch.py:597-607 | the filter gives the same answer for a bare name (as `getfiles` sees it) and for the name joined to the input directory (as `__checkfile` sees it) |
| FileListing.Listing | abstract_file_batch.py:474-542 | the result of `getfiles`; stated by `ListingMembers`, `ListingReturnable`, `FlatListing` |
| FileListing.ChildContribution | abstract_file_batch.py:507-540 | what one directory entry adds; stated by `ChildReturnable` and `ListingMembers` |
| FileListing.PrefixedJoins | abstract_file_batch.py:539-540 | every path found below a sub-directory is returned joined to that sub-directory's name, in order |
| FileListing.ListingReturnable | abstract_file_batch.py:501-542 | every returned path is non-empty, relative and accepted by the filter, and a bare name when not recursive |
| FileListing.ChildReturnable | abstract_file_batch.py:507-540 | the same for what one directory entry contributes |
| FileListing.JoinedIsReturnable | abstract_file_batch.py:540 | prefixing a returnable path by a well-formed directory name keeps it returnable |
| FileListing.ListingMembers | abstract_file_batch.py:506-540 | a path is returned exactly when it is an accepted file of the directory or, recursively, a path found in a sub-directory that is not ignored, prefixed by its name |
| FileListing.FlatListing | abstract_file_batch.py:509-521 | without recursion exactly the accepted files of the directory itself are returned |
| FileListing.GetFiles | abstract_file_batch.py:474-542 | the loop returns exactly the listing, and `[]` for a start that is not a directory |
| FileListing.AddItem | abstract_file_batch.py:507-540 | one entry adds exactly its contribution |
| FileListing.AppendJoined | abstract_file_batch.py:539-540 | the inner loop appends each sub-directory file joined to the sub-directory name |
| Inputs.SplitValue | abstract_file_batch.py:620-627 | one value split on `,` after its list separators became `,`; stated by `SplitValueClean` and `SplitValueNormalises` |
| Inputs.SplitValueClean | abstract_file_batch.py:620-627 | no piece of a split value contains `,` or the list separator |
| Inputs.SplitValueNormalises | abstract_file_batch.py:620-627 | both branches give the pieces of the value with its separators turned into `,`, and the pieces join back to it |
| Inputs.PiecesClean | abstract_file_batch.py:613-629 | no piece of the split list contains `,` or the list separator |
| Inputs.PiecesOfConcat | abstract_file_batch.py:620-627 | splitting a concatenation of lists is concatenating their splits |
| Inputs.PiecesSnoc | abstract_file_batch.py:620-627 | one more value adds exactly its own pieces at the end |
| Inputs.PiecesOfPlainValues | abstract_file_batch.py:613-629 | values without separators are returned unchanged |
| Inputs.SplitValues | abstract_file_batch.py:613-629 | the loop returns the pieces of every value, in order |
| Inputs.ConcatMapOfConcat | abstract_file_batch.py:620-627 | collecting `extend`ed pieces over a concatenation of values is collecting over each part |
| Inputs.InputDirSetting | abstract_file_batch.py:217-223 | the input directory has no surrounding white space; an empty setting becomes `.`; another is the slice of the setting between its leading and trailing white space |
| Inputs.ResolveInputFile | abstract_file_batch.py:233-236 | a given input always ends with its stripped value; an absolute one is exactly that value; a relative one starts with the input directory, followed by `/` when the directory does not end with one |
| Inputs.ResolveAll | abstract_file_batch.py:231-236 | each given value resolved against the input directory, one per value in order; stated through `ResolveInputFile` and `ResolvedInputInInputDir` |
| Inputs.UnderInputDir | abstract_file_batch.py:254-261 | each found file joined to the input directory, one per file in order; stated by `ListedFilesPassExtensionCheck` |
| Inputs.ResolvedInputInInputDir | abstract_file_batch.py:233-236 | a relative bare name resolves to a file directly inside the input directory |
| Inputs.CheckFile | abstract_file_batch.py:576-609 | passes exactly for an existing file with a listed extension the hook accepts; ENOENT exactly for a path that is not a file; the `ValueError` exactly for a file with an unlisted extension; the hook's error otherwise |
| Inputs.AcceptInputFiles | abstract_file_batch.py:231-271 | the candidate loop as a function; its meaning is `AcceptInputFilesMeaning` |
| Inputs.AcceptInputFilesMeaning | abstract_file_batch.py:231-271 | the check passes exactly when every existing candidate has a listed extension; it then keeps the candidates that pass `__checkfile` (existing, accepted, not refused by the hook) in their order and with their repeats; a failure names the first existing candidate with an unlisted extension |
| Inputs.AcceptedAreKept | abstract_file_batch.py:231-271 | the check passes exactly when no existing candidate has an unlisted extension, and then keeps exactly `Kept` of the candidates |
| Inputs.FirstUnlistedRaises | abstract_file_batch.py:238-246 | a failing check names the first existing candidate whose extension is not listed |
| Inputs.Kept | abstract_file_batch.py:238-246 | the candidates that pass `__checkfile`, in order with repeats: exactly the candidates that pass, and no more of them than there are candidates |
| Inputs.ListedFilesPassExtensionCheck | abstract_file_batch.py:254-269 | files found by `getfiles` with the same extension list never raise the `ValueError` |
| Inputs.FilterInputFiles | abstract_file_batch.py:231-246 | the loop keeps, skips or stops exactly as the check function says |
| Inputs.AcceptAbortStays | abstract_file_batch.py:238-242 | once the `ValueError` is raised, later candidates change nothing |
| OutputDirs.Classify | abstract_file_batch.py:282-310 | the four branches, each exactly under its condition, tried in order |
| OutputDirs.ChosenOutputDir | abstract_file_batch.py:274-280 | a missing or empty setting takes the class default, then white space is stripped; stated through `ResolveOutputDir` and `Text.Strip` |
| OutputDirs.ResolveOutputDir | abstract_file_batch.py:273-310 | the check raises ENOTDIR exactly for a common directory that is an existing non-directory; a common directory is kept; under `<INPUT_DIR>` the result is the input directory followed by the rest of the setting with every further `<INPUT_DIR>` replaced too; a separate one is put under `<IN_PLACE>` |
| OutputDirs.TemplateReplaced | abstract_file_batch.py:296-297 | a setting starting with `<INPUT_DIR>` becomes the input directory followed by the rest of the setting, replaced in turn |
| OutputDirs.FileOutputDir | abstract_file_batch.py:362-371 | one file's output directory as the code is written: `<IN_PLACE>` replaced by the file's directory, else `MirroredDirAsWritten`; stated by `InPlaceIsInputDirectory`, `InPlaceSubdirectoryIsJoin`, `SeparateModeDirectories` and the mirroring lemmas |
| OutputDirs.MirroredDirAsWritten | abstract_file_batch.py:367-371 | the code as written: every occurrence of the input directory is deleted from the file's directory when it occurs at all; stated by `MirroredDirAsWrittenAgrees`, `MirroredDirAsWrittenLosesRepeatedName`, `MirroredDirAsWrittenDropsDots`, `MirroredDirAsWrittenOffPrefix` |
| OutputDirs.MirroredDir | abstract_file_batch.py:367-371 | the evidently intended rule, a leading input directory removed; stated by `MirroredDirKeepsRelativePath` |
| OutputDirs.MirroredDirAsWrittenAgrees | abstract_file_batch.py:367-371 | when the path below the input directory does not contain the input directory's name, the code as written and the intended rule both give the output directory followed by that path |
| OutputDirs.MirroredDirAsWrittenDropsDots | abstract_file_batch.py:367-371 | under the default input directory `.`, a file in `./v1.2` goes to `<out>/v12` as written, to `<out>/v1.2` as intended |
| OutputDirs.MirroredDirAsWrittenOffPrefix | abstract_file_batch.py:367-371 | an input directory found in the middle of a file's directory still has its remains appended: `x/in` under `in` gives `outx/` as written, `out` as intended |
| OutputDirs.MirroredDirKeepsRelativePath | abstract_file_batch.py:367-369 | with the intended prefix removal, a file's sub-directory below the input directory is kept below the common output directory |
| OutputDirs.MirroredDirAsWrittenLosesRepeatedName | abstract_file_batch.py:367-369 | as written, the replace-all also deletes the directory name below the input directory when it repeats the input directory's name |
| OutputDirs.DeleteAtPrefix | abstract_file_batch.py:369 | deleting every occurrence of a name removes the one at the front |
| OutputDirs.DeleteAfterOtherChar | abstract_file_batch.py:369 | a character that cannot start the name is kept by the deletion |
| OutputDirs.InPlaceIsInputDirectory | abstract_file_batch.py:362-364 | the output directory `<IN_PLACE>` is each input file's own directory |
| OutputDirs.InPlaceSubdirectoryIsJoin | abstract_file_batch.py:362-364 | `<IN_PLACE>/sub` is the sub-directory `sub` of each input file's directory |
| OutputDirs.TokenJoin | abstract_file_batch.py:305 | joining `<IN_PLACE>` with a relative setting puts that setting after the token and a `/` |
| OutputDirs.TokenReplaced | abstract_file_batch.py:364 | replacing the token at the front of a setting keeps the rest of it |
| OutputDirs.SeparateModeDirectories | abstract_file_batch.py:302-310 | a separate output directory `sub` ends up as the sub-directory `sub` of each input file's directory |
| OutputNaming.NormalizeOutputExtension | abstract_file_batch.py:213-214 | the output extension is lower-cased character by character |
| OutputNaming.ReplaceExtension | abstract_file_batch.py:380-387 | the new extension replaces the old one, or is appended to a name without one |
| OutputNaming.InsertSuffix | abstract_file_batch.py:390-400 | the suffix step; stated by `SuffixKeepsExtension` and `InsertSuffixSplits` |
| OutputNaming.OutputName | abstract_file_batch.py:379-400 | the extension step, then the suffix step; stated by `OutputNameShape`, `OutputNameUnchanged`, `StemAndExtension`, `NameWithoutDot` |
| OutputNaming.ReplacedExtensionIsRecognised | abstract_file_batch.py:380-387 | the renamed file has the new extension and the old root, as `splitext` sees it |
| OutputNaming.SuffixKeepsExtension | abstract_file_batch.py:390-400 | inserting the suffix keeps the extension and extends the root |
| OutputNaming.SuffixBeforeExtension | abstract_file_batch.py:396-398 | a suffix placed before an extension leaves that extension recognised |
| OutputNaming.InsertSuffixSplits | abstract_file_batch.py:390-400 | the suffix goes between the root and the extension |
| OutputNaming.OutputNameShape | abstract_file_batch.py:379-400 | the output name is root, suffix, then the new extension or else the old one |
| OutputNaming.OutputNameUnchanged | abstract_file_batch.py:379-400 | without extension or suffix the name is kept |
| OutputNaming.StemAndExtension | abstract_file_batch.py:379-400 | `stem.e` becomes `stem` + suffix + `.ext` (or `.e` without a new extension) |
| OutputNaming.NameWithoutDot | abstract_file_batch.py:379-400 | a name without a dot gets the suffix, then the new extension if any |
| OutputNaming.OverrideIsLowerCased | abstract_file_batch.py:380-387 | the extension of an output is the lower-cased override |
| Backup.Candidate | abstract_file_batch.py:408-419 | the name tried at attempt `i`; stated by `CandidateShape` and `CandidatesDistinct` |
| Backup.CandidatesDistinct | abstract_file_batch.py:408-426 | different attempts try different names, so a refused name is never tried again |
| Backup.BackupName | abstract_file_batch.py:408-426 | the name the input is saved under; stated by `BackupNameIsFirstAccepted` and `FirstAcceptedIsBackupIndex` |
| Backup.CandidateShape | abstract_file_batch.py:409-419 | every backup name tried starts with `f.bak`, and only the first is exactly `f.bak` |
| Backup.RefusedCandidateIsShort | abstract_file_batch.py:416-426 | a refused name tried at attempt `i` bounds `i`, since only finitely many targets are refused; so for an input that exists and is not blocked the retry loop ends (a blocked or missing input: `NoCandidateAcceptedUnlessRenamable`) |
| Backup.NoCandidateAcceptedUnlessRenamable | abstract_file_batch.py:416-426 | some backup name is accepted exactly when the input exists and is not blocked; otherwise the retry loop as written never ends |
| Backup.FirstFreeFrom | abstract_file_batch.py:416-426 | the first accepted attempt from `i` on, with every attempt before it refused |
| Backup.BackupNameIsFirstAccepted | abstract_file_batch.py:409-426 | the backup name is accepted, starts with `f.bak`, every earlier candidate was refused, and it is `f.bak` exactly when that is accepted |
| Backup.FirstAcceptedIsBackupIndex | abstract_file_batch.py:409-426 | the first accepted candidate is the one chosen |
| Backup.MakeBackup | abstract_file_batch.py:409-426 | the loop renames an existing input that is not blocked to its backup name and changes nothing else; a missing input raises ENOENT, a blocked one its rename error, and neither changes anything |
| Worker.Execute | convert_thread.py:21-38 | a job's result has its paths; no error exactly when the transform runs and completes; the fixed message when it may not run; the exception's message when it raises |
| Worker.Invokes | convert_thread.py:26 | the transform runs when overwriting is allowed or the destination is not an existing file; stated by `Execute`, `OverwriteAlwaysRuns`, `ExistingDestinationRefused` |
| Worker.FilesAfter | convert_thread.py:26-27 | a job that runs and completes leaves its destination as a file, any other leaves the files as they were; stated by `DrainGrowsFiles` and `LaterWriterRefused` |
| Worker.Drain | convert_thread.py:19-39 | the worker's loop over the queued jobs as a function; stated by `DrainResults`, `DrainKeepsPaths`, `DrainGrowsFiles` |
| Worker.DrainResults | convert_thread.py:19-39 | one result per job, in order, each the job run on the files the earlier jobs left |
| Worker.DrainKeepsPaths | convert_thread.py:38 | each result names the input and output of its own job |
| Worker.DrainGrowsFiles | convert_thread.py:26-27 | draining the queue only ever adds files |
| Worker.OverwriteAlwaysRuns | convert_thread.py:26-27 | an overwrite job always runs the transform, and its error is exactly what the transform did |
| Worker.ExistingDestinationRefused | convert_thread.py:26-33 | a job that may not overwrite an existing destination is refused with the fixed message |
| Worker.LaterWriterRefused | convert_thread.py:26-33 | once a job has written a destination, a later job to it that may not overwrite is refused |
| Worker.ConvertThread.constructor | convert_thread.py:12-16 | a worker starts with empty queues |
| Worker.ConvertThread.Put | abstract_file_batch.py:428-432 | a job goes on the end of the queue and counts as unfinished |
| Worker.ConvertThread.Run | convert_thread.py:19-39 | the queue is emptied; the output queue gains exactly the drain's results and the files are the drain's files |
| Batch.Normalized | abstract_file_batch.py:207-223 | extensions split and lower-cased, output extension lower-cased, input directory stripped or `.`; stated by `NormalizedExtensions`, `CheckedInputsMeaning` and `FileBatch.NormalizeSettings` |
| Batch.Candidates | abstract_file_batch.py:228-261 | the paths `__checkfile` is applied to: the given inputs resolved, or else the files `getfiles` finds joined to the input directory; stated by `FileBatch.GatherCandidates` and `Inputs.ListedFilesPassExtensionCheck` |
| Batch.CheckedInputs | abstract_file_batch.py:205-310 | the attributes after `__checkinputs`; stated by `CheckedInputsMeaning`, `CheckedInputsPass`, `DefaultsCheck` |
| Batch.SettledOutputDir | abstract_file_batch.py:273-310 | the last stage of the check, the output directory; stated by `OutputDirs.ResolveOutputDir` |
| Batch.OutputDirOf | abstract_file_batch.py:359-371 | `FileOutputDir` of the input file's directory |
| Batch.OutputFileOf | abstract_file_batch.py:359-402 | the output directory joined with the output name; stated through `JoinParts` and the `OutputNaming` lemmas |
| Batch.JobOf | abstract_file_batch.py:379-432 | the job of one input: an overwrite job from its backup when its output is itself; used by `PlanMeaning` |
| Batch.PlanStep | abstract_file_batch.py:356-432 | one input planned; stated by `PlanStepQueuesJob`, `PrepareDir`, `PlanAbortStays`, `MissingInputSkipped` |
| Batch.Plan | abstract_file_batch.py:355-432 | the planning loop; stated by `PlanMeaning` and `PlanPrefixStep` |
| Batch.Truthy | abstract_file_batch.py:444 | `if status:` — a result is an error only when it carries a non-empty message, so an empty message counts as success; stated by `AggregateMeaning` |
| Batch.AggregateStep | abstract_file_batch.py:443-457 | one result: a truthy status sets `errors`, otherwise a backup is removed with `noBackup`, and a missing backup makes `os.remove` raise; stated by `AggregateMeaning` and `AggregateAbortStays` |
| Batch.Aggregate | abstract_file_batch.py:442-468 | the aggregation loop; stated by `AggregateMeaning` and `AggregateAbortStays` |
| Batch.ProcessSpec | abstract_file_batch.py:337-468 | `process` with the worker as one drain; stated by `ProcessMeaning` and `ProcessResultsMatchInputs` |
| Batch.RunSequence | abstract_file_batch.py:315-334 | `run`; stated by `RunOrdering` |
| Batch.CheckedInputsMeaning | abstract_file_batch.py:205-271 | after a check that did not raise: the input directory exists; every input file exists, has a listed extension and passed the hook; extensions are separator-free and lower-case; the output extension is lower-case |
| Batch.CheckedInputsPass | abstract_file_batch.py:205-310 | a check that did not raise keeps the normalised settings and the accepted input files |
| Batch.NormalizedExtensions | abstract_file_batch.py:207-212 | the normalised extensions hold no separator and no upper-case letter |
| Batch.DefaultsCheck | abstract_file_batch.py:205-310 | with the default settings the check passes whenever `.` is a directory, and outputs go next to their inputs |
| Batch.InPlaceOutputIsInput | abstract_file_batch.py:358-406 | with `<IN_PLACE>` and neither extension nor suffix every input is its own output, so it is backed up |
| Batch.PrepareDir | abstract_file_batch.py:365-377 | the output directory is made; planning raises exactly when it is missing and is empty, an existing file or below an existing file, with ENOTDIR in the last case |
| Batch.PlanMeaning | abstract_file_batch.py:355-432 | when planning does not raise, the inputs split in order into queued and skipped ones; every queued input gets exactly its job, in order, a backup job exactly when its output is itself; the backups recorded are those of the overwrite jobs; only inputs to be backed up are skipped, and with none skipped every input is queued |
| Batch.PlanStepQueuesJob | abstract_file_batch.py:406-432 | a step that does not raise queues the input's job and records its backup, or, exactly when the input to back up is missing or blocked, skips it and queues nothing |
| Batch.PlanPrefixStep | abstract_file_batch.py:356 | the plan of one more input is one more step |
| Batch.PlanAbortStays | abstract_file_batch.py:373-377 | once planning has raised, later inputs change nothing |
| Batch.MissingInputSkipped | abstract_file_batch.py:406-426 | a step whose input is to be overwritten but no longer exists or cannot be renamed is skipped: nothing is queued or backed up, and planning goes on |
| Batch.DuplicateInputRenameNeverSucceeds | abstract_file_batch.py:406-426 | with the default settings, once an input has been planned it is gone, so, with the queue drained only after planning, no rename of it to any backup name can succeed |
| Batch.DuplicateInputSkipped | abstract_file_batch.py:406-468 | with the default settings, an input given twice is queued once, its second copy is skipped, and `process` returns false without raising |
| Batch.BlockedInputRenameNeverSucceeds | abstract_file_batch.py:406-426 | with the default settings a blocked input is to be backed up, and no rename of it to any backup name succeeds, whatever the files are |
| Batch.BlockedInputSkipped | abstract_file_batch.py:406-468 | with the default settings a blocked input alone is skipped: nothing is queued, no result is produced, the files are unchanged, and `process` returns false without raising |
| Batch.Deleted | abstract_file_batch.py:452-457 | without `noBackup` no file is deleted |
| Batch.AggregateMeaning | abstract_file_batch.py:442-468 | unless a removal raised, errors are reported exactly when some result is truthy and exactly the backups of successful results are deleted with `noBackup`; a removal that raised names such a backup; without `noBackup` nothing is deleted or raised |
| Batch.AggregateAbortStays | abstract_file_batch.py:457 | once a removal has raised, later results change nothing |
| Batch.ProcessMeaning | abstract_file_batch.py:337-468 | when nothing raises there is one result per queued input carrying its job, and every input is queued unless skipped; `process` succeeds exactly when no input was skipped and no result has an error; files are only deleted as backups of successful jobs |
| Batch.ProcessResultsMatchInputs | abstract_file_batch.py:428-439 | one result per queued input with that input's job input and output file; with no input skipped, one per input file |
| Batch.RunOrdering | abstract_file_batch.py:315-334 | no inputs: success and no hook; a failed `preprocess` stops before `process`; otherwise `postprocess` follows `process` with its status and `run` returns that status unless `postprocess` fails |
| Batch.FileBatch.constructor | abstract_file_batch.py:69-80 | the engine starts from the parsed settings with no results |
| Batch.FileBatch.CheckInputs | abstract_file_batch.py:205-310 | the attributes and the outcome are exactly those of the check |
| Batch.FileBatch.CheckInputFiles | abstract_file_batch.py:226-310 | after the input directory is found: the attributes and the outcome are exactly those of the check |
| Batch.FileBatch.SettleOutputDir | abstract_file_batch.py:273-310 | the output directory is resolved, or left stripped when the check raises |
| Batch.FileBatch.NormalizeSettings | abstract_file_batch.py:207-223 | extensions, output extension and input directory are normalised, nothing else changes |
| Batch.FileBatch.GatherCandidates | abstract_file_batch.py:226-261 | the given inputs are split and the candidates are resolved or listed |
| Batch.FileBatch.Process | abstract_file_batch.py:337-468 | result, `self.results` and the file system are exactly those of the process specification; settings unchanged |
| Batch.FileBatch.FinishJobs | abstract_file_batch.py:434-468 | the queue is drained, its results stored and aggregated |
| Batch.FileBatch.PlanJobs | abstract_file_batch.py:354-432 | the loop queues exactly the planned jobs and makes the planned backups and directories; `errors` is set exactly when an input was skipped |
| Batch.FileBatch.PlanOne | abstract_file_batch.py:356-432 | one input is planned as one step, and it reports whether the input was skipped |
| Batch.FileBatch.OutputDirectory | abstract_file_batch.py:359-371 | the output directory of one input, with the substring test and replace-all of the code as written |
| Batch.FileBatch.MakeOutputDir | abstract_file_batch.py:365-377 | the directory is checked and made as the step says, files untouched |
| Batch.FileBatch.QueueFile | abstract_file_batch.py:379-432 | the input's job, after its backup when it is overwritten, goes on the queue; an overwritten input that is missing fails with ENOENT, one that is blocked with its rename error, and neither queues anything |
| Batch.FileBatch.AggregateResults | abstract_file_batch.py:442-468 | the loop reports, deletes and raises exactly as the aggregation says |
| Batch.FileBatch.Run | abstract_file_batch.py:315-334 | the hooks called and the result are those of the run sequence; the state changes only when `process` is called |

## Left out

- Threads and queues (`abstract_file_batch.py:344-351`, 435-439): the pool of `numberThreads` daemon workers is modelled as one worker that drains the queue in order after planning ends. Concurrent workers may take jobs in another order, which changes which of two jobs with the same destination is refused.
- Batch.ProcessSpec: when planning raises part-way (a failed `checkpath` or `os.makedirs`), the model runs none of the jobs queued so far; in the source the daemon threads may already have run some of them.
- Worker.Execute: a completed `processfile` is taken to leave its output as a file; any other effect it has on the file system is not modelled.
- Backup.MakeBackup: a missing input ends the backup with ENOENT and a blocked input (every rename raises, as for EACCES in a read-only directory or ENAMETOOLONG for a name with no room for `.bak`) with its rename error, and the engine skips that input, the corrected rule of "## Findings"; in the source the loop retries until the input reappears, and for ever for a blocked input or when the transform never writes a missing one. Which sources are blocked is a fixed set; a failure that depends on the target's length is modelled only when no backup name escapes it.
- Fs.FileSystem.MakeDirs: only the final directory is created; intermediate directories are not added.
- Text.Lower, Text.Strip, Text.TrimStart, Text.TrimEnd: ASCII only; Unicode case mapping and white space are not modelled.
- Batch.CheckedInputsMeaning, Batch.NormalizedExtensions: separator-freedom of the extensions is stated only for a list separator that is not a lower-case ASCII letter. Lower-casing could otherwise create one; the platform separators `:` and `;` are not letters.
- Batch.ProcessMeaning: the output file of a result is stated as `OutputFileOf`; that the transform wrote it is a property of the user's `processfile`.
- Argument parsing (`abstract_file_batch.py:93-202`), logging, `extras/usage.py`, the Python 2 compatibility import and the guard against instantiating the abstract class are outside the model.
- The user's `checkinputs` hook (line 312) is not called by the model; it runs after the check and may raise.
- Python's `None` for `inputFiles`, `extensions`, `outputExtension` and `outputDir` is modelled as the empty value, which every test in the source treats alike.
- Fs.FileSystem: nothing keeps `files` and `dirs` disjoint, so the model can hold a path for which both `os.path.isfile` and `os.path.isdir` are true, and `Rename` and `CreateFile` may add a file where a directory is; `CheckPath` and `PrepareDir` test for a directory first. A rename onto a directory (IsADirectoryError) is not modelled.
- Fs.FileSystem: paths are compared as plain strings and never normalised, so two spellings of one file (`./a.txt` and `././a.txt`, from `-i a.txt,./a.txt`) are two files in the model; in the source both name the same file, and the second one's backup rename then fails as in the second row of "## Findings".
- Exception messages other than the worker's fixed refusal message are not modelled; errors are the datatype `Fs.Error`.
- `getfiles` works on an abstract tree: each entry says what `os.path.isfile` and `os.path.isdir` return, and the children list is `os.listdir`'s order.

## Findings

| source | as written | input that shows it | evidently intended | confidence | as-written member | corrected member |
|---|---|---|---|---|---|---|
| abstract_file_batch.py:367-371 | for a common output directory, the file's directory is mirrored by testing whether the input directory occurs anywhere in it and then deleting every occurrence of it | input directory `data`, file directory `data/data`: the output directory is `<out>/` instead of `<out>/data`; under the default input directory `.`, every dot goes: `./v1.2` gives `<out>/v12`; an occurrence that is not at the front still appends the rest: `x/in` under `in` gives `outx/` | remove the input directory only as a leading prefix, keeping the relative sub-directory | not executed | OutputDirs.MirroredDirAsWrittenLosesRepeatedName | OutputDirs.MirroredDirKeepsRelativePath |
| abstract_file_batch.py:409-426 | the backup loop retries after any exception of `os.rename` | default settings with the same input given twice (`-i a.txt,a.txt`): the first copy renames `a.txt` to `a.txt.bak`, then every rename of the second copy raises `FileNotFoundError`; the loop spins until a worker writes `a.txt` again, for ever when the transform never writes it (for instance when it raises first) | retry only when the backup target is refused; an input that cannot be backed up is a per-file error: the file is skipped, the run goes on and reports failure | not executed | Batch.DuplicateInputRenameNeverSucceeds | Batch.DuplicateInputSkipped |
| abstract_file_batch.py:409-426 | the backup loop retries after any exception of `os.rename`, with an ever longer name | default settings with an input in a read-only directory (every rename raises `PermissionError`), or an input whose name is 252 to 255 bytes long (`f.bak` and every later name exceed the 255-byte name limit, so every rename raises ENAMETOOLONG): no name is ever accepted and `process` never returns | an input that cannot be renamed is a per-file error: the file is skipped, the run goes on and reports failure | not executed | Batch.BlockedInputRenameNeverSucceeds | Batch.BlockedInputSkipped |

The engine (`OutputDirs.FileOutputDir`, `Batch.FileBatch.OutputDirectory`)
models the code as written, `OutputDirs.MirroredDirAsWritten`;
`OutputDirs.MirroredDir` is the intended rule, and
`OutputDirs.MirroredDirAsWrittenAgrees` shows the two agree whenever the
path below the input directory does not contain the input directory's
name. `OutputDirs.MirroredDirAsWrittenDropsDots` and
`OutputDirs.MirroredDirAsWrittenOffPrefix` are two more inputs on which
they differ.

For the backup loop (second and third rows) the engine uses the
corrected rule: `Fs.FileSystem.Rename` raises ENOENT for a missing source
and its own error for a blocked one, `Backup.MakeBackup` and
`Batch.FileBatch.QueueFile` stop with that error instead of trying
further names, and `Batch.PlanStep` skips the input, queues nothing for
it and goes on; `process` then returns false.
An input that cannot be backed up is treated as a per-file error: it is
not queued and the run goes on. The warnings at
abstract_file_batch.py:413-415 and 423-425 show that the retry is meant
for a candidate name that already exists, not for a missing input.
`Batch.DuplicateInputRenameNeverSucceeds` states why the code as written
does not stop while the input is missing: after the first copy is
planned, every candidate name `Backup.Candidate(f, i)` fails. It holds
in the model, where the queue is drained only after planning; in the
source a worker may write the input again and end the loop.
`Backup.NoCandidateAcceptedUnlessRenamable` states the general fact: some
backup name is accepted exactly when the input exists and is not
blocked, and `Batch.BlockedInputRenameNeverSucceeds` applies it to a
blocked input under the default settings, where nothing can end the
loop.
