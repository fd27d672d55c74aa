/** The worker of convert_thread.py: it takes jobs from its queue one at a
    time, runs the user's transform unless that would overwrite an
    existing file, and puts one result per job on the output queue. The
    pool of workers is modelled as one worker draining the queue in order. */
module Worker {
  import opened Wrappers
  import opened Fs

  /** Lines 30-33. */
  const ExistsMessage: string := "File not converted: file already exists and overwrite is set to False."

  /** What the user's `processfile` does with one pair of paths: it
      returns, or raises an exception whose `str` is `message`. */
  datatype TransformOutcome = Completed | Raised(message: string)

  /** A queued job: line 21 without the instance and the bound method. */
  datatype Job = Job(fileIn: string, fileOut: string, overwrite: bool)

  /** Line 38: what is put on the output queue; `None` means success. */
  datatype JobResult = JobResult(fileIn: string, fileOut: string, error: Option<string>)

  /** Line 26: the transform runs when overwriting is allowed or the
      destination is not an existing file. */
  predicate Invokes(job: Job, files: set<string>)
  {
    job.overwrite || job.fileOut !in files
  }

  /** Lines 21-38 for one job. */
  function Execute(job: Job, files: set<string>, transform: (string, string) -> TransformOutcome): (r: JobResult)
    ensures r.fileIn == job.fileIn && r.fileOut == job.fileOut
    ensures r.error == None <==> Invokes(job, files) && transform(job.fileIn, job.fileOut) == Completed
    ensures !Invokes(job, files) ==> r.error == Some(ExistsMessage)
    ensures Invokes(job, files) && transform(job.fileIn, job.fileOut).Raised?
        ==> r.error == Some(transform(job.fileIn, job.fileOut).message)
  {
    var error :=
      if Invokes(job, files) then
        match transform(job.fileIn, job.fileOut)
        case Completed => None
        case Raised(message) => Some(message)
      else Some(ExistsMessage);
    JobResult(job.fileIn, job.fileOut, error)
  }

  /** The files after one job: a completed transform leaves its destination
      as a file. */
  function FilesAfter(job: Job, files: set<string>, transform: (string, string) -> TransformOutcome): set<string>
  {
    if Invokes(job, files) && transform(job.fileIn, job.fileOut) == Completed then files + {job.fileOut}
    else files
  }

  /** The results and the files after the jobs are taken in order. */
  datatype DrainState = DrainState(results: seq<JobResult>, files: set<string>)

  function Drain(jobs: seq<Job>, files: set<string>, transform: (string, string) -> TransformOutcome): (d: DrainState)
    decreases |jobs|
  {
    if jobs == [] then DrainState([], files)
    else
      var before := Drain(jobs[..|jobs| - 1], files, transform);
      var job := jobs[|jobs| - 1];
      DrainState(before.results + [Execute(job, before.files, transform)],
                 FilesAfter(job, before.files, transform))
  }

  /** Exactly one result per job, in order, each the job's own step run on
      the files as the earlier jobs left them. */
  lemma {:induction false} DrainResults(jobs: seq<Job>, files: set<string>,
                                        transform: (string, string) -> TransformOutcome)
    ensures |Drain(jobs, files, transform).results| == |jobs|
    ensures forall i :: 0 <= i < |jobs| ==>
      Drain(jobs, files, transform).results[i] == Execute(jobs[i], Drain(jobs[..i], files, transform).files, transform)
    decreases |jobs|
  {
    if jobs != [] {
      var prefix := jobs[..|jobs| - 1];
      var before := Drain(prefix, files, transform);
      var results := Drain(jobs, files, transform).results;
      DrainResults(prefix, files, transform);
      assert results == before.results + [Execute(jobs[|prefix|], before.files, transform)];
      forall i | 0 <= i < |jobs|
        ensures results[i] == Execute(jobs[i], Drain(jobs[..i], files, transform).files, transform)
      {
        if i < |prefix| {
          assert jobs[..i] == prefix[..i];
          assert results[i] == before.results[i];
        } else {
          assert jobs[..i] == prefix;
        }
      }
    }
  }

  /** Each result names the paths of its own job. */
  lemma DrainKeepsPaths(jobs: seq<Job>, files: set<string>, transform: (string, string) -> TransformOutcome)
    ensures |Drain(jobs, files, transform).results| == |jobs|
    ensures forall i :: 0 <= i < |jobs| ==>
      Drain(jobs, files, transform).results[i].fileIn == jobs[i].fileIn
      && Drain(jobs, files, transform).results[i].fileOut == jobs[i].fileOut
  {
    DrainResults(jobs, files, transform);
    var results := Drain(jobs, files, transform).results;
    forall i | 0 <= i < |jobs|
      ensures results[i].fileIn == jobs[i].fileIn && results[i].fileOut == jobs[i].fileOut
    {
      var done := Drain(jobs[..i], files, transform).files;
      assert results[i] == Execute(jobs[i], done, transform);
    }
  }

  /** Files are only ever added while the queue is drained. */
  lemma {:induction false} DrainGrowsFiles(jobs: seq<Job>, k: nat, files: set<string>,
                                           transform: (string, string) -> TransformOutcome)
    requires k <= |jobs|
    ensures files <= Drain(jobs[..k], files, transform).files <= Drain(jobs, files, transform).files
    decreases |jobs|
  {
    if jobs != [] {
      var prefix := jobs[..|jobs| - 1];
      if k < |jobs| {
        assert jobs[..k] == prefix[..k];
        DrainGrowsFiles(prefix, k, files, transform);
      } else {
        assert jobs[..k] == jobs;
        DrainGrowsFiles(prefix, 0, files, transform);
      }
    } else {
      assert jobs[..k] == [];
    }
  }

  /** The error carried by a job whose transform is invoked is exactly what
      the transform did; so an overwrite job always runs the transform,
      whether its destination exists or not. */
  lemma OverwriteAlwaysRuns(jobs: seq<Job>, files: set<string>,
                            transform: (string, string) -> TransformOutcome, i: nat)
    requires i < |jobs| && jobs[i].overwrite
    ensures |Drain(jobs, files, transform).results| == |jobs|
    ensures Drain(jobs, files, transform).results[i].error
         == match transform(jobs[i].fileIn, jobs[i].fileOut)
            case Completed => None
            case Raised(message) => Some(message)
  {
    DrainResults(jobs, files, transform);
  }

  /** A job that may not overwrite, whose destination existed before the
      queue was drained, is never run and reports the fixed message. */
  lemma ExistingDestinationRefused(jobs: seq<Job>, files: set<string>,
                                   transform: (string, string) -> TransformOutcome, i: nat)
    requires i < |jobs| && !jobs[i].overwrite && jobs[i].fileOut in files
    ensures |Drain(jobs, files, transform).results| == |jobs|
    ensures Drain(jobs, files, transform).results[i].error == Some(ExistsMessage)
  {
    DrainResults(jobs, files, transform);
    DrainGrowsFiles(jobs[..i], i, files, transform);
    assert jobs[..i][..i] == jobs[..i];
  }

  /** Of two jobs with the same destination, once the first has succeeded
      a later one that may not overwrite is refused. */
  lemma LaterWriterRefused(jobs: seq<Job>, files: set<string>,
                           transform: (string, string) -> TransformOutcome, i: nat, j: nat)
    requires i < j < |jobs| && jobs[i].fileOut == jobs[j].fileOut && !jobs[j].overwrite
    requires |Drain(jobs, files, transform).results| == |jobs|
    requires Drain(jobs, files, transform).results[i].error == None
    ensures Drain(jobs, files, transform).results[j].error == Some(ExistsMessage)
  {
    DrainResults(jobs, files, transform);
    var before := Drain(jobs[..i], files, transform).files;
    assert jobs[..i + 1][..i] == jobs[..i];
    assert jobs[..j][..i + 1] == jobs[..i + 1];
    DrainGrowsFiles(jobs[..j], i + 1, files, transform);
  }

  /** One worker with the two queues it shares with the engine. `unfinished`
      counts the jobs taken but not yet marked done, as `Queue.join`
      waits on. */
  class ConvertThread {
    var queue: seq<Job>
    var outQueue: seq<JobResult>
    var unfinished: nat

    constructor ()
      ensures queue == [] && outQueue == [] && unfinished == 0
    {
      queue, outQueue, unfinished := [], [], 0;
    }

    /** `in_queue.put(job)`. */
    method Put(job: Job)
      modifies this
      ensures queue == old(queue) + [job] && outQueue == old(outQueue)
      ensures unfinished == old(unfinished) + 1
    {
      queue := queue + [job];
      unfinished := unfinished + 1;
    }

    /** Lines 19-39 until the queue is empty: every job taken yields its
        result on the output queue before it is marked done. */
    method Run(fs: FileSystem, transform: (string, string) -> TransformOutcome)
      requires unfinished == |queue|
      modifies this, fs
      ensures queue == [] && unfinished == 0
      ensures outQueue == old(outQueue) + Drain(old(queue), old(fs.files), transform).results
      ensures fs.files == Drain(old(queue), old(fs.files), transform).files
      ensures fs.dirs == old(fs.dirs)
    {
      ghost var jobs := queue;
      ghost var results0 := outQueue;
      var taken := 0;
      while queue != []
        invariant taken <= |jobs| && queue == jobs[taken..]
        invariant unfinished == |queue|
        invariant outQueue == results0 + Drain(jobs[..taken], old(fs.files), transform).results
        invariant fs.files == Drain(jobs[..taken], old(fs.files), transform).files
        invariant fs.dirs == old(fs.dirs)
        decreases |queue|
      {
        var job := queue[0];
        queue := queue[1..];
        assert jobs[..taken + 1][..taken] == jobs[..taken];
        assert jobs[taken] == job;
        var error: Option<string> := None;
        if job.overwrite || job.fileOut !in fs.files {
          match transform(job.fileIn, job.fileOut)
          case Completed =>
            fs.CreateFile(job.fileOut);
          case Raised(message) =>
            error := Some(message);
        } else {
          error := Some(ExistsMessage);
        }
        outQueue := outQueue + [JobResult(job.fileIn, job.fileOut, error)];
        unfinished := unfinished - 1;
        taken := taken + 1;
      }
      assert jobs[..taken] == jobs;
    }
  }
}
