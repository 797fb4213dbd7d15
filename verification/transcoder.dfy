/** The background transcoder: the per-job step sequence that turns a
    pending lossy row into a completed (or failed) MP3, the creation of that
    row for a new version, and the hand-off of the job to the worker queue.
    The database, ffmpeg, the file system and the notifier are replaced by
    the outcomes they report, fixed in advance in a `JobEnv`. */
module Transcoder {
  import opened Wrappers
  import opened Models
  import GoPath
  import Text

  datatype Job = Job(
    trackFileId: int,
    versionId: int,
    trackPublicId: string,
    userId: int,
    sourcePath: string,
    outputPath: string)

  /** What each external step of one job reports: whether each database
      write succeeds, whether ffmpeg succeeds, the size `os.Stat` sees (None
      when it fails), the waveform generator's result, and whether a
      notifier is installed. */
  datatype JobEnv = JobEnv(
    processingWriteOk: bool,
    encodeOk: bool,
    outputSize: Option<int>,
    sizeWriteOk: bool,
    waveform: Result<string, string>,
    waveformWriteOk: bool,
    failedWriteOk: bool,
    completedWriteOk: bool,
    hasNotifier: bool)

  /** One observable step of a job, in the order it happens. */
  datatype Effect =
    | WriteStatus(status: TranscodingStatus, ok: bool)
    | Notify(userId: int, trackPublicId: string, versionId: int, status: TranscodingStatus)
    | Encode(input: string, output: string, ok: bool)
    | WriteSize(size: int, ok: bool)
    | GenerateWaveform(input: string, bars: int)
    | WriteWaveform(json: string, ok: bool)

  /** The number of bars the job asks the waveform generator for. */
  const WaveformBars := 200

  /** `notify`: a notification only when a notifier is installed. */
  function NotifyStep(job: Job, env: JobEnv, s: TranscodingStatus): (es: seq<Effect>)
    ensures env.hasNotifier ==> es == [Notify(job.userId, job.trackPublicId, job.versionId, s)]
    ensures !env.hasNotifier ==> es == []
  {
    if env.hasNotifier then [Notify(job.userId, job.trackPublicId, job.versionId, s)] else []
  }

  function SizeStep(env: JobEnv): seq<Effect> {
    match env.outputSize
    case None => []
    case Some(n) => [WriteSize(n, env.sizeWriteOk)]
  }

  function WaveformStep(env: JobEnv): seq<Effect> {
    match env.waveform
    case Err(_) => []
    case Ok(json) => [WriteWaveform(json, env.waveformWriteOk)]
  }

  predicate IsNotifyOf(e: Effect, s: TranscodingStatus) {
    e.Notify? && e.status == s
  }

  /** The "processing" write, its notification and the encode. */
  function HeadSteps(job: Job, env: JobEnv): seq<Effect> {
    [WriteStatus(Processing, true)] + NotifyStep(job, env, Processing)
    + [Encode(job.sourcePath, job.outputPath, env.encodeOk)]
  }

  /** The steps after a failed encode: the "failed" write (its result is
      ignored) and the notification. */
  function FailSteps(job: Job, env: JobEnv): seq<Effect> {
    [WriteStatus(Failed, env.failedWriteOk)] + NotifyStep(job, env, Failed)
  }

  /** The steps after a successful encode: size, waveform, then the
      "completed" write and its notification. */
  function FinishSteps(job: Job, env: JobEnv): seq<Effect> {
    SizeStep(env)
    + [GenerateWaveform(job.sourcePath, WaveformBars)]
    + WaveformStep(env)
    + [WriteStatus(Completed, env.completedWriteOk)]
    + (if env.completedWriteOk then NotifyStep(job, env, Completed) else [])
  }

  /** `processJob`: the effects one job produces, in order. The
      "processing" write always comes first, and when it fails nothing
      follows it. */
  function ProcessJob(job: Job, env: JobEnv): (trace: seq<Effect>)
    ensures |trace| >= 1 && trace[0] == WriteStatus(Processing, env.processingWriteOk)
    ensures !env.processingWriteOk <==> |trace| == 1
  {
    if !env.processingWriteOk then [WriteStatus(Processing, false)]
    else HeadSteps(job, env) + if !env.encodeOk then FailSteps(job, env) else FinishSteps(job, env)
  }

  /** ffmpeg runs, on the job's own paths, exactly when the job got past
      the "processing" write. */
  lemma EncodeRunsIffProcessingWritten(job: Job, env: JobEnv)
    ensures (exists i :: 0 <= i < |ProcessJob(job, env)| && ProcessJob(job, env)[i].Encode?) <==> env.processingWriteOk
    ensures forall i :: 0 <= i < |ProcessJob(job, env)| && ProcessJob(job, env)[i].Encode? ==>
              ProcessJob(job, env)[i] == Encode(job.sourcePath, job.outputPath, env.encodeOk)
  {
    var trace := ProcessJob(job, env);
    if env.processingWriteOk {
      var head := HeadSteps(job, env);
      assert trace[|head| - 1] == head[|head| - 1];
      var tail := trace[|head|..];
      assert forall i :: 0 <= i < |tail| ==> !tail[i].Encode?;
    }
  }

  /** "processing" is announced (when there is a notifier) before the
      encode starts, and only when its write succeeded. */
  lemma ProcessingNotifiedBeforeEncode(job: Job, env: JobEnv)
    ensures forall i, j :: 0 <= i < |ProcessJob(job, env)| && 0 <= j < |ProcessJob(job, env)|
              && IsNotifyOf(ProcessJob(job, env)[i], Processing) && ProcessJob(job, env)[j].Encode?
              ==> i < j
    ensures (exists i :: 0 <= i < |ProcessJob(job, env)| && IsNotifyOf(ProcessJob(job, env)[i], Processing)) <==>
              env.processingWriteOk && env.hasNotifier
  {
    var trace := ProcessJob(job, env);
    if env.processingWriteOk {
      var head := HeadSteps(job, env);
      var tail := if !env.encodeOk then FailSteps(job, env) else FinishSteps(job, env);
      assert trace == head + tail;
      assert forall i :: 0 <= i < |tail| ==> !tail[i].Encode? && !IsNotifyOf(tail[i], Processing);
      PositionsInHead(job, env, tail);
      if env.hasNotifier {
        assert IsNotifyOf(trace[1], Processing);
      }
    }
  }

  lemma PositionsInHead(job: Job, env: JobEnv, tail: seq<Effect>)
    requires forall i :: 0 <= i < |tail| ==> !tail[i].Encode? && !IsNotifyOf(tail[i], Processing)
    ensures var t := HeadSteps(job, env) + tail;
            && (forall j :: 0 <= j < |t| && t[j].Encode? ==> j == |HeadSteps(job, env)| - 1)
            && (forall i :: 0 <= i < |t| && IsNotifyOf(t[i], Processing) ==> i == 1 && env.hasNotifier)
            && |HeadSteps(job, env)| == (if env.hasNotifier then 3 else 2)
  {
    var head := HeadSteps(job, env);
    var t := head + tail;
    assert forall k :: |head| <= k < |t| ==> t[k] == tail[k - |head|];
  }

  /** A failed encode writes "failed" and announces it whatever that
      write reports, and touches neither the size nor the waveform. */
  lemma EncodeFailureSteps(job: Job, env: JobEnv)
    requires env.processingWriteOk && !env.encodeOk
    ensures var trace := ProcessJob(job, env);
            && trace[|trace| - 1 - |NotifyStep(job, env, Failed)|] == WriteStatus(Failed, env.failedWriteOk)
            && (env.hasNotifier ==> trace[|trace| - 1] == Notify(job.userId, job.trackPublicId, job.versionId, Failed))
            && forall i :: 0 <= i < |trace| ==> !trace[i].WriteSize? && !trace[i].GenerateWaveform? && !trace[i].WriteWaveform?
  {
  }

  /** The waveform is generated from the source file with 200 bars, and
      exactly when the encode succeeded. */
  lemma WaveformFromSource(job: Job, env: JobEnv)
    ensures GenerateWaveform(job.sourcePath, WaveformBars) in ProcessJob(job, env) <==> env.processingWriteOk && env.encodeOk
    ensures forall i :: 0 <= i < |ProcessJob(job, env)| && ProcessJob(job, env)[i].GenerateWaveform? ==>
              ProcessJob(job, env)[i] == GenerateWaveform(job.sourcePath, WaveformBars)
  {
    var trace := ProcessJob(job, env);
    if env.processingWriteOk && env.encodeOk {
      var head := HeadSteps(job, env);
      assert trace[|head| + |SizeStep(env)|] == GenerateWaveform(job.sourcePath, WaveformBars);
    }
  }

  /** After a successful encode "completed" is written whatever the
      waveform generator did, and it is announced exactly when that write
      succeeded. */
  lemma CompletedNotifiedIffWritten(job: Job, env: JobEnv)
    ensures env.processingWriteOk && env.encodeOk ==> WriteStatus(Completed, env.completedWriteOk) in ProcessJob(job, env)
    ensures (exists i :: 0 <= i < |ProcessJob(job, env)| && IsNotifyOf(ProcessJob(job, env)[i], Completed)) <==>
              env.processingWriteOk && env.encodeOk && env.completedWriteOk && env.hasNotifier
  {
    var trace := ProcessJob(job, env);
    if env.processingWriteOk {
      var head := HeadSteps(job, env);
      assert forall i :: 0 <= i < |head| ==> !IsNotifyOf(head[i], Completed);
      if env.encodeOk {
        var pre := head + SizeStep(env) + [GenerateWaveform(job.sourcePath, WaveformBars)] + WaveformStep(env);
        assert trace == pre + [WriteStatus(Completed, env.completedWriteOk)]
                        + (if env.completedWriteOk then NotifyStep(job, env, Completed) else []);
        assert trace[|pre|] == WriteStatus(Completed, env.completedWriteOk);
        assert forall i :: 0 <= i < |pre| ==> !IsNotifyOf(trace[i], Completed);
        if env.completedWriteOk && env.hasNotifier {
          assert IsNotifyOf(trace[|pre| + 1], Completed);
        }
      } else {
        assert forall i :: 0 <= i < |trace| ==> !IsNotifyOf(trace[i], Completed);
      }
    }
  }

  // ---------------------------------------------------------------------------
  // The status the row ends up with

  /** The statuses actually persisted, in order: the successful status
      writes of a trace. */
  function PersistedStatuses(trace: seq<Effect>): seq<TranscodingStatus> {
    if trace == [] then []
    else
      var rest := PersistedStatuses(trace[1..]);
      if trace[0].WriteStatus? && trace[0].ok then [trace[0].status] + rest else rest
  }

  lemma {:induction false} PersistedStatusesAppend(a: seq<Effect>, b: seq<Effect>)
    ensures PersistedStatuses(a + b) == PersistedStatuses(a) + PersistedStatuses(b)
    decreases |a|
  {
    if a == [] {
      assert a + b == b;
    } else {
      assert (a + b)[0] == a[0];
      assert (a + b)[1..] == a[1..] + b;
      PersistedStatusesAppend(a[1..], b);
      var h: seq<TranscodingStatus> := if a[0].WriteStatus? && a[0].ok then [a[0].status] else [];
      assert PersistedStatuses(a) == h + PersistedStatuses(a[1..]);
      assert PersistedStatuses(a + b) == h + PersistedStatuses(a[1..] + b);
      assert h + (PersistedStatuses(a[1..]) + PersistedStatuses(b)) == (h + PersistedStatuses(a[1..])) + PersistedStatuses(b);
    }
  }

  /** The transcoding state machine: pending, then processing, then
      completed or failed. */
  predicate Transition(from: TranscodingStatus, to: TranscodingStatus) {
    (from == Pending && to == Processing)
    || (from == Processing && (to == Completed || to == Failed))
  }

  predicate FollowsMachine(start: TranscodingStatus, path: seq<TranscodingStatus>)
    decreases |path|
  {
    path == [] || (Transition(start, path[0]) && FollowsMachine(path[0], path[1..]))
  }

  /** The status a row has after `trace`, starting from `start`. */
  function FinalStatus(start: TranscodingStatus, trace: seq<Effect>): TranscodingStatus {
    var p := PersistedStatuses(trace);
    if p == [] then start else p[|p| - 1]
  }

  lemma PersistedOfNonStatus(es: seq<Effect>)
    requires forall i :: 0 <= i < |es| ==> !es[i].WriteStatus?
    ensures PersistedStatuses(es) == []
    decreases |es|
  {
    if es != [] {
      PersistedOfNonStatus(es[1..]);
    }
  }

  lemma PersistedOfStatusWrite(st: TranscodingStatus, ok: bool, rest: seq<Effect>)
    requires forall i :: 0 <= i < |rest| ==> !rest[i].WriteStatus?
    ensures PersistedStatuses([WriteStatus(st, ok)] + rest) == if ok then [st] else []
  {
    assert ([WriteStatus(st, ok)] + rest)[1..] == rest;
    PersistedOfNonStatus(rest);
  }

  lemma PersistedOfHead(job: Job, env: JobEnv)
    ensures PersistedStatuses(HeadSteps(job, env)) == [Processing]
  {
    var tail := NotifyStep(job, env, Processing) + [Encode(job.sourcePath, job.outputPath, env.encodeOk)];
    assert HeadSteps(job, env) == [WriteStatus(Processing, true)] + tail;
    PersistedOfStatusWrite(Processing, true, tail);
  }

  lemma PersistedOfFail(job: Job, env: JobEnv)
    ensures PersistedStatuses(FailSteps(job, env)) == if env.failedWriteOk then [Failed] else []
  {
    PersistedOfStatusWrite(Failed, env.failedWriteOk, NotifyStep(job, env, Failed));
  }

  lemma PersistedOfFinish(job: Job, env: JobEnv)
    ensures PersistedStatuses(FinishSteps(job, env)) == if env.completedWriteOk then [Completed] else []
  {
    var pre := SizeStep(env) + [GenerateWaveform(job.sourcePath, WaveformBars)] + WaveformStep(env);
    var n := if env.completedWriteOk then NotifyStep(job, env, Completed) else [];
    assert FinishSteps(job, env) == pre + ([WriteStatus(Completed, env.completedWriteOk)] + n);
    PersistedOfNonStatus(pre);
    PersistedOfStatusWrite(Completed, env.completedWriteOk, n);
    PersistedStatusesAppend(pre, [WriteStatus(Completed, env.completedWriteOk)] + n);
  }

  /** Which statuses a job persists: "processing" first when that write
      succeeds, then "failed" or "completed" when those writes succeed. */
  lemma ProcessJobPersists(job: Job, env: JobEnv)
    ensures PersistedStatuses(ProcessJob(job, env)) ==
              if !env.processingWriteOk then []
              else if !env.encodeOk then [Processing] + (if env.failedWriteOk then [Failed] else [])
              else [Processing] + (if env.completedWriteOk then [Completed] else [])
  {
    if !env.processingWriteOk {
      PersistedOfStatusWrite(Processing, false, []);
      assert ProcessJob(job, env) == [WriteStatus(Processing, false)] + [];
    } else {
      PersistedOfHead(job, env);
      if !env.encodeOk {
        PersistedOfFail(job, env);
        PersistedStatusesAppend(HeadSteps(job, env), FailSteps(job, env));
      } else {
        PersistedOfFinish(job, env);
        PersistedStatusesAppend(HeadSteps(job, env), FinishSteps(job, env));
      }
    }
  }

  /** Every status a job persists is a legal step of the state machine,
      starting from the "pending" the row was created with. */
  lemma ProcessJobFollowsMachine(job: Job, env: JobEnv)
    ensures FollowsMachine(Pending, PersistedStatuses(ProcessJob(job, env)))
  {
    ProcessJobPersists(job, env);
  }

  /** The row ends "completed" exactly when the encode and the final
      write succeed; a failing waveform does not matter. */
  lemma CompletedIff(job: Job, env: JobEnv)
    ensures FinalStatus(Pending, ProcessJob(job, env)) == Completed <==>
              env.processingWriteOk && env.encodeOk && env.completedWriteOk
  {
    ProcessJobPersists(job, env);
  }

  /** A waveform failure still leaves a completed row (given the status
      writes succeed) and no waveform stored. */
  lemma WaveformFailureStillCompletes(job: Job, env: JobEnv)
    requires env.processingWriteOk && env.encodeOk && env.completedWriteOk && env.waveform.Err?
    ensures FinalStatus(Pending, ProcessJob(job, env)) == Completed
    ensures forall i :: 0 <= i < |ProcessJob(job, env)| ==> !ProcessJob(job, env)[i].WriteWaveform?
  {
    ProcessJobPersists(job, env);
    var trace := ProcessJob(job, env);
    assert WaveformStep(env) == [];
    var n := NotifyStep(job, env, Completed);
    assert trace == HeadSteps(job, env) + SizeStep(env) + [GenerateWaveform(job.sourcePath, WaveformBars)]
                    + [WriteStatus(Completed, true)] + n;
  }

  /** An encode failure ends "failed" when that write succeeds, and is
      stuck in "processing" when it does not. */
  lemma EncodeFailureStatus(job: Job, env: JobEnv)
    requires env.processingWriteOk && !env.encodeOk
    ensures FinalStatus(Pending, ProcessJob(job, env)) == (if env.failedWriteOk then Failed else Processing)
  {
    ProcessJobPersists(job, env);
  }

  // ---------------------------------------------------------------------------
  // Creating the lossy row for a version

  datatype TranscodeVersionInput = TranscodeVersionInput(
    versionId: int,
    sourceFilePath: string,
    trackPublicId: string,
    userId: int)

  /** Where the MP3 of a version goes: "lossy.mp3" next to its source. */
  function LossyPath(source: string): string {
    GoPath.Join(GoPath.Dir(source), "lossy.mp3")
  }

  /** The lossy path's last element is "lossy.mp3", so its extension is
      ".mp3". */
  lemma LossyPathShape(source: string)
    ensures Text.HasSuffix(LossyPath(source), "lossy.mp3")
    ensures |LossyPath(source)| == 9 || LossyPath(source)[|LossyPath(source)| - 10] == '/'
    ensures GoPath.Ext(LossyPath(source)) == ".mp3"
  {
    var p := LossyPath(source);
    GoPath.JoinEndsWithName(GoPath.Dir(source), "lossy.mp3");
    var stem := p[..|p| - 4];
    assert p == stem + "." + "mp3";
    GoPath.ExtOfAppendedExtension(stem, "mp3");
  }

  /** `TranscodeVersion`: `created` is what the row insert reports (the new
      row's id, or an error). On success the pending row and the job that
      is handed to `QueueJob` are returned; on failure there is no job. */
  function TranscodeVersion(input: TranscodeVersionInput, created: Result<int, string>): (r: Result<(TrackFile, Job), string>)
    ensures r.Err? <==> created.Err?
    ensures r.Ok? ==>
              var (row, job) := r.value;
              && row.id == created.value
              && row.versionId == input.versionId
              && row.quality == Lossy.Name()
              && row.path == LossyPath(input.sourceFilePath)
              && row.size == 0
              && row.format == "mp3"
              && row.bitrate == Some(320000)
              && row.status == Some(Pending)
              && job == Job(row.id, input.versionId, input.trackPublicId, input.userId, input.sourceFilePath, row.path)
  {
    match created
    case Err(e) => Err("failed to create track file record: " + e)
    case Ok(id) =>
      var path := LossyPath(input.sourceFilePath);
      var row := TrackFile(id, input.versionId, Lossy.Name(), path, 0, "mp3", Some(320000), Some(Pending), None);
      Ok((row, Job(id, input.versionId, input.trackPublicId, input.userId, input.sourceFilePath, path)))
  }

  // ---------------------------------------------------------------------------
  // Handing a job to the workers

  /** The buffer size of the job channel. */
  const QueueCapacity := 100

  /** `Running`; `Cancelled` once `Stop` has cancelled the context; `Closed`
      once it has also closed the channel. */
  datatype Lifecycle = Running | Cancelled | Closed

  datatype QueueState = QueueState(jobs: seq<Job>, life: Lifecycle)

  datatype QueueOutcome = Enqueued | Dropped | Blocked | Panicked

  /** `QueueJob` as written: a `select` between sending on the channel and
      the cancelled context. Go picks at random among the ready cases;
      `coin` stands for that choice. A send on a closed channel is ready
      and panics. */
  function QueueJobAsWritten(q: QueueState, job: Job, coin: bool): (r: (QueueOutcome, QueueState))
    ensures r.0 == Enqueued <==> r.1.jobs == q.jobs + [job]
    ensures r.0 != Enqueued ==> r.1 == q
    ensures r.0 == Panicked ==> q.life == Closed
  {
    var room := |q.jobs| < QueueCapacity;
    match q.life
    case Running => if room then (Enqueued, q.(jobs := q.jobs + [job])) else (Blocked, q)
    case Cancelled =>
      if room && coin then (Enqueued, q.(jobs := q.jobs + [job])) else (Dropped, q)
    case Closed => if coin then (Panicked, q) else (Dropped, q)
  }

  /** After `Stop`, the as-written `QueueJob` can panic instead of
      refusing the job. */
  lemma QueueAfterStopCanPanic(jobs: seq<Job>, job: Job)
    ensures QueueJobAsWritten(QueueState(jobs, Closed), job, true).0 == Panicked
  {
  }

  /** `QueueJob` as intended: once shutdown has begun the job is refused;
      otherwise it is appended, or the caller waits while the buffer is
      full. */
  function QueueJob(q: QueueState, job: Job): (r: (QueueOutcome, QueueState))
    ensures r.0 != Panicked
    ensures q.life != Running ==> r == (Dropped, q)
    ensures q.life == Running ==> (r.0 == Enqueued <==> |q.jobs| < QueueCapacity)
    ensures r.0 == Enqueued ==> r.1.jobs == q.jobs + [job] && r.1.life == q.life
    ensures r.0 != Enqueued ==> r.1 == q
  {
    if q.life != Running then (Dropped, q)
    else if |q.jobs| < QueueCapacity then (Enqueued, q.(jobs := q.jobs + [job]))
    else (Blocked, q)
  }

  /** The two agree whenever the transcoder is running. */
  lemma QueueJobAgreesWhileRunning(q: QueueState, job: Job, coin: bool)
    requires q.life == Running
    ensures QueueJobAsWritten(q, job, coin) == QueueJob(q, job)
  {
  }

  /** `TranscodeVersion` followed by `QueueJob`: a job is queued only for
      a row that was actually created. */
  function SubmitVersion(q: QueueState, input: TranscodeVersionInput, created: Result<int, string>): (r: (Result<TrackFile, string>, QueueState))
    ensures created.Err? ==> r.0.Err? && r.1 == q
    ensures |r.1.jobs| <= |q.jobs| + 1
    ensures r.1.jobs != q.jobs ==>
              && r.0.Ok?
              && r.1.jobs == q.jobs + [Job(r.0.value.id, input.versionId, input.trackPublicId, input.userId, input.sourceFilePath, r.0.value.path)]
  {
    match TranscodeVersion(input, created)
    case Err(e) => (Err(e), q)
    case Ok((row, job)) => (Ok(row), QueueJob(q, job).1)
  }
}
