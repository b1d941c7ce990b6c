/** The view model's two status paths over a query result: the one-shot
    mapping `updateDownloadStatus` and the per-firing rule of the 500 ms
    poller `pollDownloadStatus`, the latter folded over a sequence of query
    results. Coroutines, the timer thread and LiveData hand-off are replaced by
    a sequential trace and explicit outputs. */
module MainViewModel {
  import opened Results
  import opened JvmArith
  import opened DownloadQuery

  datatype DownloadStatus =
    | Pending
    | Running(progress: Int32)
    | Paused
    | Successful
    | Failed
    | Cancelled

  /** A reaction to one query: the value posted to the status slot, if any,
      and whether the download is removed from the download service. */
  datatype Report = Report(posted: Option<DownloadStatus>, removeDownload: bool)

  /** `updateDownloadStatus`: no row or an unknown code posts nothing; a
      paused download is removed and reported as cancelled. */
  function UpdateDownloadStatus(q: Query): (r: Report)
    ensures r.posted.Some? <==> q.Some? && IsKnownCode(q.value.status)
    ensures r.removeDownload <==> q.Some? && q.value.status == STATUS_PAUSED
    ensures r.removeDownload ==> r.posted == Some(Cancelled)
    ensures r.posted != Some(Paused)
    ensures q.Some? && q.value.status == STATUS_PENDING ==> r.posted == Some(Pending)
    ensures q.Some? && q.value.status == STATUS_RUNNING ==>
              r.posted == Some(Running(Progress(q.value.totalBytes, q.value.bytesDownloaded)))
    ensures q.Some? && q.value.status == STATUS_SUCCESSFUL ==> r.posted == Some(Successful)
    ensures q.Some? && q.value.status == STATUS_FAILED ==> r.posted == Some(Failed)
  {
    match q
    case None => Report(None, false)
    case Some(row) =>
      if row.status == STATUS_PENDING then Report(Some(Pending), false)
      else if row.status == STATUS_RUNNING then
        Report(Some(Running(Progress(row.totalBytes, row.bytesDownloaded))), false)
      else if row.status == STATUS_PAUSED then Report(Some(Cancelled), true)
      else if row.status == STATUS_SUCCESSFUL then Report(Some(Successful), false)
      else if row.status == STATUS_FAILED then Report(Some(Failed), false)
      else Report(None, false)
  }

  /** `updateDownloadStatus` as written, where a RUNNING row with total size 0
      throws inside the coroutine and nothing is posted; every other query
      gets the guarded mapping's report. */
  function UpdateDownloadStatusAsWritten(q: Query): (r: Result<Report, ArithmeticException>)
    ensures r.Failure? <==> q.Some? && q.value.status == STATUS_RUNNING && q.value.totalBytes == 0
    ensures r.Success? ==> r.value == UpdateDownloadStatus(q)
  {
    if q.Some? && q.value.status == STATUS_RUNNING then
      var row := q.value;
      match ProgressAsWritten(row.totalBytes, row.bytesDownloaded)
      case Success(p) => Success(Report(Some(Running(p)), false))
      case Failure(e) => Failure(e)
    else
      Success(UpdateDownloadStatus(q))
  }

  /** The status code a status value is produced from; `Paused` is produced
      from none. */
  function SourceCode(s: DownloadStatus): Option<Int32>
  {
    match s
    case Pending => Some(STATUS_PENDING)
    case Running(_) => Some(STATUS_RUNNING)
    case Paused => None
    case Successful => Some(STATUS_SUCCESSFUL)
    case Failed => Some(STATUS_FAILED)
    case Cancelled => Some(STATUS_PAUSED)
  }

  /** The mapping and `SourceCode` are inverse: every posted value leads back
      to the row's code, and every producible value is posted for its code
      (a running value for a row of 100 bytes of which `progress` are done,
      whatever its sign or size). */
  lemma UpdateDownloadStatusRoundTrip(q: Query, s: DownloadStatus)
    ensures UpdateDownloadStatus(q).posted == Some(s) ==> SourceCode(s) == Some(q.value.status)
    ensures SourceCode(s).Some? && !s.Running? ==>
              forall total: Int64, downloaded: Int64 ::
                UpdateDownloadStatus(Some(Row(SourceCode(s).value, total, downloaded))).posted == Some(s)
    ensures s.Running? ==> UpdateDownloadStatus(Some(Row(STATUS_RUNNING, 100, s.progress))).posted == Some(s)
  {
    if s.Running? {
      assert LongMul(s.progress, 100) == s.progress * 100;
      assert TruncDiv(s.progress * 100, 100) == s.progress;
    }
  }

  /** Codes that make the poller stop: the download has left the queue. */
  predicate Settles(q: Query)
  {
    q.Some? && (q.value.status == STATUS_RUNNING || q.value.status == STATUS_PAUSED
                || q.value.status == STATUS_SUCCESSFUL || q.value.status == STATUS_FAILED)
  }

  /** One firing of the poller's timer task: what it posts, whether it removes
      the download, and whether it cancels itself. */
  datatype PollStep = PollStep(posted: Option<DownloadStatus>, removeDownload: bool, cancel: bool)

  /** The timer task body: PENDING posts nothing (its post is commented out),
      RUNNING posts `Running(0)` whatever the byte counts, PAUSED removes the
      download and posts `Cancelled`; every posting firing cancels the task. */
  function PollTick(q: Query): (r: PollStep)
    ensures r.cancel <==> Settles(q)
    ensures r.posted.Some? <==> r.cancel
    ensures !Settles(q) ==> r == PollStep(None, false, false)
    ensures r.removeDownload <==> q.Some? && q.value.status == STATUS_PAUSED
    ensures q.Some? && q.value.status == STATUS_RUNNING ==> r.posted == Some(Running(0))
    ensures q.Some? && q.value.status == STATUS_PAUSED ==> r.posted == Some(Cancelled)
    ensures q.Some? && q.value.status == STATUS_SUCCESSFUL ==> r.posted == Some(Successful)
    ensures q.Some? && q.value.status == STATUS_FAILED ==> r.posted == Some(Failed)
    ensures r.posted != Some(Paused)
  {
    match q
    case None => PollStep(None, false, false)
    case Some(row) =>
      if row.status == STATUS_PENDING then PollStep(None, false, false)
      else if row.status == STATUS_RUNNING then PollStep(Some(Running(0)), false, true)
      else if row.status == STATUS_PAUSED then PollStep(Some(Cancelled), true, true)
      else if row.status == STATUS_SUCCESSFUL then PollStep(Some(Successful), false, true)
      else if row.status == STATUS_FAILED then PollStep(Some(Failed), false, true)
      else PollStep(None, false, false)
  }

  /** Apart from the running progress and the silent PENDING, a poller firing
      posts what the one-shot mapping posts, with the same removal. */
  lemma PollTickAgreesWithUpdate(q: Query)
    ensures var r := PollTick(q); var u := UpdateDownloadStatus(q);
            && r.removeDownload == u.removeDownload
            && (Settles(q) && !u.posted.value.Running? ==> r.posted == u.posted)
            && (Settles(q) && u.posted.value.Running? ==> r.posted == Some(Running(0)))
            && (!Settles(q) ==> r.posted == None)
  {
  }

  /** What a poller run leaves behind: the values it published in order,
      whether it removed the download, and how many firings ran before it was
      cancelled (or the trace ended). */
  datatype PollRun = PollRun(published: seq<DownloadStatus>, removed: bool, firings: nat)

  /** The poller over a trace of query results, one per 500 ms firing. */
  function Poll(trace: seq<Query>): (r: PollRun)
    ensures r.firings <= |trace|
    decreases |trace|
  {
    if |trace| == 0 then PollRun([], false, 0)
    else
      var step := PollTick(trace[0]);
      var posted := if step.posted.Some? then [step.posted.value] else [];
      if step.cancel then PollRun(posted, step.removeDownload, 1)
      else
        var rest := Poll(trace[1..]);
        PollRun(posted + rest.published, step.removeDownload || rest.removed, rest.firings + 1)
  }

  /** Index `i` is the first query of the trace that settles. */
  predicate FirstSettling(trace: seq<Query>, i: int)
  {
    0 <= i < |trace| && Settles(trace[i]) && forall k :: 0 <= k < i ==> !Settles(trace[k])
  }

  /** Over any trace the poller publishes at most one value: nothing (and it
      keeps firing to the end) when no query settles, otherwise the poller
      mapping of the first settling query, after which it stops. */
  lemma {:induction false} PollPublishesFirstSettling(trace: seq<Query>)
    ensures |Poll(trace).published| <= 1
    ensures Poll(trace).published == [] <==> forall k :: 0 <= k < |trace| ==> !Settles(trace[k])
    ensures Poll(trace).published == [] ==> Poll(trace).firings == |trace| && !Poll(trace).removed
    ensures forall i :: FirstSettling(trace, i) ==>
              && Poll(trace).published == [PollTick(trace[i]).posted.value]
              && Poll(trace).firings == i + 1
              && (Poll(trace).removed <==> trace[i].value.status == STATUS_PAUSED)
    decreases |trace|
  {
    if |trace| > 0 && !Settles(trace[0]) {
      var tail := trace[1..];
      PollPublishesFirstSettling(tail);
      assert forall k :: 1 <= k < |trace| ==> trace[k] == tail[k - 1];
      forall i | FirstSettling(trace, i)
        ensures FirstSettling(tail, i - 1)
      {
        assert i != 0;
        forall k | 0 <= k < i - 1 ensures !Settles(tail[k]) {
          assert tail[k] == trace[k + 1];
        }
      }
    }
  }

  /** The poller's worked trace: two pending answers, then running, then
      success — it publishes `Running(0)` once and stops after three firings. */
  lemma PollExample(total: Int64, downloaded: Int64)
    ensures var trace := [Some(Row(STATUS_PENDING, -1, 0)), None,
                          Some(Row(STATUS_RUNNING, total, downloaded)),
                          Some(Row(STATUS_SUCCESSFUL, total, total))];
            Poll(trace) == PollRun([Running(0)], false, 3)
  {
    var trace := [Some(Row(STATUS_PENDING, -1, 0)), None,
                  Some(Row(STATUS_RUNNING, total, downloaded)),
                  Some(Row(STATUS_SUCCESSFUL, total, total))];
    PollPublishesFirstSettling(trace);
    assert FirstSettling(trace, 2);
  }
}
