/** The activity's reaction logic with the platform replaced by inputs and
    outputs: the radio selection behind the button's click listener, the
    status probe `getDownloadStatus`, the button driver
    `updateDownloadProgress`, and the completion broadcast receiver. Calls
    into the button (`animateTo`, `reset`), the download service (enqueue),
    the main-looper handler (delayed re-poll) and the notification manager
    are emitted as `Effect`s in call order. */
module MainActivity {
  import opened Results
  import opened JvmArith
  import opened DownloadQuery

  /** The checked radio button; `Unrecognised` is any other id (-1 when none is checked). */
  datatype RadioChoice = RadioGlide | RadioLoadApp | RadioRetrofit | Unrecognised(id: Int32)

  /** String resources the logic chooses between. */
  datatype Text =
    | ButtonGlide | ButtonLoadApp | ButtonRetrofit
    | SelectFile
    | DownloadStatusSuccessful | DownloadStatusFailed | DownloadStatusIncomplete

  const URL_GLIDE: string := "https://github.com/bumptech/glide/archive/master.zip"
  const URL_LOADAPP: string :=
    "https://github.com/udacity/nd940-c3-advanced-android-programming-project-starter/archive/master.zip"
  const URL_RETROFIT: string := "https://github.com/square/retrofit/archive/master.zip"

  /** A download target: the URL to fetch and the name shown for it. */
  datatype Selection = Selection(url: string, name: Text)

  /** The `when` over the checked radio button id. */
  function Select(choice: RadioChoice): (r: Option<Selection>)
    ensures r.None? <==> choice.Unrecognised?
    ensures choice == RadioGlide ==> r == Some(Selection(URL_GLIDE, ButtonGlide))
    ensures choice == RadioLoadApp ==> r == Some(Selection(URL_LOADAPP, ButtonLoadApp))
    ensures choice == RadioRetrofit ==> r == Some(Selection(URL_RETROFIT, ButtonRetrofit))
  {
    match choice
    case RadioGlide => Some(Selection(URL_GLIDE, ButtonGlide))
    case RadioLoadApp => Some(Selection(URL_LOADAPP, ButtonLoadApp))
    case RadioRetrofit => Some(Selection(URL_RETROFIT, ButtonRetrofit))
    case Unrecognised(_) => None
  }

  /** Distinct radio buttons select distinct URLs and distinct names, and the
      URL alone determines the radio button. */
  lemma SelectIsInjective(c1: RadioChoice, c2: RadioChoice)
    requires Select(c1).Some? && Select(c2).Some?
    ensures Select(c1).value.url == Select(c2).value.url <==> c1 == c2
    ensures Select(c1).value.name == Select(c2).value.name <==> c1 == c2
  {
    // The three URLs have different lengths.
    assert |URL_GLIDE| == 52 && |URL_RETROFIT| == 53 && |URL_LOADAPP| > 53;
  }

  /** The activity's own fields; `downloadName` is `None` while it is still "". */
  datatype Activity = Activity(downloadId: Int64, downloadName: Option<Text>,
                               downloadProgress: Int32, buttonEnabled: bool)

  /** The field initialisers: no download yet, empty name, progress 0, button enabled. */
  const Initial: Activity := Activity(0, None, 0, true)

  /** Calls out of the activity, in the order they are made. */
  datatype Effect =
    | ShowToast(text: Text)
    | Enqueue(url: string)
    | AnimateTo(percentage: Int32)
    | ResetButton
    | RepollAfter(delayMs: nat)
    | Notify(fileName: Option<Text>, status: Text)

  /** The pair `getDownloadStatus` returns: the status code and a percentage. */
  datatype Snapshot = Snapshot(code: Int32, progress: Int32)

  /** `getDownloadStatus`'s result together with the re-poll it schedules. */
  datatype Probe = Probe(snapshot: Option<Snapshot>, effects: seq<Effect>)

  /** `getDownloadStatus`: `None` without a row; otherwise the code with a
      percentage that is computed for RUNNING only. A PENDING row also
      schedules `updateDownloadProgress` 500 ms later. */
  function GetDownloadStatus(q: Query): (r: Probe)
    ensures r.snapshot.None? <==> q.None?
    ensures q.Some? ==> r.snapshot.value.code == q.value.status
    ensures q.Some? && q.value.status != STATUS_RUNNING ==> r.snapshot.value.progress == 0
    ensures q.Some? && q.value.status == STATUS_RUNNING ==>
              r.snapshot.value.progress == Progress(q.value.totalBytes, q.value.bytesDownloaded)
    ensures r.effects == if q.Some? && q.value.status == STATUS_PENDING then [RepollAfter(500)] else []
  {
    match q
    case None => Probe(None, [])
    case Some(row) =>
      var effects := if row.status == STATUS_PENDING then [RepollAfter(500)] else [];
      var progress := if row.status == STATUS_RUNNING then Progress(row.totalBytes, row.bytesDownloaded) else 0;
      Probe(Some(Snapshot(row.status, progress)), effects)
  }

  /** `getDownloadStatus` as written: a RUNNING row with total size 0 throws
      on the main thread; every other query gets the guarded probe. */
  function GetDownloadStatusAsWritten(q: Query): (r: Result<Probe, ArithmeticException>)
    ensures r.Failure? <==> q.Some? && q.value.status == STATUS_RUNNING && q.value.totalBytes == 0
    ensures r.Success? ==> r.value == GetDownloadStatus(q)
  {
    if q.Some? && q.value.status == STATUS_RUNNING then
      var row := q.value;
      match ProgressAsWritten(row.totalBytes, row.bytesDownloaded)
      case Success(p) => Success(Probe(Some(Snapshot(row.status, p)), []))
      case Failure(e) => Failure(e)
    else
      Success(GetDownloadStatus(q))
  }

  /** The activity after a reaction, and the calls the reaction made. */
  datatype Reaction = Reaction(activity: Activity, effects: seq<Effect>)

  /** The last percentage the button was asked to animate to, if any. */
  function LastAnimation(effects: seq<Effect>): Option<Int32>
    decreases |effects|
  {
    if |effects| == 0 then None
    else if effects[|effects| - 1].AnimateTo? then Some(effects[|effects| - 1].percentage)
    else LastAnimation(effects[..|effects| - 1])
  }

  predicate TouchesButton(e: Effect)
  {
    e.AnimateTo? || e.ResetButton?
  }

  /** `updateDownloadProgress`: a RUNNING snapshot animates to a new
      percentage, or re-polls after 200 ms when it is unchanged; SUCCESSFUL
      animates to 100 and re-enables the button; FAILED resets and re-enables
      it; anything else, or no row, leaves the button alone. */
  function UpdateDownloadProgress(a: Activity, q: Query): (r: Reaction)
    ensures r.activity.downloadId == a.downloadId && r.activity.downloadName == a.downloadName
    ensures r.activity.buttonEnabled <==>
              a.buttonEnabled || (q.Some? && (q.value.status == STATUS_SUCCESSFUL || q.value.status == STATUS_FAILED))
    ensures LastAnimation(r.effects).Some? ==> r.activity.downloadProgress == LastAnimation(r.effects).value
    ensures LastAnimation(r.effects).None? ==> r.activity.downloadProgress == a.downloadProgress
    ensures (q.None? || !(q.value.status in {STATUS_RUNNING, STATUS_SUCCESSFUL, STATUS_FAILED})) ==>
              r.activity == a && forall i :: 0 <= i < |r.effects| ==> !TouchesButton(r.effects[i])
    ensures q.Some? && q.value.status == STATUS_PENDING ==> r.effects == [RepollAfter(500)]
    ensures (q.None? || !(q.value.status in {STATUS_PENDING, STATUS_RUNNING, STATUS_SUCCESSFUL, STATUS_FAILED})) ==>
              r.effects == []
    ensures q.Some? && q.value.status == STATUS_RUNNING ==>
              var p := Progress(q.value.totalBytes, q.value.bytesDownloaded);
              if p != a.downloadProgress then r.effects == [AnimateTo(p)]
              else r.effects == [RepollAfter(200)]
    ensures q.Some? && q.value.status == STATUS_SUCCESSFUL ==> r.effects == [AnimateTo(100)]
    ensures q.Some? && q.value.status == STATUS_FAILED ==> r.effects == [ResetButton]
  {
    var probe := GetDownloadStatus(q);
    match probe.snapshot
    case None => Reaction(a, probe.effects)
    case Some(s) =>
      if s.code == STATUS_RUNNING then
        if a.downloadProgress != s.progress then
          Reaction(a.(downloadProgress := s.progress), probe.effects + [AnimateTo(s.progress)])
        else
          Reaction(a, probe.effects + [RepollAfter(200)])
      else if s.code == STATUS_SUCCESSFUL then
        Reaction(a.(downloadProgress := 100, buttonEnabled := true), probe.effects + [AnimateTo(100)])
      else if s.code == STATUS_FAILED then
        Reaction(a.(buttonEnabled := true), probe.effects + [ResetButton])
      else
        Reaction(a, probe.effects)
  }

  /** The click listener for a given checked button. An accepted choice
      disables the button, enqueues the URL (the service answers
      `enqueuedId`), drives the button once from the first query `q`, and
      records the name; any other choice only shows the "select file" toast. */
  function OnButtonClick(a: Activity, choice: RadioChoice, enqueuedId: Int64, q: Query): (r: Reaction)
    ensures choice.Unrecognised? ==> r == Reaction(a, [ShowToast(SelectFile)])
    ensures !choice.Unrecognised? ==>
              && |r.effects| >= 1
              && r.effects[0] == Enqueue(Select(choice).value.url)
              && r.activity.downloadId == enqueuedId
              && r.activity.downloadName == Some(Select(choice).value.name)
              && (r.activity.buttonEnabled <==>
                    q.Some? && (q.value.status == STATUS_SUCCESSFUL || q.value.status == STATUS_FAILED))
  {
    match Select(choice)
    case None => Reaction(a, [ShowToast(SelectFile)])
    case Some(sel) =>
      var disabled := a.(buttonEnabled := false);
      var enqueued := disabled.(downloadId := enqueuedId);
      var driven := UpdateDownloadProgress(enqueued, q);
      Reaction(driven.activity.(downloadName := Some(sel.name)), [Enqueue(sel.url)] + driven.effects)
  }

  /** The completion broadcast: `None` when the intent itself is null; the
      download id extra is `None` when absent (read as -1). */
  datatype Intent = Intent(downloadIdExtra: Option<Int64>)

  /** The id the receiver compares: null for a null intent. */
  function BroadcastId(intent: Option<Intent>): Option<Int64>
  {
    match intent
    case None => None
    case Some(i) => Some(match i.downloadIdExtra case Some(id) => id case None => -1)
  }

  /** The status text a notification carries for a probe. */
  function StatusText(snapshot: Option<Snapshot>): (t: Text)
    ensures t == DownloadStatusSuccessful <==> snapshot.Some? && snapshot.value.code == STATUS_SUCCESSFUL
    ensures t == DownloadStatusFailed <==> snapshot.Some? && snapshot.value.code == STATUS_FAILED
    ensures t in {DownloadStatusSuccessful, DownloadStatusFailed, DownloadStatusIncomplete}
  {
    match snapshot
    case None => DownloadStatusIncomplete
    case Some(s) =>
      if s.code == STATUS_SUCCESSFUL then DownloadStatusSuccessful
      else if s.code == STATUS_FAILED then DownloadStatusFailed
      else DownloadStatusIncomplete
  }

  /** The broadcast receiver: a broadcast for another download (or a null
      intent) does nothing; the current download is probed and a notification
      is posted with the download's name and its status text. */
  function OnReceive(a: Activity, intent: Option<Intent>, q: Query): (r: Reaction)
    ensures r.activity == a
    ensures BroadcastId(intent) != Some(a.downloadId) ==> r.effects == []
    ensures BroadcastId(intent) == Some(a.downloadId) ==>
              && |r.effects| >= 1
              && r.effects[|r.effects| - 1] == Notify(a.downloadName, StatusText(GetDownloadStatus(q).snapshot))
              && r.effects[..|r.effects| - 1] == GetDownloadStatus(q).effects
  {
    if BroadcastId(intent) == Some(a.downloadId) then
      var probe := GetDownloadStatus(q);
      Reaction(a, probe.effects + [Notify(a.downloadName, StatusText(probe.snapshot))])
    else
      Reaction(a, [])
  }

  /** Before any download the stored id is 0, so the receiver ignores every
      broadcast but one for id 0; a broadcast without the id extra (read as
      -1) is ignored too. */
  lemma ReceiverBeforeAnyDownload(intent: Option<Intent>, q: Query)
    ensures OnReceive(Initial, intent, q).effects == [] <==> BroadcastId(intent) != Some(0)
    ensures OnReceive(Initial, Some(Intent(None)), q).effects == []
  {
  }

  /** An accepted click is the enqueue followed by exactly the reaction of
      `updateDownloadProgress` on the disabled button with the new id; the
      broadcast for that id then notifies under the selected name. */
  lemma ClickDrivesOnceThenNotifies(a: Activity, choice: RadioChoice, id: Int64, q: Query, q2: Query)
    requires !choice.Unrecognised?
    ensures var click := OnButtonClick(a, choice, id, q);
            var driven := UpdateDownloadProgress(a.(buttonEnabled := false, downloadId := id), q);
            var receive := OnReceive(click.activity, Some(Intent(Some(id))), q2);
            && click.effects == [Enqueue(Select(choice).value.url)] + driven.effects
            && click.activity == driven.activity.(downloadName := Some(Select(choice).value.name))
            && receive.effects[|receive.effects| - 1]
               == Notify(Some(Select(choice).value.name), StatusText(GetDownloadStatus(q2).snapshot))
  {
  }

  /** The receiver's labels by query: successful and failed as such, and
      everything else (pending, running, paused, unknown, no row) incomplete. */
  lemma ReceiverLabels(a: Activity, q: Query)
    ensures var r := OnReceive(a, Some(Intent(Some(a.downloadId))), q);
            var shown := r.effects[|r.effects| - 1].status;
            && (shown == DownloadStatusSuccessful <==> q.Some? && q.value.status == STATUS_SUCCESSFUL)
            && (shown == DownloadStatusFailed <==> q.Some? && q.value.status == STATUS_FAILED)
            && (shown == DownloadStatusIncomplete <==>
                  q.None? || (q.value.status != STATUS_SUCCESSFUL && q.value.status != STATUS_FAILED))
  {
  }

  /** A sequence of `updateDownloadProgress` calls, one per query result
      (each re-poll or listener callback is the next call). */
  function Drive(a: Activity, queries: seq<Query>): (r: Reaction)
    decreases |queries|
  {
    if |queries| == 0 then Reaction(a, [])
    else
      var first := UpdateDownloadProgress(a, queries[0]);
      var rest := Drive(first.activity, queries[1..]);
      Reaction(rest.activity, first.effects + rest.effects)
  }

  lemma {:induction false} LastAnimationOfConcat(xs: seq<Effect>, ys: seq<Effect>)
    ensures LastAnimation(xs + ys) == if LastAnimation(ys).Some? then LastAnimation(ys) else LastAnimation(xs)
    decreases |ys|
  {
    if |ys| > 0 {
      var zs := xs + ys;
      assert zs[..|zs| - 1] == xs + ys[..|ys| - 1];
      LastAnimationOfConcat(xs, ys[..|ys| - 1]);
    } else {
      assert xs + ys == xs;
    }
  }

  /** Across any run of re-polls, the stored progress is the percentage the
      button was last asked to animate to (and is untouched if it never was),
      so the `!=` test always compares against the button's last target. */
  lemma {:induction false} DriveStoresLastAnimation(a: Activity, queries: seq<Query>)
    ensures var r := Drive(a, queries);
            && (LastAnimation(r.effects).Some? ==> r.activity.downloadProgress == LastAnimation(r.effects).value)
            && (LastAnimation(r.effects).None? ==> r.activity.downloadProgress == a.downloadProgress)
            && r.activity.downloadId == a.downloadId
    decreases |queries|
  {
    if |queries| > 0 {
      var first := UpdateDownloadProgress(a, queries[0]);
      DriveStoresLastAnimation(first.activity, queries[1..]);
      LastAnimationOfConcat(first.effects, Drive(first.activity, queries[1..]).effects);
    }
  }
}
