# Download app core: progress button, status mapping, activity reactions

A Dafny model of the decision logic inside a small Android download app
(`com.udacity`). The app lets the user pick one of three fixed archives,
hands the URL to the platform DownloadManager, animates a custom
`LoadingButton` while the transfer runs, and posts a notification when the
download-complete broadcast arrives. Almost all of it is platform glue; what
is modelled here is the sequential logic once the platform is replaced by
plain inputs and outputs:

- **`LoadingButton`** (`loading_button.dfy`): the three-state button
  (`Completed`, `Clicked`, `Loading`) whose state setter also sets the label
  and, on `Completed`, zeroes the current and target percentages; the click
  rule; `updateProgress` with its equal-target guard; and the per-frame rule
  of the progress animation. An animation is the sequence of values its
  frames report, fed one by one to `Tick`; "the listener fired" is an output
  flag.
- **`DownloadQuery`** (`download_query.dfy`): a DownloadManager cursor row
  (status code, total bytes, bytes so far) and the running percentage
  `downloaded * 100L / total` both status paths compute, with Kotlin's
  64-bit wrap-around, truncating division and `toInt()` written out in
  **`JvmArith`** (`jvm_arith.dfy`).
- **`MainViewModel`** (`main_view_model.dfy`): the `DownloadStatus` sealed
  class, the one-shot mapping `updateDownloadStatus`, and the 500 ms poller
  `pollDownloadStatus` as a fold over a trace of query results.
- **`MainActivity`** (`main_activity.dfy`): radio selection to (URL, name),
  the click listener, `getDownloadStatus`, `updateDownloadProgress`, and the
  broadcast receiver's id filter and status text. Calls out of the activity
  (enqueue, `animateTo`, `reset`, delayed re-poll, notification) are emitted
  as `Effect`s in call order.
- **`StatusPaths`** (`status_paths.dfy`): the view model's mapping and the
  activity's probe agree on every query.
- `Results` (`results.dfy`): `Option` and `Result`.

The status codes are the DownloadManager constants `STATUS_PENDING = 1`,
`STATUS_RUNNING = 2`, `STATUS_PAUSED = 4`, `STATUS_SUCCESSFUL = 8`,
`STATUS_FAILED = 16` of the Android SDK. The model only relies on them being
distinct.

Where the code departs from what its own declarations suggest (an unused
`Paused` variant, a commented-out post, a `Clicked` state beside `Loading`),
the model follows the code:

- Entering `Clicked` shows the inactive text, the same as `Completed`
  (LoadingButton.kt:34). Only `Loading` shows the loading text.
- The state observer runs on every assignment, so a click on a `Clicked` or
  `Loading` button re-enters that state (LoadingButton.kt:142-145).
- The poller posts nothing for PENDING, because that post is commented out.
  It posts `Running(0)` whatever the byte counts, and it stops at the first
  RUNNING, PAUSED, SUCCESSFUL or FAILED answer (MainViewModel.kt:37-56).
- PAUSED never yields `Paused`. Both paths remove the download and post
  `Cancelled` (MainViewModel.kt:44-47, 84-87).
- An animation running downward (a new target below the current
  percentage) fires the listener on every frame, because each frame is at or
  above the target (LoadingButton.kt:170-172; `AnimationBelowFullKeepsTarget`
  counts exactly these frames).

## Model

| member | source | states |
|---|---|---|
| `LoadingButton.Enter` | starter/app/src/main/java/com/udacity/LoadingButton.kt:32-43 | assigning a state sets it and the matching label; entering Completed zeroes both percentages, entering any other state keeps them |
| `LoadingButton.InitialIsCompletedEntry` | starter/app/src/main/java/com/udacity/LoadingButton.kt:21-32 | a fresh button (Completed, inactive text, 0/0) is exactly what entering Completed from any button produces |
| `LoadingButton.Click` | starter/app/src/main/java/com/udacity/LoadingButton.kt:141-147 | Completed moves to Clicked with the inactive text and unchanged percentages; a consistent Clicked or Loading button is unchanged |
| `LoadingButton.UpdateProgress` | starter/app/src/main/java/com/udacity/LoadingButton.kt:149-159 | always leaves the button Loading with the loading text and the current percentage unchanged; fires iff the request equals the target, and then starts nothing and keeps the target; otherwise sets the target and starts an animation from the current percentage to the request |
| `LoadingButton.Tick` | starter/app/src/main/java/com/udacity/LoadingButton.kt:161-172 | a frame at 100 or more completes the button (inactive text, 0/0) without firing; a lower frame only sets the current percentage and fires iff it has reached the target |
| `LoadingButton.AnimationBelowFullKeepsTarget` | starter/app/src/main/java/com/udacity/LoadingButton.kt:159-175 | an animation that stays below 100 keeps state, label and target, ends with the last frame's value, and fires once per frame at or above the target |
| `LoadingButton.AnimationToFullCompletes` | starter/app/src/main/java/com/udacity/LoadingButton.kt:165-168 | an animation whose last frame reaches 100 leaves the button in its initial state |
| `LoadingButton.RunUpToReachesOnce` | starter/app/src/main/java/com/udacity/LoadingButton.kt:170-172 | frames that stay below a target until a last frame equal to it reach it exactly once |
| `LoadingButton.PartialAnimationFiresOnce` | starter/app/src/main/java/com/udacity/LoadingButton.kt:149-175 | a new target below 100 whose animation runs up to it ends Loading at that target, having fired the listener exactly once |
| `LoadingButton.FullRunSilent` | starter/app/src/main/java/com/udacity/LoadingButton.kt:161-172 | with target 100, an animation running up to 100 ends in the initial state and never fires |
| `LoadingButton.FullRequestCompletesSilently` | starter/app/src/main/java/com/udacity/LoadingButton.kt:149-175 | `updateProgress(100)` starts an animation to 100, and running it completes the button without firing |
| `LoadingButton.RepeatedRequestOnlyFires` | starter/app/src/main/java/com/udacity/LoadingButton.kt:150-155 | repeating a request with no frame in between fires the listener, starts no animation and changes nothing |
| `LoadingButton.ZeroRequestAfterCompletionOnlyFires` | starter/app/src/main/java/com/udacity/LoadingButton.kt:149-155 | `updateProgress(0)` on a just-completed button only fires the listener and leaves both percentages at 0 |
| `LoadingButton.AnimationKeepsConsistent` | starter/app/src/main/java/com/udacity/LoadingButton.kt:32-43 | the displayed text stays in step with the state through any animation |
| `JvmArith.LongDiv` | starter/app/src/main/java/com/udacity/MainViewModel.kt:80 | `Long` division throws exactly when the divisor is zero; otherwise the quotient's magnitude is the magnitudes' floor quotient with the sign of a truncation toward zero, except `LONG_MIN / -1`, which wraps to `LONG_MIN` |
| `DownloadQuery.ProgressAsWritten` | starter/app/src/main/java/com/udacity/MainActivity.kt:147-154 | the percentage as written: 0 for a negative total, a division-by-zero exception exactly when the total is 0, the guarded percentage otherwise |
| `DownloadQuery.Progress` | starter/app/src/main/java/com/udacity/MainViewModel.kt:73-82 | the guarded percentage: 0 when the total is not positive; for a positive total and 0 <= downloaded <= LONG_MAX/100, the floor of `downloaded*100/total` (when that fits an `Int`), and within 0..100 when also downloaded <= total |
| `DownloadQuery.ZeroTotalDividesByZero` | starter/app/src/main/java/com/udacity/MainActivity.kt:150-153 | a zero total throws as written and reads 0 when guarded |
| `DownloadQuery.ProgressExamples` | starter/app/src/main/java/com/udacity/MainViewModel.kt:77-80 | 50 of 200 bytes is 25, 2 of 3 bytes is 66 (floor), an unknown total gives 0, and -1 of 3 bytes is -33 (rounded toward zero) |
| `DownloadQuery.ProgressOverflowExample` | starter/app/src/main/java/com/udacity/MainViewModel.kt:80 | beyond LONG_MAX/100 bytes the `Long` product wraps: 10^17 of 10^17 bytes reads -84 |
| `MainViewModel.UpdateDownloadStatus` | starter/app/src/main/java/com/udacity/MainViewModel.kt:63-97 | posts a value iff a row with one of the five known codes is returned; removes the download iff the code is PAUSED, and then posts Cancelled; never posts Paused; PENDING, SUCCESSFUL and FAILED post Pending, Successful and Failed; RUNNING posts the guarded percentage |
| `MainViewModel.UpdateDownloadStatusAsWritten` | starter/app/src/main/java/com/udacity/MainViewModel.kt:63-97 | as written, the mapping throws (posting nothing) exactly for a RUNNING row with total 0, and otherwise reports what the guarded mapping reports |
| `MainViewModel.UpdateDownloadStatusRoundTrip` | starter/app/src/main/java/com/udacity/MainViewModel.kt:14-21 | the mapping and the code each status comes from are inverse: every posted value leads back to the row's code, and each producible value is posted for its code, every `Running(p)` included (for a 100-byte row with p bytes done) |
| `MainViewModel.PollTick` | starter/app/src/main/java/com/udacity/MainViewModel.kt:35-57 | a firing cancels the task iff the row's code is RUNNING, PAUSED, SUCCESSFUL or FAILED, and posts exactly when it cancels; PENDING or no row posts nothing and keeps polling; RUNNING posts `Running(0)`; PAUSED removes the download and posts Cancelled; SUCCESSFUL and FAILED post Successful and Failed; Paused is never posted |
| `MainViewModel.PollTickAgreesWithUpdate` | starter/app/src/main/java/com/udacity/MainViewModel.kt:40-56 | a settling firing posts what the one-shot mapping posts, except that RUNNING is `Running(0)`; both remove the download for the same rows |
| `MainViewModel.PollPublishesFirstSettling` | starter/app/src/main/java/com/udacity/MainViewModel.kt:29-61 | over any trace the poller publishes at most one value: nothing and no stop when no query settles, otherwise the firing's value for the first settling query, stopping right after it, with a removal iff that query is PAUSED |
| `MainViewModel.PollExample` | starter/app/src/main/java/com/udacity/MainViewModel.kt:33-56 | pending, no row, running, successful: publishes `Running(0)` once and stops after three firings |
| `MainActivity.Select` | starter/app/src/main/java/com/udacity/MainActivity.kt:49-53 | exactly the three known radio buttons select a target; Glide, LoadApp and Retrofit each give their own fixed URL with their own name |
| `MainActivity.SelectIsInjective` | starter/app/src/main/java/com/udacity/MainActivity.kt:182-189 | distinct radio buttons select distinct URLs and distinct names |
| `MainActivity.OnButtonClick` | starter/app/src/main/java/com/udacity/MainActivity.kt:48-61 | an unknown selection only shows the "select file" toast and changes nothing; an accepted one enqueues the URL first, records the new id and name, and leaves the button disabled unless the first query already reports SUCCESSFUL or FAILED |
| `MainActivity.GetDownloadStatus` | starter/app/src/main/java/com/udacity/MainActivity.kt:134-161 | no row gives null; otherwise the row's code with progress 0 for every code but RUNNING, the guarded percentage for RUNNING, and a 500 ms re-poll exactly for PENDING |
| `MainActivity.GetDownloadStatusAsWritten` | starter/app/src/main/java/com/udacity/MainActivity.kt:134-161 | as written, the probe throws exactly for a RUNNING row with total 0, and otherwise returns the guarded probe |
| `MainActivity.UpdateDownloadProgress` | starter/app/src/main/java/com/udacity/MainActivity.kt:109-132 | RUNNING animates to a changed percentage or re-polls after 200 ms; PENDING only re-polls after 500 ms; SUCCESSFUL animates to 100; FAILED resets; the button is re-enabled exactly on SUCCESSFUL or FAILED; other codes and no row leave the activity alone and call nothing; the stored progress is always the last animation target |
| `MainActivity.StatusText` | starter/app/src/main/java/com/udacity/MainActivity.kt:78-82 | "successful" iff the code is SUCCESSFUL, "failed" iff FAILED, "incomplete" otherwise, including no row |
| `MainActivity.OnReceive` | starter/app/src/main/java/com/udacity/MainActivity.kt:69-92 | a null intent or another download's id does nothing; the current download's broadcast probes the status (with its re-poll) and then notifies with the download name and the status text |
| `MainActivity.ReceiverBeforeAnyDownload` | starter/app/src/main/java/com/udacity/MainActivity.kt:24-72 | before any download the stored id is 0: every broadcast except one for id 0 is ignored, including one without the id extra |
| `MainActivity.ClickDrivesOnceThenNotifies` | starter/app/src/main/java/com/udacity/MainActivity.kt:48-107 | an accepted click is the enqueue followed by exactly `updateDownloadProgress` on the disabled button with the new id, and the broadcast for that id notifies under the selected name |
| `MainActivity.ReceiverLabels` | starter/app/src/main/java/com/udacity/MainActivity.kt:71-82 | for the current download the notified text is successful, failed or incomplete exactly by the queried code |
| `MainActivity.DriveStoresLastAnimation` | starter/app/src/main/java/com/udacity/MainActivity.kt:109-132 | across any run of re-polls the stored progress equals the last percentage the button was asked to animate to, and is unchanged if there was none |
| `StatusPaths.ProbeAgreesWithMapping` | starter/app/src/main/java/com/udacity/MainActivity.kt:138-157 | the view model's mapping posts a value exactly for the rows the activity's probe reports with a known code, from that code, with the same running percentage |

## Left out

- Rendering and measurement (`onDraw`, paints, `onMeasure`, text bounds, the arc rectangle): platform graphics and float geometry.
- Animator timing and interpolation: an animation is the sequence of frame values it reports, given as input.
- LoadingButton.UpdateProgress: percentages are exact reals, so the rounding of `percentage.toFloat()` for magnitudes above 2^24 is not modelled.
- LoadingButton.Tick: the listener is optional (`?.`); `fired` means "the listener is invoked if one is set".
- LoadingButton.Click: the Boolean that `performClick` returns comes from the platform view and is not modelled.
- Coroutines, the `Timer` thread, `Handler.postDelayed` and `LiveData.postValue`: concurrency and scheduling, modelled as sequential traces and re-poll effects.
- DownloadManager enqueue, query, cursor and remove: a query result is an input `Option<Row>`, an enqueue answer is an input id, and a removal is an output flag. The request's title, description and network flags are not modelled.
- MainViewModel.Poll: its own contract only bounds the firings; what it publishes is stated by `PollPublishesFirstSettling`.
- The timer itself is never cancelled, only its task; a trace models the firings the task sees.
- `animateTo` and `reset`, which the activity calls, are not defined in LoadingButton.kt, so they appear only as `AnimateTo` and `ResetButton` effects.
- The view model is not used by the activity, so the two status paths are modelled side by side and only compared (`StatusPaths`).
- Notification channel creation, NotificationUtils.kt and DetailActivity.kt: wrappers over platform notification and intent APIs with no logic of their own.
- `onCreate` listener registration and `onDestroy`: lifecycle wiring only.
- MainViewModel.UpdateDownloadStatus: uses the guarded percentage, so a RUNNING row with total 0 posts `Running(0)` where the code throws `ArithmeticException` and posts nothing; `UpdateDownloadStatusAsWritten` models the throw.
- MainActivity.GetDownloadStatus: uses the guarded percentage, so a RUNNING row with total 0 reports progress 0 where the code throws on the main thread; `GetDownloadStatusAsWritten` models the throw. The callers `UpdateDownloadProgress`, `OnButtonClick` and `OnReceive` build on the guarded probe, so for that row they animate, re-poll or notify "incomplete" where the app would crash.
- MainActivity.OnButtonClick: whether a disabled button can deliver a click is platform behaviour and is not modelled.

## Findings

| source | as written | input that shows it | evidently intended | confidence | as-written member | corrected member |
|---|---|---|---|---|---|---|
| starter/app/src/main/java/com/udacity/MainActivity.kt:150-153 | `if (total >= 0)` then `downloaded * 100L / total` | a RUNNING row with total size 0 | divide only when `total > 0`, else report 0 | medium, not executed | `MainActivity.GetDownloadStatusAsWritten` | `MainActivity.GetDownloadStatus` |
| starter/app/src/main/java/com/udacity/MainViewModel.kt:77-80 | `if (total >= 0)` then `downloaded * 100L / total` | a RUNNING row with total size 0 | divide only when `total > 0`, else report 0 | medium, not executed | `MainViewModel.UpdateDownloadStatusAsWritten` | `MainViewModel.UpdateDownloadStatus` |

With total 0 the JVM throws `ArithmeticException`. In the activity this
happens on the main thread. `ProgressAsWritten` returns
`Failure(DivideByZero)` for exactly these rows, and `ZeroTotalDividesByZero`
exhibits it; the two as-written status paths fail for exactly these rows. The
corrected `Progress` divides only for a positive total, and the guarded status
paths built on it are what the rest of the model uses.
