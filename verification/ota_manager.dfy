/**
 * Over-the-air firmware update requests (main/ota_manager.cpp): the gate
 * that accepts a download URL, the sequence of events and progress values
 * the download task publishes, and the confirmation of a freshly booted
 * image. HTTP, flash writes, the task itself and the restart are given as
 * call outcomes.
 */
module OtaManager {
  import opened Wrappers
  import opened Chars

  /** `OTA_URL_MAX_LEN`: the task's copy of the URL, NUL included. */
  const UrlBufLen: nat := 384
  /** Progress is reported when it has grown by at least this much. */
  const ProgressStep: nat := 5

  /** What the manager hands to the publisher: an event text or a progress value. */
  datatype Publication = Event(text: string) | Progress(percent: int)

  /** `ota_publish_event`: a missing or empty message is not published. */
  function PublishEvent(message: Option<string>): (r: seq<Publication>)
    ensures r == [] <==> message.None? || message.value == []
    ensures r != [] ==> r == [Event(message.value)]
  {
    if message.None? || message.value == [] then [] else [Event(message.value)]
  }

  /** `ota_publish_progress`: the value published is clamped to 0..100. */
  function ClampProgress(percent: int): (r: int)
    ensures 0 <= r <= 100
    ensures 0 <= percent <= 100 ==> r == percent
    ensures percent < 0 ==> r == 0
    ensures percent > 100 ==> r == 100
  {
    if percent < 0 then 0 else if percent > 100 then 100 else percent
  }

  /** Clamping never reverses the order of two values. */
  lemma ClampMonotone(a: int, b: int)
    requires a <= b
    ensures ClampProgress(a) <= ClampProgress(b)
  {
  }

  // ------------------------------------------------------------ the gate

  /** What the gate returns and leaves behind. */
  datatype StartResult = StartResult(err: EspErr, inProgress: bool, published: seq<Publication>, taskUrl: Option<string>)

  /**
   * `ota_manager_start_from_url`: a missing or empty URL and one without an
   * http:// or https:// scheme are INVALID_ARG, a running update is
   * INVALID_STATE, and failing to allocate or to create the task is
   * NO_MEM with the flag left clear. Otherwise the task is started with
   * the URL cut to 383 characters and the flag set.
   */
  function StartFromUrl(url: Option<string>, inProgress: bool, allocOk: bool, taskOk: bool): (r: StartResult)
    ensures r.err == Ok <==>
      url.Some? && (HasPrefix(url.value, "http://") || HasPrefix(url.value, "https://")) && !inProgress && allocOk && taskOk
    ensures url.None? || url.value == [] ==> r == StartResult(InvalidArg, inProgress, [], None)
    ensures url.Some? && url.value != [] && !HasPrefix(url.value, "http://") && !HasPrefix(url.value, "https://") ==>
      r == StartResult(InvalidArg, inProgress, [Event("invalid_url")], None)
    ensures r.err == InvalidState <==> r.published == [Event("already_in_progress")]
    ensures r.err == InvalidState ==> inProgress && r.inProgress
    ensures r.taskUrl.Some? <==> r.err == Ok
    ensures r.err == Ok ==>
      r.inProgress && !inProgress && r.published == [] && r.taskUrl.value == Truncate(url.value, UrlBufLen - 1)
    ensures r.err == NoMem ==> r.inProgress == inProgress == false
  {
    if url.None? || url.value == [] then StartResult(InvalidArg, inProgress, [], None)
    else if !HasPrefix(url.value, "http://") && !HasPrefix(url.value, "https://") then
      StartResult(InvalidArg, inProgress, PublishEvent(Some("invalid_url")), None)
    else if inProgress then StartResult(InvalidState, inProgress, PublishEvent(Some("already_in_progress")), None)
    else if !allocOk then StartResult(NoMem, inProgress, PublishEvent(Some("error_no_mem")), None)
    else if !taskOk then StartResult(NoMem, false, PublishEvent(Some("error_task_create")), None)
    else StartResult(Ok, true, [], Some(Truncate(url.value, UrlBufLen - 1)))
  }

  /** While an update runs, every further request is refused and the update keeps running. */
  lemma SecondRequestRefused(first: string, second: Option<string>, allocOk: bool, taskOk: bool)
    requires StartFromUrl(Some(first), false, true, true).err == Ok
    ensures var st := StartFromUrl(Some(first), false, true, true);
      StartFromUrl(second, st.inProgress, allocOk, taskOk).err != Ok
      && StartFromUrl(second, st.inProgress, allocOk, taskOk).inProgress
  {
  }

  // ------------------------------------------------------------ the download

  /** One `esp_http_client_read`: an error, or a count of bytes (0 at the end) and whether writing them worked. */
  datatype Read = ReadError | Data(len: nat, writeOk: bool)

  datatype LoopEnd = Finished | ReadFailed | WriteFailed

  /** The progress percentage after `bytes` of `contentLength`, capped at 100. */
  function Percent(bytes: nat, contentLength: nat): (r: nat)
    requires contentLength > 0
    ensures r <= 100
  {
    var p := (bytes * 100) / contentLength;
    if p > 100 then 100 else p
  }

  /** Each value at least `ProgressStep` above the one before, the first at least `ProgressStep` above `last`. */
  predicate StepsFrom(last: int, reports: seq<int>) {
    (reports != [] ==> reports[0] >= last + ProgressStep)
    && forall i :: 0 < i < |reports| ==> reports[i] >= reports[i - 1] + ProgressStep
  }

  /**
   * The read loop of `ota_task` from `bytes` written and `last` reported:
   * stops at the end of the stream, a read error or a failed write; with a
   * known length, reports the capped percentage whenever it has grown by
   * five since the last report. Gives how it ended and what it reported.
   * A stream that runs out of chunks is taken as ended.
   */
  function Download(contentLength: int, chunks: seq<Read>, bytes: nat, last: int): (r: (LoopEnd, seq<int>))
    ensures StepsFrom(last, r.1)
    ensures forall i :: 0 <= i < |r.1| ==> 0 <= r.1[i] <= 100
    ensures contentLength <= 0 ==> r.1 == []
    ensures last >= 100 ==> r.1 == []
  {
    if chunks == [] then (Finished, [])
    else match chunks[0]
      case ReadError => (ReadFailed, [])
      case Data(len, writeOk) =>
        if len == 0 then (Finished, [])
        else if !writeOk then (WriteFailed, [])
        else
          var total := bytes + len;
          if contentLength > 0 && Percent(total, contentLength) >= last + ProgressStep then
            var p := Percent(total, contentLength);
            var rest := Download(contentLength, chunks[1..], total, p);
            (rest.0, [p] + rest.1)
          else
            Download(contentLength, chunks[1..], total, last)
  }

  /** The outcomes of the calls `ota_task` makes. */
  datatype TaskCalls = TaskCalls(clientOk: bool, openOk: bool, contentLength: int, httpStatus: int,
                                 partitionOk: bool, beginOk: bool, chunks: seq<Read>, endOk: bool, setBootOk: bool)

  /**
   * What the task published, whether it ended in a restart, and the
   * in-progress flag when it is over.
   */
  datatype TaskRun = TaskRun(published: seq<Publication>, restarted: bool, inProgressAfter: bool)

  function Progresses(reports: seq<int>): (r: seq<Publication>)
    ensures |r| == |reports| && forall i :: 0 <= i < |r| ==> r[i] == Progress(ClampProgress(reports[i]))
  {
    if reports == [] then [] else [Progress(ClampProgress(reports[0]))] + Progresses(reports[1..])
  }

  /** The download was begun: the client opened, status 200, a partition, `esp_ota_begin` passed. */
  predicate Begun(calls: TaskCalls) {
    calls.clientOk && calls.openOk && calls.httpStatus == 200 && calls.partitionOk && calls.beginOk
  }

  /** The image was written completely and closed. */
  predicate Completed(calls: TaskCalls) {
    Begun(calls) && Download(calls.contentLength, calls.chunks, 0, -1).0 == Finished && calls.endOk
  }

  /**
   * The events after the read loop's progress, following the order of the
   * checks in `ota_task`: the failure's own event, then from the cleanup
   * "aborted" when an update was begun but not completed; or "rebooting"
   * and a restart. Gives the events and whether the device restarts.
   */
  function Closing(calls: TaskCalls): (r: (seq<Publication>, bool))
    ensures forall i :: 0 <= i < |r.0| ==> r.0[i].Event?
    ensures r.1 <==> Completed(calls) && calls.setBootOk
    ensures Event("aborted") in r.0 <==> Begun(calls) && !Completed(calls)
    ensures r.1 ==> r.0 == [Event("rebooting")]
  {
    var end := Download(calls.contentLength, calls.chunks, 0, -1).0;
    if !calls.clientOk || !calls.openOk then ([], false)
    else if calls.httpStatus != 200 then ([Event("error_http_status")], false)
    else if !calls.partitionOk then ([], false)
    else if !calls.beginOk then ([Event("error_ota_begin")], false)
    else if end == ReadFailed then ([Event("error_read"), Event("aborted")], false)
    else if end == WriteFailed then ([Event("error_write"), Event("aborted")], false)
    else if !calls.endOk then ([Event("error_ota_end"), Event("aborted")], false)
    else if !calls.setBootOk then ([Event("error_set_boot_partition")], false)
    else ([Event("rebooting")], true)
  }

  /** "start" and 0 %, and "download" once the HTTP checks pass. */
  function Opening(calls: TaskCalls): (r: seq<Publication>)
    ensures |r| >= 2 && r[..2] == [Event("start"), Progress(0)]
    ensures forall i :: 2 <= i < |r| ==> r[i].Event?
  {
    PublishEvent(Some("start")) + [Progress(ClampProgress(0))]
      + (if calls.clientOk && calls.openOk && calls.httpStatus == 200 then PublishEvent(Some("download")) else [])
  }

  /** The read loop's reports once the update is begun, and 100 % once it is complete. */
  function ProgressPart(calls: TaskCalls): (r: seq<Publication>)
    ensures forall i :: 0 <= i < |r| ==> r[i].Progress?
  {
    (if Begun(calls) then Progresses(Download(calls.contentLength, calls.chunks, 0, -1).1) else [])
      + (if Completed(calls) then [Progress(ClampProgress(100))] else [])
  }

  /**
   * `ota_task`: the opening, the progress and the closing events. Every
   * path but the restart goes through the cleanup, which clears the
   * in-progress flag.
   */
  function OtaTask(calls: TaskCalls): (r: TaskRun)
    ensures |r.published| >= 2 && r.published[..2] == [Event("start"), Progress(0)]
    ensures r.restarted <==> Completed(calls) && calls.setBootOk
    ensures Event("aborted") in r.published <==> Begun(calls) && !Completed(calls)
    ensures r.restarted ==> r.published[|r.published| - 1] == Event("rebooting")
    ensures !r.restarted ==> !r.inProgressAfter
  {
    var opening := Opening(calls);
    var progress := ProgressPart(calls);
    var (closing, restarted) := Closing(calls);
    assert Event("aborted") !in opening + progress;
    TaskRun(opening + progress + closing, restarted, restarted)
  }

  /**
   * Once a started task ends without a restart, the flag is clear again and
   * a new request with an http(s) URL is accepted.
   */
  lemma RetryAfterFailedTask(first: string, calls: TaskCalls, next: string)
    requires StartFromUrl(Some(first), false, true, true).err == Ok
    requires !OtaTask(calls).restarted
    requires HasPrefix(next, "http://") || HasPrefix(next, "https://")
    ensures StartFromUrl(Some(next), OtaTask(calls).inProgressAfter, true, true).err == Ok
  {
  }

  /** The progress values among the publications, in order. */
  function ProgressValues(ps: seq<Publication>): (r: seq<int>)
    ensures |r| <= |ps|
  {
    if ps == [] then []
    else if ps[0].Progress? then [ps[0].percent] + ProgressValues(ps[1..])
    else ProgressValues(ps[1..])
  }

  lemma {:induction false} ProgressValuesAppend(a: seq<Publication>, b: seq<Publication>)
    ensures ProgressValues(a + b) == ProgressValues(a) + ProgressValues(b)
  {
    if a != [] {
      assert (a + b)[0] == a[0];
      assert (a + b)[1..] == a[1..] + b;
      ProgressValuesAppend(a[1..], b);
    } else {
      assert a + b == b;
    }
  }

  lemma {:induction false} ProgressValuesOfEvents(ps: seq<Publication>)
    requires forall i :: 0 <= i < |ps| ==> ps[i].Event?
    ensures ProgressValues(ps) == []
  {
    if ps != [] {
      ProgressValuesOfEvents(ps[1..]);
    }
  }

  lemma {:induction false} ProgressValuesOfReports(reports: seq<int>)
    requires forall i :: 0 <= i < |reports| ==> 0 <= reports[i] <= 100
    ensures ProgressValues(Progresses(reports)) == reports
  {
    if reports != [] {
      assert Progresses(reports)[1..] == Progresses(reports[1..]);
      ProgressValuesOfReports(reports[1..]);
    }
  }

  predicate NonDecreasing(s: seq<int>) {
    forall i, j :: 0 <= i < j < |s| ==> s[i] <= s[j]
  }

  lemma {:induction false} StepsIncrease(reports: seq<int>, last: int, i: nat, j: nat)
    requires StepsFrom(last, reports) && i < j < |reports|
    ensures reports[i] < reports[j]
    decreases j - i
  {
    if j > i + 1 {
      StepsIncrease(reports, last, i, j - 1);
    }
  }

  /** The reports the read loop of a begun update made. */
  function LoopReports(calls: TaskCalls): seq<int> {
    if Begun(calls) then Download(calls.contentLength, calls.chunks, 0, -1).1 else []
  }

  lemma OpeningProgress(calls: TaskCalls)
    ensures ProgressValues(Opening(calls)) == [0]
  {
    var opening := Opening(calls);
    assert opening == [Event("start")] + ([Progress(0)] + opening[2..]);
    ProgressValuesOfEvents(opening[2..]);
    ProgressValuesAppend([Event("start")], [Progress(0)] + opening[2..]);
    ProgressValuesAppend([Progress(0)], opening[2..]);
  }

  lemma ProgressPartValues(calls: TaskCalls)
    ensures ProgressValues(ProgressPart(calls)) == LoopReports(calls) + (if Completed(calls) then [100] else [])
  {
    var mid := if Begun(calls) then Progresses(Download(calls.contentLength, calls.chunks, 0, -1).1) else [];
    var last := if Completed(calls) then [Progress(100)] else [];
    assert ProgressPart(calls) == mid + last;
    ProgressValuesAppend(mid, last);
    if Begun(calls) {
      ProgressValuesOfReports(Download(calls.contentLength, calls.chunks, 0, -1).1);
    }
  }

  /** The progress values of a run: 0, the read loop's reports, and 100 once the image is complete. */
  lemma TaskProgress(calls: TaskCalls)
    ensures ProgressValues(OtaTask(calls).published) == [0] + LoopReports(calls) + (if Completed(calls) then [100] else [])
  {
    var opening := Opening(calls);
    var progress := ProgressPart(calls);
    var closing := Closing(calls).0;
    assert OtaTask(calls).published == opening + progress + closing;
    ProgressValuesAppend(opening, progress);
    ProgressValuesAppend(opening + progress, closing);
    ProgressValuesOfEvents(closing);
    OpeningProgress(calls);
    ProgressPartValues(calls);
  }

  /** 0, then reports at least five apart within 0..100, then possibly 100: never decreasing. */
  lemma ReportsInOrder(rs: seq<int>, completed: bool)
    requires StepsFrom(-1, rs) && forall i :: 0 <= i < |rs| ==> 0 <= rs[i] <= 100
    ensures var pv := [0] + rs + (if completed then [100] else []);
      NonDecreasing(pv) && forall v :: v in pv ==> 0 <= v <= 100
  {
    var pv := [0] + rs + (if completed then [100] else []);
    forall i, j | 0 <= i < j < |pv| ensures pv[i] <= pv[j] {
      if 0 < i && j <= |rs| {
        StepsIncrease(rs, -1, i - 1, j - 1);
      }
    }
  }

  /**
   * The progress a subscriber sees never goes backwards: 0, then values at
   * least five apart, then 100 once the image is complete; all in 0..100.
   */
  lemma ProgressNeverDecreases(calls: TaskCalls)
    ensures NonDecreasing(ProgressValues(OtaTask(calls).published))
    ensures forall v :: v in ProgressValues(OtaTask(calls).published) ==> 0 <= v <= 100
  {
    TaskProgress(calls);
    ReportsInOrder(LoopReports(calls), Completed(calls));
  }

  // ------------------------------------------------------------ confirmation

  /** `esp_ota_img_states_t`, as far as the decision needs it. */
  datatype ImageState = PendingVerify | OtherState

  /** What confirming gives: the result, what was published and whether the image was marked valid. */
  datatype ConfirmResult = ConfirmResult(err: EspErr, published: seq<Publication>, markAttempted: bool)

  /**
   * `ota_manager_confirm_running_firmware`: no running partition is
   * INVALID_STATE; a failing state query returns its error; only an image
   * pending verification is marked valid, returning the marking's result;
   * any other state needs nothing and is OK.
   */
  function ConfirmRunning(hasRunning: bool, stateResult: EspErr, state: ImageState, markResult: EspErr): (r: ConfirmResult)
    ensures r.markAttempted <==> hasRunning && stateResult == Ok && state == PendingVerify
    ensures !hasRunning ==> r == ConfirmResult(InvalidState, [], false)
    ensures hasRunning && stateResult != Ok ==> r.err == stateResult && r.published == [Event("confirm_state_error")]
    ensures r.markAttempted ==>
      r.err == markResult && r.published == [Event(if markResult == Ok then "confirmed" else "confirm_error")]
    ensures hasRunning && stateResult == Ok && state != PendingVerify ==>
      r == ConfirmResult(Ok, [Event("confirm_not_needed")], false)
  {
    if !hasRunning then ConfirmResult(InvalidState, [], false)
    else if stateResult != Ok then ConfirmResult(stateResult, PublishEvent(Some("confirm_state_error")), false)
    else if state == PendingVerify then
      ConfirmResult(markResult, PublishEvent(Some(if markResult == Ok then "confirmed" else "confirm_error")), true)
    else ConfirmResult(Ok, PublishEvent(Some("confirm_not_needed")), false)
  }
}
