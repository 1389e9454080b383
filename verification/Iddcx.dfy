/** A frame request on Windows, from the driver's answer to the status that the streaming loop gets: the driver's
    monitor object around the processor, and the server's side of the device call. */
module WindowsMonitor {
  import opened Wrappers
  import opened Streaming
  import opened DriverMonitor
  import FrameHandoff

  datatype Size = Size(width: nat, height: nat)

  /** A frame handed over: the acquires of its texture and of its metadata. */
  datatype Handle = Handle(texture: nat, meta: nat)

  /** The part of `FRAME_MONITOR_INFO` that the driver fills in. */
  datatype FrameInfo = FrameInfo(enabled: bool, frame: Option<Handle>)

  /** What a request meets beside the frame hand-off: whether the wait and the shared handle succeed in the driver,
      whether the device call does, whether the frame's adapter is the one in use or a new device can be made
      for it, whether the frame can be duplicated, opened and staged, and its size. */
  datatype Turn = Turn(
    fails: bool, shared: bool, called: bool,
    sameAdapter: bool, recreated: bool, duplicated: bool, readable: bool, staged: bool, size: Size)

  /** The driver's monitor: switched on by a mode commit, and with a processor while it has a swap chain. */
  class MonitorContext {
    var enabled: bool
    var processor: MonitorProcessor?

    /** `RequestFrame`: a monitor that is off has nothing to ask, and a processor that has stopped counts as off
        too. `answer` is what the processor answered, if it was asked. */
    method RequestFrame(fails: bool, shared: bool)
      returns (ok: bool, info: FrameInfo, ghost answer: Option<FrameResult>, ghost own: seq<Moment>)
      requires processor != null ==> processor.Valid() && processor.requester.Idle?
      modifies processor
      ensures processor != null ==> processor.Valid() && processor.requester.Idle?
      ensures answer.Some? <==> enabled && processor != null
      ensures answer.Some? ==>
                && OwnMoments(processor.steps, |old(processor.steps)|, own)
                && AnswerMeans(processor.steps, own, fails, shared, answer.value)
                && (answer.value.Delivered? ==> MatchedUnlessHazard(own, processor.history.delivered))
      ensures ok <==>
                answer.None? || answer.value.Delivered? || answer.value.NoUpdates? || answer.value.Aborted?
      ensures info.enabled <==> answer.Some? && (answer.value.Delivered? || answer.value.NoUpdates?)
      ensures info.frame == match answer
                            case Some(Delivered(texture, meta)) => Some(Handle(texture, meta))
                            case _ => None
    {
      hide OwnMoments, NothingFinished, FrameHandoff.Hazard, FrameHandoff.Matched, HandedOut, SlotMeans;
      info, answer, own := FrameInfo(false, None), None, [];
      if enabled && processor != null {
        var result;
        result, own := processor.RequestFrame(fails, shared);
        answer := Some(result);
        var succeeded := result.Delivered? || result.NoUpdates?;
        if result.Delivered? {
          DeliveredNow(old(processor.history.delivered), processor.history.delivered, result.texture, result.meta);
          info := info.(frame := Some(Handle(result.texture, result.meta)));
        }
        info := info.(enabled := succeeded);
        return succeeded || result.Aborted?, info, answer, own;
      }
      return true, info, answer, own;
    }
  }

  /** The latest frame handed over has its own metadata, is filled and not stale, if there was no hazard when it
      was asked for. */
  ghost predicate MatchedUnlessHazard(own: seq<Moment>, delivered: seq<FrameHandoff.Delivery>) {
    own != [] && delivered != [] &&
    (!FrameHandoff.Hazard(own[0].met) ==> FrameHandoff.Matched(delivered[|delivered| - 1]))
  }

  lemma DeliveredNow(before: seq<FrameHandoff.Delivery>, after: seq<FrameHandoff.Delivery>, texture: nat, meta: nat)
    requires HandedOut(before, after, texture, meta)
    ensures 0 < |after|
  {
  }

  /** What the status says: off if the driver has nothing to ask or its processor has stopped; no updates after a
      time-out; a frame, whose size may be new, if one was handed over and could be used. */
  ghost predicate StatusMeans(answer: Option<FrameResult>, t: Turn, before: Size, after: Size, status: FrameStatus) {
    var usable := (t.sameAdapter || t.recreated) && t.duplicated && t.readable && t.staged;
    var handed := t.called && answer.Some? && answer.value.Delivered? && usable;
    && (status.MonitorOff? <==> t.called && (answer.None? || answer.value.Aborted?))
    && (status.NoUpdates? <==> t.called && answer.Some? && answer.value.NoUpdates?)
    && (status.ModeChanged? <==> handed && t.size != before)
    && (status.FrameReady? <==> handed && t.size == before)
    && !status.BufferTooSmall? && !status.NotAvailable?
    && after == if handed then t.size else before
  }

  /** The size of the latest frame that could be used, or the start. */
  function LatestSize(start: Size, turns: seq<Turn>, statuses: seq<FrameStatus>): Size
    requires |turns| == |statuses|
  {
    if turns == [] then start
    else
      var last := |turns| - 1;
      if statuses[last].FrameReady? || statuses[last].ModeChanged? then turns[last].size
      else LatestSize(start, turns[..last], statuses[..last])
  }

  /** The server's monitor: the driver behind the device call, and the mode of the latest frame. */
  class Monitor {
    const driver: MonitorContext
    var currentMode: Size

    constructor (driver: MonitorContext, mode: Size)
      ensures this.driver == driver && currentMode == mode
    {
      this.driver, currentMode := driver, mode;
    }

    /** `monitorRequestFrame` */
    method RequestFrame(t: Turn)
      returns (status: FrameStatus, ghost answer: Option<FrameResult>, ghost own: seq<Moment>)
      requires driver.processor != null ==> driver.processor.Valid() && driver.processor.requester.Idle?
      modifies this, driver.processor
      ensures driver.processor != null ==> driver.processor.Valid() && driver.processor.requester.Idle?
      ensures answer.Some? <==> t.called && driver.enabled && driver.processor != null
      ensures answer.Some? ==> AnswerMeans(driver.processor.steps, own, t.fails, t.shared, answer.value)
      ensures StatusMeans(answer, t, old(currentMode), currentMode, status)
    {
      hide OwnMoments, AnswerMeans, MatchedUnlessHazard, FrameHandoff.Reached;
      if !t.called {
        return FrameStatus.Error, None, [];
      }
      var ok, info;
      ok, info, answer, own := driver.RequestFrame(t.fails, t.shared);
      if !ok {
        return FrameStatus.Error, answer, own;
      }
      if !info.enabled {
        return MonitorOff, answer, own;
      }
      if info.frame.None? {
        return FrameStatus.NoUpdates, answer, own;
      }
      if !t.sameAdapter && !t.recreated {
        return FrameStatus.Error, answer, own;
      }
      if !t.duplicated || !t.readable || !t.staged {
        return FrameStatus.Error, answer, own;
      }
      if currentMode != t.size {
        currentMode := t.size;
        return ModeChanged, answer, own;
      }
      return FrameReady, answer, own;
    }

    /** The streaming loop's requests: over every run a change of mode is reported exactly with the frames whose
        size is not that of the frame before them. */
    method Stream(turns: seq<Turn>) returns (statuses: seq<FrameStatus>, ghost answers: seq<Option<FrameResult>>)
      requires driver.processor != null ==> driver.processor.Valid() && driver.processor.requester.Idle?
      modifies this, driver.processor
      ensures |statuses| == |answers| == |turns|
      ensures forall i | 0 <= i < |turns| ::
                var before := LatestSize(old(currentMode), turns[..i], statuses[..i]);
                StatusMeans(answers[i], turns[i], before,
                            LatestSize(old(currentMode), turns[..i + 1], statuses[..i + 1]), statuses[i])
      ensures currentMode == LatestSize(old(currentMode), turns, statuses)
    {
      hide LatestSize, StatusMeans;
      statuses, answers := [], [];
      ghost var start := currentMode;
      NoFrameYet(start);
      for i := 0 to |turns|
        invariant driver.processor != null ==> driver.processor.Valid() && driver.processor.requester.Idle?
        invariant driver.processor == old(driver.processor)
        invariant |statuses| == |answers| == i && currentMode == LatestSize(start, turns[..i], statuses)
        invariant forall k | 0 <= k < i ::
          StatusMeans(answers[k], turns[k], LatestSize(start, turns[..k], statuses[..k]),
                      LatestSize(start, turns[..k + 1], statuses[..k + 1]), statuses[k])
      {
        ghost var before, mode := statuses, currentMode;
        var status;
        ghost var answer, own;
        status, answer, own := RequestFrame(turns[i]);
        OneMoreTurn(start, turns, before, i, answer, mode, currentMode, status);
        statuses, answers := statuses + [status], answers + [answer];
        assert forall k | 0 <= k <= i :: statuses[..k] == before[..k];
        assert statuses[..i + 1] == statuses;
      }
      assert turns[..|turns|] == turns && statuses[..|turns|] == statuses;
    }
  }

  lemma NoFrameYet(start: Size)
    ensures LatestSize(start, [], []) == start
  {
  }

  lemma OneMoreTurn(start: Size, turns: seq<Turn>, statuses: seq<FrameStatus>, i: nat,
                    answer: Option<FrameResult>, before: Size, after: Size, status: FrameStatus)
    requires i < |turns| && |statuses| == i && before == LatestSize(start, turns[..i], statuses)
    requires StatusMeans(answer, turns[i], before, after, status)
    ensures after == LatestSize(start, turns[..i + 1], statuses + [status])
  {
    assert turns[..i + 1][..i] == turns[..i] && (statuses + [status])[..i] == statuses;
  }
}
