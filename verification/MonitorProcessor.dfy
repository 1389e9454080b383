/** The driver's object, with the code of its two threads. Before every access to a shared field the other
    parties run for as long as they like; every call adds to one run of the protocol. */
module DriverMonitor {
  import opened FrameHandoff

  datatype Party = TheProcessor | TheRequester | TheOwner

  function By(t: Step): Party {
    if OfProcessor(t) then TheProcessor else if t.Stop? then TheOwner else TheRequester
  }

  /** What the swap chain answers to one acquire, and what becomes of the frame. */
  datatype Outcome = NotYet(ending: Ending) | Frame(number: nat, created: bool, finished: bool) | Failed

  /** How a wait for the next frame ends, unless the stop event ends it. */
  datatype Ending = NewFrame | Elapsed | Broken

  datatype FrameResult =
    | Delivered(texture: nat, meta: nat)
    | OutOfMemory | HandleFailed | Aborted | NoUpdates | Unexpected
    | Crashed                                  // the slot was null when it was used

  /** The run has gone on, and `me` took no step. */
  ghost predicate OthersRan(before: seq<Step>, after: seq<Step>, me: Party) {
    before <= after && forall k | |before| <= k < |after| :: By(after[k]) != me
  }

  class MonitorProcessor {
    var frameRequested: bool
    var frameReadyEvent: bool
    var stopEvent: bool
    var currentFrame: nat        // the acquire whose texture it is, 0 for a null pointer
    var currentMetadata: nat     // the acquire it describes, 0 for the initial one
    var filledTextures: set<nat>

    // Where the two threads stand, what has happened, and the run that led here.
    var processor: Processor
    var requester: Requester
    var history: History
    ghost var steps: seq<Step>

    function View(): State
      reads this
    {
      State(frameRequested, frameReadyEvent, stopEvent, currentFrame, filledTextures, currentMetadata,
            processor, requester, history)
    }

    ghost predicate Valid()
      reads this
    {
      Reached(steps, View())
    }

    constructor ()
      ensures Valid() && View() == START && steps == []
    {
      frameRequested, frameReadyEvent, stopEvent := false, false, false;
      currentFrame, currentMetadata, filledTextures := 0, 0, {};
      processor, requester, history := Starting, Idle, START.h;
      steps := [];
      new;
      NothingYet();
    }

    /** A step of another party. */
    method TakeForeign(t: Step, me: Party)
      requires Valid() && By(t) != me && Enabled(View(), t)
      modifies this
      ensures Valid() && steps == old(steps) + [t]
      ensures me.TheProcessor? ==> ProcessorsPart(View()) == ProcessorsPart(old(View()))
      ensures me.TheRequester? ==> requester == old(requester) && history.delivered == old(history.delivered)
    {
      hide Reached, Next, Enabled, OfProcessor;
      ReachedFurther(steps, View(), t);
      StaysPut(View(), t);
      var s := Next(View(), t);
      frameRequested, frameReadyEvent, stopEvent := s.requested, s.ready, s.stop;
      currentFrame, currentMetadata, filledTextures := s.slot, s.meta, s.filled;
      processor, requester, history := s.proc, s.req, s.h;
      steps := steps + [t];
    }

    /** The other parties run. */
    method Interfere(me: Party)
      requires Valid()
      modifies this
      ensures Valid() && OthersRan(old(steps), steps, me)
      ensures me.TheProcessor? ==> ProcessorsPart(View()) == ProcessorsPart(old(View()))
      ensures me.TheRequester? ==> requester == old(requester) && history.delivered == old(history.delivered)
    {
      hide Valid, ProcessorsPart, By;
      var n: nat :| true;
      for i := 0 to n
        invariant Valid() && OthersRan(old(steps), steps, me)
        invariant me.TheProcessor? ==> ProcessorsPart(View()) == ProcessorsPart(old(View()))
        invariant me.TheRequester? ==> requester == old(requester) && history.delivered == old(history.delivered)
      {
        var t: Step :| true;
        if By(t) != me && Enabled(View(), t) {
          TakeForeign(t, me);
        }
      }
    }

    /** Settles where a thread stands after a step of its own, and what has happened; the code that takes
        the step assigns the shared fields. */
    method Move(t: Step)
      requires Valid() && Enabled(View(), t)
      modifies this`processor, this`requester, this`history, this`steps
      ensures steps == old(steps) + [t] && Reached(steps, Next(old(View()), t))
      ensures var n := Next(old(View()), t); processor == n.proc && requester == n.req && history == n.h
    {
      hide Reached, Next, Enabled;
      ReachedFurther(steps, View(), t);
      var n := Next(View(), t);
      processor, requester, history := n.proc, n.req, n.h;
      steps := steps + [t];
    }

    // ---------- the processor thread ----------

    /** The others run, then the processor takes a step that assigns no shared field. */
    method Proceed(t: Step)
      requires Valid() && ProcessorEnabled(View(), t) && Private(t)
      modifies this
      ensures Valid() && old(steps) <= steps
      ensures var n := ProcessorNext(old(View()), t);
        history.acquired == n.h.acquired && (t.CheckFlag? || processor == n.proc)
      ensures t.CheckFlag? ==> processor == if frameRequested then Releasing else Finishing
    {
      hide Reached, RequesterNext, RequesterEnabled;
      Interfere(TheProcessor);
      Move(t);
    }

    predicate Private(t: Step) {
      t.SetDevice? || t.AcquireFrame? || t.AcquirePending? || t.AcquireFailed? || t.WaitAgain? || t.WaitBroken?
      || t.CheckFlag? || t.FinishFrame?
    }

    /** The pointer's `operator&` drops the old texture. */
    method DropTexture()
      requires Valid() && processor.Releasing?
      modifies this
      ensures Valid() && processor.Creating? && old(steps) <= steps
      ensures currentFrame == 0 && history.acquired == old(history.acquired)
    {
      hide Reached, RequesterNext, RequesterEnabled;
      Interfere(TheProcessor);
      Move(ReleaseSlot);
      currentFrame := 0;
    }

    method CreateTexture2D(created: bool)
      requires Valid() && processor.Creating?
      modifies this
      ensures Valid() && processor == (if created then Filling else Clearing) && old(steps) <= steps
      ensures currentFrame == (if created then |history.acquired| else old(currentFrame))
      ensures history.acquired == old(history.acquired)
    {
      hide Reached, RequesterNext, RequesterEnabled;
      Interfere(TheProcessor);
      Move(CreateTexture(created));
      if created {
        currentFrame := |history.acquired|;
      }
    }

    method CopyResource()
      requires Valid() && processor.Filling?
      modifies this
      ensures Valid() && processor.Stamping? && old(steps) <= steps
      ensures currentFrame == old(currentFrame) && currentFrame in filledTextures
      ensures history.acquired == old(history.acquired)
    {
      hide Reached, RequesterNext, RequesterEnabled;
      Interfere(TheProcessor);
      Move(FillTexture);
      filledTextures := filledTextures + {currentFrame};
    }

    method Stamp()
      requires Valid() && processor.Stamping?
      modifies this
      ensures Valid() && processor.Clearing? && old(steps) <= steps
      ensures currentMetadata == |history.acquired| && history.acquired == old(history.acquired)
      ensures currentFrame == old(currentFrame) && filledTextures == old(filledTextures)
    {
      hide Reached, RequesterNext, RequesterEnabled;
      Interfere(TheProcessor);
      Move(StampMetadata);
      currentMetadata := |history.acquired|;
    }

    method TakeBackRequest()
      requires Valid() && processor.Clearing?
      modifies this
      ensures Valid() && processor.Signalling? && old(steps) <= steps && history.acquired == old(history.acquired)
    {
      hide Reached, RequesterNext, RequesterEnabled;
      Interfere(TheProcessor);
      Move(ClearFlag);
      frameRequested := false;
    }

    method SetReady()
      requires Valid() && processor.Signalling?
      modifies this
      ensures Valid() && processor.Finishing? && old(steps) <= steps && history.acquired == old(history.acquired)
    {
      hide Reached, RequesterNext, RequesterEnabled;
      Interfere(TheProcessor);
      Move(SignalReady);
      frameReadyEvent := true;
    }

    /** Makes a new texture and copies the frame into it. */
    method CopyFrame(created: bool)
      requires Valid() && processor.Releasing?
      modifies this
      ensures Valid() && processor.Clearing? && old(steps) <= steps && history.acquired == old(history.acquired)
      ensures if created then currentFrame == currentMetadata == |history.acquired| && currentFrame in filledTextures
              else currentFrame == 0
    {
      hide Valid;
      DropTexture();
      CreateTexture2D(created);
      if created {
        CopyResource();
        Stamp();
      }
    }

    /** A frame was acquired: it is copied if it was asked for, and the requester is told. */
    method ProcessBuffer(number: nat, created: bool, finished: bool)
      requires Valid() && processor.Acquiring?
      modifies this
      ensures Valid() && old(steps) <= steps && history.acquired == old(history.acquired) + [number]
      ensures processor == if finished then Acquiring else Exiting
    {
      hide Valid;
      Proceed(AcquireFrame(number));
      Proceed(CheckFlag);
      if frameRequested {
        CopyFrame(created);
        TakeBackRequest();
        SetReady();
      }
      Proceed(FinishFrame(finished));
    }

    /** No frame yet: waits for the next one or for the stop event. It goes on when there is a new frame, and
        when the time has passed without a stop. */
    method AwaitFrame(ending: Ending) returns (again: bool)
      requires Valid() && processor.Acquiring?
      modifies this
      ensures Valid() && old(steps) <= steps && history.acquired == old(history.acquired)
      ensures processor == if again then Acquiring else Exiting
      ensures again <==> ending.NewFrame? || (ending.Elapsed? && !stopEvent)
    {
      hide Reached, RequesterNext, RequesterEnabled;
      Proceed(AcquirePending);
      Interfere(TheProcessor);
      if stopEvent && !ending.NewFrame? {
        Move(WaitStopped);
        again := false;
      } else {
        again := !ending.Broken?;
        Move(if again then WaitAgain else WaitBroken);
      }
    }

    /** The loop of the processor, over what the swap chain answers. Frames are processed one after the other,
        and every copy has been signalled when the loop is at its top or left. It is left exactly if something
        fails, or if a wait ends after its owner has stopped it. */
    method StartPrivate(deviceSet: bool, outcomes: seq<Outcome>) returns (taken: nat, running: bool)
      requires Valid() && processor.Starting?
      modifies this
      ensures Valid() && old(steps) <= steps && taken <= |outcomes|
      ensures if running then processor.Acquiring? && taken == |outcomes| else processor.Exiting?
      ensures history.acquired == old(history.acquired) + Numbers(outcomes[..taken])
      ensures history.signals == history.copies
      ensures if deviceSet then EndsForReason(outcomes[..taken], running, Stop in steps) else !running && taken == 0
    {
      hide *;
      taken, running := 0, deviceSet;
      SetSwapChainDevice(deviceSet);
      NothingTaken(outcomes);
      while running && taken < |outcomes|
        invariant Valid() && old(steps) <= steps && taken <= |outcomes|
        invariant processor == if running then Acquiring else Exiting
        invariant history.acquired == old(history.acquired) + Numbers(outcomes[..taken])
        invariant if deviceSet then EndsForReason(outcomes[..taken], running, stopEvent) else !running && taken == 0
      {
        running := TakeOutcome(outcomes[taken]);
        OneMoreOutcome(outcomes, taken, running, stopEvent);
        taken := taken + 1;
      }
      NoCopyUnsignalled();
      if deviceSet {
        SameReason(outcomes[..taken], running, stopEvent, Stop in steps);
      }
    }

    method SetSwapChainDevice(ok: bool)
      requires Valid() && processor.Starting?
      modifies this
      ensures Valid() && old(steps) <= steps && history.acquired == old(history.acquired)
      ensures processor == if ok then Acquiring else Exiting
    {
      Proceed(SetDevice(ok));
    }

    /** The body of the loop. */
    method TakeOutcome(outcome: Outcome) returns (running: bool)
      requires Valid() && processor.Acquiring?
      modifies this
      ensures Valid() && old(steps) <= steps && processor == if running then Acquiring else Exiting
      ensures history.acquired == old(history.acquired) + if outcome.Frame? then [outcome.number] else []
      ensures running <==> !Breaks(outcome) && !(outcome == NotYet(Elapsed) && stopEvent)
    {
      hide Valid;
      match outcome {
        case NotYet(ending) => running := AwaitFrame(ending);
        case Frame(number, created, finished) =>
          ProcessBuffer(number, created, finished);
          running := finished;
        case Failed =>
          Proceed(AcquireFailed);
          running := false;
      }
    }

    lemma NoCopyUnsignalled()
      requires Valid() && (processor.Acquiring? || processor.Exiting?)
      ensures history.signals == history.copies && (stopEvent ==> Stop in steps)
    {
      hide Possible, After;
      AlwaysInvariant(steps);
      FlagsMean(steps);
      ExitIsLast(steps);
    }

    /** The thread: however the loop ends, the stop event is set after it, so that a waiting requester can
        return. */
    method ThreadProc(deviceSet: bool, outcomes: seq<Outcome>) returns (taken: nat, running: bool)
      requires Valid() && processor.Starting?
      modifies this
      ensures Valid() && old(steps) <= steps && taken <= |outcomes| && (running ==> taken == |outcomes|)
      ensures history.acquired == old(history.acquired) + Numbers(outcomes[..taken])
      ensures !running ==> processor.Done? && stopEvent && (requester.Waiting? ==> CanReturn(View()))
      ensures if deviceSet then EndsForReason(outcomes[..taken], running, Stop in steps) else !running && taken == 0
    {
      hide Numbers, Valid, EndsForReason;
      taken, running := StartPrivate(deviceSet, outcomes);
      if !running {
        ghost var before := steps;
        Leave();
        if deviceSet {
          SameReason(outcomes[..taken], running, Stop in before, Stop in steps);
        }
      }
    }

    /** `SetEvent(m_stopEvent)` */
    method Leave()
      requires Valid() && processor.Exiting?
      modifies this
      ensures Valid() && old(steps) <= steps && history.acquired == old(history.acquired)
      ensures processor.Done? && stopEvent && (requester.Waiting? ==> CanReturn(View()))
    {
      hide Reached, RequesterNext, RequesterEnabled;
      Interfere(TheProcessor);
      Move(Exit);
      stopEvent := true;
    }

    // ---------- the requesting thread ----------

    method Ask() returns (ghost met: State)
      requires Valid() && requester.Idle?
      modifies this
      ensures Valid() && requester.Waiting? && history.delivered == old(history.delivered)
      ensures OwnStep(old(steps), steps, Request, met) && AskedAt(steps, |steps| - 1, history.delivered)
    {
      hide Possible, After, ProcessorNext, ProcessorEnabled;
      Interfere(TheRequester);
      ghost var before := steps;
      met := View();
      Move(Request);
      assert steps[..|steps| - 1] == before;
      frameRequested := true;
    }

    /** The wait for the two events: the first signalled one wins, and the ready event resets itself. `met` is
        what the wait found when it ended. */
    method AwaitAnswer(fails: bool) returns (ready: bool, result: FrameResult, ghost met: State)
      requires Valid() && requester.Waiting?
      modifies this
      ensures Valid() && history.delivered == old(history.delivered)
      ensures OwnStep(old(steps), steps, WaitEnd(fails, met), met)
      ensures ready <==> !fails && met.ready
      ensures if ready then requester.Woken? && NoneAbandonedSince(old(steps), steps) else requester.Idle?
      ensures !ready ==>
                && (result.Unexpected? <==> fails)
                && (result.Aborted? <==> !fails && met.stop)
                && (result.NoUpdates? <==> !fails && !met.stop)
    {
      hide Reached, ProcessorNext, ProcessorEnabled, OwnStep, OthersRan, NoneAbandonedSince;
      ready, result := false, Unexpected;
      Interfere(TheRequester);
      ghost var before := steps;
      met := View();
      if fails {
        Move(WaitFailed);
      } else if frameReadyEvent {
        Move(WakeReady);
        frameReadyEvent := false;
        ready := true;
      } else if stopEvent {
        Move(WakeStopped);
        result := Aborted;
      } else {
        Move(TimeOut);
        result := NoUpdates;
      }
      TakenOn(old(steps), before, steps, WaitEnd(fails, met), met);
    }

    /** `if (!m_currentFrame)` */
    method SlotIsNull() returns (isNull: bool, ghost met: State)
      requires Valid() && requester.Woken?
      modifies this
      ensures Valid() && NoneAbandonedSince(old(steps), steps) && history.delivered == old(history.delivered)
      ensures OwnStep(old(steps), steps, CheckNull, met) && (isNull <==> met.slot == 0)
      ensures requester == if isNull then Idle else Checked
    {
      hide Reached, ProcessorNext, ProcessorEnabled;
      Interfere(TheRequester);
      ghost var before := steps;
      met := View();
      Move(CheckNull);
      assert steps[..|steps| - 1] == before;
      isNull := currentFrame == 0;
    }

    /** `m_currentFrame->QueryInterface`: 0 stands for the use of a null pointer. */
    method UseSlot() returns (texture: nat, ghost met: State)
      requires Valid() && requester.Checked?
      modifies this
      ensures Valid() && NoneAbandonedSince(old(steps), steps) && history.delivered == old(history.delivered)
      ensures OwnStep(old(steps), steps, TakeReference, met) && texture == met.slot
      ensures if texture == 0 then requester.Idle? && history.crashed else requester == Holding(texture)
    {
      hide Reached, ProcessorNext, ProcessorEnabled;
      Interfere(TheRequester);
      ghost var before := steps;
      met := View();
      Move(TakeReference);
      assert steps[..|steps| - 1] == before;
      texture := currentFrame;
    }

    /** The shared handle, and with it the metadata, if the handle could be made. */
    method HandOut(shared: bool) returns (meta: nat, ghost met: State)
      requires Valid() && requester.Holding?
      modifies this
      ensures Valid() && NoneAbandonedSince(old(steps), steps) && requester.Idle?
      ensures OwnStep(old(steps), steps, Return(shared), met) && meta == met.meta
      ensures if shared then HandedOut(old(history.delivered), history.delivered, old(requester).texture, meta)
              else history.delivered == old(history.delivered)
    {
      hide Reached, ProcessorNext, ProcessorEnabled;
      Interfere(TheRequester);
      ghost var before := steps;
      met := View();
      meta := currentMetadata;
      Move(Return(shared));
      assert steps[..|steps| - 1] == before;
    }

    lemma KeepsPromise(start: seq<Step>, asked: nat, delivered: seq<Delivery>, result: FrameResult)
      requires Valid() && |start| == asked + 1 && AskedAt(start, asked, delivered)
      requires NoneAbandonedSince(start, steps) && !Hazard(After(start[..asked]))
      requires result.Delivered? ==> HandedOut(delivered, history.delivered, result.texture, result.meta)
      ensures history.crashed == After(start[..asked]).h.crashed
      ensures result.Delivered? ==> Matched(history.delivered[|history.delivered| - 1])
    {
      hide Possible, After, Hazard, NoneAbandonedSince, HandedOut, Matched;
      Promise(steps, asked, delivered, start);
      if result.Delivered? {
        LastIsMatched(delivered, history.delivered, After(start[..asked]), View(), result.texture, result.meta);
      }
    }

    /** Asks for a frame, waits and takes it. `own` are the caller's own steps in the run, the first of which is
        the request, each with the state that it met; they decide the answer. After a time-out no frame can have
        been acquired and finished since the request. If there was no hazard then, whatever had been abandoned
        before, the slot is not found null after its check, and what is delivered is a frame with its own
        metadata, filled, and no older than the last one before the request. Nothing else is ever delivered. */
    method RequestFrame(fails: bool, shared: bool) returns (result: FrameResult, ghost own: seq<Moment>)
      requires Valid() && requester.Idle?
      modifies this
      ensures Valid() && requester.Idle? && OwnMoments(steps, |old(steps)|, own)
      ensures AnswerMeans(steps, own, fails, shared, result)
      ensures if result.Delivered?
              then HandedOut(old(history.delivered), history.delivered, result.texture, result.meta)
              else history.delivered == old(history.delivered)
      ensures !Hazard(own[0].met) ==>
                && (result.Crashed? ==> own[0].met.h.crashed)
                && (result.Delivered? ==> Matched(history.delivered[|history.delivered| - 1]))
    {
      hide Reached, Possible, After, Hazard, NoneAbandonedSince, HandedOut, Matched, OwnMoments, OwnStep;
      hide AskedAt, Valid, NothingFinished, SlotMeans;
      ghost var from, delivered := |steps|, history.delivered;
      ghost var met := Ask();
      own := FirstMoment(old(steps), steps, met);
      ghost var start := steps;
      AskedMet(old(steps), start, met, delivered);
      var ready;
      ready, result, met := AwaitAnswer(fails);
      own := OwnFurther(start, steps, from, own, WaitEnd(fails, met), met);
      if ready {
        ghost var woken := steps;
        result, own := TakeFrame(shared, from, own);
        NoneAbandonedFurther(start, woken, steps);
        if !Hazard(own[0].met) {
          KeepsPromise(start, own[0].at, delivered, result);
        }
      } else if result.NoUpdates? {
        QuietUntilTimeOut(start, steps, delivered, met);
      }
    }

    /** The frame is ready: what `RequestFrame` does with the slot. */
    method TakeFrame(shared: bool, ghost from: nat, ghost before: seq<Moment>)
      returns (result: FrameResult, ghost own: seq<Moment>)
      requires Valid() && requester.Woken? && from <= |steps| && |before| == 2 && OwnMoments(steps, from, before)
      modifies this
      ensures Valid() && requester.Idle? && OwnMoments(steps, from, own)
      ensures 2 < |own| && own[0] == before[0] && own[1] == before[1] && old(steps) <= steps
      ensures NoneAbandonedSince(old(steps), steps) && SlotMeans(steps, own, shared, result)
      ensures before[0].at < before[1].at < |old(steps)|
      ensures !result.Unexpected? && !result.Aborted? && !result.NoUpdates? && (result.Crashed? ==> history.crashed)
      ensures if result.Delivered?
              then HandedOut(old(history.delivered), history.delivered, result.texture, result.meta)
              else history.delivered == old(history.delivered)
    {
      hide NoneAbandonedSince, HandedOut, OwnMoments, OwnStep, Valid;
      MomentsInOrder(steps, from, before);
      ghost var met;
      var isNull;
      isNull, met := SlotIsNull();
      own := OwnFurther(old(steps), steps, from, before, CheckNull, met);
      if isNull {
        return OutOfMemory, own;
      }
      ghost var checked := steps;
      result, own := UseFrame(shared, from, own);
      assert own[..3][0] == own[0] && own[..3][1] == own[1];
      NoneAbandonedFurther(old(steps), checked, steps);
    }

    /** The slot was not null when it was checked. */
    method UseFrame(shared: bool, ghost from: nat, ghost before: seq<Moment>)
      returns (result: FrameResult, ghost own: seq<Moment>)
      requires Valid() && requester.Checked? && from <= |steps| && OwnMoments(steps, from, before)
      requires |before| == 3 && before[2].at < |steps| && steps[before[2].at] == CheckNull && before[2].met.slot != 0
      modifies this
      ensures Valid() && requester.Idle? && OwnMoments(steps, from, own)
      ensures |own| > 3 && own[..3] == before && old(steps) <= steps
      ensures NoneAbandonedSince(old(steps), steps) && SlotMeans(steps, own, shared, result)
      ensures !result.Unexpected? && !result.Aborted? && !result.NoUpdates? && (result.Crashed? ==> history.crashed)
      ensures if result.Delivered?
              then HandedOut(old(history.delivered), history.delivered, result.texture, result.meta)
              else history.delivered == old(history.delivered)
    {
      hide NoneAbandonedSince, HandedOut, OwnMoments, OwnStep, Valid;
      ghost var met;
      var texture;
      texture, met := UseSlot();
      own := OwnFurther(old(steps), steps, from, before, TakeReference, met);
      if texture == 0 {
        return Crashed, own;
      }
      ghost var used := steps;
      var meta;
      meta, met := HandOut(shared);
      own := OwnFurther(used, steps, from, own, Return(shared), met);
      NoneAbandonedFurther(old(steps), used, steps);
      result := if shared then Delivered(texture, meta) else HandleFailed;
    }
  }

  /** Nothing goes on after this answer. */
  predicate Breaks(outcome: Outcome) {
    match outcome
    case NotYet(ending) => ending.Broken?
    case Frame(_, _, finished) => !finished
    case Failed => true
  }

  /** The loop goes on over all of these answers but the last, and ends with the last one only if that broke it,
      or if it was stopped while it waited in vain. */
  ghost predicate EndsForReason(outcomes: seq<Outcome>, running: bool, stopped: bool) {
    && (forall k | 0 <= k < |outcomes| && Breaks(outcomes[k]) :: k == |outcomes| - 1 && !running)
    && (!running ==>
          && outcomes != []
          && var last := outcomes[|outcomes| - 1];
             Breaks(last) || (last == NotYet(Elapsed) && stopped))
  }

  lemma NothingTaken(outcomes: seq<Outcome>)
    ensures EndsForReason(outcomes[..0], true, false) && EndsForReason(outcomes[..0], true, true)
    ensures Numbers(outcomes[..0]) == []
    ensures forall acquired: seq<nat> :: acquired + Numbers(outcomes[..0]) == acquired
  {
  }

  lemma OneMoreOutcome(outcomes: seq<Outcome>, taken: nat, running: bool, stopped: bool)
    requires taken < |outcomes|
    requires EndsForReason(outcomes[..taken], true, true) || EndsForReason(outcomes[..taken], true, false)
    requires running <==> !Breaks(outcomes[taken]) && !(outcomes[taken] == NotYet(Elapsed) && stopped)
    ensures EndsForReason(outcomes[..taken + 1], running, stopped)
    ensures Numbers(outcomes[..taken + 1]) ==
            Numbers(outcomes[..taken]) + if outcomes[taken].Frame? then [outcomes[taken].number] else []
    ensures forall acquired: seq<nat>, more: seq<nat> ::
      acquired + Numbers(outcomes[..taken]) + more == acquired + (Numbers(outcomes[..taken]) + more)
  {
    hide Breaks;
    var front := outcomes[..taken];
    assert outcomes[..taken + 1] == front + [outcomes[taken]];
    NumbersSnoc(front, outcomes[taken]);
    assert forall k | 0 <= k < taken :: (front + [outcomes[taken]])[k] == front[k];
  }

  lemma SameReason(outcomes: seq<Outcome>, running: bool, stopped: bool, stopped': bool)
    requires EndsForReason(outcomes, running, stopped) && (stopped ==> stopped')
    ensures EndsForReason(outcomes, running, stopped')
  {
  }

  /** A step of the requesting thread: where in the run it is, and the state that it met. */
  datatype Moment = Moment(at: nat, met: State)

  /** How the wait ends, by what it meets. */
  function WaitEnd(fails: bool, met: State): Step {
    if fails then WaitFailed else if met.ready then WakeReady else if met.stop then WakeStopped else TimeOut
  }

  /** The others have run, and then the requester has taken this step, which met this state. */
  ghost predicate OwnStep(before: seq<Step>, after: seq<Step>, t: Step, met: State) {
    && |before| < |after| && OthersRan(before, after[..|after| - 1], TheRequester)
    && after[|after| - 1] == t && By(t) == TheRequester && Reached(after[..|after| - 1], met)
  }

  lemma TakenOn(start: seq<Step>, before: seq<Step>, after: seq<Step>, t: Step, met: State)
    requires OthersRan(start, before, TheRequester) && after == before + [t] && By(t) == TheRequester
    requires Reached(before, met)
    ensures OwnStep(start, after, t, met) && (!Abandons(t) ==> NoneAbandonedSince(start, after))
  {
    hide Reached;
    assert after[..|after| - 1] == before;
  }

  /** These are all the requester's steps of the run from `from` on, in their order. */
  ghost predicate OwnMoments(steps: seq<Step>, from: nat, own: seq<Moment>) {
    && (forall i | 0 <= i < |own| :: from <= own[i].at < |steps| && Reached(steps[..own[i].at], own[i].met))
    && (forall i, j | 0 <= i < j < |own| :: own[i].at < own[j].at)
    && (forall k | from <= k < |steps| && By(steps[k]) == TheRequester :: exists i :: 0 <= i < |own| && own[i].at == k)
  }

  lemma OwnFurther(before: seq<Step>, after: seq<Step>, from: nat, own: seq<Moment>, t: Step, met: State)
    returns (more: seq<Moment>)
    requires from <= |before| && OwnMoments(before, from, own) && OwnStep(before, after, t, met)
    ensures more == own + [Moment(|after| - 1, met)] && before <= after && after[|after| - 1] == t
    ensures OwnMoments(after, from, more)
    ensures forall i | 0 <= i < |own| :: own[i].at < |before| && after[own[i].at] == before[own[i].at]
  {
    hide Reached, By;
    more := own + [Moment(|after| - 1, met)];
    assert forall k | |before| <= k < |after| - 1 :: after[..|after| - 1][k] == after[k];
    forall i | 0 <= i < |own| ensures own[i].at < |before| && after[..own[i].at] == before[..own[i].at] {}
    assert forall i | 0 <= i < |more| :: from <= more[i].at < |after| && Reached(after[..more[i].at], more[i].met);
    assert forall i, j | 0 <= i < j < |more| :: more[i].at < more[j].at;
    forall k | from <= k < |after| && By(after[k]) == TheRequester
      ensures exists i :: 0 <= i < |more| && more[i].at == k
    {
      assert k < |before| || k == |after| - 1;
      NoneLeftOut(before, from, own, more, k);
    }
  }

  lemma NoneLeftOut(before: seq<Step>, from: nat, own: seq<Moment>, more: seq<Moment>, k: nat)
    requires OwnMoments(before, from, own) && |more| == |own| + 1 && own <= more && from <= k
    requires if k < |before| then By(before[k]) == TheRequester else more[|own|].at == k
    ensures exists i :: 0 <= i < |more| && more[i].at == k
  {
    hide Reached, By;
    if k < |before| {
      var i :| 0 <= i < |own| && own[i].at == k;
      assert more[i].at == k;
    }
  }

  lemma FirstMoment(before: seq<Step>, after: seq<Step>, met: State) returns (own: seq<Moment>)
    requires OwnStep(before, after, Request, met)
    ensures own == [Moment(|after| - 1, met)] && OwnMoments(after, |before|, own)
    ensures |before| < |after| && after[|after| - 1] == Request
  {
    own := OwnFurther(before, after, |before|, [], Request, met);
  }

  lemma MomentsInOrder(steps: seq<Step>, from: nat, own: seq<Moment>)
    requires OwnMoments(steps, from, own) && |own| == 2
    ensures own[0].at < own[1].at < |steps|
  {
    hide Reached;
  }

  /** What the answer to a request means, by what the requester's own steps met: the end of its wait, the check
      of the slot, its use, and the reading of the metadata. */
  ghost predicate AnswerMeans(steps: seq<Step>, own: seq<Moment>, fails: bool, shared: bool, result: FrameResult) {
    && 2 <= |own| && own[0].at < own[1].at < |steps|
    && steps[own[0].at] == Request
    && var met := own[1].met;
    && steps[own[1].at] == WaitEnd(fails, met)
    && (result.Unexpected? <==> fails)
    && (result.Aborted? <==> !fails && !met.ready && met.stop)
    && (result.NoUpdates? <==> !fails && !met.ready && !met.stop)
    && (result.NoUpdates? ==> NothingFinished(steps[own[0].at..own[1].at]))
    && (2 < |own| <==> !fails && met.ready)
    && (2 < |own| ==> SlotMeans(steps, own, shared, result))
  }

  /** What it means once the requester has been woken. */
  ghost predicate SlotMeans(steps: seq<Step>, own: seq<Moment>, shared: bool, result: FrameResult)
    requires 2 < |own|
  {
    && (forall i | 2 <= i < |own| :: own[i].at < |steps|) && |own| <= 5
    && steps[own[2].at] == CheckNull
    && (result.OutOfMemory? <==> own[2].met.slot == 0) && (3 < |own| <==> own[2].met.slot != 0)
    && (3 < |own| ==>
          && steps[own[3].at] == TakeReference
          && (result.Crashed? <==> own[3].met.slot == 0) && (4 < |own| <==> own[3].met.slot != 0))
    && (4 < |own| ==>
          && steps[own[4].at] == Return(shared)
          && result == if shared then Delivered(own[3].met.slot, own[4].met.meta) else HandleFailed)
  }

  /** No frame that was acquired in these steps has been finished in them, and the processor has not left. */
  ghost predicate NothingFinished(steps: seq<Step>) {
    && Exit !in steps && Stop !in steps
    && forall a, b | 0 <= a < b < |steps| && steps[a].AcquireFrame? :: !steps[b].FinishFrame?
  }

  lemma AskedMet(before: seq<Step>, start: seq<Step>, met: State, delivered: seq<Delivery>)
    requires OwnStep(before, start, Request, met) && AskedAt(start, |start| - 1, delivered)
    ensures Possible(start[..|start| - 1]) && After(start[..|start| - 1]) == met
  {
    hide Possible, After;
  }

  lemma NotAnswered(start: seq<Step>, more: seq<Step>)
    requires Possible(start) && Possible(start + more) && NoneOfRequester(more) && After(start).req.Waiting?
    requires !After(start + more).ready && !After(start + more).stop
    ensures NothingFinished(more)
  {
    FlagsMean(start + more);
    hide *;
    NotIn(start, more, Exit);
    NotIn(start, more, Stop);
    forall a, b | 0 <= a < b < |more| && more[a].AcquireFrame?
      ensures !more[b].FinishFrame?
    {
      if more[b].FinishFrame? {
        FinishedAnswers(start, more, a, b);
      }
    }
    AsStated(more);
  }

  lemma NotIn(a: seq<Step>, b: seq<Step>, t: Step)
    requires t !in a + b
    ensures t !in b
  {
  }

  lemma FinishedAnswers(start: seq<Step>, more: seq<Step>, a: nat, b: nat)
    requires Possible(start) && Possible(start + more) && NoneOfRequester(more) && After(start).req.Waiting?
    requires a < b < |more| && more[a].AcquireFrame? && more[b].FinishFrame?
    ensures After(start + more).ready || After(start + more).stop
  {
    hide Possible, After, NoneOfRequester;
    EveryFrameAnswers(start, more, a, b);
  }

  lemma AsStated(steps: seq<Step>)
    requires Exit !in steps && Stop !in steps
    requires forall a, b | 0 <= a < b < |steps| && steps[a].AcquireFrame? :: !steps[b].FinishFrame?
    ensures NothingFinished(steps)
  {
  }

  lemma StillNothing(more: seq<Step>)
    requires NothingFinished(more)
    ensures NothingFinished([Request] + more)
  {
  }

  /** A wait that times out was not kept waiting: since the request the processor has neither left nor finished
      a frame that it had acquired since. */
  lemma QuietUntilTimeOut(start: seq<Step>, steps: seq<Step>, delivered: seq<Delivery>, met: State)
    requires start != [] && AskedAt(start, |start| - 1, delivered) && OwnStep(start, steps, TimeOut, met)
    requires !met.ready && !met.stop
    ensures NothingFinished(steps[|start| - 1..|steps| - 1])
  {
    var more := steps[|start|..|steps| - 1];
    CutApart(start, steps[..|steps| - 1]);
    assert steps[..|steps| - 1][|start|..] == more;
    assert steps[..|steps| - 1][|start| - 1..] == steps[|start| - 1..|steps| - 1];
    OthersOnly(start, more);
    hide *;
    EndMet(start, steps, met);
    WaitsAfter(start, more, delivered);
    NotAnswered(start, more);
    StillNothing(more);
  }

  lemma CutApart<T>(front: seq<T>, all: seq<T>)
    requires front != [] && front <= all
    ensures front + all[|front|..] == all && all[|front| - 1..] == [front[|front| - 1]] + all[|front|..]
  {
  }

  lemma OthersOnly(start: seq<Step>, more: seq<Step>)
    requires OthersRan(start, start + more, TheRequester)
    ensures NoneOfRequester(more)
  {
    assert forall k | 0 <= k < |more| :: more[k] == (start + more)[|start| + k];
  }

  lemma EndMet(start: seq<Step>, steps: seq<Step>, met: State)
    requires OwnStep(start, steps, TimeOut, met)
    ensures Possible(steps[..|steps| - 1]) && After(steps[..|steps| - 1]) == met
  {
    hide Possible, After;
  }

  lemma WaitsAfter(start: seq<Step>, more: seq<Step>, delivered: seq<Delivery>)
    requires start != [] && AskedAt(start, |start| - 1, delivered) && Possible(start + more)
    ensures Possible(start) && After(start).req.Waiting?
  {
    assert start == start[..|start| - 1] + [Request];
    assert (start + more)[..|start|] == start;
    hide Possible, After, Next, Enabled;
    Asking(After(start[..|start| - 1]));
    Extended(start[..|start| - 1], Request);
    PrefixPossible(start + more, |start|);
  }

  lemma Asking(s: State)
    requires s.req.Idle?
    ensures Enabled(s, Request) && Next(s, Request).req.Waiting?
  {
  }

  /** The run has gone on, and no request was abandoned. */
  ghost predicate NoneAbandonedSince(before: seq<Step>, after: seq<Step>) {
    before <= after && forall k | |before| <= k < |after| :: !Abandons(after[k])
  }

  /** Step `asked` of the run is a request, made when these frames had been handed out. */
  ghost predicate AskedAt(steps: seq<Step>, asked: nat, delivered: seq<Delivery>) {
    && asked < |steps| && steps[asked] == Request && Possible(steps[..asked])
    && After(steps[..asked]).req.Idle? && After(steps[..asked]).h.delivered == delivered
  }

  lemma AskedStays(before: seq<Step>, after: seq<Step>, asked: nat, delivered: seq<Delivery>)
    requires AskedAt(before, asked, delivered) && before <= after
    ensures AskedAt(after, asked, delivered) && after[..asked] == before[..asked]
  {
    hide Possible, After;
    assert after[..asked] == before[..asked];
  }

  lemma NoneAbandonedFurther(a: seq<Step>, b: seq<Step>, c: seq<Step>)
    requires NoneAbandonedSince(a, b) && NoneAbandonedSince(b, c)
    ensures NoneAbandonedSince(a, c)
  {
  }

  /** What `MatchedIffNoHazard` means for one call. */
  lemma Promise(steps: seq<Step>, asked: nat, delivered: seq<Delivery>, start: seq<Step>)
    requires Possible(steps) && |start| == asked + 1 && AskedAt(start, asked, delivered)
    requires NoneAbandonedSince(start, steps) && !Hazard(After(start[..asked]))
    ensures MatchedSince(After(start[..asked]), After(steps))
  {
    hide Possible, After, Hazard, MatchedSince;
    var more := steps[asked..];
    assert steps == start[..asked] + more && more[0] == Request;
    assert NoneAbandoned(more) by {
      forall k | 0 <= k < |more| ensures !Abandons(more[k]) { assert more[k] == steps[asked + k]; }
    }
    MatchedIffNoHazard(start[..asked]);
  }

  lemma LastIsMatched(before: seq<Delivery>, after: seq<Delivery>, s: State, s': State, texture: nat, meta: nat)
    requires s.h.delivered == before && s'.h.delivered == after && MatchedSince(s, s')
    requires HandedOut(before, after, texture, meta)
    ensures Matched(after[|after| - 1])
  {
    assert after[|before|..][0] == after[|before|];
  }

  ghost predicate HandedOut(before: seq<Delivery>, after: seq<Delivery>, texture: nat, meta: nat) {
    |after| == |before| + 1 && before <= after && after[|before|].texture == texture && after[|before|].meta == meta
  }

  /** What only the processor changes. */
  function ProcessorsPart(s: State): (Processor, nat, nat, set<nat>, seq<nat>) {
    (s.proc, s.slot, s.meta, s.filled, s.h.acquired)
  }

  function Numbers(outcomes: seq<Outcome>): seq<nat> {
    if outcomes == [] then []
    else
      var last := outcomes[|outcomes| - 1];
      Numbers(outcomes[..|outcomes| - 1]) + if last.Frame? then [last.number] else []
  }

  lemma NumbersSnoc(outcomes: seq<Outcome>, o: Outcome)
    ensures Numbers(outcomes + [o]) == Numbers(outcomes) + if o.Frame? then [o.number] else []
  {
    assert (outcomes + [o])[..|outcomes|] == outcomes;
  }

  lemma StaysPut(s: State, t: Step)
    requires Enabled(s, t)
    ensures By(t) != TheProcessor ==> ProcessorsPart(Next(s, t)) == ProcessorsPart(s)
    ensures By(t) != TheRequester ==> Next(s, t).req == s.req && Next(s, t).h.delivered == s.h.delivered
  {
    if OfProcessor(t) {
      hide RequesterNext, RequesterEnabled;
    } else {
      hide ProcessorNext, ProcessorEnabled;
    }
  }
}
