/** The hand-off of frames in the Windows driver: a processor thread that acquires frames and a
    requesting thread, sharing a flag, an auto-reset event, a manual-reset event and a frame slot.
    Every step is one access to shared state; there is one requester per monitor. */
module FrameHandoff {

  // ---------- the state ----------

  /** Where the processor thread stands, named after what it does next. */
  datatype Processor =
    | Starting | Acquiring | Pending | Checking
    | Releasing | Creating | Filling | Stamping   // inside `CopyFrame`
    | Clearing | Signalling | Finishing | Exiting | Done

  /** Where `RequestFrame` stands. `Holding` keeps its own reference to a texture. */
  datatype Requester = Idle | Waiting | Woken | Checked | Holding(texture: nat)

  /** A frame handed out: the acquire its texture was made for, the acquire its metadata describe,
      whether the texture had been filled by then, and how many frames had been acquired when the
      request was made. */
  datatype Delivery = Delivery(texture: nat, meta: nat, filled: bool, asked: nat)

  /** Acquires are numbered from 1; a slot of 0 is a null texture and metadata 0 the initial ones. */
  datatype State = State(
    requested: bool, ready: bool, stop: bool,
    slot: nat, filled: set<nat>, meta: nat,
    proc: Processor, req: Requester, h: History)

  /** What has happened: the presentation numbers of the acquired frames, the last texture made, the
      frames acquired when the pending request was made, and what was done how often. */
  datatype History = History(
    acquired: seq<nat>, newest: nat, asked: nat,
    requests: nat, copies: nat, signals: nat, wakes: nat,
    delivered: seq<Delivery>, crashed: bool)

  const START := State(false, false, false, 0, {}, 0, Starting, Idle, History([], 0, 0, 0, 0, 0, 0, [], false))

  datatype Step =
    // processor
    | SetDevice(ok: bool)            // the calls before the loop
    | AcquireFrame(number: nat)      // a frame, with its presentation number
    | AcquirePending
    | AcquireFailed
    | WaitAgain                      // a new frame was announced, or 16 ms have passed
    | WaitStopped
    | WaitBroken
    | CheckFlag
    | ReleaseSlot                    // the pointer's `operator&` drops the previous texture
    | CreateTexture(ok: bool)
    | FillTexture
    | StampMetadata
    | ClearFlag
    | SignalReady
    | FinishFrame(ok: bool)
    | Exit
    // requester
    | Request
    | WakeReady
    | WakeStopped
    | TimeOut
    | WaitFailed
    | CheckNull
    | TakeReference
    | Return(ok: bool)               // the shared handle could be created, or not
    // the swap chain is being taken away
    | Stop

  predicate OfProcessor(t: Step) {
    t.SetDevice? || t.AcquireFrame? || t.AcquirePending? || t.AcquireFailed? || t.WaitAgain? || t.WaitStopped?
    || t.WaitBroken? || t.CheckFlag? || t.ReleaseSlot? || t.CreateTexture? || t.FillTexture? || t.StampMetadata?
    || t.ClearFlag? || t.SignalReady? || t.FinishFrame? || t.Exit?
  }

  predicate Enabled(s: State, t: Step) {
    if OfProcessor(t) then ProcessorEnabled(s, t) else RequesterEnabled(s, t)
  }

  predicate ProcessorEnabled(s: State, t: Step) {
    match t
    case SetDevice(_) => s.proc.Starting?
    case AcquireFrame(_) => s.proc.Acquiring?
    case AcquirePending => s.proc.Acquiring?
    case AcquireFailed => s.proc.Acquiring?
    case WaitAgain => s.proc.Pending?
    case WaitStopped => s.proc.Pending? && s.stop
    case WaitBroken => s.proc.Pending?
    case CheckFlag => s.proc.Checking?
    case ReleaseSlot => s.proc.Releasing?
    case CreateTexture(_) => s.proc.Creating?
    case FillTexture => s.proc.Filling?
    case StampMetadata => s.proc.Stamping?
    case ClearFlag => s.proc.Clearing?
    case SignalReady => s.proc.Signalling?
    case FinishFrame(_) => s.proc.Finishing?
    case Exit => s.proc.Exiting?
    case _ => false
  }

  predicate RequesterEnabled(s: State, t: Step) {
    match t
    case Request => s.req.Idle?
    case WakeReady => s.req.Waiting? && s.ready
    case WakeStopped => s.req.Waiting? && s.stop && !s.ready    // the first signalled handle wins
    case TimeOut => s.req.Waiting? && !s.ready && !s.stop
    case WaitFailed => s.req.Waiting?
    case CheckNull => s.req.Woken?
    case TakeReference => s.req.Checked?
    case Return(_) => s.req.Holding?
    case Stop => true
    case _ => false
  }

  function Next(s: State, t: Step): State
    requires Enabled(s, t)
  {
    if OfProcessor(t) then ProcessorNext(s, t) else RequesterNext(s, t)
  }

  function ProcessorNext(s: State, t: Step): State
    requires ProcessorEnabled(s, t)
  {
    match t
    case SetDevice(ok) => s.(proc := if ok then Acquiring else Exiting)
    case AcquireFrame(number) => s.(proc := Checking, h := s.h.(acquired := s.h.acquired + [number]))
    case AcquirePending => s.(proc := Pending)
    case AcquireFailed => s.(proc := Exiting)
    case WaitAgain => s.(proc := Acquiring)
    case WaitStopped => s.(proc := Exiting)
    case WaitBroken => s.(proc := Exiting)
    case CheckFlag =>
      if s.requested then s.(proc := Releasing, h := s.h.(copies := s.h.copies + 1)) else s.(proc := Finishing)
    case ReleaseSlot => s.(proc := Creating, slot := 0)
    case CreateTexture(ok) =>
      if ok then s.(proc := Filling, slot := |s.h.acquired|, h := s.h.(newest := |s.h.acquired|))
      else s.(proc := Clearing)
    case FillTexture => s.(proc := Stamping, filled := s.filled + {s.slot})
    case StampMetadata => s.(proc := Clearing, meta := |s.h.acquired|)
    case ClearFlag => s.(proc := Signalling, requested := false)
    case SignalReady => s.(proc := Finishing, ready := true, h := s.h.(signals := s.h.signals + 1))
    case FinishFrame(ok) => s.(proc := if ok then Acquiring else Exiting)
    case Exit => s.(proc := Done, stop := true)
  }

  function RequesterNext(s: State, t: Step): State
    requires RequesterEnabled(s, t)
  {
    match t
    case Request =>
      s.(req := Waiting, requested := true, h := s.h.(requests := s.h.requests + 1, asked := |s.h.acquired|))
    case WakeReady => s.(req := Woken, ready := false, h := s.h.(wakes := s.h.wakes + 1))
    case WakeStopped => s.(req := Idle)
    case TimeOut => s.(req := Idle)
    case WaitFailed => s.(req := Idle)
    case CheckNull => s.(req := if s.slot == 0 then Idle else Checked)
    case TakeReference =>
      if s.slot == 0 then s.(req := Idle, h := s.h.(crashed := true)) else s.(req := Holding(s.slot))
    case Return(ok) =>
      if ok then
        var t := s.req.texture;
        s.(req := Idle, h := s.h.(delivered := s.h.delivered + [Delivery(t, s.meta, t in s.filled, s.h.asked)]))
      else s.(req := Idle)
    case Stop => s.(stop := true)
  }

  // ---------- runs ----------

  /** The steps can be taken from the start, in this order. */
  ghost predicate Possible(steps: seq<Step>)
    decreases |steps|, 0
  {
    steps == [] || (Possible(steps[..|steps| - 1]) && Enabled(After(steps[..|steps| - 1]), steps[|steps| - 1]))
  }

  ghost function After(steps: seq<Step>): State
    requires Possible(steps)
    decreases |steps|, 1
  {
    if steps == [] then START else Next(After(steps[..|steps| - 1]), steps[|steps| - 1])
  }

  ghost predicate Reached(steps: seq<Step>, s: State) {
    Possible(steps) && After(steps) == s
  }

  lemma ReachedFurther(steps: seq<Step>, s: State, t: Step)
    requires Reached(steps, s) && Enabled(s, t)
    ensures Reached(steps + [t], Next(s, t))
  {
    hide Enabled, Next;
    assert (steps + [t])[..|steps|] == steps;
  }

  // ---------- what holds in every run ----------

  predicate Copying(p: Processor) {
    p.Releasing? || p.Creating? || p.Filling? || p.Stamping? || p.Clearing?
  }

  predicate HasFrame(p: Processor) {
    p.Checking? || Copying(p) || p.Signalling? || p.Finishing?
  }

  function One(b: bool): nat { if b then 1 else 0 }

  predicate InHand(r: Requester) {
    r.Woken? || r.Checked? || r.Holding?
  }

  /** No request is lost: the flag is set, the event signalled, or the processor about to signal. */
  predicate NotLost(s: State) {
    && (s.req.Waiting? ==> s.requested || s.ready || s.proc.Signalling?)
    && (s.proc.Done? ==> s.stop)
    && (Copying(s.proc) ==> s.requested)
  }

  /** Deliveries, wake-ups, signals, copies and requests never outnumber what they come from. */
  predicate Conserved(s: State) {
    && s.h.signals + One(Copying(s.proc) || s.proc.Signalling?) == s.h.copies
    && s.h.copies + One(s.requested && !Copying(s.proc)) <= s.h.requests
    && s.h.wakes + One(s.ready) <= s.h.signals
    && |s.h.delivered| + One(InHand(s.req)) <= s.h.wakes
  }

  /** The slot is empty, or its texture was filled in the acquire that the metadata describe. */
  predicate Settled(s: State) {
    s.slot == 0 || (s.slot == s.meta && s.slot in s.filled)
  }

  /** Outside the middle of a copy the slot is settled. */
  predicate SlotOk(s: State) {
    && s.h.newest <= |s.h.acquired| && s.meta <= |s.h.acquired|
    && (s.slot == 0 || s.slot == s.h.newest)
    && (HasFrame(s.proc) ==> 0 < |s.h.acquired|)
    && (s.proc.Checking? || (Copying(s.proc) && !s.proc.Clearing?) ==> s.meta < |s.h.acquired|)
    && match s.proc
       case Creating => s.slot == 0
       case Filling => 0 < s.slot == |s.h.acquired|
       case Stamping => 0 < s.slot == |s.h.acquired| && s.slot in s.filled
       case Clearing => Settled(s) && (s.slot == 0 || s.slot == |s.h.acquired|)
       case _ => Settled(s)
  }

  predicate InOrder(ds: seq<Delivery>) {
    forall i, j | 0 <= i < j < |ds| :: ds[i].texture <= ds[j].texture && ds[i].meta <= ds[j].meta
  }

  predicate UpTo(ds: seq<Delivery>, texture: nat, meta: nat) {
    forall i | 0 <= i < |ds| :: ds[i].texture <= texture && ds[i].meta <= meta
  }

  /** Neither the textures nor the metadata handed out ever go back in time. */
  predicate Ordered(s: State) {
    && InOrder(s.h.delivered)
    && UpTo(s.h.delivered, s.h.newest, s.meta)
    && (s.req.Holding? ==> s.req.texture <= s.h.newest && UpTo(s.h.delivered, s.req.texture, s.meta))
  }

  predicate Invariant(s: State) {
    NotLost(s) && Conserved(s) && SlotOk(s) && Ordered(s)
  }

  lemma InvariantKept(s: State, t: Step)
    requires Invariant(s) && Enabled(s, t)
    ensures Invariant(Next(s, t))
  {
    hide NotLost, Conserved, SlotOk, Ordered, ProcessorNext, RequesterNext, ProcessorEnabled, RequesterEnabled;
    if OfProcessor(t) {
      NotLostByProcessor(s, t);
      ConservedByProcessor(s, t);
      SlotOkByProcessor(s, t);
      OrderedByProcessor(s, t);
    } else {
      NotLostByRequester(s, t);
      ConservedByRequester(s, t);
      SlotOkByRequester(s, t);
      OrderedByRequester(s, t);
    }
  }

  /** The steps of `CopyFrame`. */
  predicate OfCopy(t: Step) {
    t.ReleaseSlot? || t.CreateTexture? || t.FillTexture? || t.StampMetadata?
  }

  /** The steps of the processor that change no shared field and count nothing. */
  predicate OnlyMoves(t: Step) {
    || t.SetDevice? || t.AcquirePending? || t.AcquireFailed?
    || t.WaitAgain? || t.WaitStopped? || t.WaitBroken? || t.FinishFrame?
  }

  lemma MovesOnly(s: State, t: Step)
    requires ProcessorEnabled(s, t) && OnlyMoves(t)
    ensures var p := ProcessorNext(s, t).proc;
      && ProcessorNext(s, t) == s.(proc := p) && (p.Acquiring? || p.Pending? || p.Exiting?)
      && !s.proc.Signalling? && !Copying(s.proc) && !s.proc.Checking?
  {
  }

  lemma NotLostByProcessor(s: State, t: Step)
    requires NotLost(s) && ProcessorEnabled(s, t)
    ensures NotLost(ProcessorNext(s, t))
  {
    if OnlyMoves(t) {
      MovesOnly(s, t);
      hide ProcessorNext, ProcessorEnabled;
    }
  }

  lemma NotLostByRequester(s: State, t: Step)
    requires NotLost(s) && RequesterEnabled(s, t)
    ensures NotLost(RequesterNext(s, t))
  {
  }

  lemma ConservedByProcessor(s: State, t: Step)
    requires NotLost(s) && Conserved(s) && ProcessorEnabled(s, t)
    ensures Conserved(ProcessorNext(s, t))
  {
    if OnlyMoves(t) {
      MovesOnly(s, t);
      hide ProcessorNext, ProcessorEnabled;
    } else if OfCopy(t) {
      ConservedByCopy(s, t);
    } else {
      ConservedByRest(s, t);
    }
  }

  lemma ConservedByCopy(s: State, t: Step)
    requires Conserved(s) && ProcessorEnabled(s, t) && OfCopy(t)
    ensures Conserved(ProcessorNext(s, t))
  {
    hide OnlyMoves;
  }

  lemma ConservedByRest(s: State, t: Step)
    requires NotLost(s) && Conserved(s) && ProcessorEnabled(s, t) && !OfCopy(t) && !OnlyMoves(t)
    ensures Conserved(ProcessorNext(s, t))
  {
  }

  /** The steps of the requester that end or begin a wait. */
  predicate AboutWait(t: Step) {
    t.Request? || t.WakeReady? || t.WakeStopped? || t.TimeOut? || t.WaitFailed?
  }

  lemma ConservedByRequester(s: State, t: Step)
    requires NotLost(s) && Conserved(s) && RequesterEnabled(s, t)
    ensures Conserved(RequesterNext(s, t))
  {
    if AboutWait(t) {
      ConservedByWait(s, t);
    } else {
      ConservedByUse(s, t);
    }
  }

  lemma ConservedByWait(s: State, t: Step)
    requires NotLost(s) && Conserved(s) && RequesterEnabled(s, t) && AboutWait(t)
    ensures Conserved(RequesterNext(s, t))
  {
  }

  lemma ConservedByUse(s: State, t: Step)
    requires Conserved(s) && RequesterEnabled(s, t) && !AboutWait(t)
    ensures Conserved(RequesterNext(s, t))
  {
  }

  lemma SlotOkByProcessor(s: State, t: Step)
    requires SlotOk(s) && ProcessorEnabled(s, t)
    ensures SlotOk(ProcessorNext(s, t))
  {
    if OnlyMoves(t) {
      MovesOnly(s, t);
      hide ProcessorNext, ProcessorEnabled;
    } else if OfCopy(t) {
      SlotOkByCopy(s, t);
    } else {
      SlotOkByRest(s, t);
    }
  }

  lemma SlotOkByCopy(s: State, t: Step)
    requires SlotOk(s) && ProcessorEnabled(s, t) && OfCopy(t)
    ensures SlotOk(ProcessorNext(s, t))
  {
  }

  lemma SlotOkByRest(s: State, t: Step)
    requires SlotOk(s) && ProcessorEnabled(s, t) && !OfCopy(t) && !OnlyMoves(t)
    ensures SlotOk(ProcessorNext(s, t))
  {
  }

  lemma SlotOkByRequester(s: State, t: Step)
    requires SlotOk(s) && RequesterEnabled(s, t)
    ensures SlotOk(RequesterNext(s, t))
  {
    SlotUntouched(s, t);
    hide RequesterNext, RequesterEnabled;
  }

  lemma SlotUntouched(s: State, t: Step)
    requires RequesterEnabled(s, t)
    ensures var n := RequesterNext(s, t);
      && n.slot == s.slot && n.meta == s.meta && n.filled == s.filled && n.proc == s.proc
      && n.h.acquired == s.h.acquired && n.h.newest == s.h.newest
  {
  }

  lemma OrderedByProcessor(s: State, t: Step)
    requires SlotOk(s) && Ordered(s) && ProcessorEnabled(s, t)
    ensures Ordered(ProcessorNext(s, t))
  {
    hide InOrder;
  }

  lemma OrderedByRequester(s: State, t: Step)
    requires SlotOk(s) && Ordered(s) && RequesterEnabled(s, t)
    ensures Ordered(RequesterNext(s, t))
  {
    hide InOrder, UpTo;
    match t
    case Return(true) =>
      var d := Delivery(s.req.texture, s.meta, s.req.texture in s.filled, s.h.asked);
      OneMoreDelivery(s.h.delivered, d, s.h.newest);
    case TakeReference => LowerBound(s);
    case _ =>
  }

  lemma LowerBound(s: State)
    requires SlotOk(s) && Ordered(s)
    ensures s.slot > 0 ==> UpTo(s.h.delivered, s.slot, s.meta)
  {
  }

  lemma OneMoreDelivery(ds: seq<Delivery>, d: Delivery, newest: nat)
    requires InOrder(ds) && UpTo(ds, d.texture, d.meta) && d.texture <= newest
    ensures InOrder(ds + [d]) && UpTo(ds + [d], newest, d.meta)
  {
  }

  lemma StartInvariant()
    ensures Invariant(START)
  {
  }

  lemma {:induction false} AlwaysInvariant(steps: seq<Step>)
    requires Possible(steps)
    ensures Invariant(After(steps))
  {
    hide Invariant, Next, Enabled;
    if steps == [] {
      StartInvariant();
    } else {
      AlwaysInvariant(steps[..|steps| - 1]);
      InvariantKept(After(steps[..|steps| - 1]), steps[|steps| - 1]);
    }
  }

  lemma Extended(steps: seq<Step>, t: Step)
    ensures Possible(steps + [t]) <==> Possible(steps) && Enabled(After(steps), t)
    ensures Possible(steps + [t]) ==> After(steps + [t]) == Next(After(steps), t)
  {
    hide Enabled, Next;
    assert (steps + [t])[..|steps|] == steps;
  }

  // ---------- what the flag and the events mean ----------

  /** `on` has been taken, and `off` not since. */
  ghost predicate LatestIs<T>(steps: seq<T>, on: T, off: T) {
    exists k :: TakenAt(steps, on, off, k)
  }

  ghost predicate TakenAt<T>(steps: seq<T>, on: T, off: T, k: int) {
    0 <= k < |steps| && steps[k] == on && forall j | k < j < |steps| :: steps[j] != off
  }

  lemma LatestFurther<T>(steps: seq<T>, t: T, on: T, off: T)
    requires on != off
    ensures LatestIs(steps + [t], on, off) <==> t == on || (t != off && LatestIs(steps, on, off))
  {
    var all := steps + [t];
    if k :| TakenAt(steps, on, off, k) && t != off {
      assert TakenAt(all, on, off, k);
    }
    if t == on {
      assert TakenAt(all, on, off, |steps|);
    }
    if k :| TakenAt(all, on, off, k) {
      assert k < |steps| ==> all[|steps|] != off && TakenAt(steps, on, off, k) by {
        forall j | k < j < |steps| ensures steps[j] != off { assert all[j] == steps[j]; }
      }
    }
  }

  lemma FlagStep(s: State, t: Step)
    requires Enabled(s, t)
    ensures Next(s, t).requested <==> t == Request || (t != ClearFlag && s.requested)
    ensures Next(s, t).ready <==> t == SignalReady || (t != WakeReady && s.ready)
    ensures Next(s, t).stop <==> t == Exit || t == Stop || s.stop
  {
    if OfProcessor(t) {
      hide RequesterNext, RequesterEnabled;
    } else {
      hide ProcessorNext, ProcessorEnabled;
    }
  }

  /** In every run: a frame is asked for exactly if it was requested and the request not taken back since, the
      ready event is signalled exactly if it was set and nobody has been woken by it since, and the stop event
      exactly if the owner or the leaving processor has set it. */
  lemma {:induction false} FlagsMean(steps: seq<Step>)
    requires Possible(steps)
    ensures After(steps).requested <==> LatestIs(steps, Request, ClearFlag)
    ensures After(steps).ready <==> LatestIs(steps, SignalReady, WakeReady)
    ensures After(steps).stop <==> Exit in steps || Stop in steps
  {
    if steps == [] {
    } else {
      var front, t := steps[..|steps| - 1], steps[|steps| - 1];
      assert steps == front + [t];
      hide *;
      Extended(front, t);
      FlagsMean(front);
      FlagStep(After(front), t);
      LatestFurther(front, t, Request, ClearFlag);
      LatestFurther(front, t, SignalReady, WakeReady);
    }
  }

  lemma ExitStep(s: State, t: Step)
    requires Enabled(s, t)
    ensures Next(s, t).proc.Done? <==> s.proc.Done? || t == Exit
  {
    if OfProcessor(t) {
      hide RequesterNext, RequesterEnabled;
    } else {
      hide ProcessorNext, ProcessorEnabled;
    }
  }

  lemma {:induction false} ExitIsLast(steps: seq<Step>)
    requires Possible(steps)
    ensures After(steps).proc.Done? <==> Exit in steps
  {
    if steps == [] {
    } else {
      var front, t := steps[..|steps| - 1], steps[|steps| - 1];
      assert steps == front + [t];
      hide *;
      Extended(front, t);
      ExitIsLast(front);
      ExitStep(After(front), t);
    }
  }

  // ---------- no lost request ----------

  /** In every interleaving a waiting requester has the flag set, the event signalled, or a processor
      that is about to signal; and once the processor has finished, the stop event lets it return. */
  lemma NoLostRequest(steps: seq<Step>)
    requires Possible(steps) && After(steps).req.Waiting?
    ensures var s := After(steps); s.requested || s.ready || s.proc.Signalling?
    ensures After(steps).proc.Done? ==> After(steps).stop
  {
    hide Possible, After;
    AlwaysInvariant(steps);
  }

  function CanReturn(s: State): bool {
    s.req.Waiting? && (s.ready || s.stop)
  }

  /** The processor's next step when a frame is at hand and nothing fails. */
  function Forward(p: Processor): Step
    requires !p.Done?
  {
    match p
    case Starting => SetDevice(true)
    case Acquiring => AcquireFrame(0)
    case Pending => WaitAgain
    case Checking => CheckFlag
    case Releasing => ReleaseSlot
    case Creating => CreateTexture(true)
    case Filling => FillTexture
    case Stamping => StampMetadata
    case Clearing => ClearFlag
    case Signalling => SignalReady
    case Finishing => FinishFrame(true)
    case Exiting => Exit
  }

  function Distance(p: Processor): nat {
    match p
    case Starting => 9
    case Pending => 9
    case Finishing => 9
    case Acquiring => 8
    case Checking => 7
    case Releasing => 6
    case Creating => 5
    case Filling => 4
    case Stamping => 3
    case Clearing => 2
    case Signalling => 1
    case Exiting => 1
    case Done => 0
  }

  lemma ForwardStep(s: State)
    requires Invariant(s) && s.req.Waiting? && !CanReturn(s)
    ensures !s.proc.Done? && OfProcessor(Forward(s.proc)) && Enabled(s, Forward(s.proc))
    ensures var s' := Next(s, Forward(s.proc));
      s'.req.Waiting? && (CanReturn(s') || Distance(s'.proc) < Distance(s.proc))
  {
  }

  /** Nobody is stranded: from every reachable state in which the requester waits, at most nine steps
      of the processor alone bring it to a state in which the requester can return. */
  lemma {:induction false} NeverStranded(steps: seq<Step>) returns (more: seq<Step>)
    requires Possible(steps) && After(steps).req.Waiting?
    ensures |more| <= Distance(After(steps).proc) <= 9 && (forall i | 0 <= i < |more| :: OfProcessor(more[i]))
    ensures Possible(steps + more) && CanReturn(After(steps + more))
    decreases Distance(After(steps).proc)
  {
    hide Enabled, Next, Invariant, Forward, OfProcessor, Possible, After;
    var s := After(steps);
    AlwaysInvariant(steps);
    if CanReturn(s) {
      more := [];
      assert steps + more == steps;
    } else {
      ForwardStep(s);
      var t := Forward(s.proc);
      Extended(steps, t);
      if CanReturn(After(steps + [t])) {
        more := [t];
      } else {
        var rest := NeverStranded(steps + [t]);
        more := [t] + rest;
        assert steps + more == steps + [t] + rest;
      }
    }
  }

  /** Steps of the processor and of the swap chain's owner. */
  ghost predicate NoneOfRequester(steps: seq<Step>) {
    forall k | 0 <= k < |steps| :: OfProcessor(steps[k]) || steps[k].Stop?
  }

  /** The waiting requester can return, or the frame at hand is going to be handed to it. */
  predicate Answering(s: State) {
    CanReturn(s) || (s.req.Waiting? && (s.proc.Checking? || Copying(s.proc) || s.proc.Signalling?))
  }

  lemma AnsweringKept(s: State, t: Step)
    requires NotLost(s) && s.req.Waiting? && Enabled(s, t) && (OfProcessor(t) || t.Stop?)
    ensures Next(s, t).req.Waiting?
    ensures Answering(s) || t.AcquireFrame? ==> Answering(Next(s, t))
    ensures CanReturn(s) || (Answering(s) && t.FinishFrame?) || t.Exit? ==> CanReturn(Next(s, t))
  {
  }

  lemma {:induction false} WhileWaiting(steps: seq<Step>, more: seq<Step>)
    requires Possible(steps) && Possible(steps + more) && NoneOfRequester(more) && After(steps).req.Waiting?
    ensures After(steps + more).req.Waiting?
    ensures Answering(After(steps)) ==> Answering(After(steps + more))
    ensures CanReturn(After(steps)) ==> CanReturn(After(steps + more))
    decreases |more|
  {
    hide Possible, After, Next, Enabled, Answering, CanReturn, NotLost;
    if more == [] {
      assert steps + more == steps;
    } else {
      var front, t := more[..|more| - 1], more[|more| - 1];
      assert steps + more == steps + front + [t];
      Extended(steps + front, t);
      WhileWaiting(steps, front);
      AlwaysInvariant(steps + front);
      AnsweringKept(After(steps + front), t);
    }
  }

  /** One step of a continuation in which the requester only waits. */
  lemma WhileWaitingAt(steps: seq<Step>, more: seq<Step>, k: nat)
    requires Possible(steps) && Possible(steps + more) && NoneOfRequester(more) && After(steps).req.Waiting?
    requires k < |more|
    ensures Possible(steps + more[..k]) && Possible(steps + more[..k + 1])
    ensures After(steps + more[..k + 1]).req.Waiting?
    ensures var s, n := After(steps + more[..k]), After(steps + more[..k + 1]);
      && (Answering(s) || more[k].AcquireFrame? ==> Answering(n))
      && (CanReturn(s) || (Answering(s) && more[k].FinishFrame?) || more[k].Exit? ==> CanReturn(n))
  {
    hide Possible, After, Next, Enabled, Answering, CanReturn, NotLost, OfProcessor;
    PrefixOf(steps, more, k);
    PrefixOf(steps, more, k + 1);
    var now := steps + more[..k];
    assert steps + more[..k + 1] == now + [more[k]];
    Extended(now, more[k]);
    NoneOfRequesterPart(more, 0, k);
    assert more[0..k] == more[..k];
    WhileWaiting(steps, more[..k]);
    AlwaysInvariant(now);
    AnsweringKept(After(now), more[k]);
  }

  lemma PrefixOf(steps: seq<Step>, more: seq<Step>, k: nat)
    requires Possible(steps + more) && k <= |more|
    ensures Possible(steps + more[..k])
  {
    hide Possible;
    PrefixPossible(steps + more, |steps| + k);
    assert (steps + more)[..|steps| + k] == steps + more[..k];
  }

  lemma NoneOfRequesterPart(more: seq<Step>, a: nat, b: nat)
    requires NoneOfRequester(more) && a <= b <= |more|
    ensures NoneOfRequester(more[a..b])
  {
    hide OfProcessor;
    forall k | 0 <= k < |more[a..b]| ensures OfProcessor(more[a..b][k]) || more[a..b][k].Stop? {
      assert more[a..b][k] == more[a + k];
    }
  }

  /** The part of such a continuation between two of its points. */
  lemma WhileWaitingFrom(steps: seq<Step>, more: seq<Step>, a: nat, b: nat)
    requires Possible(steps) && Possible(steps + more) && NoneOfRequester(more) && a <= b <= |more|
    requires Possible(steps + more[..a]) && After(steps + more[..a]).req.Waiting?
    ensures Possible(steps + more[..b])
    ensures Answering(After(steps + more[..a])) ==> Answering(After(steps + more[..b]))
    ensures CanReturn(After(steps + more[..a])) ==> CanReturn(After(steps + more[..b]))
  {
    hide Possible, After, Answering, CanReturn, NoneOfRequester;
    PrefixOf(steps, more, b);
    NoneOfRequesterPart(more, a, b);
    assert steps + more[..b] == steps + more[..a] + more[a..b];
    WhileWaiting(steps + more[..a], more[a..b]);
  }

  lemma {:induction false} PrefixPossible(steps: seq<Step>, n: nat)
    requires Possible(steps) && n <= |steps|
    ensures Possible(steps[..n])
  {
    if n == |steps| {
      assert steps[..n] == steps;
    } else {
      PrefixPossible(steps[..|steps| - 1], n);
      assert steps[..|steps| - 1][..n] == steps[..n];
    }
  }

  /** Whatever the processor does and however its calls fail: in every continuation in which it exits, or
      finishes one frame that it has acquired since, the waiting requester can return. */
  lemma EveryFrameAnswers(steps: seq<Step>, more: seq<Step>, a: nat, b: nat)
    requires Possible(steps) && Possible(steps + more) && NoneOfRequester(more) && After(steps).req.Waiting?
    requires b < |more| && (more[b].Exit? || (a < b && more[a].AcquireFrame? && more[b].FinishFrame?))
    ensures CanReturn(After(steps + more))
  {
    hide Possible, After, NoneOfRequester, Answering, CanReturn;
    WhileWaitingAt(steps, more, b);
    if !more[b].Exit? {
      WhileWaitingAt(steps, more, a);
      WhileWaitingFrom(steps, more, a + 1, b);
    }
    WhileWaitingFrom(steps, more, b + 1, |more|);
    assert more[..|more|] == more;
  }

  // ---------- conservation and order ----------

  /** Over all runs, time-outs included: what is delivered was signalled, copied and requested. */
  lemma Conservation(steps: seq<Step>)
    requires Possible(steps)
    ensures var h := After(steps).h; |h.delivered| <= h.wakes <= h.signals <= h.copies <= h.requests
  {
    hide Possible, After;
    AlwaysInvariant(steps);
  }

  /** The presentation number that metadata carry. */
  function NumberOf(acquired: seq<nat>, meta: nat): nat
    requires meta <= |acquired|
  {
    if meta == 0 then 0 else acquired[meta - 1]
  }

  ghost predicate Ascending(numbers: seq<nat>) {
    forall i, j | 0 <= i < j < |numbers| :: numbers[i] <= numbers[j]
  }

  /** If the frame numbers that are acquired never decrease, neither do the delivered ones, and no
      delivered texture is older than an earlier one. */
  lemma DeliveredInOrder(steps: seq<Step>, i: nat, j: nat)
    requires Possible(steps) && i < j < |After(steps).h.delivered|
    requires Ascending(After(steps).h.acquired)
    ensures var h := After(steps).h;
      && h.delivered[i].texture <= h.delivered[j].texture
      && h.delivered[i].meta <= h.delivered[j].meta <= |h.acquired|
      && NumberOf(h.acquired, h.delivered[i].meta) <= NumberOf(h.acquired, h.delivered[j].meta)
  {
    hide Possible, After;
    AlwaysInvariant(steps);
  }

  // ---------- exclusive hand-off ----------

  /** The steps that end a request without an answer. */
  predicate Abandons(t: Step) {
    t.TimeOut? || t.WakeStopped? || t.WaitFailed?
  }

  ghost predicate NoneAbandoned(steps: seq<Step>) {
    forall i | 0 <= i < |steps| :: !Abandons(steps[i])
  }

  predicate AtRest(s: State) {
    !s.requested && !s.ready && !Copying(s.proc) && !s.proc.Signalling?
  }

  /** The texture was filled in the acquire that the metadata describe, the last one before the request
      or a later one. */
  predicate Matched(d: Delivery) {
    d.texture == d.meta && d.filled && d.asked <= d.texture && 0 < d.texture
  }

  /** Where the answer to the pending request is. */
  predicate OnePlace(s: State) {
    && (s.requested ==> !s.ready && !s.proc.Signalling?)
    && (s.ready ==> !Copying(s.proc) && !s.proc.Signalling?)
    && (s.requested || s.ready || s.proc.Signalling?)
  }

  /** The pending request, if any, has at most one copy and one signal, to itself; `extra` copies were
      made earlier that no wake-up answered. */
  predicate Exclusive(s: State, extra: nat) {
    && s.h.asked <= |s.h.acquired|
    && (if s.req.Waiting?
        then OnePlace(s) && s.h.copies == extra + s.h.wakes + One(Copying(s.proc) || s.proc.Signalling? || s.ready)
        else AtRest(s) && s.h.copies == extra + s.h.wakes)
    && (InHand(s.req) || s.ready || s.proc.Signalling? ==> s.slot == 0 || s.h.asked <= s.slot)
    && (s.req.Checked? ==> s.slot > 0)
    && (s.req.Holding? ==> s.req.texture == s.slot > 0)
  }

  predicate AllMatched(ds: seq<Delivery>) {
    forall i | 0 <= i < |ds| :: Matched(ds[i])
  }

  /** Since `s` every frame handed out was matched, and no null slot was used. */
  ghost predicate MatchedSince(s: State, s': State) {
    && s'.h.crashed == s.h.crashed
    && |s.h.delivered| <= |s'.h.delivered| && AllMatched(s'.h.delivered[|s.h.delivered|..])
  }

  lemma ExclusiveByProcessor(s: State, t: Step, extra: nat)
    requires SlotOk(s) && Exclusive(s, extra) && ProcessorEnabled(s, t)
    ensures Exclusive(ProcessorNext(s, t), extra)
    ensures ProcessorNext(s, t).h.delivered == s.h.delivered && ProcessorNext(s, t).h.crashed == s.h.crashed
  {
    if OnlyMoves(t) {
      MovesOnly(s, t);
      hide ProcessorNext, ProcessorEnabled;
    } else if OfCopy(t) {
      ExclusiveByCopy(s, t, extra);
    } else {
      ExclusiveByRest(s, t, extra);
    }
  }

  lemma ExclusiveByCopy(s: State, t: Step, extra: nat)
    requires SlotOk(s) && Exclusive(s, extra) && ProcessorEnabled(s, t) && OfCopy(t)
    ensures Exclusive(ProcessorNext(s, t), extra)
    ensures ProcessorNext(s, t).h.delivered == s.h.delivered && ProcessorNext(s, t).h.crashed == s.h.crashed
  {
  }

  lemma ExclusiveByRest(s: State, t: Step, extra: nat)
    requires SlotOk(s) && Exclusive(s, extra) && ProcessorEnabled(s, t) && !OfCopy(t) && !OnlyMoves(t)
    ensures Exclusive(ProcessorNext(s, t), extra)
    ensures ProcessorNext(s, t).h.delivered == s.h.delivered && ProcessorNext(s, t).h.crashed == s.h.crashed
  {
  }

  lemma ExclusiveByRequester(s: State, t: Step, extra: nat)
    requires SlotOk(s) && Exclusive(s, extra) && RequesterEnabled(s, t) && !Abandons(t)
    ensures Exclusive(RequesterNext(s, t), extra)
    ensures RequesterNext(s, t).h.crashed == s.h.crashed
    ensures var ds := RequesterNext(s, t).h.delivered;
      ds == s.h.delivered || (|ds| > 0 && ds == s.h.delivered + [ds[|ds| - 1]] && Matched(ds[|ds| - 1]))
  {
  }

  lemma MatchedFurther(s: State, s': State, s'': State)
    requires MatchedSince(s, s') && s''.h.crashed == s'.h.crashed
    requires var ds := s''.h.delivered;
      ds == s'.h.delivered || (|ds| > 0 && ds == s'.h.delivered + [ds[|ds| - 1]] && Matched(ds[|ds| - 1]))
    ensures MatchedSince(s, s'')
  {
    hide Matched;
  }

  /** An exclusive state stays exclusive for as long as no request is abandoned. */
  lemma {:induction false} ExclusiveRuns(steps: seq<Step>, more: seq<Step>, extra: nat)
    requires Possible(steps) && Possible(steps + more) && NoneAbandoned(more) && Exclusive(After(steps), extra)
    ensures Exclusive(After(steps + more), extra) && MatchedSince(After(steps), After(steps + more))
    decreases |more|
  {
    hide Exclusive, AllMatched, Invariant, SlotOk, Possible, After;
    hide ProcessorNext, RequesterNext, ProcessorEnabled, RequesterEnabled;
    if more == [] {
      assert steps + more == steps;
      NothingSince(After(steps));
    } else {
      var front, t := more[..|more| - 1], more[|more| - 1];
      assert steps + more == steps + front + [t];
      Extended(steps + front, t);
      ExclusiveRuns(steps, front, extra);
      AlwaysInvariant(steps + front);
      var s := After(steps + front);
      InvariantParts(s);
      if OfProcessor(t) {
        ExclusiveByProcessor(s, t, extra);
      } else {
        ExclusiveByRequester(s, t, extra);
      }
      MatchedFurther(After(steps), s, Next(s, t));
    }
  }

  lemma NothingSince(s: State)
    ensures MatchedSince(s, s)
  {
  }

  lemma InvariantParts(s: State)
    requires Invariant(s)
    ensures SlotOk(s) && Conserved(s)
  {
  }

  /** Exclusive hand-off: when no request times out or aborts, every answered request had exactly one
      copy to itself; from wake-up to return the flag is clear and the processor leaves the slot alone;
      texture and metadata come from one acquire, the last one before the request or a later one; and the
      slot is never found null after the check. This holds even if `CopyFrame` fails at times. */
  lemma ExclusiveHandOff(steps: seq<Step>)
    requires Possible(steps) && NoneAbandoned(steps)
    ensures var s := After(steps);
      && !s.h.crashed
      && AllMatched(s.h.delivered)
      && (InHand(s.req) ==> !s.requested && !Copying(s.proc) && !s.proc.Signalling?)
      && (!s.req.Waiting? ==> s.h.copies == s.h.wakes)
      && s.h.wakes <= s.h.copies <= s.h.wakes + 1
  {
    hide Possible, After, AllMatched;
    NothingYet();
    assert [] + steps == steps;
    ExclusiveRuns([], steps, 0);
    var ds := After(steps).h.delivered;
    assert ds[0..] == ds;
  }

  // ---------- after a time-out: exactly when the hand-off is exclusive again ----------

  /** A signal that answers nothing is there, or is about to be given. */
  predicate StaleSignal(s: State) {
    s.ready || s.proc.Signalling?
  }

  /** Whatever happens from a request made now on, as long as none is abandoned, all frames are matched. */
  ghost predicate AlwaysMatched(steps: seq<Step>)
    requires Possible(steps)
  {
    forall more: seq<Step> :: more != [] && more[0] == Request && Possible(steps + more) && NoneAbandoned(more) ==>
      MatchedSince(After(steps), After(steps + more))
  }

  lemma RequestIsExclusive(s: State)
    requires Conserved(s) && SlotOk(s) && s.req.Idle? && !StaleSignal(s)
    ensures Exclusive(RequesterNext(s, Request), s.h.copies - s.h.wakes - One(Copying(s.proc)))
    ensures s.h.copies - s.h.wakes - One(Copying(s.proc)) >= 0
  {
  }

  lemma SinceRequest(steps: seq<Step>, more: seq<Step>)
    requires Possible(steps) && Possible(steps + more) && After(steps).req.Idle? && more != [] && more[0] == Request
    ensures Possible(steps + [Request]) && steps + [Request] + more[1..] == steps + more
    ensures After(steps + [Request]) == RequesterNext(After(steps), Request)
    ensures MatchedSince(After(steps + [Request]), After(steps + more)) ==>
            MatchedSince(After(steps), After(steps + more))
  {
    hide Possible, After, AllMatched;
    Extended(steps, Request);
    assert steps + [Request] + more[1..] == steps + more;
  }

  lemma CleanIsMatched(steps: seq<Step>, more: seq<Step>)
    requires Possible(steps) && After(steps).req.Idle? && !StaleSignal(After(steps))
    requires more != [] && more[0] == Request && Possible(steps + more) && NoneAbandoned(more)
    ensures MatchedSince(After(steps), After(steps + more))
  {
    hide Possible, After, Exclusive, Invariant, MatchedSince, Conserved, SlotOk, RequesterNext;
    var s := After(steps);
    AlwaysInvariant(steps);
    InvariantParts(s);
    RequestIsExclusive(s);
    SinceRequest(steps, more);
    ExclusiveRuns(steps + [Request], more[1..], s.h.copies - s.h.wakes - One(Copying(s.proc)));
  }

  // Otherwise the request is woken by the stale signal while its own flag is set, and the processor
  // copies under its hands.

  function ToFilling(p: Processor): nat {
    match p
    case Filling => 0
    case Creating => 1
    case Releasing => 2
    case Checking => 3
    case Acquiring => 4
    case Signalling => 6
    case _ => 5
  }

  predicate WillCopy(p: Processor) {
    !p.Stamping? && !p.Clearing? && !p.Exiting? && !p.Done?
  }

  lemma ForwardToFilling(s: State)
    requires s.req.Woken? && s.requested && WillCopy(s.proc) && !s.proc.Filling?
    ensures OfProcessor(Forward(s.proc)) && Enabled(s, Forward(s.proc))
    ensures var n := Next(s, Forward(s.proc));
      && n.req.Woken? && n.requested && WillCopy(n.proc) && ToFilling(n.proc) < ToFilling(s.proc)
      && n.h.delivered == s.h.delivered && n.h.crashed == s.h.crashed
  {
  }

  lemma {:induction false} RunToFilling(steps: seq<Step>) returns (more: seq<Step>)
    requires Possible(steps) && After(steps).req.Woken? && After(steps).requested && WillCopy(After(steps).proc)
    ensures Possible(steps + more) && NoneAbandoned(more)
    ensures var s, n := After(steps), After(steps + more);
      n.req.Woken? && n.proc.Filling? && n.h.delivered == s.h.delivered && n.h.crashed == s.h.crashed
    decreases ToFilling(After(steps).proc)
  {
    hide Possible, After, Enabled, Next, Forward, ToFilling;
    var s := After(steps);
    if s.proc.Filling? {
      more := [];
      assert steps + more == steps;
    } else {
      ForwardToFilling(s);
      Extended(steps, Forward(s.proc));
      var rest := RunToFilling(steps + [Forward(s.proc)]);
      more := [Forward(s.proc)] + rest;
      assert steps + more == steps + [Forward(s.proc)] + rest;
    }
  }

  /** The requester's three accesses, taken while the processor stands still. */
  function Answered(s: State): State
    requires s.req.Woken? && s.slot > 0
  {
    s.(req := Idle, h := s.h.(delivered := s.h.delivered + [Delivery(s.slot, s.meta, s.slot in s.filled, s.h.asked)]))
  }

  lemma TakeAnswer(steps: seq<Step>) returns (more: seq<Step>)
    requires Possible(steps) && After(steps).req.Woken? && After(steps).slot > 0
    ensures Possible(steps + more) && NoneAbandoned(more) && After(steps + more) == Answered(After(steps))
  {
    hide Possible, After;
    Extended(steps, CheckNull);
    Extended(steps + [CheckNull], TakeReference);
    Extended(steps + [CheckNull] + [TakeReference], Return(true));
    more := [CheckNull, TakeReference, Return(true)];
    assert steps + more == steps + [CheckNull] + [TakeReference] + [Return(true)];
  }

  lemma UnmatchedAnswer(s: State)
    requires s.req.Woken? && s.slot > 0 && (s.meta < s.slot || s.slot < s.h.asked)
    ensures !MatchedSince(s, Answered(s))
  {
    var d := Delivery(s.slot, s.meta, s.slot in s.filled, s.h.asked);
    assert Answered(s).h.delivered[|s.h.delivered|..] == [d];
    assert !Matched(d);
    assert [d][0] == d;
  }

  lemma Tear(steps: seq<Step>) returns (more: seq<Step>)
    requires Possible(steps) && After(steps).req.Woken? && (After(steps).proc.Filling? || After(steps).proc.Stamping?)
    ensures Possible(steps + more) && NoneAbandoned(more) && !MatchedSince(After(steps), After(steps + more))
  {
    AlwaysInvariant(steps);
    InvariantParts(After(steps));
    hide Possible, After, Invariant, Conserved, MatchedSince, NoneAbandoned;
    more := TakeAnswer(steps);
    UnmatchedAnswer(After(steps));
  }

  lemma WokenByStaleSignal(steps: seq<Step>) returns (more: seq<Step>)
    requires Possible(steps) && After(steps).req.Idle? && StaleSignal(After(steps))
    ensures more != [] && more[0] == Request && Possible(steps + more) && NoneAbandoned(more)
    ensures var s, n := After(steps), After(steps + more);
      && n.req.Woken? && n.requested && n.proc == (if s.ready then s.proc else Finishing)
      && n.h.delivered == s.h.delivered && n.h.crashed == s.h.crashed
  {
    hide Possible, After;
    var s := After(steps);
    Extended(steps, Request);
    if s.ready {
      Extended(steps + [Request], WakeReady);
      more := [Request, WakeReady];
      assert steps + more == steps + [Request] + [WakeReady];
    } else {
      Extended(steps + [Request], SignalReady);
      Extended(steps + [Request] + [SignalReady], WakeReady);
      more := [Request, SignalReady, WakeReady];
      assert steps + more == steps + [Request] + [SignalReady] + [WakeReady];
    }
  }

  lemma SignalsAgain(steps: seq<Step>) returns (more: seq<Step>)
    requires Possible(steps) && After(steps).req.Woken? && After(steps).proc.Clearing?
    ensures Possible(steps + more) && NoneAbandoned(more)
    ensures var s := After(steps);
            After(steps + more) ==
            s.(requested := false, ready := true, proc := Finishing, h := s.h.(signals := s.h.signals + 1))
  {
    hide Possible, After;
    Extended(steps, ClearFlag);
    Extended(steps + [ClearFlag], SignalReady);
    more := [ClearFlag, SignalReady];
    assert steps + more == steps + [ClearFlag] + [SignalReady];
  }

  lemma LeavesEmptyHanded(steps: seq<Step>) returns (more: seq<Step>)
    requires Possible(steps) && After(steps).req.Woken?
    ensures Possible(steps + more) && NoneAbandoned(more) && After(steps + more) == After(steps).(req := Idle)
  {
    hide Possible, After;
    Extended(steps, CheckNull);
    if After(steps).slot == 0 {
      more := [CheckNull];
    } else {
      Extended(steps + [CheckNull], TakeReference);
      Extended(steps + [CheckNull] + [TakeReference], Return(false));
      more := [CheckNull, TakeReference, Return(false)];
      assert steps + more == steps + [CheckNull] + [TakeReference] + [Return(false)];
    }
  }

  /** A copy whose flag is about to be cleared: the request ends unhurt, but a stale signal is left again. */
  lemma SignalLeftBehind(steps: seq<Step>) returns (more: seq<Step>)
    requires Possible(steps) && After(steps).req.Woken? && After(steps).proc.Clearing?
    ensures Possible(steps + more) && NoneAbandoned(more)
    ensures var s, n := After(steps), After(steps + more);
      && n.req.Idle? && n.ready && n.proc.Finishing?
      && n.h.delivered == s.h.delivered && n.h.crashed == s.h.crashed
  {
    hide Possible, After;
    var signals := SignalsAgain(steps);
    var leaves := LeavesEmptyHanded(steps + signals);
    more := signals + leaves;
    assert steps + more == steps + signals + leaves;
  }

  lemma Joined(steps: seq<Step>, a: seq<Step>, b: seq<Step>)
    requires Possible(steps) && Possible(steps + a) && Possible(steps + a + b) && NoneAbandoned(a) && NoneAbandoned(b)
    requires After(steps + a).h.delivered == After(steps).h.delivered
    requires After(steps + a).h.crashed == After(steps).h.crashed
    requires !MatchedSince(After(steps + a), After(steps + a + b))
    ensures Possible(steps + (a + b)) && NoneAbandoned(a + b)
    ensures !MatchedSince(After(steps), After(steps + (a + b)))
  {
    hide Possible, After, AllMatched;
    assert steps + (a + b) == steps + a + b;
  }

  predicate Finished(p: Processor) {
    p.Exiting? || p.Done?
  }

  lemma {:induction false} StaleIsTorn(steps: seq<Step>) returns (more: seq<Step>)
    requires Possible(steps) && After(steps).req.Idle? && StaleSignal(After(steps)) && !Finished(After(steps).proc)
    ensures more != [] && more[0] == Request && Possible(steps + more) && NoneAbandoned(more)
    ensures !MatchedSince(After(steps), After(steps + more))
    decreases One(After(steps).proc.Clearing?)
  {
    hide Possible, After, MatchedSince, NoneAbandoned;
    var woken := WokenByStaleSignal(steps);
    var proc := After(steps + woken).proc;
    if proc.Clearing? {
      var left := SignalLeftBehind(steps + woken);
      var torn := StaleIsTorn(steps + woken + left);
      Joined(steps + woken, left, torn);
      Joined(steps, woken, left + torn);
      more := woken + (left + torn);
    } else if proc.Stamping? {
      var torn := Tear(steps + woken);
      Joined(steps, woken, torn);
      more := woken + torn;
    } else {
      var copying := RunToFilling(steps + woken);
      var torn := Tear(steps + woken + copying);
      Joined(steps + woken, copying, torn);
      Joined(steps, woken, copying + torn);
      more := woken + (copying + torn);
    }
  }

  // When the processor has finished, the slot stays as it is.

  predicate Frozen(s: State) {
    && Finished(s.proc) && Settled(s) && (s.slot == 0 || s.slot == |s.h.acquired|) && s.h.asked <= |s.h.acquired|
    && (s.req.Checked? ==> s.slot > 0)
    && (s.req.Holding? ==> s.req.texture == s.slot > 0)
  }

  lemma FrozenByProcessor(s: State, t: Step)
    requires Frozen(s) && ProcessorEnabled(s, t)
    ensures Frozen(ProcessorNext(s, t)) && ProcessorNext(s, t).h == s.h
  {
  }

  lemma FrozenByRequester(s: State, t: Step)
    requires Frozen(s) && RequesterEnabled(s, t)
    ensures Frozen(RequesterNext(s, t)) && RequesterNext(s, t).h.crashed == s.h.crashed
    ensures var ds := RequesterNext(s, t).h.delivered;
      ds == s.h.delivered || (|ds| > 0 && ds == s.h.delivered + [ds[|ds| - 1]] && Matched(ds[|ds| - 1]))
  {
  }

  lemma FrozenStep(s: State, t: Step)
    requires Frozen(s) && Enabled(s, t)
    ensures Frozen(Next(s, t)) && Next(s, t).h.crashed == s.h.crashed
    ensures var ds := Next(s, t).h.delivered;
      ds == s.h.delivered || (|ds| > 0 && ds == s.h.delivered + [ds[|ds| - 1]] && Matched(ds[|ds| - 1]))
  {
    hide Frozen, Matched, ProcessorNext, RequesterNext, ProcessorEnabled, RequesterEnabled;
    if OfProcessor(t) {
      FrozenByProcessor(s, t);
    } else {
      FrozenByRequester(s, t);
    }
  }

  lemma {:induction false} FrozenRuns(steps: seq<Step>, more: seq<Step>)
    requires Possible(steps) && Possible(steps + more) && Frozen(After(steps))
    ensures Frozen(After(steps + more)) && MatchedSince(After(steps), After(steps + more))
    decreases |more|
  {
    hide Frozen, AllMatched, Next, Enabled, Possible, After;
    if more == [] {
      assert steps + more == steps;
      NothingSince(After(steps));
    } else {
      var front, t := more[..|more| - 1], more[|more| - 1];
      assert steps + more == steps + front + [t];
      Extended(steps + front, t);
      FrozenRuns(steps, front);
      FrozenStep(After(steps + front), t);
      MatchedFurther(After(steps), After(steps + front), After(steps + more));
    }
  }

  lemma FinishedIsMatched(steps: seq<Step>, more: seq<Step>)
    requires Possible(steps) && After(steps).req.Idle? && Finished(After(steps).proc)
    requires After(steps).slot == 0 || After(steps).slot == |After(steps).h.acquired|
    requires more != [] && more[0] == Request && Possible(steps + more)
    ensures MatchedSince(After(steps), After(steps + more))
  {
    hide Possible, After, Invariant, MatchedSince, Conserved;
    AlwaysInvariant(steps);
    InvariantParts(After(steps));
    SinceRequest(steps, more);
    FrozenRuns(steps + [Request], more[1..]);
  }

  lemma FinishedIsStale(steps: seq<Step>) returns (more: seq<Step>)
    requires Possible(steps) && After(steps).req.Idle? && Finished(After(steps).proc) && After(steps).ready
    requires 0 < After(steps).slot < |After(steps).h.acquired|
    ensures more != [] && more[0] == Request && Possible(steps + more) && NoneAbandoned(more)
    ensures !MatchedSince(After(steps), After(steps + more))
  {
    hide Possible, After, MatchedSince;
    Extended(steps, Request);
    Extended(steps + [Request], WakeReady);
    var woken := [Request, WakeReady];
    assert steps + woken == steps + [Request] + [WakeReady];
    var answer := TakeAnswer(steps + woken);
    UnmatchedAnswer(After(steps + woken));
    Joined(steps, woken, answer);
    more := woken + answer;
  }

  /** What spoils a request: a stale signal, while the processor can still copy, or once it has finished and
      left a texture that is not of the last acquire. */
  predicate Hazard(s: State) {
    StaleSignal(s) && (Finished(s.proc) ==> 0 < s.slot < |s.h.acquired|)
  }

  /** Recovery, exactly: whatever was abandoned before, the frames handed out from a request on are matched in
      every continuation that abandons none, if and only if there is no hazard when the request is made. */
  lemma MatchedIffNoHazard(steps: seq<Step>)
    requires Possible(steps) && After(steps).req.Idle?
    ensures AlwaysMatched(steps) <==> !Hazard(After(steps))
  {
    SlotWithin(steps);
    hide Possible, After, MatchedSince, NoneAbandoned;
    var s := After(steps);
    if !StaleSignal(s) {
      forall more: seq<Step> | more != [] && more[0] == Request && Possible(steps + more) && NoneAbandoned(more)
        ensures MatchedSince(s, After(steps + more))
      {
        CleanIsMatched(steps, more);
      }
    } else if !Finished(s.proc) {
      var more := StaleIsTorn(steps);
    } else if Hazard(s) {
      var more := FinishedIsStale(steps);
    } else {
      forall more: seq<Step> | more != [] && more[0] == Request && Possible(steps + more) && NoneAbandoned(more)
        ensures MatchedSince(s, After(steps + more))
      {
        FinishedIsMatched(steps, more);
      }
    }
  }

  lemma SlotWithin(steps: seq<Step>)
    requires Possible(steps)
    ensures After(steps).slot <= |After(steps).h.acquired|
  {
    hide Possible, After;
    AlwaysInvariant(steps);
  }

  // ---------- what a time-out can do ----------

  /** The slot, the flag and the event after a request that timed out and was served all the same. */
  lemma ServedAfterTimeOut() returns (steps: seq<Step>)
    ensures Possible(steps)
    ensures After(steps) == State(false, true, false, 1, {1}, 1, Acquiring, Idle,
                                  History([7], 1, 0, 1, 1, 1, 0, [], false))
  {
    hide Possible, After;
    steps := AskAndTimeOut();
    steps := Copy(steps);
    Extended(steps, ClearFlag);
    steps := steps + [ClearFlag];
    Extended(steps, SignalReady);
    steps := steps + [SignalReady];
    Extended(steps, FinishFrame(true));
    steps := steps + [FinishFrame(true)];
  }

  lemma NothingYet()
    ensures Possible([]) && After([]) == START
  {
  }

  lemma AskAndTimeOut() returns (steps: seq<Step>)
    ensures Possible(steps)
    ensures After(steps) == State(true, false, false, 0, {}, 0, Checking, Idle,
                                  History([7], 0, 0, 1, 0, 0, 0, [], false))
  {
    steps := [];
    NothingYet();
    hide Possible, After;
    Extended(steps, SetDevice(true));
    steps := steps + [SetDevice(true)];
    Extended(steps, Request);
    steps := steps + [Request];
    Extended(steps, TimeOut);
    steps := steps + [TimeOut];
    Extended(steps, AcquireFrame(7));
    steps := steps + [AcquireFrame(7)];
  }

  lemma Copy(before: seq<Step>) returns (steps: seq<Step>)
    requires Possible(before) && After(before).proc.Checking? && After(before).requested
    ensures Possible(steps)
    ensures var s := After(before); var n := |s.h.acquired|;
      After(steps) == s.(proc := Clearing, slot := n, filled := s.filled + {n}, meta := n,
                         h := s.h.(newest := n, copies := s.h.copies + 1))
  {
    hide Possible, After;
    steps := before;
    Extended(steps, CheckFlag);
    steps := steps + [CheckFlag];
    Extended(steps, ReleaseSlot);
    steps := steps + [ReleaseSlot];
    Extended(steps, CreateTexture(true));
    steps := steps + [CreateTexture(true)];
    Extended(steps, FillTexture);
    steps := steps + [FillTexture];
    Extended(steps, StampMetadata);
    steps := steps + [StampMetadata];
  }

  /** The next request wakes at once on the stale signal, with its own flag still set. */
  lemma StaleWakeUp() returns (steps: seq<Step>)
    ensures Possible(steps)
    ensures After(steps) == State(true, false, false, 1, {1}, 1, Acquiring, Checked,
                                  History([7], 1, 1, 2, 1, 1, 1, [], false))
  {
    hide Possible, After;
    steps := ServedAfterTimeOut();
    Extended(steps, Request);
    steps := steps + [Request];
    Extended(steps, WakeReady);
    steps := steps + [WakeReady];
    Extended(steps, CheckNull);
    steps := steps + [CheckNull];
  }

  /** Without the condition of `ExclusiveHandOff` the pair can be torn: after one time-out, a later
      request returns the texture of one acquire with the metadata of another. */
  lemma TimeOutTearsPair() returns (steps: seq<Step>)
    ensures Possible(steps) && After(steps).h.delivered == [Delivery(1, 2, true, 1)]
  {
    hide Possible, After;
    steps := StaleWakeUp();
    Extended(steps, TakeReference);
    steps := steps + [TakeReference];
    Extended(steps, AcquireFrame(8));
    steps := steps + [AcquireFrame(8)];
    steps := Copy(steps);
    Extended(steps, Return(true));
    steps := steps + [Return(true)];
  }

  /** And the slot can become null between the requester's check and its use. */
  lemma TimeOutEmptiesCheckedSlot() returns (steps: seq<Step>)
    ensures Possible(steps) && After(steps).h.crashed
  {
    hide Possible, After;
    steps := StaleWakeUp();
    Extended(steps, AcquireFrame(8));
    steps := steps + [AcquireFrame(8)];
    Extended(steps, CheckFlag);
    steps := steps + [CheckFlag];
    Extended(steps, ReleaseSlot);
    steps := steps + [ReleaseSlot];
    Extended(steps, TakeReference);
    steps := steps + [TakeReference];
  }
}
