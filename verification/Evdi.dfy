/** The Linux monitor: handlers for the kernel's events, the frame request, and the map, composed with
    the streaming loop's rule for giving up. */
module EvdiMonitor {
  import opened Streaming
  import opened Wrappers

  datatype Mode = Mode(width: nat, height: nat, refreshRate: nat)

  /** The number of pixels. */
  function Area(width: nat, height: nat): nat { width * height }

  /** Modes whose buffer size is an `int`. */
  predicate Sized(m: Mode) {
    Area(m.width, m.height) < 0x8000_0000
  }

  /** What `evdi_handle_events` may deliver; `rects` is what a grab of the pixels then reports. */
  datatype Event = Dpms(on: bool) | ModeChange(mode: Mode) | Update(rects: nat)

  predicate SizedEvents(events: seq<Event>) {
    forall i | 0 <= i < |events| && events[i].ModeChange? :: Sized(events[i].mode)
  }

  /** What one frame request meets: an update is ready, or `poll` fails, times out or brings events. */
  datatype Request = Ready(rects: nat) | PollFailed | TimedOut | Events(events: seq<Event>)

  datatype Buffer = Buffer(data: Option<nat>, width: nat, height: nat, stride: nat)

  /** The mapping of a frame; `data` is null unless there is one. */
  datatype MapInfo = MapInfo(data: Option<nat>, width: nat, height: nat, stride: nat)

  const NO_MAP := MapInfo(None, 0, 0, 0)

  /** The part of the state that decides the status, and whether pixels were grabbed since the buffer
      was registered. */
  datatype Flags = Flags(enabled: bool, rects: nat, grabbed: bool)

  function Handle(f: Flags, e: Event): Flags {
    match e
    case Dpms(on) => f.(enabled := on)
    case ModeChange(_) => f.(grabbed := false)
    case Update(rects) => if f.enabled then f.(rects := rects, grabbed := f.grabbed || rects > 0) else f.(rects := 0)
  }

  // ---------- runs of requests ----------

  /** What happens to the monitor, one thing at a time: an event is handled, or a request finds an update
      ready and grabs it. */
  datatype Action = Of(e: Event) | Grab(rects: nat)

  function Act(f: Flags, a: Action): Flags {
    match a
    case Of(e) => Handle(f, e)
    case Grab(rects) => Flags(f.enabled || rects > 0, rects, f.grabbed || rects > 0)
  }

  function ActAll(f: Flags, acts: seq<Action>): Flags {
    if acts == [] then f else Act(ActAll(f, acts[..|acts| - 1]), acts[|acts| - 1])
  }

  function Handled(events: seq<Event>): (acts: seq<Action>)
    ensures |acts| == |events| && forall i | 0 <= i < |events| :: acts[i] == Of(events[i])
  {
    seq(|events|, i requires 0 <= i < |events| => Of(events[i]))
  }

  function Actions(r: Request): seq<Action> {
    match r
    case Ready(rects) => [Grab(rects)]
    case Events(events) => Handled(events)
    case _ => []
  }

  function History(requests: seq<Request>): seq<Action> {
    if requests == [] then [] else History(requests[..|requests| - 1]) + Actions(requests[|requests| - 1])
  }

  /** The monitor is on: the latest thing that says so, or the start. */
  function Powered(start: bool, acts: seq<Action>): bool {
    if acts == [] then start
    else match acts[|acts| - 1]
      case Of(Dpms(on)) => on
      case Grab(rects) => rects > 0 || Powered(start, acts[..|acts| - 1])
      case _ => Powered(start, acts[..|acts| - 1])
  }

  /** How many rectangles the latest update reported, or the start: none while the monitor is off, unless a
      request grabbed it. */
  function Reported(start: Flags, acts: seq<Action>): nat {
    if acts == [] then start.rects
    else match acts[|acts| - 1]
      case Of(Update(rects)) => if Powered(start.enabled, acts[..|acts| - 1]) then rects else 0
      case Grab(rects) => rects
      case _ => Reported(start, acts[..|acts| - 1])
  }

  /** What the status of a request means, after the history `acts`, in which its own events come last. */
  ghost predicate StatusMeans(start: Flags, acts: seq<Action>, r: Request, status: FrameStatus) {
    var on, rects := Powered(start.enabled, acts), Reported(start, acts);
    match r
    case Ready(_) => (status.ModeChanged? <==> rects == 0) && (status.FrameReady? <==> 0 < rects)
    case PollFailed => status.Error?
    case TimedOut => (status.MonitorOff? <==> !on) && (status.NoUpdates? <==> on)
    case Events(_) =>
      && (status.MonitorOff? <==> !on)
      && (status.ModeChanged? <==> on && rects == 0)
      && (status.FrameReady? <==> on && 0 < rects)
  }

  /** The `j`-th of these grabs pixels. */
  predicate Grabs(start: bool, acts: seq<Action>, j: int) {
    0 <= j < |acts| &&
    match acts[j]
    case Of(Update(rects)) => rects > 0 && Powered(start, acts[..j])
    case Grab(rects) => rects > 0
    case _ => false
  }

  predicate NoModeChange(acts: seq<Action>, from: int) {
    forall k | 0 <= k < |acts| && from <= k :: !(acts[k].Of? && acts[k].e.ModeChange?)
  }

  /** An update was grabbed after the last mode change. */
  ghost predicate GrabbedSinceModeChange(start: Flags, acts: seq<Action>) {
    (exists j :: Grabs(start.enabled, acts, j) && NoModeChange(acts, j)) || (start.grabbed && NoModeChange(acts, 0))
  }

  lemma GrabbedStep(start: Flags, acts: seq<Action>, a: Action)
    ensures GrabbedSinceModeChange(start, acts + [a]) <==>
            Grabs(start.enabled, acts + [a], |acts|)
            || (GrabbedSinceModeChange(start, acts) && !(a.Of? && a.e.ModeChange?))
  {
    var all := acts + [a];
    assert all[|acts|] == a && all[..|acts|] == acts;
    assert forall k | 0 <= k < |acts| :: all[k] == acts[k] && all[..k] == acts[..k];
    if j :| Grabs(start.enabled, acts, j) && NoModeChange(acts, j) {
      assert Grabs(start.enabled, all, j);
      if !(a.Of? && a.e.ModeChange?) { assert NoModeChange(all, j); }
    }
    if Grabs(start.enabled, all, |acts|) {
      assert NoModeChange(all, |acts|);
    }
    if j :| Grabs(start.enabled, all, j) && NoModeChange(all, j) {
      if j < |acts| {
        assert Grabs(start.enabled, acts, j) && NoModeChange(acts, j);
        assert !(all[|acts|].Of? && all[|acts|].e.ModeChange?);
      }
    }
    if start.grabbed && NoModeChange(all, 0) {
      assert NoModeChange(acts, 0) && !(all[|acts|].Of? && all[|acts|].e.ModeChange?);
    }
  }

  /** In every run the buffer holds grabbed pixels exactly if an update was grabbed, on request or while the
      monitor was on, after the last mode change. */
  lemma {:induction false} BufferIsGrabbed(start: Flags, acts: seq<Action>)
    ensures ActAll(start, acts).enabled <==> Powered(start.enabled, acts)
    ensures ActAll(start, acts).rects == Reported(start, acts)
    ensures ActAll(start, acts).grabbed <==> GrabbedSinceModeChange(start, acts)
  {
    if acts == [] {
      assert NoModeChange(acts, 0);
    } else {
      var front, a := acts[..|acts| - 1], acts[|acts| - 1];
      assert acts == front + [a];
      BufferIsGrabbed(start, front);
      GrabbedStep(start, front, a);
      hide GrabbedSinceModeChange;
    }
  }

  lemma {:induction false} ActAllConcat(f: Flags, a: seq<Action>, b: seq<Action>)
    ensures ActAll(f, a + b) == ActAll(ActAll(f, a), b)
  {
    if b == [] {
      assert a + b == a;
    } else {
      assert (a + b)[..|a + b| - 1] == a + b[..|b| - 1];
      ActAllConcat(f, a, b[..|b| - 1]);
    }
  }

  /** It does happen that a ready frame was not grabbed, and for as long as no update comes: a mode change is
      reported as a ready frame, and so is every batch of other events after it. */
  lemma ModeChangeMapsUngrabbedBuffer(mode: Mode)
    ensures var requests := [Events([ModeChange(mode)]), Events([Dpms(true)])];
            var start := Flags(true, 1, true);
            var first := Actions(requests[0]);
            var both := first + Actions(requests[1]);
            && StatusMeans(start, first, requests[0], FrameReady) && !ActAll(start, first).grabbed
            && StatusMeans(start, both, requests[1], FrameReady) && !ActAll(start, both).grabbed
  {
    assert Handled([ModeChange(mode)]) == [Of(ModeChange(mode))];
    assert Handled([Dpms(true)]) == [Of(Dpms(true))];
    assert [Of(ModeChange(mode))][..0] == [];
    assert ([Of(ModeChange(mode))] + [Of(Dpms(true))])[..1] == [Of(ModeChange(mode))];
  }

  class MonitorContext {
    const preferred: Mode
    var current: Mode
    var enabled: bool
    var capacity: nat          // of `frameBuffer`; a vector never gives storage back by `reserve`
    var storage: nat           // identity of its storage
    var frameBufferInfo: Buffer
    var rectsCount: nat
    ghost var grabbed: bool    // pixels were grabbed since the buffer was registered

    ghost function State(): Flags
      reads this
    {
      Flags(enabled, rectsCount, grabbed)
    }

    ghost predicate Valid()
      reads this
    {
      && frameBufferInfo.width == current.width && frameBufferInfo.height == current.height
      && frameBufferInfo.stride == 4 * current.width
      && Area(current.width, current.height) <= capacity
      && frameBufferInfo.data == if capacity > 0 then Some(storage) else None
    }

    /** `adapterConnectMonitor`, as far as this state goes. */
    constructor (preferred: Mode)
      requires Sized(preferred)
      ensures Valid() && current == preferred == this.preferred && !enabled && rectsCount == 0 && !grabbed
      ensures capacity == Area(preferred.width, preferred.height)
    {
      this.preferred, current := preferred, preferred;
      enabled, rectsCount, grabbed := false, 0, false;
      capacity, storage := 0, 0;
      frameBufferInfo := Buffer(None, 0, 0, 0);
      new;
      AllocFrameBuffer(preferred.width, preferred.height);
    }

    /** Makes room for a frame and registers the buffer under the frame's dimensions. */
    method AllocFrameBuffer(width: nat, height: nat)
      requires Area(width, height) < 0x8000_0000 && (capacity == 0 ==> frameBufferInfo.data.None?)
      requires current.width == width && current.height == height
      modifies this`capacity, this`storage, this`frameBufferInfo, this`grabbed
      ensures Valid() && !grabbed
      ensures capacity == if Area(width, height) > old(capacity) then Area(width, height) else old(capacity)
      ensures storage == old(storage) <==> Area(width, height) <= old(capacity)
    {
      hide Area;
      var size := Area(width, height);
      if size > capacity {
        capacity := size;
        storage := storage + 1;
      }
      frameBufferInfo := Buffer(if capacity > 0 then Some(storage) else None, width, height, 4 * width);
      grabbed := false;
    }

    method DpmsHandler(on: bool)
      requires Valid()
      modifies this`enabled
      ensures Valid() && enabled == on
    {
      enabled := on;
    }

    method ModeHandler(mode: Mode)
      requires Valid() && Sized(mode)
      modifies this`current, this`capacity, this`storage, this`frameBufferInfo, this`grabbed
      ensures Valid() && current == mode && !grabbed
      ensures var size := Area(mode.width, mode.height);
        capacity == if size > old(capacity) then size else old(capacity)
    {
      hide Area;
      current := mode;
      AllocFrameBuffer(mode.width, mode.height);
    }

    method GrabPixels(rects: nat)
      requires Valid()
      modifies this`rectsCount, this`grabbed
      ensures Valid() && rectsCount == rects && grabbed == (old(grabbed) || rects > 0)
    {
      rectsCount := rects;
      grabbed := grabbed || rects > 0;
    }

    method UpdateHandler(rects: nat)
      requires Valid()
      modifies this`rectsCount, this`grabbed
      ensures Valid() && rectsCount == (if enabled then rects else 0)
      ensures grabbed == (old(grabbed) || (enabled && rects > 0))
    {
      if enabled {
        GrabPixels(rects);
      } else {
        rectsCount := 0;
      }
    }

    /** `evdi_handle_events`: every event reaches its handler. */
    method HandleEvents(events: seq<Event>)
      requires Valid() && SizedEvents(events)
      modifies this
      ensures Valid() && old(capacity) <= capacity
      ensures State() == ActAll(old(State()), Handled(events))
    {
      hide Area, Handled;
      ghost var acts := Handled(events);
      assert acts[..|events|] == acts;
      for i := 0 to |events|
        invariant Valid() && old(capacity) <= capacity
        invariant State() == ActAll(old(State()), acts[..i])
      {
        assert acts[..i + 1][..i] == acts[..i];
        match events[i] {
          case Dpms(on) => DpmsHandler(on);
          case ModeChange(mode) => ModeHandler(mode);
          case Update(rects) => UpdateHandler(rects);
        }
      }
    }

    /** `monitorRequestFrame`: the status tells whether the map that follows will have data, and after a batch
        of events exactly whether the monitor is on and whether its latest update reported anything. */
    method RequestFrame(r: Request) returns (status: FrameStatus)
      requires Valid() && (r.Events? ==> SizedEvents(r.events))
      modifies this
      ensures Valid() && old(capacity) <= capacity
      ensures State() == ActAll(old(State()), Actions(r))
      ensures status.FrameReady? ==> enabled && rectsCount > 0
      ensures status.ModeChanged? ==> rectsCount == 0
      ensures !status.BufferTooSmall? && !status.NotAvailable?
      ensures StatusMeans(old(State()), Actions(r), r, status)
      ensures !r.Events? ==> current == old(current) && capacity == old(capacity)
    {
      hide Area;
      BufferIsGrabbed(State(), Actions(r));
      match r {
        case Ready(rects) =>
          assert [Grab(rects)][..0] == [];
          GrabPixels(rects);
          if rectsCount == 0 {
            return ModeChanged;
          }
          enabled := true;
        case PollFailed =>
          return FrameStatus.Error;
        case TimedOut =>
          return if enabled then NoUpdates else MonitorOff;
        case Events(events) =>
          hide ActAll, Handled;
          HandleEvents(events);
          if enabled {
            if rectsCount == 0 {
              return ModeChanged;
            }
          } else {
            return MonitorOff;
          }
      }
      return FrameReady;
    }

    /** `monitorMapCurrent`: the registered buffer, unless the monitor is off or nothing was grabbed. */
    method MapCurrent() returns (info: MapInfo)
      requires Valid()
      ensures info.data.Some? <==> enabled && rectsCount > 0 && capacity > 0
      ensures enabled && rectsCount > 0 ==> info.width == current.width && info.height == current.height
                                            && info.stride == 4 * current.width
      ensures info.data.Some? ==> info.data == frameBufferInfo.data && Area(info.width, info.height) <= capacity
    {
      if !enabled || rectsCount == 0 {
        return NO_MAP;
      }
      var b := frameBufferInfo;
      return MapInfo(b.data, b.width, b.height, b.stride);
    }

    /** The streaming loop's use of the monitor: a frame request each time, and a map when the status
        announces a frame. `grabs` says of each pass whether the buffer held grabbed pixels: a frame that is
        reported ready does exactly if an update was grabbed after the last mode change of the run so far. */
    method Stream(requests: seq<Request>) returns (trace: seq<Tick>, ghost grabs: seq<bool>)
      requires Valid() && capacity > 0
      requires forall i | 0 <= i < |requests| && requests[i].Events? :: SizedEvents(requests[i].events)
      modifies this
      ensures Valid() && |trace| == |grabs| == |requests| && LinuxTrace(trace)
      ensures forall i | 0 <= i < |requests| ::
                grabs[i] <==> GrabbedSinceModeChange(old(State()), History(requests[..i + 1]))
      ensures forall i | 0 <= i < |requests| ::
                StatusMeans(old(State()), History(requests[..i + 1]), requests[i], trace[i].status)
      ensures State() == ActAll(old(State()), History(requests))
    {
      hide Area, ActAll, GrabbedSinceModeChange, Actions, History, StatusMeans;
      trace, grabs := [], [];
      ghost var start := State();
      NothingHappened(start);
      for i := 0 to |requests|
        invariant Valid() && capacity > 0 && |trace| == |grabs| == i && LinuxTrace(trace)
        invariant State() == ActAll(start, History(requests[..i]))
        invariant forall k | 0 <= k < i :: grabs[k] <==> GrabbedSinceModeChange(start, History(requests[..k + 1]))
        invariant forall k | 0 <= k < i :: StatusMeans(start, History(requests[..k + 1]), requests[k], trace[k].status)
      {
        var status := RequestFrame(requests[i]);
        OneMoreRequest(start, requests, i);
        StatusOverall(start, History(requests[..i]), requests[i], status);
        BufferIsGrabbed(start, History(requests[..i + 1]));
        var mapped := false;
        if status.FrameReady? || status.ModeChanged? {
          var info := MapCurrent();
          mapped := info.data.Some?;
        }
        trace, grabs := trace + [Tick(status, mapped, None)], grabs + [grabbed];
      }
      assert requests[..|requests|] == requests;
    }
  }

  lemma NothingHappened(f: Flags)
    ensures History([]) == [] && ActAll(f, []) == f
  {
  }

  lemma {:induction false} PoweredFurther(start: Flags, a: seq<Action>, b: seq<Action>)
    ensures Powered(start.enabled, a + b) == Powered(ActAll(start, a).enabled, b)
    ensures Reported(start, a + b) == Reported(ActAll(start, a), b)
  {
    if b == [] {
      assert a + b == a;
      BufferIsGrabbed(start, a);
    } else {
      assert (a + b)[..|a + b| - 1] == a + b[..|b| - 1];
      PoweredFurther(start, a, b[..|b| - 1]);
    }
  }

  /** What a status means after one request, it means in the whole run. */
  lemma StatusOverall(start: Flags, acts: seq<Action>, r: Request, status: FrameStatus)
    requires StatusMeans(ActAll(start, acts), Actions(r), r, status)
    ensures StatusMeans(start, acts + Actions(r), r, status)
  {
    hide ActAll, Powered, Reported, Actions;
    PoweredFurther(start, acts, Actions(r));
  }

  lemma OneMoreRequest(start: Flags, requests: seq<Request>, i: nat)
    requires i < |requests|
    ensures History(requests[..i + 1]) == History(requests[..i]) + Actions(requests[i])
    ensures ActAll(start, History(requests[..i + 1])) ==
            ActAll(ActAll(start, History(requests[..i])), Actions(requests[i]))
  {
    assert requests[..i + 1][..i] == requests[..i];
    ActAllConcat(start, History(requests[..i]), Actions(requests[i]));
  }

  /** A frame is mapped exactly when the status is `FrameReady`, and no other status but these two
      and the poll failure, time-out and power states occur. */
  ghost predicate LinuxTrace(tr: seq<Tick>) {
    forall i | 0 <= i < |tr| ::
      && (HasFrame(tr[i]) ==> (tr[i].mapped <==> tr[i].status.FrameReady?))
      && !tr[i].status.BufferTooSmall? && !tr[i].status.NotAvailable?
  }

  function ModeChanges(tr: seq<Tick>): nat {
    if tr == [] then 0 else (if tr[0].status.ModeChanged? then 1 else 0) + ModeChanges(tr[1..])
  }

  lemma {:induction false} MapFailuresAreModeChanges(tr: seq<Tick>)
    requires LinuxTrace(tr)
    ensures MapFailures(tr) == ModeChanges(tr)
  {
    if tr != [] {
      MapFailuresAreModeChanges(tr[1..]);
    }
  }

  /** On Linux the loop gives up over maps exactly when ten `ModeChanged` came with no `FrameReady`
      between them, and over requests exactly when fifteen polls in a row failed. */
  lemma LinuxGivesUp(tr: seq<Tick>, k: nat)
    requires LinuxTrace(tr)
    ensures MapsFailed(tr, k) <==>
      exists from | 0 <= from <= |tr| ::
        ModeChanges(tr[from..]) >= k && forall i | from <= i < |tr| :: !tr[i].status.FrameReady?
    ensures LastFailed(tr, k) <==>
      k <= |tr| && forall i | |tr| - k <= i < |tr| :: tr[i].status.Error?
  {
    forall from | 0 <= from <= |tr|
      ensures MapFailures(tr[from..]) == ModeChanges(tr[from..])
    {
      MapFailuresAreModeChanges(tr[from..]);
    }
  }
}
