/** What one pass of the streaming loop meets, and when a run of passes has to end in an error. */
module Streaming {
  import opened StreamFraming
  import opened Wrappers

  datatype FrameStatus =
    FrameReady | NoUpdates | ModeChanged | MonitorOff | Error | BufferTooSmall | NotAvailable

  /** One pass: the status of the frame request, whether the frame could be mapped, and the JPEG
      data unless its compression failed. */
  datatype Tick = Tick(status: FrameStatus, mapped: bool, jpeg: Option<Jpeg>)

  const MAX_FRAME_FAILS := 15
  const MAX_MAP_FAILS := 10
  const MONITOR_CONNECT_FAIL: ErrorCode := 11
  const TOO_MANY_FAILS: ErrorCode := 12

  predicate Failed(t: Tick) {
    t.status.Error? || t.status.BufferTooSmall? || t.status.NotAvailable?
  }

  predicate HasFrame(t: Tick) {
    t.status.FrameReady? || t.status.ModeChanged?
  }

  predicate MapOk(t: Tick) { HasFrame(t) && t.mapped }

  predicate MapFailed(t: Tick) { HasFrame(t) && !t.mapped }

  // ---------- the rule, stated on the trace ----------

  /** The last `k` statuses are all failures. */
  ghost predicate LastFailed(tr: seq<Tick>, k: nat) {
    k <= |tr| && forall i | |tr| - k <= i < |tr| :: Failed(tr[i])
  }

  function MapFailures(tr: seq<Tick>): nat {
    if tr == [] then 0 else (if MapFailed(tr[0]) then 1 else 0) + MapFailures(tr[1..])
  }

  /** `k` map failures, other statuses between them allowed, with no successful map among them. */
  ghost predicate MapsFailed(tr: seq<Tick>, k: nat) {
    exists from | 0 <= from <= |tr| :: MapFailures(tr[from..]) >= k && forall i | from <= i < |tr| :: !MapOk(tr[i])
  }

  ghost predicate MustStop(tr: seq<Tick>) {
    LastFailed(tr, MAX_FRAME_FAILS) || MapsFailed(tr, MAX_MAP_FAILS)
  }

  // ---------- the counters, as the loop keeps them ----------

  function FrameFails(tr: seq<Tick>): nat {
    if tr == [] then 0
    else if Failed(tr[|tr| - 1]) then FrameFails(tr[..|tr| - 1]) + 1
    else 0
  }

  function MapFails(tr: seq<Tick>): nat {
    if tr == [] then 0
    else if MapOk(tr[|tr| - 1]) then 0
    else MapFails(tr[..|tr| - 1]) + if MapFailed(tr[|tr| - 1]) then 1 else 0
  }

  lemma {:induction false} FrameFailsMeaning(tr: seq<Tick>, k: nat)
    ensures FrameFails(tr) >= k <==> LastFailed(tr, k)
  {
    if k == 0 || tr == [] {
    } else {
      var front := tr[..|tr| - 1];
      FrameFailsMeaning(front, k - 1);
      if LastFailed(tr, k) {
        assert forall i | |front| - (k - 1) <= i < |front| :: front[i] == tr[i];
        assert Failed(tr[|tr| - 1]);
      }
      if FrameFails(tr) >= k {
        assert LastFailed(front, k - 1);
        assert forall i | |tr| - k <= i < |tr| - 1 :: tr[i] == front[i];
      }
    }
  }

  lemma {:induction false} MapFailuresSnoc(tr: seq<Tick>, t: Tick)
    ensures MapFailures(tr + [t]) == MapFailures(tr) + if MapFailed(t) then 1 else 0
  {
    if tr == [] {
      assert tr + [t] == [t] && [t][1..] == [];
    } else {
      assert (tr + [t])[1..] == tr[1..] + [t];
      MapFailuresSnoc(tr[1..], t);
    }
  }

  /** Where the map counter last stood at 0 because of a successful map (or the start). */
  function LastMap(tr: seq<Tick>): nat {
    if tr == [] then 0 else if MapOk(tr[|tr| - 1]) then |tr| else LastMap(tr[..|tr| - 1])
  }

  lemma {:induction false} MapFailsCount(tr: seq<Tick>)
    ensures LastMap(tr) <= |tr|
    ensures LastMap(tr) > 0 ==> MapOk(tr[LastMap(tr) - 1])
    ensures forall i | LastMap(tr) <= i < |tr| :: !MapOk(tr[i])
    ensures MapFails(tr) == MapFailures(tr[LastMap(tr)..])
  {
    if tr == [] {
    } else if MapOk(tr[|tr| - 1]) {
      assert tr[|tr|..] == [];
    } else {
      var front, t := tr[..|tr| - 1], tr[|tr| - 1];
      MapFailsCount(front);
      var from := LastMap(tr);
      assert tr[from..] == front[from..] + [t];
      MapFailuresSnoc(front[from..], t);
    }
  }

  lemma {:induction false} MapFailuresSuffix(tr: seq<Tick>, k: nat)
    requires k <= |tr|
    ensures MapFailures(tr[k..]) <= MapFailures(tr)
  {
    if k == 0 {
      assert tr[0..] == tr;
    } else {
      MapFailuresSuffix(tr[1..], k - 1);
      assert tr[1..][k - 1..] == tr[k..];
    }
  }

  lemma MapsFailedSince(tr: seq<Tick>, k: nat, from: nat)
    requires from <= |tr| && MapFailures(tr[from..]) >= k && forall i | from <= i < |tr| :: !MapOk(tr[i])
    ensures MapsFailed(tr, k)
  {
    hide MapFailures, MapOk;
  }

  lemma MapFailsAtLeast(tr: seq<Tick>, k: nat)
    requires MapsFailed(tr, k) && k > 0
    ensures MapFails(tr) >= k
  {
    hide MapFailures, MapOk, MapFails, LastMap;
    MapFailsCount(tr);
    var last := LastMap(tr);
    var from :| 0 <= from <= |tr| && MapFailures(tr[from..]) >= k && forall i | from <= i < |tr| :: !MapOk(tr[i]);
    assert last <= from;
    assert tr[last..][from - last..] == tr[from..];
    MapFailuresSuffix(tr[last..], from - last);
  }

  lemma MapFailsMeaning(tr: seq<Tick>, k: nat)
    ensures MapFails(tr) >= k <==> MapsFailed(tr, k)
  {
    hide MapFailures, MapOk, MapFails, LastMap, MapsFailed;
    MapFailsCount(tr);
    if k == 0 {
      MapsFailedSince(tr, k, |tr|);
    } else if MapsFailed(tr, k) {
      MapFailsAtLeast(tr, k);
    } else if MapFails(tr) >= k {
      MapsFailedSince(tr, k, LastMap(tr));
    }
  }

  /** The passes from `from` on whose frame was there and could not be mapped. */
  function UnmappedFrom(tr: seq<Tick>, from: nat): set<int> {
    set i | from <= i < |tr| && (tr[i].status.FrameReady? || tr[i].status.ModeChanged?) && !tr[i].mapped
  }

  lemma {:induction false} UnmappedAreCounted(tr: seq<Tick>, from: nat)
    requires from <= |tr|
    ensures |UnmappedFrom(tr, from)| == MapFailures(tr[from..])
    decreases |tr| - from
  {
    if from == |tr| {
      assert tr[from..] == [];
    } else {
      UnmappedAreCounted(tr, from + 1);
      assert tr[from..][1..] == tr[from + 1..];
      assert UnmappedFrom(tr, from) == UnmappedFrom(tr, from + 1) + if MapFailed(tr[from]) then {from} else {};
    }
  }

  /** When the loop has to give up, in terms of the statuses alone: the last fifteen passes got no frame because
      of an error, or ten frames could not be mapped with none mapped since the first of them. */
  lemma MustStopMeans(tr: seq<Tick>)
    ensures MustStop(tr) <==>
      || (15 <= |tr| && forall i | |tr| - 15 <= i < |tr| ::
            tr[i].status.Error? || tr[i].status.BufferTooSmall? || tr[i].status.NotAvailable?)
      || (exists from | 0 <= from <= |tr| ::
            10 <= |UnmappedFrom(tr, from)| && forall i | from <= i < |tr| ::
              (tr[i].status.FrameReady? || tr[i].status.ModeChanged?) ==> !tr[i].mapped)
  {
    forall from | 0 <= from <= |tr| ensures |UnmappedFrom(tr, from)| == MapFailures(tr[from..]) {
      UnmappedAreCounted(tr, from);
    }
    hide UnmappedFrom, MapFailures;
  }

  /** The two counters, though they are reset by different statuses, decide the rule exactly. */
  lemma CountersDecide(tr: seq<Tick>)
    ensures FrameFails(tr) >= MAX_FRAME_FAILS || MapFails(tr) >= MAX_MAP_FAILS <==> MustStop(tr)
  {
    FrameFailsMeaning(tr, MAX_FRAME_FAILS);
    MapFailsMeaning(tr, MAX_MAP_FAILS);
  }

  /** Neither rule can fire before ten passes, and only a failed request or map makes it fire. */
  lemma NeverEarly(tr: seq<Tick>)
    requires MustStop(tr)
    requires forall k | 0 <= k < |tr| :: !MustStop(tr[..k])
    ensures |tr| >= MAX_MAP_FAILS
    ensures Failed(tr[|tr| - 1]) || MapFailed(tr[|tr| - 1])
  {
    CountersDecide(tr);
    CountersBounded(tr);
    var front := tr[..|tr| - 1];
    CountersDecide(front);
  }

  lemma {:induction false} CountersBounded(tr: seq<Tick>)
    ensures FrameFails(tr) <= |tr| && MapFails(tr) <= |tr|
  {
    if tr != [] {
      CountersBounded(tr[..|tr| - 1]);
    }
  }

  // ---------- what a pass sends ----------

  function Output(t: Tick): seq<Message> {
    if MapOk(t) then
      match t.jpeg
      case Some(jpeg) => [Frame(jpeg)]
      case None => []
    else if t.status.MonitorOff? then [Message.MonitorOff]
    else []
  }

  function Outputs(tr: seq<Tick>): seq<Message> {
    if tr == [] then [] else Outputs(tr[..|tr| - 1]) + Output(tr[|tr| - 1])
  }

  /** What a pass owes the device, stated by itself: a frame that was there, mapped and compressed, or the news
      that the monitor is off. */
  predicate Due(t: Tick, m: Message) {
    match m
    case Frame(jpeg) => (t.status.FrameReady? || t.status.ModeChanged?) && t.mapped && t.jpeg == Some(jpeg)
    case MonitorOff => t.status.MonitorOff?
    case _ => false
  }

  lemma OutputMeans(t: Tick)
    ensures |Output(t)| <= 1 && forall m :: m in Output(t) <==> Due(t, m)
  {
  }

  /** What a pass adds to the messages: what it owes, or the error by which the session gives up. */
  ghost predicate PassSends(before: seq<Message>, after: seq<Message>, t: Tick, gaveUp: bool) {
    && before <= after && |after| <= |before| + 1
    && forall m :: m in after[|before|..] <==> if gaveUp then m == Message.Error(12) else Due(t, m)
  }

  lemma PassSendsAsDue(before: seq<Message>, after: seq<Message>, t: Tick, gaveUp: bool)
    requires after == before + if gaveUp then [Message.Error(TOO_MANY_FAILS)] else Output(t)
    ensures PassSends(before, after, t, gaveUp)
  {
    OutputMeans(t);
    hide Output, Due;
    assert after[|before|..] == if gaveUp then [Message.Error(TOO_MANY_FAILS)] else Output(t);
  }

  /** Message `i` is what pass `at[i]` owed, the messages come in the order of the passes, and no pass that owed
      a message is left out. */
  ghost predicate Matches(ms: seq<Message>, tr: seq<Tick>, at: seq<nat>) {
    && |at| == |ms|
    && (forall i | 0 <= i < |ms| :: at[i] < |tr| && Due(tr[at[i]], ms[i]))
    && (forall i, j | 0 <= i < j < |ms| :: at[i] < at[j])
    && (forall k, m | 0 <= k < |tr| && Due(tr[k], m) :: k in at)
  }

  ghost predicate AsDue(ms: seq<Message>, tr: seq<Tick>) {
    exists at :: Matches(ms, tr, at)
  }

  lemma AsDueFurther(ms: seq<Message>, tr: seq<Tick>, t: Tick, more: seq<Message>)
    requires AsDue(ms, tr) && |more| <= 1 && forall m :: m in more <==> Due(t, m)
    ensures AsDue(ms + more, tr + [t])
  {
    hide Due;
    var at :| Matches(ms, tr, at);
    var all := at + if more == [] then [] else [|tr|];
    assert more != [] ==> more[0] in more && all[|ms|] == |tr|;
    assert forall k | 0 <= k < |tr| :: (tr + [t])[k] == tr[k];
    assert Matches(ms + more, tr + [t], all);
  }

  /** Every pass sends what it owes, and nothing else is sent. */
  lemma {:induction false} OutputsAreDue(tr: seq<Tick>)
    ensures AsDue(Outputs(tr), tr)
  {
    if tr == [] {
      assert Matches([], [], []);
    } else {
      var front, t := tr[..|tr| - 1], tr[|tr| - 1];
      assert tr == front + [t] && Outputs(tr) == Outputs(front) + Output(t);
      hide *;
      OutputsAreDue(front);
      OutputMeans(t);
      AsDueFurther(Outputs(front), front, t, Output(t));
    }
  }

  /** The messages of a session: those that its passes owed, and, if it gave up, error 12 at the end. */
  ghost predicate SessionSends(ms: seq<Message>, tr: seq<Tick>, gaveUp: bool) {
    if gaveUp then ms != [] && ms[|ms| - 1] == Message.Error(12) && AsDue(ms[..|ms| - 1], tr) else AsDue(ms, tr)
  }

  lemma SendsAsDue(ms: seq<Message>, tr: seq<Tick>, gaveUp: bool)
    requires ms == Outputs(tr) + if gaveUp then [Message.Error(TOO_MANY_FAILS)] else []
    ensures SessionSends(ms, tr, gaveUp)
  {
    OutputsAreDue(tr);
    hide AsDue, Outputs;
    if gaveUp {
      assert ms[..|ms| - 1] == Outputs(tr);
    } else {
      assert ms == Outputs(tr);
    }
  }

  /** One more pass: how the counters and the output grow, and when the rule fires for the first time. */
  lemma OneMorePass(ticks: seq<Tick>, n: nat)
    requires n < |ticks| && !MustStop(ticks[..n])
    ensures var t := ticks[n]; var next := ticks[..n + 1];
      && FrameFails(next) == (if Failed(t) then FrameFails(ticks[..n]) + 1 else 0)
      && MapFails(next) == (if MapOk(t) then 0 else MapFails(ticks[..n]) + if MapFailed(t) then 1 else 0)
      && Outputs(next) == Outputs(ticks[..n]) + Output(t)
      && (MustStop(next) <==>
            (Failed(t) && FrameFails(next) >= MAX_FRAME_FAILS) || (MapFailed(t) && MapFails(next) >= MAX_MAP_FAILS))
  {
    hide MustStop, Output;
    var next := ticks[..n + 1];
    assert next[..n] == ticks[..n];
    CountersDecide(ticks[..n]);
    CountersDecide(next);
  }

  lemma StartsUnderLimit()
    ensures !MustStop([]) && FrameFails([]) == 0 && MapFails([]) == 0 && Outputs([]) == []
  {
    CountersDecide([]);
  }
}
