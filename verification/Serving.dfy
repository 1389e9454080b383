/** One client's thread between its registration and its end, step by step: where it stands, what `m_state`
    is, and whether the socket still carries bytes. Other threads may shut the socket down and overwrite the
    state between any two steps. */
module Serving {
  import opened SessionLog

  /** Named after what the thread does next. While `Announcing` it has identified the device and not yet told
      the control panel; `Leaving` is past the streaming loop. `Finished` may be `early`, without erasing
      the context, and the device may have been `announced` by then. */
  datatype Place =
    | Identifying | Announcing | Connecting | Starting | Streaming
    | Sending | Failing                        // a frame or "monitor off" is written; the write has failed
    | GivingUp | GaveUp                        // the loop's last message is written; it was
    | Refused | Threw                          // the session's last message is written
    | Leaving | Shutting | Finished(early: bool, announced: bool)

  datatype Service = Service(place: Place, state: ClientState, gone: bool)

  const NEW_SERVICE := Service(Identifying, New, false)

  datatype Connection = Established | NoMonitor | Exception

  /** What one pass of the loop comes to: nothing to write, a message, or the end of its patience. */
  datatype PassKind = Silent | Writes | TooMany

  datatype Act =
    | Identify(named: bool) | NotIdentified
    | Announce                                 // `onClientConnected`
    | Connect(c: Connection)
    | Start                                    // `m_state = Streaming`
    | TakePass(kind: PassKind)
    | Sent | NotSent | MarkClosed
    | LastMessage | MarkError
    | LeaveLoop | MarkDisconnected | ShutSocket
    // other threads and the network
    | ForceShutdown | ForceState | Break

  predicate Own(a: Act) {
    !a.ForceShutdown? && !a.ForceState? && !a.Break?
  }

  predicate CanAct(v: Service, a: Act) {
    match a
    case Identify(_) => v.place.Identifying?
    case NotIdentified => v.place.Identifying?
    case Announce => v.place.Announcing?
    case Connect(_) => v.place.Connecting?
    case Start => v.place.Starting?
    case TakePass(_) => v.place.Streaming? && v.state.InStreaming?
    case Sent => v.place.Sending? && !v.gone
    case NotSent => v.place.Sending?
    case MarkClosed => v.place.Failing?
    case LastMessage => v.place.GivingUp? || v.place.Refused? || v.place.Threw?
    case MarkError => v.place.GaveUp?
    case LeaveLoop => v.place.Streaming? && !v.state.InStreaming?
    case MarkDisconnected => v.place.Leaving?
    case ShutSocket => v.place.Shutting?
    case _ => true
  }

  function Acted(v: Service, a: Act): Service
    requires CanAct(v, a)
  {
    match a
    case Identify(named) => v.(place := Announcing, state := if named then Identified else v.state)
    case NotIdentified => v.(place := Finished(true, false))
    case Announce => v.(place := Connecting)
    case Connect(Established) => v.(place := Starting, state := Connected)
    case Connect(NoMonitor) => v.(place := Refused, state := InError)
    case Connect(Exception) => v.(place := Threw)
    case Start => v.(place := Streaming, state := InStreaming)
    case TakePass(Silent) => v
    case TakePass(Writes) => v.(place := Sending)
    case TakePass(TooMany) => v.(place := GivingUp)
    case Sent => v.(place := Streaming)
    case NotSent => v.(place := Failing, gone := true)
    case MarkClosed => v.(place := Streaming, state := ConnectionClosed)
    case LastMessage =>
      v.(gone := true, place := if v.place.GivingUp? then GaveUp else Finished(v.place.Refused?, true))
    case MarkError => v.(place := Streaming, state := InError)
    case LeaveLoop => v.(place := Leaving)
    case MarkDisconnected => v.(place := Shutting, state := Disconnected)
    case ShutSocket => v.(place := Finished(false, true), gone := true)
    case ForceShutdown => v.(gone := true)
    case Break => v.(gone := true)
    case ForceState => v.(state := ConnectionClosed)
  }

  lemma ActFacts(v: Service, a: Act)
    requires CanAct(v, a)
    ensures v.gone || a.ForceShutdown? ==> Acted(v, a).gone
    ensures !Own(a) ==> Acted(v, a).place == v.place
    ensures Own(a) ==> !v.place.Finished? && !Acted(v, a).place.Identifying?
  {
  }

  lemma Forces(v: Service)
    ensures CanAct(v, ForceState) && Acted(v, ForceState) == v.(state := ConnectionClosed)
  {
  }

  /** The control panel has been told of the device. */
  predicate HasAnnounced(v: Service) {
    !v.place.Identifying? && !v.place.Announcing? && (v.place.Finished? ==> v.place.announced)
  }

  /** No monitor could be connected. */
  predicate WasRefused(v: Service) {
    v.place.Refused? || v.place == Finished(true, true)
  }

  lemma NoticeFacts(v: Service, a: Act)
    requires CanAct(v, a)
    ensures HasAnnounced(Acted(v, a)) <==> HasAnnounced(v) || a.Announce?
    ensures a.Announce? ==> !HasAnnounced(v)
    ensures WasRefused(Acted(v, a)) <==> WasRefused(v) || a == Connect(NoMonitor)
    ensures v.place == Finished(false, false) <==> Acted(v, a).place == Finished(false, false)
  {
  }

  /** All the acts can be taken in this order. */
  predicate CanActAll(v: Service, acts: seq<Act>)
    decreases |acts|
  {
    acts == [] || (CanAct(v, acts[0]) && CanActAll(Acted(v, acts[0]), acts[1..]))
  }

  function ActedAll(v: Service, acts: seq<Act>): Service
    requires CanActAll(v, acts)
    decreases |acts|
  {
    if acts == [] then v else ActedAll(Acted(v, acts[0]), acts[1..])
  }

  /** The acts, taken from the start of a session, lead here. */
  ghost predicate Reaches(acts: seq<Act>, v: Service) {
    CanActAll(NEW_SERVICE, acts) && ActedAll(NEW_SERVICE, acts) == v
  }

  lemma {:induction false} OneMoreAct(v: Service, acts: seq<Act>, a: Act)
    requires CanActAll(v, acts) && CanAct(ActedAll(v, acts), a)
    ensures CanActAll(v, acts + [a]) && ActedAll(v, acts + [a]) == Acted(ActedAll(v, acts), a)
    decreases |acts|
  {
    hide CanAct, Acted;
    if acts == [] {
      assert acts + [a] == [a];
      assert [a][1..] == [];
    } else {
      assert (acts + [a])[1..] == acts[1..] + [a];
      OneMoreAct(Acted(v, acts[0]), acts[1..], a);
    }
  }

  lemma ReachesFurther(acts: seq<Act>, v: Service, a: Act)
    requires Reaches(acts, v) && CanAct(v, a)
    ensures Reaches(acts + [a], Acted(v, a))
  {
    OneMoreAct(NEW_SERVICE, acts, a);
  }

  // ---------- how long it can go on ----------

  /** What the thread has left to do, at most, beyond passes that end well. */
  function Rank(v: Service): nat {
    match v.place
    case Identifying => 10
    case Announcing => 9
    case Connecting => 8
    case Starting => 7
    case Streaming => if v.state.InStreaming? then 6 else 3
    case Sending => 6
    case Failing => 5
    case GivingUp => 5
    case GaveUp => 4
    case Refused => 1
    case Threw => 1
    case Leaving => 2
    case Shutting => 1
    case Finished(_, _) => 0
  }

  /** The acts that a thread may repeat for as long as it likes, and those of others. */
  predicate Repeats(a: Act) {
    a.TakePass? || a.Sent? || !Own(a)
  }

  lemma RankFalls(v: Service, a: Act)
    requires CanAct(v, a)
    ensures Rank(Acted(v, a)) <= Rank(v)
    ensures !Repeats(a) ==> Rank(Acted(v, a)) < Rank(v)
  {
  }

  /** The thread has yet to reach the streaming loop, or is in it and has not been told to leave. */
  predicate GoesOn(v: Service) {
    || v.place.Identifying? || v.place.Announcing? || v.place.Connecting? || v.place.Starting?
    || (v.place.Streaming? && v.state.InStreaming?)
  }

  /** `m_state = Streaming` has been done, or will not be any more. */
  predicate Started(v: Service) {
    !v.place.Identifying? && !v.place.Announcing? && !v.place.Connecting? && !v.place.Starting?
  }

  /** A disconnect: the socket is shut down and the state overwritten. */
  function ForcedOff(v: Service): Service {
    v.(gone := true, state := ConnectionClosed)
  }

  /** Once the socket is gone and the thread does not go on, every act of its own brings it nearer to its end. */
  lemma NoLongerGoesOn(v: Service, a: Act)
    requires CanAct(v, a) && v.gone && !GoesOn(v)
    ensures Acted(v, a).gone && !GoesOn(Acted(v, a))
    ensures Own(a) ==> !a.TakePass? && !a.Sent? && Rank(Acted(v, a)) < Rank(v)
  {
  }

  function OwnActs(acts: seq<Act>): nat {
    if acts == [] then 0 else (if Own(acts[0]) then 1 else 0) + OwnActs(acts[1..])
  }

  function PassesIn(acts: seq<Act>): nat {
    if acts == [] then 0 else (if acts[0].TakePass? then 1 else 0) + PassesIn(acts[1..])
  }

  lemma AtMostAll(acts: seq<Act>)
    ensures OwnActs(acts) <= |acts|
  {
  }

  ghost predicate NoPass(acts: seq<Act>) {
    forall k | 0 <= k < |acts| :: !acts[k].TakePass?
  }

  lemma {:induction false} EndsSoon(v: Service, acts: seq<Act>)
    requires CanActAll(v, acts) && v.gone && !GoesOn(v)
    ensures OwnActs(acts) <= Rank(v) && NoPass(acts)
    decreases |acts|
  {
    if acts != [] {
      NoLongerGoesOn(v, acts[0]);
      RankFalls(v, acts[0]);
      EndsSoon(Acted(v, acts[0]), acts[1..]);
      assert forall k | 1 <= k < |acts| :: acts[k] == acts[1..][k - 1];
    }
  }

  /** The acts up to the first pass, and `n` passes that write nothing. */
  function Onwards(v: Service, n: nat): (acts: seq<Act>)
    requires GoesOn(v)
    decreases n, Rank(v)
  {
    match v.place
    case Identifying => [Identify(true)] + Onwards(Acted(v, Identify(true)), n)
    case Announcing => [Announce] + Onwards(Acted(v, Announce), n)
    case Connecting => [Connect(Established)] + Onwards(Acted(v, Connect(Established)), n)
    case Starting => [Start] + Onwards(Acted(v, Start), n)
    case Streaming => if n == 0 then [] else [TakePass(Silent)] + Onwards(v, n - 1)
  }

  /** The first of these acts, and what remains. */
  lemma OnwardsStep(v: Service, n: nat)
    requires GoesOn(v) && Onwards(v, n) != []
    ensures var acts := Onwards(v, n); var a := acts[0];
      && Own(a) && CanAct(v, a) && GoesOn(Acted(v, a)) && Acted(v, a).gone == v.gone
      && (a.TakePass? <==> v.place.Streaming?) && (a.TakePass? ==> n > 0 && Acted(v, a) == v)
      && (!a.TakePass? ==> Rank(Acted(v, a)) < Rank(v))
      && acts[1..] == Onwards(Acted(v, a), if a.TakePass? then n - 1 else n)
  {
    var acts := Onwards(v, n);
    assert ([acts[0]] + acts[1..])[1..] == acts[1..];
  }

  lemma NoMoreOnwards(v: Service, n: nat)
    requires GoesOn(v) && Onwards(v, n) == []
    ensures n == 0
  {
  }

  lemma ConsPass(acts: seq<Act>)
    requires acts != [] && (acts[0].TakePass? || !NoPass(acts[1..]))
    ensures !NoPass(acts)
  {
    if !acts[0].TakePass? {
      var k :| 0 <= k < |acts[1..]| && acts[1..][k].TakePass?;
      assert acts[k + 1].TakePass?;
    }
  }

  lemma {:induction false} OnwardsIsPossible(v: Service, n: nat)
    requires GoesOn(v)
    ensures var acts := Onwards(v, n);
      && CanActAll(v, acts) && |acts| >= n && OwnActs(acts) == |acts|
      && PassesIn(acts) == n && (n > 0 ==> !NoPass(acts))
      && GoesOn(ActedAll(v, acts)) && (v.gone ==> ActedAll(v, acts).gone)
    decreases n, Rank(v)
  {
    var acts := Onwards(v, n);
    if acts != [] {
      OnwardsStep(v, n);
      hide Onwards, GoesOn, Own, CanAct, Acted, Rank, NoPass;
      OnwardsIsPossible(Acted(v, acts[0]), if acts[0].TakePass? then n - 1 else n);
      if n > 0 {
        ConsPass(acts);
      }
    } else {
      NoMoreOnwards(v, n);
    }
  }

  /** However the thread and the others go on, it takes no more than `bound` steps of its own. */
  ghost predicate Bounded(v: Service, bound: nat) {
    forall acts :: CanActAll(v, acts) ==> OwnActs(acts) <= bound
  }

  /** A disconnect is heeded, exactly: the loop takes no further pass, whatever happens after it, if and only if
      `m_state = Streaming` came before it or the thread had already turned away from it; otherwise the loop
      overwrites it and may go on without bound. */
  lemma HeededIffStarted(v: Service)
    ensures (forall acts :: CanActAll(ForcedOff(v), acts) ==> NoPass(acts)) <==> Started(v)
    ensures (exists bound: nat :: Bounded(ForcedOff(v), bound)) <==> Started(v)
  {
    var w := ForcedOff(v);
    if Started(v) {
      forall acts | CanActAll(w, acts) ensures NoPass(acts) && OwnActs(acts) <= Rank(w) {
        EndsSoon(w, acts);
      }
      assert Bounded(w, Rank(w));
    } else {
      hide CanActAll, NoPass, OwnActs, Onwards, ActedAll;
      OnwardsIsPossible(w, 1);
      forall bound: nat ensures !Bounded(w, bound) {
        OnwardsIsPossible(w, bound + 1);
        assert CanActAll(w, Onwards(w, bound + 1));
      }
    }
  }

  /** In the loop with the socket gone, left alone, the thread goes on exactly as long as its passes attempt
      no write. */
  lemma {:induction false} GoesOnWhileSilent(v: Service, acts: seq<Act>)
    requires v.place.Streaming? && v.state.InStreaming? && v.gone
    requires CanActAll(v, acts) && forall k | 0 <= k < |acts| :: Own(acts[k])
    ensures GoesOn(ActedAll(v, acts)) <==> forall k | 0 <= k < |acts| :: acts[k] == TakePass(Silent)
    decreases |acts|
  {
    if acts != [] {
      var next := Acted(v, acts[0]);
      if acts[0] == TakePass(Silent) {
        GoesOnWhileSilent(next, acts[1..]);
        assert forall k | 1 <= k < |acts| :: acts[k] == acts[1..][k - 1];
      } else {
        StaysEnded(next, acts[1..]);
      }
    }
  }

  lemma {:induction false} StaysEnded(v: Service, acts: seq<Act>)
    requires CanActAll(v, acts) && v.gone && !GoesOn(v)
    ensures ActedAll(v, acts).gone && !GoesOn(ActedAll(v, acts))
    decreases |acts|
  {
    if acts != [] {
      NoLongerGoesOn(v, acts[0]);
      StaysEnded(Acted(v, acts[0]), acts[1..]);
    }
  }
}
