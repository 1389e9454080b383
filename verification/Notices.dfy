/** What the server tells the control panel of its clients, and what the panel's window then lists: one notice
    when a device has been identified, one when its thread ends. */
module Notices {
  import Serving
  import opened ServerOwnership
  import DeviceIndex

  // ---------- the two notices of a client ----------

  const ANNOUNCE := Serving.Announce
  const REFUSE := Serving.Connect(Serving.NoMonitor)

  predicate Announced(s: State, i: nat) {
    i < |s.threads| && Serving.HasAnnounced(s.threads[i].service)
  }

  predicate Refused(s: State, i: nat) {
    i < |s.threads| && Serving.WasRefused(s.threads[i].service)
  }

  /** The thread has ended, and not early. */
  predicate SaidFarewell(s: State, i: nat) {
    At(s, i, Gone) && OverFor(s.threads[i].service, false)
  }

  lemma NoticeStep(s: State, t: Step, i: nat)
    requires Invariant(s) && Enabled(s, t)
    ensures Announced(Next(s, t), i) <==> Announced(s, i) || t == Serve(i, ANNOUNCE)
    ensures Refused(Next(s, t), i) <==> Refused(s, i) || t == Serve(i, REFUSE)
    ensures t == Serve(i, ANNOUNCE) ==> !Announced(s, i)
  {
    if i < |s.threads| {
      ServiceAfter(s, t, i);
      if Acts(t) && t.i == i {
        Serving.NoticeFacts(s.threads[i].service, ActOf(t));
        OwnOrNot(s, t);
        hide Next, Serving.HasAnnounced, Serving.WasRefused, Serving.Acted, Serving.CanAct;
      }
    } else {
      NewThread(s, t, i);
    }
  }

  lemma NewThread(s: State, t: Step, i: nat)
    requires Enabled(s, t) && |s.threads| <= i
    ensures i < |Next(s, t).threads| ==> Next(s, t).threads[i] == Thread(Spawned, Unset, Serving.NEW_SERVICE)
    ensures t != Serve(i, ANNOUNCE) && t != Serve(i, REFUSE) && t != Farewell(i)
  {
    hide Serving.Acted, Serving.CanAct;
  }

  lemma FarewellStep(s: State, t: Step, i: nat)
    requires Invariant(s) && Enabled(s, t)
    ensures SaidFarewell(Next(s, t), i) <==> SaidFarewell(s, i) || t == Farewell(i)
    ensures t == Farewell(i) ==> !SaidFarewell(s, i)
  {
    if i < |s.threads| {
      assert ServiceOk(s, i);
      ServiceAfter(s, t, i);
      PlaceAfter(s, t, i);
      if Acts(t) && t.i == i && s.threads[i].service.place.Finished? {
        OverForGood(s, t, i);
      }
      hide Next, Enabled, ActOf, Serving.Acted, Serving.CanAct;
    } else {
      NewThread(s, t, i);
    }
  }

  /** How a thread comes to its end, and that it stays there. */
  lemma PlaceAfter(s: State, t: Step, i: nat)
    requires Enabled(s, t) && i < |s.threads|
    ensures At(Next(s, t), i, Gone) <==> At(s, i, Gone) || t == Farewell(i) || t == LeaveEarly(i)
    ensures t == Farewell(i) ==> At(s, i, Parting)
    ensures t == LeaveEarly(i) ==> OverFor(s.threads[i].service, true)
  {
    if Acts(t) {
      ServiceActed(s, t);
      hide Next, Enabled, ActOf;
    } else {
      PlaceMoved(s, t, i);
    }
  }

  lemma PlaceMoved(s: State, t: Step, i: nat)
    requires Enabled(s, t) && i < |s.threads| && !Acts(t)
    ensures At(Next(s, t), i, Gone) <==> At(s, i, Gone) || t == Farewell(i) || t == LeaveEarly(i)
    ensures t == Farewell(i) ==> At(s, i, Parting)
    ensures t == LeaveEarly(i) ==> OverFor(s.threads[i].service, true)
  {
    hide Serving.Acted, Serving.CanAct;
  }

  /** A service that is over stays as it is. */
  lemma OverForGood(s: State, t: Step, i: nat)
    requires Enabled(s, t) && Acts(t) && t.i == i && i < |s.threads| && s.threads[i].service.place.Finished?
    ensures i < |Next(s, t).threads| && Next(s, t).threads[i].service.place == s.threads[i].service.place
  {
    ServiceActed(s, t);
    Serving.ActFacts(s.threads[i].service, ActOf(t));
    OwnOrNot(s, t);
    hide Next, Serving.Acted;
  }

  /** In every run: the device was announced, refused a monitor or said farewell to exactly as its thread
      stands now. */
  lemma {:induction false} NoticesTaken(steps: seq<Step>, i: nat)
    requires Possible(steps)
    ensures Serve(i, ANNOUNCE) in steps <==> Announced(After(steps), i)
    ensures Serve(i, REFUSE) in steps <==> Refused(After(steps), i)
    ensures Farewell(i) in steps <==> SaidFarewell(After(steps), i)
  {
    hide Possible, After, Next, Enabled, Invariant;
    if steps == [] {
      EmptyRun();
    } else {
      var front, t := steps[..|steps| - 1], steps[|steps| - 1];
      assert steps == front + [t];
      Extended(front, t);
      NoticesTaken(front, i);
      AlwaysInvariant(front);
      NoticeStep(After(front), t, i);
      FarewellStep(After(front), t, i);
    }
  }

  /** Neither notice is given twice. */
  lemma {:induction false} NoticesOnce(steps: seq<Step>, i: nat)
    requires Possible(steps)
    ensures multiset(steps)[Serve(i, ANNOUNCE)] <= 1 && multiset(steps)[Farewell(i)] <= 1
  {
    if steps != [] {
      hide Possible, After, Next, Enabled, Invariant;
      var front, t := steps[..|steps| - 1], steps[|steps| - 1];
      assert steps == front + [t];
      Extended(front, t);
      NoticesOnce(front, i);
      NoticesTaken(front, i);
      AlwaysInvariant(front);
      NoticeStep(After(front), t, i);
      FarewellStep(After(front), t, i);
    }
  }

  /** The notices pair up, exactly: a farewell is always preceded by the announcement, and once its thread has
      ended an announced device has had its farewell if and only if it was not refused a monitor. */
  lemma NoticesPairUp(steps: seq<Step>, i: nat)
    requires Possible(steps)
    ensures Farewell(i) in steps ==> Serve(i, ANNOUNCE) in steps && Serve(i, REFUSE) !in steps
    ensures Serve(i, REFUSE) in steps ==> Serve(i, ANNOUNCE) in steps
    ensures At(After(steps), i, Gone) && Serve(i, ANNOUNCE) in steps ==>
              (Farewell(i) in steps <==> Serve(i, REFUSE) !in steps)
  {
    hide Possible, After;
    NoticesTaken(steps, i);
    AlwaysInvariant(steps);
    var s := After(steps);
    if i < |s.threads| {
      assert ServiceOk(s, i);
    }
  }

  // ---------- what the window makes of them ----------

  /** What the panel receives, if context `i` is described as `describe(i)`. */
  function Sent(steps: seq<Step>, describe: nat -> DeviceIndex.Device): seq<DeviceIndex.Event> {
    if steps == [] then [] else Sent(steps[..|steps| - 1], describe) + SentBy(steps[|steps| - 1], describe)
  }

  function SentBy(t: Step, describe: nat -> DeviceIndex.Device): seq<DeviceIndex.Event> {
    if t.Serve? && t.act == ANNOUNCE then [DeviceIndex.Connected(describe(t.i))]
    else if t.Farewell? then [DeviceIndex.Disconnected(describe(t.i).id)]
    else []
  }

  /** Contexts have different ids: `std::to_string` of different numbers. */
  ghost predicate ApartById(describe: nat -> DeviceIndex.Device) {
    forall i, j | describe(i).id == describe(j).id :: i == j
  }

  /** By its latest notice a device is there exactly if it was announced and not said farewell to. */
  lemma {:induction false} PresentIffNoFarewell(steps: seq<Step>, describe: nat -> DeviceIndex.Device, i: nat)
    requires Possible(steps) && ApartById(describe)
    ensures DeviceIndex.Present(Sent(steps, describe), describe(i).id) <==>
            Serve(i, ANNOUNCE) in steps && Farewell(i) !in steps
  {
    hide Possible, After, Next, Enabled, Invariant;
    if steps == [] {
      NobodyPresent(describe(i).id);
    } else {
      var front, t := steps[..|steps| - 1], steps[|steps| - 1];
      assert steps == front + [t];
      Extended(front, t);
      PresentIffNoFarewell(front, describe, i);
      NoticesPairUp(front, i);
      NoticesTaken(front, i);
      AlwaysInvariant(front);
      NoticeStep(After(front), t, i);
      hide DeviceIndex.Present;
      if t.Serve? && t.act == ANNOUNCE {
        DeviceIndex.PresentStep(Sent(front, describe), DeviceIndex.Connected(describe(t.i)), describe(i).id);
      } else if t.Farewell? {
        DeviceIndex.PresentStep(Sent(front, describe), DeviceIndex.Disconnected(describe(t.i).id), describe(i).id);
      } else {
        assert Sent(front, describe) + [] == Sent(front, describe);
      }
    }
  }

  lemma NobodyPresent(id: string)
    ensures !DeviceIndex.Present([], id)
  {
  }

  /** End to end, exactly: the window lists a client from its announcement on; once its thread has ended, it
      still does if and only if the client was refused a monitor, and then for good, whatever follows. */
  lemma ListedForGoodIffRefused(steps: seq<Step>, describe: nat -> DeviceIndex.Device, i: nat)
    requires Possible(steps) && ApartById(describe)
    ensures var listed := DeviceIndex.Lists(DeviceIndex.ListAfter(Sent(steps, describe)), describe(i).id);
      && (listed ==> Serve(i, ANNOUNCE) in steps)
      && (!At(After(steps), i, Gone) && Serve(i, ANNOUNCE) in steps ==> listed)
      && (At(After(steps), i, Gone) ==> (listed <==> Serve(i, REFUSE) in steps))
      && (Serve(i, REFUSE) in steps ==> listed)
  {
    hide Possible, After;
    PresentIffNoFarewell(steps, describe, i);
    NoticesPairUp(steps, i);
    NoticesTaken(steps, i);
    DeviceIndex.ListHasTheKeys(Sent(steps, describe), describe(i).id);
    DeviceIndex.MapIsTheHistory(Sent(steps, describe), describe(i).id);
  }
}
