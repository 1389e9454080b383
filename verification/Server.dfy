/** The server's object, with the code of the accept handler, of a client's thread and of the destructor.
    Before every access to a shared field the other threads run for as long as they like; every call adds to
    one run of the ownership protocol. */
module ServerObject {
  import Serving
  import opened ServerOwnership

  datatype Party = TheAcceptor | TheClient(i: nat) | TheDestructor | Outside

  function By(t: Step): Party {
    if t.Accept? || t.StoreHandle? then TheAcceptor
    else if OfDestructor(t) || t.BeginDestroy? then TheDestructor
    else if t.Disturb? then Outside
    else TheClient(t.i)
  }

  /** What becomes of a client's thread: it waits for the lock or is still being served, it has returned
      early, it has erased its context, or it found that the destructor had moved the context out. */
  datatype Ending = StillThere | LeftEarly | ErasedItself | WasMovedOut

  /** What a party relies on while the others run. */
  predicate Undisturbed(s: State, n: State, me: Party) {
    match me
    case TheClient(i) =>
      i < |s.threads| ==>
        && i < |n.threads| && n.threads[i].place == s.threads[i].place
        && n.threads[i].service.place == s.threads[i].service.place
        && (n.lock == ByClient(i) <==> s.lock == ByClient(i))
        && (i in n.h.erased <==> i in s.h.erased) && (i in n.clients ==> i in s.clients)
    case TheDestructor => n.dtor == s.dtor && n.copy == s.copy && n.h.moved == s.h.moved
                          && (n.lock == ByDestructor <==> s.lock == ByDestructor)
    case TheAcceptor =>
      && |n.threads| == |s.threads| && (n.accepting ==> s.accepting)
      && (0 < |s.threads| && s.threads[|s.threads| - 1].handle.Unset? ==> n.threads[|s.threads| - 1].handle.Unset?)
    case Outside => true
  }

  /** An act by another thread moves no service. */
  lemma OthersActFrom(s: State, t: Step)
    requires Enabled(s, t) && (t.Disturb? || t.TakeNext? || t.OverwriteState?)
    ensures Acts(t) && t.i < |s.threads| && Serving.CanAct(s.threads[t.i].service, ActOf(t))
    ensures Serving.Acted(s.threads[t.i].service, ActOf(t)).place == s.threads[t.i].service.place
  {
    Serving.ActFacts(s.threads[t.i].service, ActOf(t));
  }

  lemma ClientStaysPutByAct(s: State, t: Step, i: nat)
    requires i < |s.threads| && Enabled(s, t) && (t.Disturb? || t.TakeNext? || t.OverwriteState?)
    ensures Undisturbed(s, Next(s, t), TheClient(i))
  {
    OthersActFrom(s, t);
    hide Serving.Acted, Serving.CanAct, Serving.Own;
  }

  lemma ClientStaysPutByOwner(s: State, t: Step, i: nat)
    requires i < |s.threads| && ThreadOk(s, i) && Overall(s) && Enabled(s, t)
    requires By(t) == TheAcceptor || By(t) == TheDestructor || By(t) == Outside
    ensures Undisturbed(s, Next(s, t), TheClient(i))
  {
    if t.Disturb? || t.TakeNext? || t.OverwriteState? {
      ClientStaysPutByAct(s, t, i);
    } else {
      hide Serving.Acted, Serving.CanAct, Serving.Own;
    }
  }

  lemma ClientStaysPutByClient(s: State, t: Step, i: nat, j: nat)
    requires i < |s.threads| && ThreadOk(s, i) && Overall(s) && Enabled(s, t) && By(t) == TheClient(j) && i != j
    requires j < |s.threads| ==> ThreadOk(s, j)
    ensures Undisturbed(s, Next(s, t), TheClient(i))
  {
    hide Serving.Acted, Serving.CanAct, Serving.Own;
  }

  lemma ClientStaysPut(s: State, t: Step, i: nat)
    requires i < |s.threads| && ThreadOk(s, i) && Overall(s)
    requires Enabled(s, t) && By(t) != TheClient(i)
    requires Subject(s, t) < |s.threads| ==> ThreadOk(s, Subject(s, t))
    ensures Undisturbed(s, Next(s, t), TheClient(i))
  {
    match By(t)
    case TheClient(j) => ClientStaysPutByClient(s, t, i, j);
    case _ => ClientStaysPutByOwner(s, t, i);
  }

  lemma DestructorStaysPut(s: State, t: Step)
    requires Enabled(s, t) && By(t) != TheDestructor && Overall(s)
    requires Subject(s, t) < |s.threads| ==> ThreadOk(s, Subject(s, t))
    ensures Undisturbed(s, Next(s, t), TheDestructor)
  {
    hide Serving.Acted, Serving.CanAct, Serving.Own;
  }

  lemma AcceptorStaysPut(s: State, t: Step)
    requires Enabled(s, t) && By(t) != TheAcceptor
    requires Subject(s, t) < |s.threads| ==> ThreadOk(s, Subject(s, t))
    ensures Undisturbed(s, Next(s, t), TheAcceptor)
  {
    hide Serving.Acted, Serving.CanAct, Serving.Own;
  }

  lemma StaysPut(s: State, t: Step, me: Party)
    requires Invariant(s) && Enabled(s, t) && By(t) != me
    ensures Undisturbed(s, Next(s, t), me)
  {
    assert Subject(s, t) < |s.threads| ==> ThreadOk(s, Subject(s, t));
    hide Serving.Acted, Serving.CanAct, Serving.Own, ServiceOk, ThreadOk, Overall, Apart, Next, Enabled, By;
    match me
    case TheClient(i) =>
      if i < |s.threads| {
        assert ThreadOk(s, i);
        ClientStaysPut(s, t, i);
      }
    case TheAcceptor => AcceptorStaysPut(s, t);
    case TheDestructor => DestructorStaysPut(s, t);
    case Outside =>
  }

  lemma UndisturbedFurther(s: State, m: State, n: State, me: Party)
    requires Undisturbed(s, m, me) && Undisturbed(m, n, me)
    ensures Undisturbed(s, n, me)
  {
  }

  lemma UndisturbedSame(s: State, me: Party)
    ensures Undisturbed(s, s, me)
  {
  }

  /** Since `before` thread `i` has taken these acts, in this order. */
  ghost predicate AllTaken(before: seq<Step>, after: seq<Step>, i: nat, acts: seq<Serving.Act>) {
    before <= after && exists at: seq<nat> :: TakenAt(after, |before|, i, acts, at)
  }

  ghost predicate TakenAt(steps: seq<Step>, from: nat, i: nat, acts: seq<Serving.Act>, at: seq<nat>) {
    && |at| == |acts|
    && (forall k | 0 <= k < |at| :: from <= at[k] < |steps| && steps[at[k]] == Serve(i, acts[k]))
    && (forall j, k | 0 <= j < k < |at| :: at[j] < at[k])
  }

  lemma OneMoreTaken(start: seq<Step>, before: seq<Step>, after: seq<Step>, i: nat, acts: seq<Serving.Act>, k: nat)
    requires k < |acts| && AllTaken(start, before, i, acts[..k])
    requires |before| < |after| && before <= after && after[|after| - 1] == Serve(i, acts[k])
    ensures AllTaken(start, after, i, acts[..k + 1])
  {
    var at: seq<nat> :| TakenAt(before, |start|, i, acts[..k], at);
    assert TakenAt(after, |start|, i, acts[..k + 1], at + [|after| - 1]);
  }

  lemma NoneTaken(start: seq<Step>, i: nat, acts: seq<Serving.Act>)
    ensures AllTaken(start, start, i, acts[..0])
  {
    assert TakenAt(start, |start|, i, acts[..0], []);
  }

  lemma StillTaken(first: seq<Step>, start: seq<Step>, before: seq<Step>, after: seq<Step>,
                   i: nat, acts: seq<Serving.Act>)
    requires AllTaken(start, before, i, acts) && first <= start && before <= after
    ensures AllTaken(first, after, i, acts)
  {
    var at: seq<nat> :| TakenAt(before, |start|, i, acts, at);
    assert TakenAt(after, |first|, i, acts, at);
  }

  class Server {
    var clients: set<nat>
    var lock: Owner
    var accepting: bool
    var contexts: seq<Thread>   // by number, `g_currentId` being how many there are
    var copy: set<nat>          // the destructor's local set
    // Where the destructor stands, what has happened, and the run that led here.
    var destructor: Destructor
    var history: History
    ghost var steps: seq<Step>

    function View(): State
      reads this
    {
      State(contexts, clients, lock, accepting, destructor, copy, history)
    }

    ghost predicate Valid()
      reads this
    {
      Reached(steps, View())
    }

    constructor ()
      ensures Valid() && View() == START && steps == []
    {
      clients, lock, accepting, contexts := {}, Free, true, [];
      destructor, copy, history := Alive, {}, START.h;
      steps := [];
      new;
      StartInvariant();
    }

    lemma Always()
      requires Valid()
      ensures Invariant(View())
    {
      hide Possible, After, Invariant;
      AlwaysInvariant(steps);
    }

    /** A step of another party. */
    method TakeForeign(t: Step, me: Party)
      requires Valid() && By(t) != me && Enabled(View(), t)
      modifies this
      ensures Valid() && steps == old(steps) + [t] && Undisturbed(old(View()), View(), me)
    {
      hide Reached, Next, Enabled, Invariant, Undisturbed, By;
      Always();
      ReachedFurther(steps, View(), t);
      StaysPut(View(), t, me);
      var s := Next(View(), t);
      clients, lock, accepting, contexts := s.clients, s.lock, s.accepting, s.threads;
      destructor, copy, history := s.dtor, s.copy, s.h;
      steps := steps + [t];
    }

    /** The other parties run. */
    method Interfere(me: Party)
      requires Valid()
      modifies this
      ensures Valid() && old(steps) <= steps && Undisturbed(old(View()), View(), me)
    {
      hide Valid, Undisturbed, By, Enabled;
      var n: nat :| true;
      UndisturbedSame(View(), me);
      for k := 0 to n
        invariant Valid() && old(steps) <= steps && Undisturbed(old(View()), View(), me)
      {
        var t: Step :| true;
        if By(t) != me && Enabled(View(), t) {
          ghost var before := View();
          TakeForeign(t, me);
          UndisturbedFurther(old(View()), before, View(), me);
        }
      }
    }

    /** Settles where the destructor stands after a step and what has happened; the code that takes the step
        assigns the other fields. */
    method Move(t: Step)
      requires Valid() && Enabled(View(), t)
      modifies this`destructor, this`history, this`steps
      ensures steps == old(steps) + [t] && Reached(steps, Next(old(View()), t))
      ensures var n := Next(old(View()), t); destructor == n.dtor && history == n.h
    {
      hide Reached, Next, Enabled;
      ReachedFurther(steps, View(), t);
      var n := Next(View(), t);
      destructor, history := n.dtor, n.h;
      steps := steps + [t];
    }

    // ---------- the accept handler ----------

    /** `serverMainAsync`: the next number, a thread, and only then its handle; nothing if the acceptor has
        been closed. */
    method OnAccept() returns (id: nat, accepted: bool)
      requires Valid()
      modifies this
      ensures Valid() && old(steps) <= steps
      ensures accepted ==> old(accepting)
      ensures !accepted ==> !accepting && |contexts| == |old(contexts)|
      ensures accepted ==>
                && |old(contexts)| == id < |contexts| && !contexts[id].handle.Unset?
                && StoreHandle(id) !in old(steps) && StoreHandle(id) in steps
    {
      hide Reached;
      NotStored();
      Interfere(TheAcceptor);
      if !accepting {
        return 0, false;
      }
      id, accepted := |contexts|, true;
      Move(Accept);
      contexts := contexts + [Thread(Spawned, Unset, Serving.NEW_SERVICE)];
      Interfere(TheAcceptor);
      Move(StoreHandle(id));
      contexts := contexts[id := contexts[id].(handle := Held)];
    }

    lemma NotStored()
      requires Valid()
      ensures StoreHandle(|contexts|) !in steps
    {
      hide Possible, After;
      NotStoredYet(steps, |contexts|);
    }

    // ---------- a client's thread ----------

    /** `lock_guard`: the thread gets the lock, or is still waiting for it. */
    method Lock(i: nat, t: Step) returns (acquired: bool)
      requires Valid() && i < |contexts|
      requires
        || (t == LockToRegister(i) && contexts[i].place.Spawned?)
        || (t == LockToErase(i) && contexts[i].place.Ending?)
      modifies this
      ensures Valid() && old(steps) <= steps && (i in history.erased <==> i in old(history).erased)
      ensures i < |contexts| && (acquired || contexts[i].place == old(contexts[i].place))
      ensures !acquired ==> !lock.Free? && lock != ByClient(i)
      ensures i < |contexts| && contexts[i].service.place == old(contexts[i].service.place)
      ensures acquired ==> lock == ByClient(i) && At(View(), i, if t.LockToRegister? then Registering else Erasing)
    {
      hide Reached;
      Interfere(TheClient(i));
      NotHolding(i);
      acquired := lock.Free?;
      if acquired {
        Move(t);
        lock := ByClient(i);
        contexts := contexts[i := contexts[i].(place := if t.LockToRegister? then Registering else Erasing)];
      }
    }

    lemma NotHolding(i: nat)
      requires Valid() && i < |contexts| && (contexts[i].place.Spawned? || contexts[i].place.Ending?)
      ensures lock != ByClient(i)
    {
      hide Reached;
      Always();
      assert ThreadOk(View(), i);
    }

    /** Inserts the context, and unlocks. */
    method Insert(i: nat)
      requires Valid() && i < |contexts| && contexts[i].place.Registering?
      modifies this
      ensures Valid() && old(steps) <= steps && At(View(), i, InService)
      ensures i in clients && (i in history.erased <==> i in old(history).erased)
    {
      hide Reached;
      Interfere(TheClient(i));
      Move(Register(i));
      clients := clients + {i};
      lock := Free;
      contexts := contexts[i := contexts[i].(place := InService)];
    }

    /** One act of the client's object on this thread, if it can take it. */
    method ServeOnce(i: nat, act: Serving.Act) returns (taken: bool)
      requires Valid() && i < |contexts| && contexts[i].place.InService?
      modifies this
      ensures Valid() && old(steps) <= steps && At(View(), i, InService)
      ensures i in history.erased <==> i in old(history).erased
      ensures taken ==> |old(steps)| < |steps| && steps[|steps| - 1] == Serve(i, act)
      ensures !taken ==> !CanServe(i, act) && contexts[i].service.place == old(contexts[i].service.place)
    {
      hide Reached, Serving.Acted, Serving.CanAct, Serving.Own;
      Interfere(TheClient(i));
      taken := Serving.Own(act) && Serving.CanAct(contexts[i].service, act);
      if taken {
        Move(Serve(i, act));
        contexts := contexts[i := contexts[i].(service := Serving.Acted(contexts[i].service, act))];
      }
    }

    /** The thread could take this act now. */
    predicate CanServe(i: nat, act: Serving.Act)
      reads this
    {
      i < |contexts| && Serving.Own(act) && Serving.CanAct(contexts[i].service, act)
    }

    /** Identification, streaming and the end of the session, an act after the other for as long as the thread
        can take them: `done` if they are over. */
    method ServeClient(i: nat, acts: seq<Serving.Act>) returns (done: bool, early: bool, taken: nat)
      requires Valid() && i < |contexts| && contexts[i].place.InService?
      modifies this
      ensures Valid() && old(steps) <= steps && (i in history.erased <==> i in old(history).erased)
      ensures At(View(), i, if !done then InService else if early then Gone else Ending)
      ensures taken <= |acts| && AllTaken(old(steps), steps, i, acts[..taken])
      ensures if done then OverFor(contexts[i].service, early) else !contexts[i].service.place.Finished?
      ensures !done ==> taken == |acts| || !CanServe(i, acts[taken])
    {
      hide Reached, Serving.Acted, Serving.CanAct, Serving.Own, AllTaken;
      done, early, taken := false, false, 0;
      ghost var start := steps;
      NoneTaken(start, i, acts);
      var able := true;
      while taken < |acts| && able
        invariant Valid() && old(steps) <= steps && At(View(), i, InService) && taken <= |acts|
        invariant i in history.erased <==> i in old(history).erased
        invariant AllTaken(start, steps, i, acts[..taken])
        invariant !able ==> taken < |acts| && !CanServe(i, acts[taken])
        decreases |acts| - taken, able
      {
        ghost var before := steps;
        able := ServeOnce(i, acts[taken]);
        if able {
          OneMoreTaken(start, before, steps, i, acts, taken);
          taken := taken + 1;
        } else {
          StillTaken(start, start, before, steps, i, acts[..taken]);
        }
      }
      if contexts[i].service.place.Finished? {
        ghost var before := steps;
        Interfere(TheClient(i));
        done, early := true, contexts[i].service.place.early;
        Move(if early then LeaveEarly(i) else FinishServing(i));
        contexts := contexts[i := contexts[i].(place := if early then Gone else Ending)];
        StillTaken(start, start, before, steps, i, acts[..taken]);
      }
    }

    /** `m_clients.erase(ctx)`, and if it was there, `detach` under the same lock. */
    method EraseAndDetach(i: nat) returns (found: bool)
      requires Valid() && i < |contexts| && contexts[i].place.Erasing?
      modifies this
      ensures Valid() && old(steps) <= steps && At(View(), i, Parting)
      ensures i in history.erased <==> found || i in old(history).erased
      ensures !found ==> i !in clients
    {
      hide Reached;
      Interfere(TheClient(i));
      found := i in clients;
      Move(Erase(i));
      if found {
        clients := clients - {i};
        contexts := contexts[i := contexts[i].(place := Detaching)];
        DetachItself(i);
      } else {
        lock := Free;
        contexts := contexts[i := contexts[i].(place := Parting)];
      }
    }

    /** Detaches the handle, which had better be there, and unlocks. */
    method DetachItself(i: nat)
      requires Valid() && i < |contexts| && contexts[i].place.Detaching?
      modifies this
      ensures Valid() && old(steps) <= steps && At(View(), i, Parting)
      ensures i in history.erased <==> i in old(history).erased
    {
      hide Reached;
      Interfere(TheClient(i));
      Move(Detach(i));
      if contexts[i].handle.Held? {
        contexts := contexts[i := contexts[i].(place := Parting, handle := Detached)];
      } else {
        contexts := contexts[i := contexts[i].(place := Parting)];
      }
      lock := Free;
    }

    /** `onClientDisconnected`, and the end of the thread. */
    method SayFarewell(i: nat)
      requires Valid() && i < |contexts| && contexts[i].place.Parting?
      modifies this
      ensures Valid() && old(steps) <= steps && At(View(), i, Gone) && (i in clients ==> i in old(clients))
      ensures OverFor(contexts[i].service, false)
      ensures i in history.erased <==> i in old(history).erased
    {
      hide Reached;
      Interfere(TheClient(i));
      Parts(i);
      Move(Farewell(i));
      contexts := contexts[i := contexts[i].(place := Gone)];
    }

    /** The whole of a client's thread. It erases its own context exactly if it is still in the set when it
        comes to the end; then its handle is detached, once, if it was stored before that, and otherwise the
        handle is left to whoever has the context, the set or the destructor. It is not at its end only while
        another thread has the lock, or while its session goes on. */
    method CommunicationMain(i: nat, acts: seq<Serving.Act>) returns (ending: Ending, taken: nat)
      requires Valid() && i < |contexts| && contexts[i].place.Spawned?
      modifies this
      ensures Valid() && old(steps) <= steps && i < |contexts|
      ensures !ending.StillThere? ==> contexts[i].place.Gone?
      ensures ending.ErasedItself? <==> i in history.erased && contexts[i].place.Gone?
      ensures ending.ErasedItself? ==>
                && i !in clients && i !in history.moved
                && history.detaches[i] == (if i in history.faulted then 0 else 1) && history.joins[i] == 0
      ensures ending.LeftEarly? ==> i in clients || i in history.moved
      ensures ending.WasMovedOut? ==> i in history.moved
      ensures ending.LeftEarly? || ending.WasMovedOut? ==> history.detaches[i] == 0
      ensures if ending.LeftEarly? then OverFor(contexts[i].service, true)
              else !ending.StillThere? ==> OverFor(contexts[i].service, false)
      ensures taken <= |acts| && AllTaken(old(steps), steps, i, acts[..taken])
      ensures ending.StillThere? ==> Waits(i, acts[taken..])
    {
      hide Valid, Invariant, AllTaken;
      ending, taken := StillThere, 0;
      ghost var start := steps;
      NoneTaken(start, i, acts);
      NotErasedYet(i);
      var acquired := Lock(i, LockToRegister(i));
      if acquired {
        Insert(i);
        ghost var inserted := steps;
        var done, early;
        done, early, taken := ServeClient(i, acts);
        ghost var served := steps;
        if done && early {
          ending := LeftEarly;
        } else if done {
          ending := LeaveServer(i);
        }
        StillTaken(start, inserted, served, steps, i, acts[..taken]);
      } else {
        StillTaken(start, start, start, steps, i, acts[..0]);
      }
      Threads(i);
    }

    /** The end of the thread: the context is erased if it is still in the set, and the panel is told. */
    method LeaveServer(i: nat) returns (ending: Ending)
      requires Valid() && i < |contexts| && contexts[i].place.Ending? && i !in history.erased
      requires OverFor(contexts[i].service, false)
      modifies this
      ensures Valid() && old(steps) <= steps && i < |contexts|
      ensures if ending.StillThere? then contexts[i].place.Ending? && !lock.Free? && lock != ByClient(i)
              else contexts[i].place.Gone? && OverFor(contexts[i].service, false)
      ensures !ending.LeftEarly? && (ending.ErasedItself? <==> i in history.erased)
      ensures ending.WasMovedOut? ==> i !in clients
    {
      hide Valid, Invariant;
      ending := StillThere;
      var acquired := Lock(i, LockToErase(i));
      if acquired {
        var found := EraseAndDetach(i);
        SayFarewell(i);
        ending := if found then ErasedItself else WasMovedOut;
      }
    }

    /** Another thread has the lock, or the session is not over and the thread cannot take the next act. */
    ghost predicate Waits(i: nat, acts: seq<Serving.Act>)
      reads this
    {
      && i < |contexts|
      && match contexts[i].place
         case Spawned => !lock.Free? && lock != ByClient(i)
         case Ending => !lock.Free? && lock != ByClient(i)
         case InService =>
           !contexts[i].service.place.Finished? && (acts == [] || !CanServe(i, acts[0]))
         case _ => false
    }

    lemma NotErasedYet(i: nat)
      requires Valid() && i < |contexts| && contexts[i].place.Spawned?
      ensures i !in history.erased
    {
      hide Reached;
      Always();
      assert ThreadOk(View(), i);
    }

    /** What the invariant says of one context. */
    lemma Threads(i: nat)
      requires Valid() && i < |contexts|
      ensures HasRegistered(contexts[i].place) ==> i in clients || i in history.moved || i in history.erased
      ensures clients !! history.moved !! history.erased
      ensures i in history.erased ==> history.joins[i] == 0
      ensures i in history.erased && contexts[i].place.Gone? ==>
                history.detaches[i] == if i in history.faulted then 0 else 1
      ensures i !in history.erased ==> history.detaches[i] == 0
    {
      hide Reached;
      Always();
      assert ThreadOk(View(), i);
    }

    lemma Parts(i: nat)
      requires Valid() && i < |contexts| && contexts[i].place.Parting?
      ensures OverFor(contexts[i].service, false)
    {
      hide Reached;
      Always();
      assert ServiceOk(View(), i);
    }

    // ---------- the destructor ----------

    method CloseAcceptor()
      requires Valid() && destructor.Alive?
      modifies this
      ensures Valid() && old(steps) <= steps && destructor.Locking?
    {
      hide Reached;
      Interfere(TheDestructor);
      Move(BeginDestroy);
      accepting := false;
    }

    method LockSet() returns (acquired: bool)
      requires Valid() && destructor.Locking?
      modifies this
      ensures Valid() && old(steps) <= steps && destructor == if acquired then Moving else Locking
      ensures !acquired ==> !lock.Free?
    {
      hide Reached;
      Interfere(TheDestructor);
      acquired := lock.Free?;
      if acquired {
        Move(DestructorLock);
        lock := ByDestructor;
      }
    }

    /** `copy = std::move(m_clients)`, and the end of the lock's scope. */
    method MoveOut()
      requires Valid() && destructor.Moving?
      modifies this
      ensures Valid() && old(steps) <= steps && destructor.Draining? && copy == history.moved
    {
      hide Reached;
      Interfere(TheDestructor);
      Move(MoveClients);
      copy, clients := clients, {};
      lock := Free;
    }

    /** `forceDisconnect`: the socket, then the state. */
    method ForceDisconnect(i: nat)
      requires Valid() && destructor.Draining? && i in copy && i < |contexts|
      modifies this
      ensures Valid() && old(steps) <= steps && destructor == Taking(i) && i < |contexts|
      ensures copy == old(copy) - {i} && history.moved == old(history).moved
    {
      hide Reached, Serving.Acted, Serving.Own;
      ShutSocket(i);
      Exists(i);
      Interfere(TheDestructor);
      Exists(i);
      Move(OverwriteState(i));
      contexts := contexts[i := contexts[i].(service := Serving.Acted(contexts[i].service, Serving.ForceState))];
    }

    lemma Exists(i: nat)
      requires Valid() && (destructor == Forcing(i) || destructor == Taking(i) || destructor == Joining(i))
      ensures i < |contexts| && i in history.moved
    {
      hide Reached;
      Always();
      assert ThreadOk(View(), i);
    }

    method ShutSocket(i: nat)
      requires Valid() && destructor.Draining? && i in copy && i < |contexts|
      modifies this
      ensures Valid() && old(steps) <= steps && destructor == Forcing(i)
      ensures copy == old(copy) - {i} && history.moved == old(history).moved
    {
      hide Reached, Serving.Acted, Serving.Own;
      Interfere(TheDestructor);
      InCopy(i);
      Move(TakeNext(i));
      copy := copy - {i};
      contexts := contexts[i := contexts[i].(service := Serving.Acted(contexts[i].service, Serving.ForceShutdown))];
    }

    lemma InCopy(i: nat)
      requires Valid() && i in copy
      ensures i < |contexts|
    {
      hide Reached;
      Always();
    }

    /** `std::thread t = std::move(c->thread)`: whether there was anything to move. */
    method TakeThread(i: nat) returns (joinable: bool)
      requires Valid() && destructor == Taking(i)
      modifies this
      ensures Valid() && old(steps) <= steps && destructor == if joinable then Joining(i) else Draining
      ensures copy == old(copy) && history.moved == old(history).moved
    {
      hide Reached;
      Interfere(TheDestructor);
      Exists(i);
      joinable := contexts[i].handle.Held?;
      Move(TakeHandle(i));
      if joinable {
        contexts := contexts[i := contexts[i].(handle := Taken)];
      }
    }

    /** `t.join()`: returns if the thread has ended. */
    method JoinThread(i: nat) returns (joined: bool)
      requires Valid() && destructor == Joining(i)
      modifies this
      ensures Valid() && old(steps) <= steps && destructor == if joined then Draining else Joining(i)
      ensures i < |contexts| && (!joined ==> !contexts[i].place.Gone?)
      ensures copy == old(copy) && history.moved == old(history).moved
    {
      hide Reached;
      Interfere(TheDestructor);
      Exists(i);
      joined := contexts[i].place.Gone?;
      if joined {
        Move(Join(i));
        contexts := contexts[i := contexts[i].(handle := Joined)];
      }
    }

    /** `~Server`. If it returns, it has joined every context that it moved out, once, except those whose
        handle it came to before that had been stored, and no thread that it joined was still running. It waits
        only for the lock, while another thread has it, and for threads that have not ended; then it does not
        hold the lock. */
    method Destroy() returns (finished: bool)
      requires Valid() && destructor.Alive?
      modifies this
      ensures Valid() && old(steps) <= steps && (finished <==> destructor.Destroyed?)
      ensures finished ==>
                forall i :: i in history.moved ==>
                  history.joins[i] == (if i in history.skipped then 0 else 1) && history.detaches[i] == 0
      ensures destructor.Joining? ==> lock != ByDestructor
      ensures !finished ==>
                || (destructor.Locking? && !lock.Free?)
                || (destructor.Joining? && destructor.id < |contexts| && !contexts[destructor.id].place.Gone?)
    {
      hide Valid, Invariant;
      finished := false;
      CloseAcceptor();
      var acquired := LockSet();
      if acquired {
        MoveOut();
        var waiting := false;
        while copy != {} && !waiting
          invariant Valid() && old(steps) <= steps
          invariant if waiting then destructor.Joining? else destructor.Draining?
          invariant waiting ==> destructor.id < |contexts| && !contexts[destructor.id].place.Gone?
          decreases if waiting then 0 else 1, copy
        {
          var i :| i in copy;
          InCopy(i);
          ForceDisconnect(i);
          var joinable := TakeThread(i);
          if joinable {
            var joined := JoinThread(i);
            waiting := !joined;
          }
        }
        if !waiting {
          Finish();
          finished := true;
        }
      }
      Joins();
    }

    method Finish()
      requires Valid() && destructor.Draining? && copy == {}
      modifies this
      ensures Valid() && old(steps) <= steps && destructor.Destroyed?
    {
      hide Reached;
      Interfere(TheDestructor);
      Move(FinishDestroy);
    }

    lemma Joins()
      requires Valid()
      ensures destructor.Joining? ==> lock != ByDestructor
      ensures destructor.Destroyed? ==>
                forall i :: i in history.moved ==>
                  history.joins[i] == (if i in history.skipped then 0 else 1) && history.detaches[i] == 0
    {
      hide Reached;
      Always();
      forall i | i in history.moved && destructor.Destroyed?
        ensures history.joins[i] == (if i in history.skipped then 0 else 1) && history.detaches[i] == 0
      {
        assert ThreadOk(View(), i);
      }
    }
  }
}
