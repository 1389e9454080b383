/** Who joins or detaches a client's thread: the threads and the server's destructor race for the set of
    registered contexts, under one lock. A context is known by the number it was given. */
module ServerOwnership {
  import Serving

  // ---------- the state ----------

  /** Where a client's thread stands, named after what it does next. While `InService` it does what its
      `service` says. */
  datatype Place = Spawned | Registering | InService | Ending | Erasing | Detaching | Parting | Gone

  /** The `std::thread` in the context: not stored yet, stored, moved into the destructor's local. */
  datatype Handle = Unset | Held | Taken | Detached | Joined

  datatype Thread = Thread(place: Place, handle: Handle, service: Serving.Service)

  datatype Owner = Free | ByDestructor | ByClient(id: nat)

  /** For each context it moved out, the destructor shuts the socket down, overwrites the state, takes the
      handle and joins it. */
  datatype Destructor =
    | Alive | Locking | Moving | Draining | Forcing(id: nat) | Taking(id: nat) | Joining(id: nat) | Destroyed

  /** `erased` erased themselves, `moved` were moved out by the destructor, `skipped` of those had no
      joinable handle; `faulted` called `detach` on a handle that was not joinable. */
  datatype History = History(
    erased: set<nat>, moved: set<nat>, skipped: set<nat>, faulted: set<nat>,
    joins: multiset<nat>, detaches: multiset<nat>)

  datatype State = State(
    threads: seq<Thread>, clients: set<nat>, lock: Owner, accepting: bool,
    dtor: Destructor, copy: set<nat>, h: History)

  const START := State([], {}, Free, true, Alive, {}, History({}, {}, {}, {}, multiset{}, multiset{}))

  datatype Step =
    | Accept
    | StoreHandle(i: nat)
    | LockToRegister(i: nat)
    | Register(i: nat)
    | Serve(i: nat, act: Serving.Act)
    | LeaveEarly(i: nat)         // not identified, or no monitor: the context stays registered
    | FinishServing(i: nat)
    | LockToErase(i: nat)
    | Erase(i: nat)
    | Detach(i: nat)
    | Farewell(i: nat)           // `onClientDisconnected`
    | BeginDestroy
    | DestructorLock
    | MoveClients
    | TakeNext(i: nat)           // and shuts its socket down
    | OverwriteState(i: nat)
    | TakeHandle(i: nat)
    | Join(i: nat)
    | FinishDestroy
    | Disturb(i: nat, act: Serving.Act)   // the network, or another thread than these

  predicate At(s: State, i: nat, p: Place) {
    i < |s.threads| && s.threads[i].place == p
  }

  predicate OverFor(v: Serving.Service, early: bool) {
    v.place.Finished? && v.place.early == early
  }

  predicate Enabled(s: State, t: Step) {
    match t
    case Accept => s.accepting
    case StoreHandle(i) => i < |s.threads| && s.threads[i].handle.Unset?
    case LockToRegister(i) => At(s, i, Spawned) && s.lock.Free?
    case Register(i) => At(s, i, Registering)
    case Serve(i, act) => At(s, i, InService) && Serving.Own(act) && Serving.CanAct(s.threads[i].service, act)
    case LeaveEarly(i) => At(s, i, InService) && OverFor(s.threads[i].service, true)
    case FinishServing(i) => At(s, i, InService) && OverFor(s.threads[i].service, false)
    case LockToErase(i) => At(s, i, Ending) && s.lock.Free?
    case Erase(i) => At(s, i, Erasing)
    case Detach(i) => At(s, i, Detaching)
    case Farewell(i) => At(s, i, Parting)
    case BeginDestroy => s.dtor.Alive?
    case DestructorLock => s.dtor.Locking? && s.lock.Free?
    case MoveClients => s.dtor.Moving?
    case TakeNext(i) => s.dtor.Draining? && i in s.copy && i < |s.threads|
    case OverwriteState(i) => s.dtor == Forcing(i) && i < |s.threads|
    case TakeHandle(i) => s.dtor == Taking(i) && i < |s.threads|
    case Join(i) => s.dtor == Joining(i) && At(s, i, Gone)
    case FinishDestroy => s.dtor.Draining? && s.copy == {}
    case Disturb(i, act) => i < |s.threads| && !Serving.Own(act)
  }

  function Go(s: State, i: nat, p: Place): seq<Thread>
    requires i < |s.threads|
  {
    s.threads[i := s.threads[i].(place := p)]
  }

  function SetHandle(s: State, i: nat, handle: Handle): seq<Thread>
    requires i < |s.threads|
  {
    s.threads[i := s.threads[i].(handle := handle)]
  }

  function Act(s: State, i: nat, act: Serving.Act): seq<Thread>
    requires i < |s.threads| && Serving.CanAct(s.threads[i].service, act)
  {
    s.threads[i := s.threads[i].(service := Serving.Acted(s.threads[i].service, act))]
  }

  function Next(s: State, t: Step): State
    requires Enabled(s, t)
  {
    match t
    case Accept => s.(threads := s.threads + [Thread(Spawned, Unset, Serving.NEW_SERVICE)])
    case StoreHandle(i) => s.(threads := SetHandle(s, i, Held))
    case LockToRegister(i) => s.(threads := Go(s, i, Registering), lock := ByClient(i))
    case Register(i) => s.(threads := Go(s, i, InService), lock := Free, clients := s.clients + {i})
    case Serve(i, act) => s.(threads := Act(s, i, act))
    case LeaveEarly(i) => s.(threads := Go(s, i, Gone))
    case FinishServing(i) => s.(threads := Go(s, i, Ending))
    case LockToErase(i) => s.(threads := Go(s, i, Erasing), lock := ByClient(i))
    case Erase(i) =>
      if i in s.clients then
        s.(threads := Go(s, i, Detaching), clients := s.clients - {i}, h := s.h.(erased := s.h.erased + {i}))
      else s.(threads := Go(s, i, Parting), lock := Free)
    case Detach(i) =>
      if s.threads[i].handle.Held? then
        s.(threads := s.threads[i := s.threads[i].(place := Parting, handle := Detached)], lock := Free,
           h := s.h.(detaches := s.h.detaches + multiset{i}))
      else s.(threads := Go(s, i, Parting), lock := Free, h := s.h.(faulted := s.h.faulted + {i}))
    case Farewell(i) => s.(threads := Go(s, i, Gone))
    case BeginDestroy => s.(dtor := Locking, accepting := false)
    case DestructorLock => s.(dtor := Moving, lock := ByDestructor)
    case MoveClients =>
      s.(dtor := Draining, lock := Free, copy := s.clients, clients := {}, h := s.h.(moved := s.clients))
    case TakeNext(i) => s.(dtor := Forcing(i), copy := s.copy - {i}, threads := Act(s, i, Serving.ForceShutdown))
    case OverwriteState(i) => s.(dtor := Taking(i), threads := Act(s, i, Serving.ForceState))
    case TakeHandle(i) =>
      if s.threads[i].handle.Held? then s.(dtor := Joining(i), threads := SetHandle(s, i, Taken))
      else s.(dtor := Draining, h := s.h.(skipped := s.h.skipped + {i}))
    case Join(i) =>
      s.(dtor := Draining, threads := SetHandle(s, i, Joined), h := s.h.(joins := s.h.joins + multiset{i}))
    case FinishDestroy => s.(dtor := Destroyed)
    case Disturb(i, act) => s.(threads := Act(s, i, act))
  }

  // ---------- the invariant ----------

  predicate HoldsLock(p: Place) {
    p.Registering? || p.Erasing? || p.Detaching?
  }

  predicate HasRegistered(p: Place) {
    !p.Spawned? && !p.Registering?
  }

  /** The thread is through with its context. */
  predicate Over(p: Place) {
    p.Parting? || p.Gone?
  }

  /** The destructor is about to take the handle. */
  predicate InHand(s: State, i: nat) {
    s.dtor == Forcing(i) || s.dtor == Taking(i)
  }

  /** What holds of one thread: who owns its handle, and what became of it. */
  predicate ThreadOk(s: State, i: nat)
    requires i < |s.threads|
  {
    var p, handle := s.threads[i].place, s.threads[i].handle;
    && (HoldsLock(p) <==> s.lock == ByClient(i))
    && (HasRegistered(p) <==> i in s.clients || i in s.h.moved || i in s.h.erased)
    && (i in s.h.erased ==> p.Detaching? || Over(p))
    && (p.Detaching? ==> i in s.h.erased && (handle.Unset? || handle.Held?))
    && (i in s.h.erased && Over(p) <==> handle.Detached? || i in s.h.faulted)
    && !(handle.Detached? && i in s.h.faulted)
    && s.h.detaches[i] == (if handle.Detached? then 1 else 0)
    && s.h.joins[i] == (if handle.Joined? then 1 else 0)
    && (handle.Taken? <==> s.dtor == Joining(i))
    && (handle.Taken? || handle.Joined? || i in s.copy || i in s.h.skipped || InHand(s, i) ==> i in s.h.moved)
    && (i in s.h.moved ==> handle.Taken? || handle.Joined? || i in s.copy || i in s.h.skipped || InHand(s, i))
    && (i in s.copy || i in s.h.skipped || InHand(s, i) ==> handle.Unset? || handle.Held?)
    && (handle.Joined? ==> p.Gone?)
  }

  /** What holds of its service: it is over when the thread goes on, and the socket is gone once the
      destructor has come to the thread. */
  predicate ServiceOk(s: State, i: nat)
    requires i < |s.threads|
  {
    var p, service := s.threads[i].place, s.threads[i].service;
    && (p.Spawned? || p.Registering? ==> service.place.Identifying?)
    && (HasRegistered(p) && !p.InService? ==> service.place.Finished?)
    && (p.Ending? || HoldsLock(p) || p.Parting? ==> p.Registering? || OverFor(service, false))
    && service.place != Serving.Finished(false, false)
    && (InHand(s, i) || s.dtor == Joining(i) ==> service.gone)
  }

  predicate Overall(s: State) {
    && (s.lock.ByClient? ==> s.lock.id < |s.threads|)
    && (s.lock.ByDestructor? <==> s.dtor.Moving?)
    && (s.dtor.Forcing? || s.dtor.Taking? || s.dtor.Joining? ==>
          s.dtor.id < |s.threads| && s.dtor.id !in s.copy && s.dtor.id !in s.h.skipped)
    && (s.dtor.Alive? || s.dtor.Locking? || s.dtor.Moving? ==> s.h.moved == s.copy == {})
    && (s.dtor.Destroyed? ==> s.copy == {})
    && (s.accepting <==> s.dtor.Alive?)
  }

  predicate Known(s: State, ids: set<nat>) {
    forall i | i in ids :: i < |s.threads|
  }

  predicate Apart(s: State) {
    && Known(s, s.clients) && Known(s, s.copy)
    && Known(s, s.h.moved) && Known(s, s.h.erased) && Known(s, s.h.skipped) && Known(s, s.h.faulted)
    && (forall i | i in s.h.joins :: i < |s.threads|) && (forall i | i in s.h.detaches :: i < |s.threads|)
    && s.clients !! s.h.moved !! s.h.erased
    && s.copy !! s.h.skipped && s.copy + s.h.skipped <= s.h.moved
  }

  ghost predicate Invariant(s: State) {
    Overall(s) && Apart(s) && forall i | 0 <= i < |s.threads| :: ThreadOk(s, i) && ServiceOk(s, i)
  }

  /** The thread that a step is about. */
  function Subject(s: State, t: Step): nat {
    if t.Accept? || t.BeginDestroy? || t.DestructorLock? || t.MoveClients? || t.FinishDestroy? then |s.threads| else t.i
  }

  predicate OfDestructor(t: Step) {
    t.DestructorLock? || t.MoveClients? || t.TakeNext? || t.OverwriteState? || t.TakeHandle? || t.Join?
    || t.FinishDestroy?
  }

  lemma OverallByDestructor(s: State, t: Step)
    requires Overall(s) && Apart(s) && Enabled(s, t) && OfDestructor(t)
    requires Subject(s, t) < |s.threads| ==> ThreadOk(s, Subject(s, t))
    ensures Overall(Next(s, t))
  {
    hide Serving.Acted, Serving.CanAct, Serving.Own;
  }

  lemma OverallByOthers(s: State, t: Step)
    requires Overall(s) && Apart(s) && Enabled(s, t) && !OfDestructor(t)
    requires Subject(s, t) < |s.threads| ==> ThreadOk(s, Subject(s, t))
    ensures Overall(Next(s, t))
  {
    hide Serving.Acted, Serving.CanAct, Serving.Own;
  }

  lemma ApartByDestructor(s: State, t: Step)
    requires Overall(s) && Apart(s) && Enabled(s, t) && OfDestructor(t)
    requires Subject(s, t) < |s.threads| ==> ThreadOk(s, Subject(s, t))
    ensures Apart(Next(s, t))
  {
    hide Serving.Acted, Serving.CanAct, Serving.Own;
  }

  lemma ApartByOthers(s: State, t: Step)
    requires Overall(s) && Apart(s) && Enabled(s, t) && !OfDestructor(t)
    requires Subject(s, t) < |s.threads| ==> ThreadOk(s, Subject(s, t))
    ensures Apart(Next(s, t))
  {
    hide Serving.Acted, Serving.CanAct, Serving.Own;
  }

  lemma ThreadOkByHandling(s: State, t: Step, j: nat)
    requires Overall(s) && Apart(s) && Enabled(s, t) && (t.TakeHandle? || t.Join?) && j < |s.threads|
    requires ThreadOk(s, j) && (Subject(s, t) < |s.threads| ==> ThreadOk(s, Subject(s, t)))
    ensures |Next(s, t).threads| == |s.threads| && ThreadOk(Next(s, t), j)
  {
    hide Serving.Acted, Serving.CanAct, Serving.Own;
  }

  lemma ThreadOkByForcing(s: State, t: Step, j: nat)
    requires Overall(s) && Apart(s) && Enabled(s, t) && (t.TakeNext? || t.OverwriteState?) && j < |s.threads|
    requires ThreadOk(s, j) && (Subject(s, t) < |s.threads| ==> ThreadOk(s, Subject(s, t)))
    ensures |Next(s, t).threads| == |s.threads| && ThreadOk(Next(s, t), j)
  {
    hide Serving.Acted, Serving.CanAct, Serving.Own;
  }

  lemma ThreadOkByDestructor(s: State, t: Step, j: nat)
    requires Overall(s) && Apart(s) && Enabled(s, t) && OfDestructor(t) && j < |s.threads|
    requires ThreadOk(s, j) && (Subject(s, t) < |s.threads| ==> ThreadOk(s, Subject(s, t)))
    ensures |Next(s, t).threads| == |s.threads| && ThreadOk(Next(s, t), j)
  {
    if t.TakeHandle? || t.Join? {
      ThreadOkByHandling(s, t, j);
    } else if t.TakeNext? || t.OverwriteState? {
      ThreadOkByForcing(s, t, j);
    } else {
      hide Serving.Acted, Serving.CanAct, Serving.Own;
    }
  }

  /** The steps that end a thread's registration. */
  predicate Unregisters(t: Step) {
    t.Erase? || t.Detach? || t.LeaveEarly? || t.Farewell?
  }

  lemma ThreadOkByClient(s: State, t: Step, j: nat)
    requires Overall(s) && Apart(s) && Enabled(s, t) && j < |Next(s, t).threads|
    requires !OfDestructor(t) && !t.Serve? && !t.Disturb? && !Unregisters(t)
    requires j < |s.threads| ==> ThreadOk(s, j)
    requires Subject(s, t) < |s.threads| ==> ThreadOk(s, Subject(s, t))
    ensures ThreadOk(Next(s, t), j)
  {
    hide Serving.Acted, Serving.CanAct, Serving.Own;
  }

  lemma ThreadOkAtErase(s: State, t: Step, j: nat)
    requires Overall(s) && Apart(s) && Enabled(s, t) && t.Erase? && j < |s.threads|
    requires ThreadOk(s, j) && ThreadOk(s, t.i)
    ensures ThreadOk(Next(s, t), j)
  {
    hide Serving.Acted, Serving.CanAct, Serving.Own;
  }

  lemma ThreadOkAtDetach(s: State, t: Step, j: nat)
    requires Overall(s) && Apart(s) && Enabled(s, t) && t.Detach? && j < |s.threads|
    requires ThreadOk(s, j) && ThreadOk(s, t.i)
    ensures ThreadOk(Next(s, t), j)
  {
    hide Serving.Acted, Serving.CanAct, Serving.Own;
  }

  lemma ThreadOkAtEnd(s: State, t: Step, j: nat)
    requires Overall(s) && Apart(s) && Enabled(s, t) && Unregisters(t) && j < |s.threads|
    requires ThreadOk(s, j) && ThreadOk(s, t.i)
    ensures ThreadOk(Next(s, t), j)
  {
    if t.Erase? {
      ThreadOkAtErase(s, t, j);
    } else if t.Detach? {
      ThreadOkAtDetach(s, t, j);
    } else {
      hide Serving.Acted, Serving.CanAct, Serving.Own;
    }
  }

  /** Service does not concern ownership. */
  lemma ThreadOkInService(s: State, t: Step, j: nat)
    requires Enabled(s, t) && (t.Serve? || t.Disturb?) && j < |s.threads| && ThreadOk(s, j)
    ensures ThreadOk(Next(s, t), j)
  {
    hide Serving.Acted, Serving.CanAct, Serving.Own;
    var n := Next(s, t);
    assert n == s.(threads := n.threads) && n.threads[j].place == s.threads[j].place;
    assert n.threads[j].handle == s.threads[j].handle;
    hide Next, Enabled;
  }

  /** The act that a step makes the service of its thread take, if it does. */
  function ActOf(t: Step): Serving.Act
    requires Acts(t)
  {
    match t
    case Serve(_, act) => act
    case Disturb(_, act) => act
    case TakeNext(_) => Serving.ForceShutdown
    case OverwriteState(_) => Serving.ForceState
  }

  predicate Acts(t: Step) {
    t.Serve? || t.Disturb? || t.TakeNext? || t.OverwriteState?
  }

  lemma ServiceOkInService(s: State, t: Step, j: nat)
    requires Enabled(s, t) && Acts(t) && j < |s.threads| && ServiceOk(s, j)
    ensures ServiceOk(Next(s, t), j)
  {
    Serving.ActFacts(s.threads[t.i].service, ActOf(t));
    Serving.NoticeFacts(s.threads[t.i].service, ActOf(t));
    hide Serving.Acted, Serving.Own, Serving.CanAct;
  }

  /** A step that is not an act leaves the services and the places of the other threads alone. */
  lemma OthersUntouched(s: State, t: Step, j: nat)
    requires Enabled(s, t) && !Acts(t) && j < |s.threads| && j != Subject(s, t)
    ensures j < |Next(s, t).threads| && Next(s, t).threads[j] == s.threads[j]
    ensures Next(s, t).dtor in {Forcing(j), Taking(j), Joining(j)} ==> Next(s, t).dtor == s.dtor
  {
    hide Serving.Acted, Serving.Own, Serving.CanAct;
  }

  lemma SubjectServiceOk(s: State, t: Step)
    requires Enabled(s, t) && !Acts(t) && Subject(s, t) < |s.threads| && ServiceOk(s, Subject(s, t))
    ensures Subject(s, t) < |Next(s, t).threads| && ServiceOk(Next(s, t), Subject(s, t))
  {
    hide Serving.Acted, Serving.Own, Serving.CanAct;
  }

  lemma NewServiceOk(s: State, t: Step, j: nat)
    requires Overall(s) && Enabled(s, t) && |s.threads| <= j < |Next(s, t).threads|
    ensures ServiceOk(Next(s, t), j)
  {
    hide Serving.Acted, Serving.Own, Serving.CanAct;
    assert t.Accept?;
  }

  lemma ServiceOkKept(s: State, t: Step, j: nat)
    requires Overall(s) && Enabled(s, t) && !Acts(t) && j < |Next(s, t).threads|
    requires j < |s.threads| ==> ServiceOk(s, j)
    ensures ServiceOk(Next(s, t), j)
  {
    if |s.threads| <= j {
      NewServiceOk(s, t, j);
    } else if j == Subject(s, t) {
      SubjectServiceOk(s, t);
    } else {
      OthersUntouched(s, t, j);
      hide Next, Enabled, Subject, Acts, Overall;
    }
  }

  lemma InvariantKept(s: State, t: Step)
    requires Invariant(s) && Enabled(s, t)
    ensures Invariant(Next(s, t))
  {
    SameNumber(s, t);
    hide ThreadOk, ServiceOk, Overall, Apart, OfDestructor, Next, Enabled;
    assert Subject(s, t) < |s.threads| ==> ThreadOk(s, Subject(s, t));
    if OfDestructor(t) {
      OverallByDestructor(s, t);
      ApartByDestructor(s, t);
    } else {
      OverallByOthers(s, t);
      ApartByOthers(s, t);
    }
    forall j | 0 <= j < |Next(s, t).threads|
      ensures ThreadOk(Next(s, t), j) && ServiceOk(Next(s, t), j)
    {
      assert Subject(s, t) < |s.threads| ==> ThreadOk(s, Subject(s, t));
      assert j < |s.threads| ==> ThreadOk(s, j) && ServiceOk(s, j);
      if Acts(t) {
        ServiceOkInService(s, t, j);
      } else {
        ServiceOkKept(s, t, j);
      }
      if OfDestructor(t) {
        ThreadOkByDestructor(s, t, j);
      } else if Unregisters(t) {
        SubjectExists(s, t);
        ThreadOkAtEnd(s, t, j);
      } else if t.Serve? || t.Disturb? {
        ThreadOkInService(s, t, j);
      } else {
        ThreadOkByClient(s, t, j);
      }
    }
  }

  lemma SubjectExists(s: State, t: Step)
    requires Enabled(s, t) && Unregisters(t)
    ensures t.i < |s.threads|
  {
  }

  lemma SameNumber(s: State, t: Step)
    requires Enabled(s, t)
    ensures |Next(s, t).threads| == if t.Accept? then |s.threads| + 1 else |s.threads|
    ensures OfDestructor(t) ==> !t.Accept?
  {
  }

  // ---------- runs ----------

  ghost predicate Possible(steps: seq<Step>)
    decreases |steps|, 0
  {
    steps == [] || (Possible(steps[..|steps| - 1]) && Enabled(After(steps[..|steps| - 1]), steps[|steps| - 1]))
  }

  ghost function After(steps: seq<Step>): State
    requires Possible(steps)
    decreases |steps|, 1
  {
    if steps == [] then START else Next(After(steps[..|steps| - 1]), steps[|steps| - 1])
  }

  lemma StartInvariant()
    ensures Possible([]) && After([]) == START && Invariant(START)
  {
  }

  lemma {:induction false} AlwaysInvariant(steps: seq<Step>)
    requires Possible(steps)
    ensures Invariant(After(steps))
  {
    hide Invariant, Next, Enabled;
    if steps == [] {
      StartInvariant();
    } else {
      AlwaysInvariant(steps[..|steps| - 1]);
      InvariantKept(After(steps[..|steps| - 1]), steps[|steps| - 1]);
    }
  }

  ghost predicate Reached(steps: seq<Step>, s: State) {
    Possible(steps) && After(steps) == s
  }

  lemma ReachedFurther(steps: seq<Step>, s: State, t: Step)
    requires Reached(steps, s) && Enabled(s, t)
    ensures Reached(steps + [t], Next(s, t))
  {
    hide Enabled, Next;
    Extended(steps, t);
  }

  // ---------- ownership ----------

  /** No handle is ever joined or detached twice, or both; only a context that erased itself is
      detached, and only one that the destructor moved out is joined, after its thread has ended. */
  lemma JoinedOrDetachedOnce(steps: seq<Step>, i: nat)
    requires Possible(steps) && i < |After(steps).threads|
    ensures var h := After(steps).h;
      && h.joins[i] + h.detaches[i] <= 1
      && (h.detaches[i] == 1 ==> i in h.erased && i !in h.moved)
      && (h.joins[i] == 1 ==> i in h.moved && i !in h.erased && After(steps).threads[i].place == Gone)
  {
    hide Possible, After;
    AlwaysInvariant(steps);
    assert ThreadOk(After(steps), i);
  }

  /** A registered context is in exactly one place: still in the set, moved out by the destructor, or
      erased by its own thread. */
  lemma RegisteredSomewhere(steps: seq<Step>, i: nat)
    requires Possible(steps) && i < |After(steps).threads| && HasRegistered(After(steps).threads[i].place)
    ensures var s := After(steps); i in s.clients + s.h.moved + s.h.erased
    ensures var s := After(steps); s.clients !! s.h.moved !! s.h.erased
  {
    hide Possible, After;
    AlwaysInvariant(steps);
    assert ThreadOk(After(steps), i);
  }

  /** When the destructor has finished, it has joined exactly the contexts it moved out, except those
      whose handle had not been stored when it came to them. */
  lemma DestructorJoinsWhatItMoved(steps: seq<Step>, i: nat)
    requires Possible(steps) && After(steps).dtor.Destroyed? && i < |After(steps).threads|
    ensures var h := After(steps).h; h.joins[i] == 1 <==> i in h.moved && i !in h.skipped
  {
    hide Possible, After;
    AlwaysInvariant(steps);
    assert ThreadOk(After(steps), i);
  }

  /** The lock is the destructor's only while it moves the set, never while it joins. */
  lemma JoinsWithoutLock(steps: seq<Step>)
    requires Possible(steps)
    requires var d := After(steps).dtor; d.Draining? || d.Forcing? || d.Taking? || d.Joining?
    ensures After(steps).lock != ByDestructor
  {
    hide Possible, After;
    AlwaysInvariant(steps);
  }

  lemma Extended(steps: seq<Step>, t: Step)
    ensures Possible(steps + [t]) <==> Possible(steps) && Enabled(After(steps), t)
    ensures Possible(steps + [t]) ==> After(steps + [t]) == Next(After(steps), t)
  {
    hide Enabled, Next;
    assert (steps + [t])[..|steps|] == steps;
  }

  // ---------- handles that are stored too late ----------

  /** Step `k` is this one, and the handle was not stored before it. */
  ghost predicate BeforeStore(steps: seq<Step>, k: nat, t: Step, i: nat) {
    k < |steps| && steps[k] == t && StoreHandle(i) !in steps[..k]
  }

  lemma {:induction false} UnsetUntilStored(steps: seq<Step>, i: nat)
    requires Possible(steps) && i < |After(steps).threads|
    ensures After(steps).threads[i].handle.Unset? <==> StoreHandle(i) !in steps
  {
    if steps != [] {
      hide Possible, After, Serving.Acted, Serving.CanAct;
      var front, t := steps[..|steps| - 1], steps[|steps| - 1];
      assert steps == front + [t];
      Extended(front, t);
      AlwaysInvariant(front);
      var s := After(front);
      if i < |s.threads| {
        UnsetUntilStored(front, i);
        assert ThreadOk(s, i);
        HandleStep(s, t, i);
      } else {
        NotStoredYet(front, i);
        HandleOfNew(s, t, i);
      }
    }
  }

  lemma HandleStep(s: State, t: Step, i: nat)
    requires Enabled(s, t) && i < |s.threads|
    requires s.threads[i].handle.Unset? ==> s.dtor != Joining(i)
    ensures i < |Next(s, t).threads|
    ensures Next(s, t).threads[i].handle.Unset? <==> s.threads[i].handle.Unset? && t != StoreHandle(i)
  {
    hide Serving.Acted, Serving.CanAct;
  }

  lemma HandleOfNew(s: State, t: Step, i: nat)
    requires Enabled(s, t) && |s.threads| <= i < |Next(s, t).threads|
    ensures Next(s, t).threads[i].handle.Unset? && t != StoreHandle(i)
  {
    hide Serving.Acted, Serving.CanAct;
  }

  lemma {:induction false} NotStoredYet(steps: seq<Step>, i: nat)
    requires Possible(steps) && |After(steps).threads| <= i
    ensures StoreHandle(i) !in steps
  {
    if steps != [] {
      hide Possible, After, Serving.Acted, Serving.CanAct;
      var front, t := steps[..|steps| - 1], steps[|steps| - 1];
      assert steps == front + [t];
      Extended(front, t);
      SameNumber(After(front), t);
      NotStoredYet(front, i);
    }
  }

  lemma OneMoreBeforeStore(front: seq<Step>, t: Step, late: Step, i: nat)
    requires late != StoreHandle(i)
    ensures (exists k: nat :: BeforeStore(front + [t], k, late, i)) <==>
            (exists k: nat :: BeforeStore(front, k, late, i)) || (t == late && StoreHandle(i) !in front)
  {
    var steps := front + [t];
    assert steps[..|front|] == front;
    if k: nat :| BeforeStore(front, k, late, i) {
      assert steps[..k] == front[..k];
      assert BeforeStore(steps, k, late, i);
    }
    if t == late && StoreHandle(i) !in front {
      assert BeforeStore(steps, |front|, late, i);
    }
    if k: nat :| BeforeStore(steps, k, late, i) {
      if k < |front| {
        assert steps[..k] == front[..k];
        assert BeforeStore(front, k, late, i);
      }
    }
  }

  /** A thread faults exactly if it comes to `detach` before its handle has been stored. */
  lemma {:induction false} FaultsIffDetachedBeforeStore(steps: seq<Step>, i: nat)
    requires Possible(steps)
    ensures i in After(steps).h.faulted <==> exists k: nat :: BeforeStore(steps, k, Detach(i), i)
  {
    if steps != [] {
      hide Possible, After, Serving.Acted, Serving.CanAct, BeforeStore;
      var front, t := steps[..|steps| - 1], steps[|steps| - 1];
      assert steps == front + [t];
      Extended(front, t);
      FaultsIffDetachedBeforeStore(front, i);
      OneMoreBeforeStore(front, t, Detach(i), i);
      FaultStep(front, t, i);
    } else {
      EmptyRun();
    }
  }

  lemma FaultedAfter(s: State, t: Step, i: nat)
    requires Enabled(s, t)
    ensures i in Next(s, t).h.faulted <==> i in s.h.faulted || (t == Detach(i) && !s.threads[i].handle.Held?)
  {
    hide Serving.Acted, Serving.CanAct;
  }

  lemma UnsetOrHeld(s: State, i: nat)
    requires Invariant(s) && (At(s, i, Detaching) || s.dtor == Taking(i))
    ensures i < |s.threads| && (s.threads[i].handle.Unset? || s.threads[i].handle.Held?)
  {
    assert ThreadOk(s, i);
  }

  lemma FaultStep(front: seq<Step>, t: Step, i: nat)
    requires Possible(front) && Enabled(After(front), t)
    ensures i in Next(After(front), t).h.faulted <==>
            i in After(front).h.faulted || (t == Detach(i) && StoreHandle(i) !in front)
  {
    hide Possible, After, Next, Invariant;
    FaultedAfter(After(front), t, i);
    if t == Detach(i) {
      AlwaysInvariant(front);
      UnsetOrHeld(After(front), i);
      UnsetUntilStored(front, i);
    }
  }

  /** The destructor passes a context over exactly if it comes to its handle before that has been stored. */
  lemma {:induction false} SkippedIffTakenBeforeStore(steps: seq<Step>, i: nat)
    requires Possible(steps)
    ensures i in After(steps).h.skipped <==> exists k: nat :: BeforeStore(steps, k, TakeHandle(i), i)
  {
    if steps != [] {
      hide Possible, After, Serving.Acted, Serving.CanAct, BeforeStore;
      var front, t := steps[..|steps| - 1], steps[|steps| - 1];
      assert steps == front + [t];
      Extended(front, t);
      SkippedIffTakenBeforeStore(front, i);
      OneMoreBeforeStore(front, t, TakeHandle(i), i);
      SkipStep(front, t, i);
    } else {
      EmptyRun();
    }
  }

  lemma SkippedAfter(s: State, t: Step, i: nat)
    requires Enabled(s, t)
    ensures i in Next(s, t).h.skipped <==> i in s.h.skipped || (t == TakeHandle(i) && !s.threads[i].handle.Held?)
  {
    hide Serving.Acted, Serving.CanAct;
  }

  lemma SkipStep(front: seq<Step>, t: Step, i: nat)
    requires Possible(front) && Enabled(After(front), t)
    ensures i in Next(After(front), t).h.skipped <==>
            i in After(front).h.skipped || (t == TakeHandle(i) && StoreHandle(i) !in front)
  {
    hide Possible, After, Next, Invariant;
    SkippedAfter(After(front), t, i);
    if t == TakeHandle(i) {
      AlwaysInvariant(front);
      UnsetOrHeld(After(front), i);
      UnsetUntilStored(front, i);
    }
  }

  lemma EmptyRun()
    ensures Possible([]) && After([]) == START
  {
  }

  /** The handle was stored before the thread detached it, or before the destructor came to it. */
  ghost predicate StoredInTime(steps: seq<Step>, i: nat) {
    (forall k: nat :: !BeforeStore(steps, k, Detach(i), i)) && forall k: nat :: !BeforeStore(steps, k, TakeHandle(i), i)
  }

  /** The end of a registered context, exactly: once the destructor has finished and the thread's hands are
      off, its handle was joined or detached, once, if and only if it was stored in time; a context that
      neither was moved out nor erased itself is still in the set, untouched. */
  lemma JoinedOrDetachedIffStoredInTime(steps: seq<Step>, i: nat)
    requires Possible(steps) && After(steps).dtor.Destroyed?
    requires i < |After(steps).threads| && HasRegistered(After(steps).threads[i].place)
    ensures var s := After(steps);
      && (i in s.h.moved || (i in s.h.erased && Over(s.threads[i].place)) ==>
            (s.h.joins[i] + s.h.detaches[i] == 1 <==> StoredInTime(steps, i)))
      && (i !in s.h.moved && i !in s.h.erased ==> i in s.clients && s.h.joins[i] == s.h.detaches[i] == 0)
  {
    hide Possible, After, BeforeStore;
    AlwaysInvariant(steps);
    assert ThreadOk(After(steps), i);
    FaultsIffDetachedBeforeStore(steps, i);
    SkippedIffTakenBeforeStore(steps, i);
    FaultedOrSkipped(After(steps), i);
  }

  lemma FaultedOrSkipped(s: State, i: nat)
    requires Invariant(s) && i < |s.threads| && s.dtor.Destroyed?
    ensures i in s.h.moved ==> i !in s.h.faulted && s.h.detaches[i] == 0 && (s.h.joins[i] == 1 <==> i !in s.h.skipped)
    ensures i in s.h.erased && Over(s.threads[i].place) ==>
              i !in s.h.skipped && s.h.joins[i] == 0 && (s.h.detaches[i] == 1 <==> i !in s.h.faulted)
  {
    assert ThreadOk(s, i);
  }

  lemma Registers() returns (steps: seq<Step>)
    ensures Possible(steps) && StoreHandle(0) !in steps
    ensures After(steps) == START.(threads := [Thread(InService, Unset, Serving.NEW_SERVICE)], clients := {0})
  {
    hide Possible, After;
    EmptyRun();
    steps := [];
    Extended(steps, Accept);
    steps := steps + [Accept];
    Extended(steps, LockToRegister(0));
    steps := steps + [LockToRegister(0)];
    Extended(steps, Register(0));
    steps := steps + [Register(0)];
  }

  /** The acceptor stores the handle only after the thread has started, so the thread can detach a handle that
      is not there. */
  lemma DetachBeforeStore() returns (steps: seq<Step>)
    ensures Possible(steps) && After(steps).h.faulted == {0}
  {
    hide Possible, After;
    steps := Registers();
    Extended(steps, Serve(0, Serving.Identify(true)));
    steps := steps + [Serve(0, Serving.Identify(true))];
    Extended(steps, Serve(0, Serving.Announce));
    steps := steps + [Serve(0, Serving.Announce)];
    Extended(steps, Serve(0, Serving.Connect(Serving.Exception)));
    steps := steps + [Serve(0, Serving.Connect(Serving.Exception))];
    Extended(steps, Serve(0, Serving.LastMessage));
    steps := steps + [Serve(0, Serving.LastMessage)];
    Extended(steps, FinishServing(0));
    steps := steps + [FinishServing(0)];
    Extended(steps, LockToErase(0));
    steps := steps + [LockToErase(0)];
    Extended(steps, Erase(0));
    steps := steps + [Erase(0)];
    Extended(steps, Detach(0));
    steps := steps + [Detach(0)];
  }

  /** The destructor moves the set out and comes to the context. */
  lemma ComesTo(before: seq<Step>) returns (steps: seq<Step>)
    requires Possible(before)
    requires var s := After(before); s.dtor.Alive? && s.lock.Free? && s.clients == {0} && |s.threads| == 1
    ensures Possible(steps) && before <= steps && (StoreHandle(0) in steps <==> StoreHandle(0) in before)
    ensures var s := After(before);
      After(steps) == s.(dtor := Taking(0), accepting := false, clients := {}, copy := {},
                         threads := [s.threads[0].(service := Serving.ForcedOff(s.threads[0].service))],
                         h := s.h.(moved := {0}))
  {
    hide Possible, After;
    steps := before;
    Extended(steps, BeginDestroy);
    steps := steps + [BeginDestroy];
    Extended(steps, DestructorLock);
    steps := steps + [DestructorLock];
    Extended(steps, MoveClients);
    steps := steps + [MoveClients];
    Extended(steps, TakeNext(0));
    steps := steps + [TakeNext(0)];
    Extended(steps, OverwriteState(0));
    steps := steps + [OverwriteState(0)];
  }

  /** And the destructor can pass a context over whose handle is stored afterwards: that handle stays joinable,
      and nobody ever joins or detaches it. */
  lemma HandleLeftJoinable() returns (steps: seq<Step>)
    ensures Possible(steps)
    ensures var s := After(steps);
      && s.dtor.Destroyed? && s.h.moved == {0} && |s.threads| == 1 && s.threads[0].handle.Held?
      && s.h.joins == s.h.detaches == multiset{}
  {
    hide Possible, After;
    var registered := Registers();
    steps := ComesTo(registered);
    Extended(steps, TakeHandle(0));
    steps := steps + [TakeHandle(0)];
    Extended(steps, FinishDestroy);
    steps := steps + [FinishDestroy];
    Extended(steps, StoreHandle(0));
    steps := steps + [StoreHandle(0)];
  }

  // ---------- how the shutdown goes on ----------

  function PlaceRank(t: Thread): nat {
    match t.place
    case Spawned => 17
    case Registering => 16
    case InService => 5 + Serving.Rank(t.service)
    case Ending => 4
    case Erasing => 3
    case Detaching => 2
    case Parting => 1
    case Gone => 0
  }

  function ThreadRank(t: Thread): nat {
    2 * PlaceRank(t) + if t.handle.Unset? then 1 else 0
  }

  function ThreadsRank(threads: seq<Thread>): nat {
    if threads == [] then 0 else ThreadsRank(threads[..|threads| - 1]) + ThreadRank(threads[|threads| - 1])
  }

  function DestructorRank(s: State): nat {
    match s.dtor
    case Alive => 0
    case Locking => 4 * |s.threads| + 3
    case Moving => 4 * |s.threads| + 2
    case Draining => 4 * |s.copy| + 1
    case Forcing(_) => 4 * |s.copy| + 4
    case Taking(_) => 4 * |s.copy| + 3
    case Joining(_) => 4 * |s.copy| + 2
    case Destroyed => 0
  }

  /** How many steps are left at most, once the acceptor is closed, beside passes that end well. */
  function Rank(s: State): nat {
    ThreadsRank(s.threads) + DestructorRank(s)
  }

  /** The passes of a streaming loop that end well, and what comes from outside. */
  predicate Repeats(t: Step) {
    t.Disturb? || (t.Serve? && Serving.Repeats(t.act))
  }

  lemma {:induction false} ThreadsRankUpdate(threads: seq<Thread>, i: nat, t: Thread)
    requires i < |threads|
    ensures ThreadsRank(threads[i := t]) == ThreadsRank(threads) - ThreadRank(threads[i]) + ThreadRank(t)
  {
    var last := |threads| - 1;
    if i == last {
      assert threads[i := t][..last] == threads[..last];
    } else {
      ThreadsRankUpdate(threads[..last], i, t);
      assert threads[i := t][..last] == threads[..last][i := t];
    }
  }

  lemma {:induction false} FewIds(ids: set<nat>, n: nat)
    requires forall i | i in ids :: i < n
    ensures |ids| <= n
  {
    if n == 0 {
      assert ids == {};
    } else {
      FewIds(ids - {n - 1}, n - 1);
    }
  }

  lemma ServiceStepShape(s: State, t: Step)
    requires Enabled(s, t) && (t.Serve? || t.Disturb?)
    ensures var s' := Next(s, t);
      && t.i < |s.threads| && s' == s.(threads := s.threads[t.i := s'.threads[t.i]])
      && ThreadRank(s'.threads[t.i]) <= ThreadRank(s.threads[t.i])
      && (!Repeats(t) ==> ThreadRank(s'.threads[t.i]) < ThreadRank(s.threads[t.i]))
  {
    Serving.RankFalls(s.threads[t.i].service, t.act);
    hide Serving.Acted, Serving.Rank, Serving.CanAct;
  }

  lemma ThreadStepShape(s: State, t: Step)
    requires Enabled(s, t) && !OfDestructor(t) && !t.Accept? && !t.BeginDestroy? && !t.Serve? && !t.Disturb?
    requires Subject(s, t) < |s.threads| ==> ServiceOk(s, Subject(s, t))
    ensures var i := Subject(s, t); var s' := Next(s, t);
      && i < |s.threads| && |s'.threads| == |s.threads| && s'.threads == s.threads[i := s'.threads[i]]
      && ThreadRank(s'.threads[i]) < ThreadRank(s.threads[i])
      && s'.dtor == s.dtor && s'.copy == s.copy
  {
    hide Serving.Acted, Serving.CanAct;
  }

  lemma ForcingStepShape(s: State, t: Step)
    requires Enabled(s, t) && (t.TakeNext? || t.OverwriteState?)
    ensures var s' := Next(s, t);
      && t.i < |s.threads| && s'.threads == s.threads[t.i := s'.threads[t.i]]
      && ThreadRank(s'.threads[t.i]) <= ThreadRank(s.threads[t.i])
      && DestructorRank(s') < DestructorRank(s)
  {
    Serving.RankFalls(s.threads[t.i].service, ActOf(t));
    hide Serving.Acted, Serving.Rank, Serving.CanAct;
  }

  lemma DestructorStepShape(s: State, t: Step)
    requires Enabled(s, t) && OfDestructor(t) && |s.clients| <= |s.threads| && !t.TakeNext? && !t.OverwriteState?
    ensures var i := Subject(s, t); var s' := Next(s, t);
      && |s'.threads| == |s.threads|
      && (s'.threads == s.threads
          || (i < |s.threads| && s'.threads == s.threads[i := s'.threads[i]]
              && ThreadRank(s'.threads[i]) <= ThreadRank(s.threads[i])))
      && DestructorRank(s') < DestructorRank(s)
  {
    hide Serving.Acted, Serving.Rank, Serving.CanAct;
  }

  /** The ranks add up: one thread's and the destructor's. */
  lemma RanksAddUp(s: State, s': State, i: nat)
    requires i < |s.threads| == |s'.threads| && s'.threads == s.threads[i := s'.threads[i]]
    requires ThreadRank(s'.threads[i]) <= ThreadRank(s.threads[i]) && DestructorRank(s') <= DestructorRank(s)
    ensures Rank(s') <= Rank(s)
    ensures ThreadRank(s'.threads[i]) < ThreadRank(s.threads[i]) || DestructorRank(s') < DestructorRank(s) ==>
              Rank(s') < Rank(s)
  {
    hide ThreadsRank, ThreadRank, DestructorRank;
    ThreadsRankUpdate(s.threads, i, s'.threads[i]);
  }

  lemma NeverAliveAgain(s: State, t: Step)
    requires Enabled(s, t) && !s.dtor.Alive? && (s.accepting <==> s.dtor.Alive?)
    ensures !Next(s, t).dtor.Alive? && !t.Accept? && !t.BeginDestroy?
    ensures t.TakeNext? || t.OverwriteState? ==> Subject(s, t) == t.i && |Next(s, t).threads| == |s.threads|
  {
    hide Serving.Acted, Serving.CanAct;
  }

  /** From the moment the destructor starts no step adds to the rank, and every step uses some of it up but
      the passes that end well and what comes from outside. */
  lemma EveryStepCounts(s: State, t: Step)
    requires Invariant(s) && !s.dtor.Alive? && Enabled(s, t)
    ensures Rank(Next(s, t)) <= Rank(s) && !Next(s, t).dtor.Alive?
    ensures !Repeats(t) ==> Rank(Next(s, t)) < Rank(s)
  {
    FromInvariant(s, t);
    NeverAliveAgain(s, t);
    hide Rank, ThreadsRank, ThreadRank, Invariant, DestructorRank, ServiceOk, Next, Enabled, Repeats;
    hide Subject, OfDestructor;
    var n := Next(s, t);
    if t.TakeNext? || t.OverwriteState? {
      ForcingStepShape(s, t);
      RanksAddUp(s, n, t.i);
    } else if OfDestructor(t) {
      FewIds(s.clients, |s.threads|);
      DestructorStepShape(s, t);
      DestructorRankFalls(s, n, Subject(s, t));
    } else if t.Serve? || t.Disturb? {
      ServiceStepShape(s, t);
      SameDestructorRank(s, n);
      RanksAddUp(s, n, t.i);
    } else {
      ThreadStepShape(s, t);
      SameDestructorRank(s, n);
      RanksAddUp(s, n, Subject(s, t));
    }
  }

  lemma DestructorRankFalls(s: State, s': State, i: nat)
    requires |s.threads| == |s'.threads| && DestructorRank(s') < DestructorRank(s)
    requires s'.threads == s.threads
             || (i < |s.threads| && s'.threads == s.threads[i := s'.threads[i]]
                 && ThreadRank(s'.threads[i]) <= ThreadRank(s.threads[i]))
    ensures Rank(s') < Rank(s)
  {
    if s'.threads != s.threads {
      RanksAddUp(s, s', i);
    }
  }

  lemma SameDestructorRank(s: State, s': State)
    requires |s'.threads| == |s.threads| && s'.dtor == s.dtor && s'.copy == s.copy
    ensures DestructorRank(s') == DestructorRank(s)
  {
  }

  lemma FromInvariant(s: State, t: Step)
    requires Invariant(s)
    ensures s.accepting <==> s.dtor.Alive?
    ensures forall i | i in s.clients :: i < |s.threads|
    ensures Subject(s, t) < |s.threads| ==> ServiceOk(s, Subject(s, t))
    ensures Acts(t) ==> Subject(s, t) == t.i
  {
  }

  function Repeated(steps: seq<Step>): nat {
    if steps == [] then 0
    else Repeated(steps[..|steps| - 1]) + if Repeats(steps[|steps| - 1]) then 1 else 0
  }

  /** So a shutdown has no more steps than its rank, beside passes that end well and disturbances, whatever
      the schedule. */
  lemma {:induction false} ShutdownIsBounded(steps: seq<Step>, more: seq<Step>)
    requires Possible(steps) && !After(steps).dtor.Alive? && Possible(steps + more)
    ensures !After(steps + more).dtor.Alive?
    ensures |more| + Rank(After(steps + more)) <= Rank(After(steps)) + Repeated(more)
    decreases |more|
  {
    hide Rank, Enabled, Next, Possible, After, Repeats;
    if more == [] {
      assert steps + more == steps;
    } else {
      var front, t := more[..|more| - 1], more[|more| - 1];
      assert steps + more == steps + front + [t];
      Extended(steps + front, t);
      ShutdownIsBounded(steps, front);
      AlwaysInvariant(steps + front);
      EveryStepCounts(After(steps + front), t);
    }
  }

  lemma {:induction false} PrefixPossible(steps: seq<Step>, n: nat)
    requires Possible(steps) && n <= |steps|
    ensures Possible(steps[..n])
  {
    if n == |steps| {
      assert steps[..n] == steps;
    } else {
      PrefixPossible(steps[..|steps| - 1], n);
      assert steps[..|steps| - 1][..n] == steps[..n];
    }
  }

  /** The first step of a continuation. */
  lemma FirstOf(steps: seq<Step>, more: seq<Step>)
    requires Possible(steps) && more != [] && Possible(steps + more)
    ensures Possible(steps + [more[0]]) && steps + [more[0]] + more[1..] == steps + more
    ensures Enabled(After(steps), more[0]) && After(steps + [more[0]]) == Next(After(steps), more[0])
  {
    hide Possible, After, Enabled, Next;
    PrefixPossible(steps + more, |steps| + 1);
    assert (steps + more)[..|steps| + 1] == steps + [more[0]];
    Extended(steps, more[0]);
  }

  /** How many steps the thread takes in its service. */
  function Served(more: seq<Step>, i: nat): nat {
    if more == [] then 0 else (if more[0].Serve? && more[0].i == i then 1 else 0) + Served(more[1..], i)
  }

  /** How many passes of its streaming loop it takes. */
  function PassesOf(more: seq<Step>, i: nat): nat {
    if more == [] then 0
    else (if more[0].Serve? && more[0].i == i && more[0].act.TakePass? then 1 else 0) + PassesOf(more[1..], i)
  }

  /** The thread takes no pass of its streaming loop. */
  ghost predicate NoPassOf(more: seq<Step>, i: nat) {
    forall k | 0 <= k < |more| && more[k].Serve? && more[k].i == i :: !more[k].act.TakePass?
  }

  lemma ServiceActed(s: State, t: Step)
    requires Enabled(s, t) && Acts(t)
    ensures t.i < |s.threads| && Serving.CanAct(s.threads[t.i].service, ActOf(t))
    ensures Next(s, t).threads == s.threads[t.i := Next(s, t).threads[t.i]]
    ensures Next(s, t).threads[t.i].service == Serving.Acted(s.threads[t.i].service, ActOf(t))
    ensures Next(s, t).threads[t.i].place == s.threads[t.i].place
  {
    hide Serving.Acted;
  }

  lemma ServiceIdle(s: State, t: Step, i: nat)
    requires Enabled(s, t) && !Acts(t) && i < |s.threads|
    ensures i < |Next(s, t).threads| && Next(s, t).threads[i].service == s.threads[i].service
  {
    hide Serving.Acted, Serving.CanAct;
  }

  lemma ServiceAfter(s: State, t: Step, i: nat)
    requires Enabled(s, t) && i < |s.threads|
    ensures i < |Next(s, t).threads|
    ensures if Acts(t) && t.i == i
            then Serving.CanAct(s.threads[i].service, ActOf(t))
                 && Next(s, t).threads[i].service == Serving.Acted(s.threads[i].service, ActOf(t))
            else Next(s, t).threads[i].service == s.threads[i].service
  {
    if Acts(t) {
      ServiceActed(s, t);
    } else {
      ServiceIdle(s, t, i);
    }
    hide Next, Enabled, ActOf, Serving.Acted, Serving.CanAct;
  }

  lemma OwnOrNot(s: State, t: Step)
    requires Enabled(s, t) && Acts(t)
    ensures Serving.Own(ActOf(t)) <==> t.Serve?
  {
  }

  lemma {:induction false} ServedWithinRank(steps: seq<Step>, more: seq<Step>, i: nat)
    requires Possible(steps) && Possible(steps + more) && i < |After(steps).threads|
    requires var v := After(steps).threads[i].service; v.gone && !Serving.GoesOn(v)
    ensures Served(more, i) <= Serving.Rank(After(steps).threads[i].service) && NoPassOf(more, i)
    decreases |more|
  {
    if more != [] {
      hide Possible, After, Enabled, Next, Acts, ActOf;
      hide Serving.GoesOn, Serving.Rank, Serving.Acted, Serving.CanAct, Serving.Own;
      var s, t := After(steps), more[0];
      FirstOf(steps, more);
      ServiceAfter(s, t, i);
      HeededStep(s, t, i);
      ServedWithinRank(steps + [t], more[1..], i);
      assert forall k | 1 <= k < |more| :: more[k] == more[1..][k - 1];
    }
  }

  lemma HeededStep(s: State, t: Step, i: nat)
    requires Enabled(s, t) && i < |s.threads|
    requires s.threads[i].service.gone && !Serving.GoesOn(s.threads[i].service)
    ensures i < |Next(s, t).threads|
    ensures var v := Next(s, t).threads[i].service;
      && v.gone && !Serving.GoesOn(v)
      && (if t.Serve? && t.i == i then !t.act.TakePass? && Serving.Rank(v) < Serving.Rank(s.threads[i].service)
          else Serving.Rank(v) <= Serving.Rank(s.threads[i].service))
  {
    ServiceAfter(s, t, i);
    if Acts(t) && t.i == i {
      OwnOrNot(s, t);
      Serving.NoLongerGoesOn(s.threads[i].service, ActOf(t));
      Serving.RankFalls(s.threads[i].service, ActOf(t));
    }
    hide Serving.GoesOn, Serving.Rank, Serving.Acted, Serving.CanAct, Serving.Own;
  }

  function ServeAll(i: nat, acts: seq<Serving.Act>): (steps: seq<Step>)
    ensures |steps| == |acts| && forall k | 0 <= k < |acts| :: steps[k] == Serve(i, acts[k])
  {
    if acts == [] then [] else [Serve(i, acts[0])] + ServeAll(i, acts[1..])
  }

  lemma {:induction false} ServeAllCounts(i: nat, acts: seq<Serving.Act>)
    ensures Served(ServeAll(i, acts), i) == |acts| && PassesOf(ServeAll(i, acts), i) == Serving.PassesIn(acts)
  {
    if acts != [] {
      assert ServeAll(i, acts)[1..] == ServeAll(i, acts[1..]);
      ServeAllCounts(i, acts[1..]);
    }
  }

  lemma {:induction false} ServeAllPossible(steps: seq<Step>, i: nat, acts: seq<Serving.Act>)
    requires Possible(steps) && At(After(steps), i, InService)
    requires Serving.CanActAll(After(steps).threads[i].service, acts) && Serving.OwnActs(acts) == |acts|
    ensures Possible(steps + ServeAll(i, acts))
    ensures var s := After(steps);
      After(steps + ServeAll(i, acts)) ==
      s.(threads := s.threads[i := s.threads[i].(service := Serving.ActedAll(s.threads[i].service, acts))])
    decreases |acts|
  {
    hide Possible, After;
    if acts == [] {
      assert steps + ServeAll(i, acts) == steps;
    } else {
      var t := Serve(i, acts[0]);
      AllOwn(acts);
      Extended(steps, t);
      ServeAllPossible(steps + [t], i, acts[1..]);
      assert steps + ServeAll(i, acts) == steps + [t] + ServeAll(i, acts[1..]);
    }
  }

  lemma AllOwn(acts: seq<Serving.Act>)
    requires acts != [] && Serving.OwnActs(acts) == |acts|
    ensures Serving.Own(acts[0]) && Serving.OwnActs(acts[1..]) == |acts| - 1
  {
    Serving.AtMostAll(acts[1..]);
  }

  /** A thread that goes on can do so for any number of passes. */
  lemma CanGoOn(steps: seq<Step>, i: nat, n: nat) returns (more: seq<Step>)
    requires Possible(steps) && At(After(steps), i, InService) && Serving.GoesOn(After(steps).threads[i].service)
    ensures Possible(steps + more) && Served(more, i) >= n && PassesOf(more, i) == n && (n > 0 ==> !NoPassOf(more, i))
    ensures var s, s' := After(steps), After(steps + more);
      && s' == s.(threads := s'.threads) && At(s', i, InService) && Serving.GoesOn(s'.threads[i].service)
  {
    hide Possible, After;
    var v := After(steps).threads[i].service;
    var acts := Serving.Onwards(v, n);
    Serving.OnwardsIsPossible(v, n);
    hide Serving.CanActAll, Serving.ActedAll, Serving.OwnActs, Serving.PassesIn, Serving.Onwards, Serving.GoesOn;
    ServeAllPossible(steps, i, acts);
    ServeAllCounts(i, acts);
    more := ServeAll(i, acts);
    if n > 0 {
      var k :| 0 <= k < |acts| && acts[k].TakePass?;
      assert more[k] == Serve(i, acts[k]);
    }
  }

  // ---------- whether a join returns ----------

  /** However the run goes on, the thread takes no more than `bound` steps of its service. */
  ghost predicate ServiceBounded(steps: seq<Step>, i: nat, bound: nat) {
    forall more :: Possible(steps + more) ==> Served(more, i) <= bound
  }

  lemma GoesOnInService(s: State, i: nat)
    requires Invariant(s) && i < |s.threads| && i in s.h.moved && Serving.GoesOn(s.threads[i].service)
    ensures At(s, i, InService)
  {
    assert ThreadOk(s, i) && ServiceOk(s, i);
  }

  lemma JoiningFacts(s: State, i: nat)
    requires Invariant(s) && (s.dtor == Joining(i) || s.dtor == Forcing(i))
    ensures i < |s.threads| && i in s.h.moved && s.threads[i].service.gone
  {
    assert ThreadOk(s, i) && ServiceOk(s, i);
  }

  /** While the destructor waits for a thread, that thread has only a bounded number of steps left if and only
      if its service does not go on: otherwise the disconnect was overwritten, or will be, and the wait may
      last through any number of passes. */
  lemma JoinBoundedIffHeeded(steps: seq<Step>, i: nat)
    requires Possible(steps) && After(steps).dtor == Joining(i)
    ensures i < |After(steps).threads|
    ensures (exists bound: nat :: ServiceBounded(steps, i, bound)) <==> !Serving.GoesOn(After(steps).threads[i].service)
  {
    hide Possible, After, Invariant, Served, PassesOf, NoPassOf, Serving.GoesOn, Serving.Rank;
    var s := After(steps);
    AlwaysInvariant(steps);
    JoiningFacts(s, i);
    if Serving.GoesOn(s.threads[i].service) {
      GoesOnInService(s, i);
      forall bound: nat ensures !ServiceBounded(steps, i, bound) {
        var more := CanGoOn(steps, i, bound + 1);
      }
    } else {
      forall more | Possible(steps + more) ensures Served(more, i) <= Serving.Rank(s.threads[i].service) {
        ServedWithinRank(steps, more, i);
      }
      assert ServiceBounded(steps, i, Serving.Rank(s.threads[i].service));
    }
  }

  /** When the destructor overwrites the state, the thread takes no pass any more, in any continuation, if and
      only if its streaming loop has been started before, or it had already turned away from it. */
  lemma HeededIffStartedBefore(steps: seq<Step>, i: nat)
    requires Possible(steps) && After(steps).dtor == Forcing(i)
    ensures i < |After(steps).threads| && Possible(steps + [OverwriteState(i)])
    ensures (forall more :: Possible(steps + [OverwriteState(i)] + more) ==> NoPassOf(more, i)) <==>
            Serving.Started(After(steps).threads[i].service)
  {
    var s := After(steps);
    AlwaysInvariant(steps);
    JoiningFacts(s, i);
    hide Possible, After, Invariant, Served, PassesOf, NoPassOf, Serving.Rank;
    Extended(steps, OverwriteState(i));
    var next := steps + [OverwriteState(i)];
    AlwaysInvariant(next);
    OverwritesState(s, i);
    hide Serving.Started, Serving.GoesOn, Next, Enabled;
    if Serving.GoesOn(After(next).threads[i].service) {
      GoesOnInService(After(next), i);
      var more := CanGoOn(next, i, 1);
    } else {
      forall more | Possible(next + more) ensures NoPassOf(more, i) {
        ServedWithinRank(next, more, i);
      }
    }
  }

  lemma OverwritesState(s: State, i: nat)
    requires s.dtor == Forcing(i) && i < |s.threads| && s.threads[i].service.gone
    ensures var n := Next(s, OverwriteState(i));
      && n.threads[i].service.gone && n.h == s.h
      && (Serving.GoesOn(n.threads[i].service) <==> !Serving.Started(s.threads[i].service))
  {
  }

  /** A disconnect that is lost: the destructor comes to a thread that has been identified and not yet started
      to stream, and is still waiting for it after `n` more passes of its loop, and it can go on. */
  lemma LostDisconnect(n: nat) returns (steps: seq<Step>, more: seq<Step>)
    ensures Possible(steps) && After(steps).dtor == Joining(0)
    ensures Possible(steps + more) && PassesOf(more, 0) == n
    ensures var s := After(steps + more);
      s.dtor == Joining(0) && At(s, 0, InService) && Serving.GoesOn(s.threads[0].service)
  {
    hide Possible, After, Served, PassesOf, NoPassOf;
    steps := Registers();
    Extended(steps, StoreHandle(0));
    steps := steps + [StoreHandle(0)];
    Extended(steps, Serve(0, Serving.Identify(true)));
    steps := steps + [Serve(0, Serving.Identify(true))];
    steps := ComesTo(steps);
    Extended(steps, TakeHandle(0));
    steps := steps + [TakeHandle(0)];
    more := CanGoOn(steps, 0, n);
  }

  // ---------- the destructor finishes ----------

  /** What the thread does next in its service, when the socket is gone. */
  function NextAct(v: Serving.Service): Serving.Act
    requires !v.place.Finished?
  {
    match v.place
    case Identifying => Serving.NotIdentified
    case Announcing => Serving.Announce
    case Connecting => Serving.Connect(Serving.NoMonitor)
    case Starting => Serving.Start
    case Streaming => if v.state.InStreaming? then Serving.TakePass(Serving.Writes) else Serving.LeaveLoop
    case Sending => Serving.NotSent
    case Failing => Serving.MarkClosed
    case GaveUp => Serving.MarkError
    case Leaving => Serving.MarkDisconnected
    case Shutting => Serving.ShutSocket
    case _ => Serving.LastMessage
  }

  /** As long as the destructor has not finished, some thread can take a step: nobody waits in a circle. The
      step is nearer to the end, unless it is a pass of a thread that goes on although it is waited for. */
  lemma NoDeadlock(s: State) returns (t: Step)
    requires Invariant(s) && !s.dtor.Alive? && !s.dtor.Destroyed?
    ensures Enabled(s, t) && !t.Disturb?
    ensures Repeats(t) ==> s.dtor == Joining(t.i) && Serving.GoesOn(s.threads[t.i].service)
  {
    if s.lock.ByClient? {
      var i := s.lock.id;
      assert ThreadOk(s, i);
      var p := s.threads[i].place;
      t := if p.Registering? then Register(i) else if p.Erasing? then Erase(i) else Detach(i);
    } else {
      match s.dtor
      case Locking => t := DestructorLock;
      case Moving => t := MoveClients;
      case Forcing(i) => t := OverwriteState(i);
      case Taking(i) => t := TakeHandle(i);
      case Draining =>
        if i :| i in s.copy {
          t := TakeNext(i);
        } else {
          t := FinishDestroy;
        }
      case Joining(i) =>
        assert ThreadOk(s, i) && ServiceOk(s, i);
        match s.threads[i].place
        case Gone => t := Join(i);
        case InService =>
          var v := s.threads[i].service;
          t := if !v.place.Finished? then Serve(i, NextAct(v))
               else if v.place.early then LeaveEarly(i) else FinishServing(i);
        case Ending => t := LockToErase(i);
        case Parting => t := Farewell(i);
        case _ => t := Erase(i);
    }
  }

  /** And it ends well: a run that only the network could continue has a destructor that has finished. */
  lemma ShutdownCompletes(steps: seq<Step>)
    requires Possible(steps) && !After(steps).dtor.Alive?
    requires forall t :: Enabled(After(steps), t) ==> t.Disturb?
    ensures After(steps).dtor.Destroyed?
  {
    hide Enabled, Possible, After;
    AlwaysInvariant(steps);
    if !After(steps).dtor.Destroyed? {
      var t := NoDeadlock(After(steps));
    }
  }
}
