/** The history of one client's session: every write of `m_state`, every loss of the connection,
    every message write with the number of its bytes that went out, and every pass of the loop. */
module SessionLog {
  import opened Wire
  import opened StreamFraming
  import opened Streaming

  datatype ClientState = New | Identified | Connected | InStreaming | ConnectionClosed | Disconnected | InError

  datatype Event =
    | SetState(s: ClientState) // by the client's own thread
    | Forced                   // another thread sets `ConnectionClosed`
    | Shutdown                 // the socket is shut down, by whichever thread
    | Lost                     // the connection breaks on its own
    | Write(m: Message, sent: nat)
    | Pass(t: Tick)

  function StateOf(log: seq<Event>): ClientState {
    if log == [] then New
    else match log[|log| - 1]
      case SetState(s) => s
      case Forced => ConnectionClosed
      case _ => StateOf(log[..|log| - 1])
  }

  predicate Gone(log: seq<Event>) {
    Shutdown in log || Lost in log
  }

  predicate Complete(e: Event) {
    e.Write? && e.sent == |Encode(e.m)|
  }

  /** The bytes the device can receive. */
  function BytesOf(log: seq<Event>): seq<byte> {
    if log == [] then []
    else
      var e := log[|log| - 1];
      BytesOf(log[..|log| - 1]) + if e.Write? && e.sent <= |Encode(e.m)| then Encode(e.m)[..e.sent] else []
  }

  /** The messages that went out whole. */
  function SentOf(log: seq<Event>): seq<Message> {
    if log == [] then []
    else
      var e := log[|log| - 1];
      SentOf(log[..|log| - 1]) + if Complete(e) then [e.m] else []
  }

  /** The messages that were written, successfully or not. */
  function Attempted(log: seq<Event>): seq<Message> {
    if log == [] then []
    else
      var e := log[|log| - 1];
      Attempted(log[..|log| - 1]) + if e.Write? then [e.m] else []
  }

  /** The passes of the streaming loop. */
  function Passes(log: seq<Event>): seq<Tick> {
    if log == [] then []
    else
      var e := log[|log| - 1];
      Passes(log[..|log| - 1]) + if e.Pass? then [e.t] else []
  }

  /** `ConnectionClosed` was set by another thread after the streaming loop had been started. */
  predicate ForcedSinceStart(log: seq<Event>) {
    log != [] && log[|log| - 1] != SetState(InStreaming) &&
    (log[|log| - 1].Forced? || ForcedSinceStart(log[..|log| - 1]))
  }

  /** The connection was gone when the streaming loop was started. */
  predicate GoneAtStart(log: seq<Event>) {
    log != [] &&
    if log[|log| - 1] == SetState(InStreaming) then Gone(log[..|log| - 1]) else GoneAtStart(log[..|log| - 1])
  }

  /** A pass of the loop starts only while the state is `Streaming`. */
  ghost predicate InLoop(log: seq<Event>) {
    forall j | 0 <= j < |log| && log[j].Pass? :: StateOf(log[..j]) == InStreaming
  }

  /** The part of a message that a failed write left on the wire. */
  function CutOf(log: seq<Event>): seq<byte> {
    if log == [] then []
    else
      var e := log[|log| - 1];
      if e.Write? && 0 < e.sent < |Encode(e.m)| then Encode(e.m)[..e.sent] else CutOf(log[..|log| - 1])
  }

  /** What other threads may add: the connection goes away, `m_state` becomes `ConnectionClosed`. */
  predicate Foreign(e: Event) {
    e == Shutdown || e == Lost || e == Forced
  }

  /** After this write nothing more can go out: it failed, or it was an error message. */
  predicate Final(e: Event) {
    e.Write? && (!Complete(e) || IsError(e.m))
  }

  /** What a write can meet at a socket: nothing goes out once the connection is gone, and it is
      gone before anything follows a final write. */
  ghost predicate SocketOk(log: seq<Event>) {
    && (forall i | 0 <= i < |log| && log[i].Write? :: log[i].sent <= |Encode(log[i].m)|)
    && (forall i | 0 <= i < |log| && log[i].Write? :: Gone(log[..i]) ==> log[i].sent == 0)
    && (forall i, j | 0 <= i < j < |log| && Final(log[i]) && log[j].Write? :: Gone(log[..j]))
  }

  lemma GoneGrows(log: seq<Event>, e: Event)
    ensures Gone(log + [e]) <==> Gone(log) || e == Shutdown || e == Lost
  {
  }

  /** What one more event adds to each reading of the history. */
  lemma LastEvent(log: seq<Event>, e: Event)
    ensures StateOf(log + [e]) == if e.SetState? then e.s else if e.Forced? then ConnectionClosed else StateOf(log)
    ensures ForcedSinceStart(log + [e]) <==> e != SetState(InStreaming) && (e.Forced? || ForcedSinceStart(log))
    ensures GoneAtStart(log + [e]) <==> if e == SetState(InStreaming) then Gone(log) else GoneAtStart(log)
    ensures Gone(log + [e]) <==> Gone(log) || e == Shutdown || e == Lost
    ensures BytesOf(log + [e]) ==
            BytesOf(log) + if e.Write? && e.sent <= |Encode(e.m)| then Encode(e.m)[..e.sent] else []
    ensures !e.Write? ==> BytesOf(log + [e]) == BytesOf(log)
    ensures Attempted(log + [e]) == Attempted(log) + if e.Write? then [e.m] else []
    ensures Passes(log + [e]) == Passes(log) + if e.Pass? then [e.t] else []
  {
    hide Encode, Gone;
    assert (log + [e])[..|log|] == log;
    GoneGrows(log, e);
  }

  lemma InLoopSnoc(log: seq<Event>, e: Event)
    requires InLoop(log) && (e.Pass? ==> StateOf(log) == InStreaming)
    ensures InLoop(log + [e])
  {
    hide StateOf;
    var l := log + [e];
    assert l[..|log|] == log;
    assert forall j | 0 <= j < |log| :: l[..j] == log[..j];
  }

  lemma {:induction false} OnlyStartStreams(log: seq<Event>, i: nat, j: nat)
    requires i < j <= |log| && log[i] in {Forced, SetState(ConnectionClosed), SetState(InError), SetState(Disconnected)}
    requires forall k | i < k < j :: log[k] != SetState(InStreaming)
    ensures StateOf(log[..j]) != InStreaming
  {
    var front := log[..j];
    assert front[..|front| - 1] == log[..j - 1];
    if i < j - 1 {
      OnlyStartStreams(log, i, j - 1);
    }
  }

  lemma {:induction false} ForcedStays(log: seq<Event>)
    ensures ForcedSinceStart(log) ==> StateOf(log) != InStreaming
  {
    if log != [] {
      ForcedStays(log[..|log| - 1]);
    }
  }

  /** A disconnect that finds the loop started is heeded: after it the loop takes no pass; a pass after it
      means that the loop was started, and the disconnect overwritten, in between. */
  lemma ForcedIsHeeded(log: seq<Event>, i: nat, j: nat)
    requires InLoop(log) && i < j < |log| && log[i] == Forced && log[j].Pass?
    ensures exists k :: i < k < j && log[k] == SetState(InStreaming)
  {
    if forall k | i < k < j :: log[k] != SetState(InStreaming) {
      OnlyStartStreams(log, i, j);
    }
  }

  predicate AnyFinal(log: seq<Event>) {
    exists i | 0 <= i < |log| :: Final(log[i])
  }

  lemma SocketOkSnoc(log: seq<Event>, e: Event)
    requires SocketOk(log)
    requires e.Write? ==>
      && e.sent <= |Encode(e.m)|
      && (Gone(log) ==> e.sent == 0)
      && (AnyFinal(log) ==> Gone(log))
    ensures SocketOk(log + [e])
  {
    hide Encode, IsError;
    var l := log + [e];
    assert forall i | 0 <= i <= |log| :: l[..i] == log[..i];
    assert log[..|log|] == log;
  }

  /** A failed write of a frame or of "monitor off". */
  predicate FailedFrame(e: Event) {
    e.Write? && !IsError(e.m) && !Complete(e)
  }

  predicate AnyFailedFrame(log: seq<Event>) {
    exists i | 0 <= i < |log| :: FailedFrame(log[i])
  }

  /** Nothing the client thread does towards streaming. */
  predicate Silent(e: Event) {
    !e.Write? && !e.Pass? && e != SetState(InStreaming)
  }

  /** From a failed frame write on, the thread requests no frame, writes no message and never sets
      `Streaming` again. */
  ghost predicate Quiet(log: seq<Event>) {
    forall i, j | 0 <= i < j < |log| && FailedFrame(log[i]) :: Silent(log[j])
  }

  lemma QuietSnoc(log: seq<Event>, e: Event)
    requires Quiet(log) && (AnyFailedFrame(log) ==> Silent(e))
    ensures Quiet(log + [e])
  {
    hide FailedFrame, Silent;
    assert forall i | 0 <= i < |log| :: (log + [e])[i] == log[i];
  }

  lemma AnyFailedFrameGrows(log: seq<Event>, e: Event)
    ensures AnyFailedFrame(log + [e]) <==> AnyFailedFrame(log) || FailedFrame(e)
  {
    hide FailedFrame;
    var l := log + [e];
    assert l[|log|] == e;
    if AnyFailedFrame(log) {
      var i :| 0 <= i < |log| && FailedFrame(log[i]);
      assert FailedFrame(l[i]);
    }
  }

  /** A frame or "monitor off" written after the connection is gone. */
  predicate LateWrite(log: seq<Event>, i: nat) {
    i < |log| && log[i].Write? && !IsError(log[i].m) && Gone(log[..i])
  }

  /** Forced disconnect at any point: once the connection is gone, the thread attempts at most one more frame
      or "monitor off", nothing of it goes out, and after it there is no pass, no write and no return to
      `Streaming`. */
  ghost predicate OneLateWrite(log: seq<Event>) {
    forall i: nat :: LateWrite(log, i) ==>
      log[i].sent == 0 && (forall j | i < j < |log| :: Silent(log[j])) && forall j: nat :: LateWrite(log, j) ==> j == i
  }

  lemma AtMostOneLateWrite(log: seq<Event>)
    requires SocketOk(log) && Quiet(log)
    ensures OneLateWrite(log)
  {
    hide Encode, Gone, Silent, IsError;
    forall i: nat | LateWrite(log, i)
      ensures log[i].sent == 0 && (forall j | i < j < |log| :: Silent(log[j])) && FailedFrame(log[i])
    {
      EncodingsAreLong(log[i].m);
      assert FailedFrame(log[i]);
    }
    forall i: nat, j: nat | LateWrite(log, i) && LateWrite(log, j) && i < j
      ensures false
    {
      SilentIsNoWrite(log[j]);
    }
  }

  lemma SilentIsNoWrite(e: Event)
    ensures Silent(e) ==> !e.Write?
  {
  }

  /** What the client thread can rely on while others run. */
  ghost predicate Undisturbed(a: seq<Event>, b: seq<Event>) {
    && a <= b && (forall i | |a| <= i < |b| :: Foreign(b[i]))
    && Attempted(b) == Attempted(a) && Passes(b) == Passes(a) && BytesOf(b) == BytesOf(a)
    && (StateOf(b) == StateOf(a) || (StateOf(b) == ConnectionClosed && ForcedSinceStart(b)))
    && (ForcedSinceStart(a) ==> ForcedSinceStart(b)) && (GoneAtStart(b) <==> GoneAtStart(a))
    && (InLoop(a) ==> InLoop(b))
    && (Gone(a) ==> Gone(b))
    && (AnyFinal(b) <==> AnyFinal(a))
    && (AnyFailedFrame(b) <==> AnyFailedFrame(a))
    && (SocketOk(a) ==> SocketOk(b))
    && (Quiet(a) ==> Quiet(b))
    && (SetState(InError) in b <==> SetState(InError) in a)
  }

  /** How a session goes on from `a` to `b` without the streaming loop being started: the state leaves
      `Streaming` only because another thread overwrites it or, if a frame was written, because that failed. */
  ghost predicate Continues(a: seq<Event>, b: seq<Event>, wrote: bool) {
    && (Gone(a) ==> Gone(b))
    && (ForcedSinceStart(a) ==> ForcedSinceStart(b)) && (GoneAtStart(b) <==> GoneAtStart(a))
    && (StateOf(b) == StateOf(a)
        || (StateOf(b) == ConnectionClosed && (ForcedSinceStart(b) || (wrote && AnyFinal(b)))))
    && (wrote && Gone(a) ==> StateOf(b) == ConnectionClosed)
    && (SetState(InError) in b ==> SetState(InError) in a)
  }

  lemma UndisturbedAtFirst(log: seq<Event>)
    ensures Undisturbed(log, log)
  {
  }

  lemma UndisturbedStep(a: seq<Event>, b: seq<Event>, e: Event)
    requires Undisturbed(a, b) && Foreign(e)
    ensures Undisturbed(a, b + [e])
  {
    hide SocketOk, Quiet, AnyFinal, AnyFailedFrame, Attempted, Passes, BytesOf, Encode, StateOf, InLoop;
    hide ForcedSinceStart, GoneAtStart;
    LastEvent(b, e);
    if InLoop(b) {
      InLoopSnoc(b, e);
    }
    AnyFinalGrows(b, e);
    AnyFailedFrameGrows(b, e);
    if SocketOk(b) {
      SocketOkSnoc(b, e);
    }
    if Quiet(b) {
      QuietSnoc(b, e);
    }
  }

  /** Nothing has been written, no pass taken and no error state set. */
  ghost predicate NothingSent(log: seq<Event>) {
    !AnyFinal(log) && Attempted(log) == [] && Passes(log) == [] && SetState(InError) !in log
  }

  lemma NothingSentAtFirst()
    ensures NothingSent([])
  {
  }

  lemma NothingSentStays(a: seq<Event>, b: seq<Event>)
    requires NothingSent(a) && Undisturbed(a, b)
    ensures NothingSent(b)
  {
    hide AnyFinal, Attempted, Passes;
  }

  lemma NothingSentFurther(log: seq<Event>, e: Event)
    requires NothingSent(log) && e.SetState? && e != SetState(InError)
    ensures NothingSent(log + [e])
  {
    hide AnyFinal, Attempted, Passes, Quiet;
    NoFinalQuiet(log);
    StepRecorded(log, e);
  }

  /** One write by the client thread, while no write has failed yet. */
  lemma WriteRecorded(log: seq<Event>, e: Event)
    requires e.Write? && Quiet(log) && !AnyFinal(log)
    ensures var l := log + [e];
      && Quiet(l) && Attempted(l) == Attempted(log) + [e.m] && Passes(l) == Passes(log)
      && (AnyFinal(l) <==> Final(e)) && StateOf(l) == StateOf(log) && (Gone(l) <==> Gone(log))
      && (ForcedSinceStart(l) <==> ForcedSinceStart(log)) && (GoneAtStart(l) <==> GoneAtStart(log))
      && (SetState(InError) in l <==> SetState(InError) in log)
  {
    hide Encode, IsError, ForcedSinceStart, GoneAtStart, StateOf, Gone;
    NoFinalNoFailure(log);
    QuietSnoc(log, e);
    LastEvent(log, e);
    AnyFinalGrows(log, e);
    assert Passes(log) + [] == Passes(log);
  }

  lemma NoFinalNoFailure(log: seq<Event>)
    requires !AnyFinal(log)
    ensures !AnyFailedFrame(log)
  {
    hide Encode, IsError, Complete;
    forall i | 0 <= i < |log|
      ensures !FailedFrame(log[i])
    {
      assert !Final(log[i]);
    }
  }

  lemma NoFinalQuiet(log: seq<Event>)
    requires !AnyFinal(log)
    ensures Quiet(log)
  {
    hide FailedFrame;
    NoFinalNoFailure(log);
  }

  /** Any other step of the client thread outside the loop. */
  lemma StepRecorded(log: seq<Event>, e: Event)
    requires e.SetState? || e == Shutdown || e == Lost
    requires Quiet(log) && (AnyFinal(log) ==> e != SetState(InStreaming))
    ensures var l := log + [e];
      && Quiet(l) && Attempted(l) == Attempted(log) && Passes(l) == Passes(log)
      && (AnyFinal(l) <==> AnyFinal(log))
      && (SetState(InError) in l <==> SetState(InError) in log || e == SetState(InError))
      && StateOf(l) == (if e.SetState? then e.s else StateOf(log))
      && (Gone(l) <==> Gone(log) || e == Shutdown || e == Lost)
      && (ForcedSinceStart(l) <==> e != SetState(InStreaming) && ForcedSinceStart(log))
      && (GoneAtStart(l) <==> if e == SetState(InStreaming) then Gone(log) else GoneAtStart(log))
  {
    if !AnyFinal(log) {
      NoFinalNoFailure(log);
    }
    QuietSnoc(log, e);
    LastEvent(log, e);
    AnyFinalGrows(log, e);
    assert Passes(log) + [] == Passes(log) && Attempted(log) + [] == Attempted(log);
  }

  /** One pass of the loop, while no write has failed yet. */
  lemma PassRecorded(log: seq<Event>, t: Tick)
    requires Quiet(log) && !AnyFinal(log)
    ensures var l := log + [Pass(t)];
      && Quiet(l) && Attempted(l) == Attempted(log) && Passes(l) == Passes(log) + [t]
      && !AnyFinal(l) && StateOf(l) == StateOf(log) && (Gone(l) <==> Gone(log))
      && (ForcedSinceStart(l) <==> ForcedSinceStart(log)) && (GoneAtStart(l) <==> GoneAtStart(log))
      && (SetState(InError) in l <==> SetState(InError) in log)
  {
    NoFinalNoFailure(log);
    QuietSnoc(log, Pass(t));
    LastEvent(log, Pass(t));
    AnyFinalGrows(log, Pass(t));
    assert Attempted(log) + [] == Attempted(log);
  }

  lemma EncodingsAreLong(m: Message)
    ensures |Encode(m)| >= 9
  {
  }

  // ---------- what the device reads ----------

  /** What the device receives is the encoding of the messages that went out whole, in order, with an
      error only at the end, and perhaps one cut-off message. */
  ghost predicate Framed(log: seq<Event>) {
    FramedAs(BytesOf(log), SentOf(log), CutOf(log), AnyFinal(log))
  }

  ghost predicate FramedAs(bytes: seq<byte>, sent: seq<Message>, cut: seq<byte>, final: bool) {
    && bytes == EncodeAll(sent) + cut
    && Stream(sent)
    && (cut != [] || EndsInError(sent) ==> final)
    && (cut != [] ==> !EndsInError(sent) && Read(cut) == Truncated)
  }

  lemma SocketOkFront(log: seq<Event>)
    requires SocketOk(log) && log != []
    ensures var front, e := log[..|log| - 1], log[|log| - 1];
      && SocketOk(front)
      && (e.Write? ==> e.sent <= |Encode(e.m)| && (Gone(front) ==> e.sent == 0) && (AnyFinal(front) ==> Gone(front)))
  {
    hide Encode, IsError;
    var front := log[..|log| - 1];
    assert forall i | 0 <= i < |front| :: front[..i] == log[..i];
    if AnyFinal(front) && log[|log| - 1].Write? {
      var i :| 0 <= i < |front| && Final(front[i]);
      assert Final(log[i]);
    }
  }

  lemma AnyFinalGrows(log: seq<Event>, e: Event)
    ensures AnyFinal(log + [e]) <==> AnyFinal(log) || Final(e)
  {
    hide Final;
    var l := log + [e];
    assert l[|log|] == e;
    if AnyFinal(log) {
      var i :| 0 <= i < |log| && Final(log[i]);
      assert Final(l[i]);
    }
  }

  /** What one write adds to each reading of the history. */
  lemma LastWrite(front: seq<Event>, e: Event)
    requires e.Write? && e.sent <= |Encode(e.m)|
    ensures var log := front + [e];
      && BytesOf(log) == BytesOf(front) + Encode(e.m)[..e.sent]
      && SentOf(log) == SentOf(front) + (if e.sent == |Encode(e.m)| then [e.m] else [])
      && CutOf(log) == if 0 < e.sent < |Encode(e.m)| then Encode(e.m)[..e.sent] else CutOf(front)
  {
    hide Encode;
    assert (front + [e])[..|front|] == front;
  }

  lemma StreamSnoc(ms: seq<Message>, m: Message)
    requires Stream(ms) && !EndsInError(ms)
    ensures Stream(ms + [m]) && (EndsInError(ms + [m]) <==> IsError(m))
  {
    hide IsError;
    forall i | 0 <= i < |ms + [m]| - 1 ensures !IsError((ms + [m])[i]) {
      if i == |ms| - 1 { assert !EndsInError(ms); }
    }
  }

  lemma PartWentOut(bytes: seq<byte>, sent: seq<Message>, m: Message, k: nat)
    requires FramedAs(bytes, sent, [], false) && 0 < k < |Encode(m)|
    ensures FramedAs(bytes + Encode(m)[..k], sent, Encode(m)[..k], true)
  {
    CutMessageIsUnread(m, k);
    hide Encode, Read, IsError, EncodeAll, Stream;
    assert EncodeAll(sent) + [] == EncodeAll(sent);
  }

  lemma AllWentOut(bytes: seq<byte>, sent: seq<Message>, m: Message)
    requires FramedAs(bytes, sent, [], false)
    ensures FramedAs(bytes + Encode(m), sent + [m], [], IsError(m))
  {
    EncodeAllSnoc(sent, m);
    StreamSnoc(sent, m);
    hide Encode, Read, IsError, EncodeAll, Stream, EndsInError;
    assert EncodeAll(sent) + [] == EncodeAll(sent);
    assert EncodeAll(sent + [m]) + [] == EncodeAll(sent + [m]);
  }

  lemma WriteIsFramed(front: seq<Event>, e: Event)
    requires e.Write? && e.sent <= |Encode(e.m)|
    requires Gone(front) ==> e.sent == 0
    requires AnyFinal(front) ==> Gone(front)
    requires Framed(front)
    ensures Framed(front + [e])
  {
    EncodingsAreLong(e.m);
    LastWrite(front, e);
    AnyFinalGrows(front, e);
    hide Encode, Read, IsError, EncodeAll, BytesOf, SentOf, CutOf, AnyFinal, Stream, EndsInError, Gone;
    if e.sent == 0 {
      assert BytesOf(front) + Encode(e.m)[..0] == BytesOf(front) && SentOf(front) + [] == SentOf(front);
    } else {
      assert CutOf(front) == [] && !EndsInError(SentOf(front)) && !AnyFinal(front);
      if e.sent < |Encode(e.m)| {
        hide FramedAs;
        assert SentOf(front) + [] == SentOf(front);
        PartWentOut(BytesOf(front), SentOf(front), e.m, e.sent);
      } else {
        hide FramedAs;
        assert Encode(e.m)[..e.sent] == Encode(e.m);
        AllWentOut(BytesOf(front), SentOf(front), e.m);
      }
    }
  }

  lemma OtherIsFramed(front: seq<Event>, e: Event)
    requires !e.Write? && Framed(front)
    ensures Framed(front + [e])
  {
    hide Encode, Read, IsError, EncodeAll;
    var log := front + [e];
    assert log[..|log| - 1] == front;
    AnyFinalGrows(front, e);
    assert BytesOf(log) == BytesOf(front) + [] == BytesOf(front);
    assert SentOf(log) == SentOf(front) + [] == SentOf(front);
  }

  lemma NothingIsFramed()
    ensures Framed([])
  {
  }

  /** This holds of every session whose socket behaved. */
  lemma {:induction false} SessionIsFramed(log: seq<Event>)
    requires SocketOk(log)
    ensures Framed(log)
  {
    hide Framed, Encode, SocketOk, Gone, AnyFinal;
    if log == [] {
      NothingIsFramed();
    } else {
      var front, e := log[..|log| - 1], log[|log| - 1];
      SocketOkFront(log);
      SessionIsFramed(front);
      assert front + [e] == log;
      if e.Write? {
        WriteIsFramed(front, e);
      } else {
        OtherIsFramed(front, e);
      }
    }
  }

  /** The device parses exactly the messages that went out whole. */
  lemma DeviceReadsWhatWasSent(log: seq<Event>)
    requires SocketOk(log)
    ensures Parse(BytesOf(log)) == Parsed(SentOf(log), CutOf(log))
  {
    hide Encode, EncodeAll, Parse, SentOf, CutOf, BytesOf;
    SessionIsFramed(log);
    ParseStream(SentOf(log), CutOf(log));
  }

  lemma LastAttempt(front: seq<Event>, e: Event)
    ensures Attempted(front + [e]) == Attempted(front) + if e.Write? then [e.m] else []
    ensures SentOf(front + [e]) == SentOf(front) + if Complete(e) then [e.m] else []
  {
    hide Complete;
    assert (front + [e])[..|front|] == front;
  }

  lemma WholeOrFinal(e: Event)
    ensures Complete(e) ==> e.Write? && e.sent > 0
    ensures e.Write? && !Complete(e) ==> Final(e)
    ensures !e.Write? ==> !Complete(e)
  {
    if e.Write? {
      EncodingsAreLong(e.m);
      hide Encode;
    }
  }

  lemma PrefixSnoc<T>(a: seq<T>, b: seq<T>, x: T)
    requires a <= b
    ensures a <= b + [x] && (a == b ==> a + [x] == b + [x]) && a + [] == a && b + [] == b
  {
  }

  lemma SentGrows(log: seq<Event>, e: Event)
    requires SentOf(log) <= Attempted(log) && (AnyFinal(log) || SentOf(log) == Attempted(log))
    requires e.Write? && AnyFinal(log) ==> e.sent == 0
    ensures SentOf(log + [e]) <= Attempted(log + [e])
    ensures AnyFinal(log + [e]) || SentOf(log + [e]) == Attempted(log + [e])
  {
    WholeOrFinal(e);
    AnyFinalGrows(log, e);
    LastAttempt(log, e);
    hide *;
    if e.Write? {
      PrefixSnoc(SentOf(log), Attempted(log), e.m);
    }
  }

  /** Nothing overtakes a failed write: what went out whole is a prefix of what was written. */
  lemma {:induction false} SentIsPrefix(log: seq<Event>)
    requires SocketOk(log)
    ensures SentOf(log) <= Attempted(log)
    ensures AnyFinal(log) || SentOf(log) == Attempted(log)
  {
    if log != [] {
      var front, e := log[..|log| - 1], log[|log| - 1];
      assert log == front + [e];
      hide *;
      SocketOkFront(log);
      SentIsPrefix(front);
      SentGrows(front, e);
    }
  }

  /** From end to end: the device reads a prefix of what the thread wrote, then perhaps a cut-off message. */
  lemma DeviceReadsAPrefix(log: seq<Event>)
    requires SocketOk(log)
    ensures var p := Parse(BytesOf(log)); p.messages <= Attempted(log) && (p.rest == [] || Read(p.rest) == Truncated)
  {
    hide Encode, EncodeAll, Parse, SentOf, CutOf, BytesOf, Attempted, AnyFinal, Read;
    SessionIsFramed(log);
    SentIsPrefix(log);
    DeviceReadsWhatWasSent(log);
  }
}
