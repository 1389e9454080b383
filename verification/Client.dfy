/** The server's side of one device: identification, then streaming while other threads interfere. */
module ClientSession {
  import opened Wire
  import opened StreamFraming
  import opened Streaming
  import opened SessionLog
  import opened Wrappers
  import Handshake
  import Serving

  /** What connecting the monitor comes to: it may also throw, and the text goes to the device. */
  datatype Connection = Established | Refused | Threw(text: Text)

  class Client {
    var state: ClientState
    var netBuffer: seq<byte>
    var preferred: Handshake.MonitorMode
    var modelName: seq<byte>
    var isUsb: bool

    // The socket: bytes that the device has sent and nobody has read, bytes on their way to the
    // device, and whether the connection is gone.
    var incoming: seq<byte>
    var wire: seq<byte>
    var gone: bool

    ghost var chunks: seq<seq<byte>>  // what the reads returned
    ghost var readFailed: bool        // one of them returned an error instead
    ghost var log: seq<Event>
    ghost var service: Serving.Service  // where the thread stands
    ghost var acts: seq<Serving.Act>    // what it and the others did to get there

    ghost predicate Valid()
      reads this`state, this`gone, this`wire, this`log, this`service, this`acts
    {
      && state == StateOf(log)
      && gone == Gone(log)
      && wire == BytesOf(log)
      && SocketOk(log)
      && InLoop(log)
      && Serving.Reaches(acts, service) && service.state == state && service.gone == gone
    }

    constructor (stream: seq<byte>)
      ensures Valid() && log == [] && chunks == [] && !readFailed && incoming == stream && netBuffer == []
      ensures service == Serving.NEW_SERVICE
      ensures state == New && modelName == [] && preferred == Handshake.NO_MODE && !isUsb
    {
      state, netBuffer, preferred, modelName, isUsb := New, [], Handshake.NO_MODE, [], false;
      incoming, wire, gone := stream, [], false;
      chunks, readFailed, log := [], false, [];
      service, acts := Serving.NEW_SERVICE, [];
    }

    lemma Synced()
      requires Valid()
      ensures service.state == state && service.gone == gone && state == StateOf(log) && gone == Gone(log)
    {
      hide Serving.Reaches, SocketOk, InLoop, BytesOf;
    }

    /** Takes an act that changes neither the state nor the socket. */
    ghost method Note(a: Serving.Act)
      requires Valid() && Serving.CanAct(service, a)
      requires Serving.Acted(service, a).state == service.state && Serving.Acted(service, a).gone == service.gone
      modifies this`service, this`acts
      ensures Valid() && service == Serving.Acted(old(service), a) && acts == old(acts) + [a]
    {
      hide Serving.Reaches, SocketOk, InLoop, BytesOf, Serving.Acted, Serving.CanAct;
      Serving.ReachesFurther(acts, service, a);
      service, acts := Serving.Acted(service, a), acts + [a];
    }

    /** Every assignment of `m_state` by the client's own thread goes through here. */
    method SetStateTo(s: ClientState, ghost a: Serving.Act)
      requires Valid() && Serving.CanAct(service, a)
      requires Serving.Acted(service, a).state == s && Serving.Acted(service, a).gone == service.gone
      modifies this`state, this`log, this`service, this`acts
      ensures Valid() && state == s && log == old(log) + [SetState(s)] && service == Serving.Acted(old(service), a)
    {
      hide SocketOk, Gone, Encode, InLoop, Serving.Reaches, Serving.Acted, Serving.CanAct;
      SocketOkSnoc(log, SetState(s));
      InLoopSnoc(log, SetState(s));
      LastEvent(log, SetState(s));
      Serving.ReachesFurther(acts, service, a);
      state := s;
      log := log + [SetState(s)];
      service, acts := Serving.Acted(service, a), acts + [a];
    }

    // ---------- identification ----------

    /** A read of the socket: an error, or at least one and at most `limit` of the waiting bytes. */
    method ReadSome(limit: int) returns (chunk: Option<seq<byte>>)
      requires 0 < limit
      modifies this`incoming, this`chunks, this`readFailed
      ensures chunk.None? ==> incoming == old(incoming) && chunks == old(chunks) && readFailed
      ensures chunk.Some? ==>
        && readFailed == old(readFailed)
        && 1 <= |chunk.value| <= limit
        && old(incoming) == chunk.value + incoming
        && chunks == old(chunks) + [chunk.value]
    {
      if incoming == [] {
        readFailed := true;
        return None;
      }
      if * {
        readFailed := true;
        return None;
      }
      var k: nat :| 1 <= k <= limit && k <= |incoming|;
      chunk := Some(incoming[..k]);
      chunks := chunks + [incoming[..k]];
      incoming := incoming[k..];
    }

    /** The parser's view of the fields and of the loop's locals. */
    ghost function Parser(needed: int32, phase: Handshake.Phase, identified: bool): Handshake.Parser
      reads this`netBuffer, this`isUsb, this`modelName, this`preferred
    {
      Handshake.Parser(netBuffer, needed, phase, isUsb, modelName, preferred, identified)
    }

    /** The `switch` of the loop: a whole field stands at the front of the buffer. */
    method TakeField(needed: int, phase: Handshake.Phase)
      returns (known: bool, needed': int, phase': Handshake.Phase)
      requires Valid() && service.place.Identifying? && 0 < needed < 0x8000_0000 && needed <= |netBuffer|
      requires NextField(phase, needed)
      modifies this`netBuffer, this`isUsb, this`modelName, this`preferred
      modifies this`state, this`log, this`service, this`acts
      ensures Valid() && -0x8000_0000 <= needed' < 0x8000_0000
      ensures known ==> Parser(needed', phase', phase.Modes?) == Handshake.Take(old(Parser(needed, phase, false)))
      ensures known ==> phase' == (if phase.Welcome? then Handshake.Model else Handshake.Modes)
      ensures known && !phase.Welcome? ==> needed' == if phase.Modes? then 0 else 12
      ensures !known ==> Handshake.Take(old(Parser(needed, phase, false))).phase.Rejected?
      ensures log == old(log) + if known && phase.Modes? then [SetState(Identified)] else []
      ensures service.place == if known && phase.Modes? then Serving.Announcing else Serving.Identifying
    {
      hide Valid, Handshake.ReadMode, DecodeInt;
      match phase {
        case Welcome =>
          var word := netBuffer[..WORD_LEN];
          if word == CL_WELCOME_WORD {
            isUsb := false;
          } else if word == CL_USB_WELCOME_WORD {
            isUsb := true;
          } else {
            return false, needed, phase;
          }
          var nameLength := DecodeInt(netBuffer[WORD_LEN..WORD_LEN + 4]);
          netBuffer := netBuffer[needed..];
          return true, nameLength, Handshake.Model;
        case Model =>
          modelName := netBuffer[..needed];
          netBuffer := netBuffer[needed..];
          return true, 12, Handshake.Modes;
        case Modes =>
          preferred := Handshake.ReadMode(netBuffer[..12]);
          SetStateTo(Identified, Serving.Identify(true));
          netBuffer := netBuffer[needed..];
          return true, 0, Handshake.Modes;
      }
    }

    /** How many bytes each state of the loop asks for. */
    predicate NextField(phase: Handshake.Phase, needed: int) {
      match phase
      case Welcome => needed == 9
      case Model => true
      case Modes => needed == 12
      case Rejected => false
    }

    /** The reads so far are a segmentation of the part of `stream` that was read. */
    ghost predicate ReadFrom(stream: seq<byte>)
      reads this`incoming, this`chunks
    {
      Handshake.Segmentation(chunks) && Handshake.Flatten(chunks) + incoming == stream
    }

    /** The fields and locals are those of the parser fed with the reads so far, and nothing was sent. */
    ghost predicate InHandshake(needed: int, phase: Handshake.Phase, identified: bool)
      reads this`netBuffer, this`isUsb, this`modelName, this`preferred, this`chunks, this`log, this`service
    {
      && -0x8000_0000 <= needed < 0x8000_0000
      && Parser(needed, phase, identified) == Handshake.FeedAll(chunks)
      && !phase.Rejected? && (if identified then needed == 0 else NextField(phase, needed))
      && service.place == (if identified then Serving.Announcing else Serving.Identifying)
      && NothingSent(log)
    }

    /** One pass of the identification loop: a read, and the field it completes, if any. */
    method ReadOnce(ghost stream: seq<byte>, needed: int, phase: Handshake.Phase)
      returns (ok: bool, needed': int, phase': Handshake.Phase, ghost identified: bool)
      requires Valid() && needed > 0 && ReadFrom(stream) && InHandshake(needed, phase, false) && !readFailed
      modifies this`netBuffer, this`preferred, this`modelName, this`isUsb, this`gone
      modifies this`incoming, this`chunks, this`readFailed, this`state, this`log, this`service, this`acts
      ensures Valid() && ReadFrom(stream)
      ensures ok ==> InHandshake(needed', phase', identified) && |incoming| < |old(incoming)| && !readFailed
      ensures !ok ==> service.place.Identifying? && NothingSent(log)
      ensures !ok ==> readFailed || Handshake.FeedAll(chunks).phase.Rejected?
      ensures !ok ==> !Handshake.Accepted(Handshake.FeedAll(chunks)) && !Handshake.FeedAll(chunks).identified
    {
      hide Handshake.FeedAll, Handshake.Segmentation, Handshake.Flatten, Handshake.Take;
      hide Valid, NothingSent, Undisturbed;
      var recvLen := 256;
      identified := false;
      ghost var before, p := chunks, Handshake.FeedAll(chunks);
      ghost var quiet := log;
      Interfere();
      NothingSentStays(quiet, log);
      var received := ReadSome(if needed < recvLen then needed else recvLen);
      if received.None? {
        return false, needed, phase, false;
      }
      Handshake.Snoc(before, received.value);
      netBuffer := netBuffer + received.value;
      ghost var q := Parser(needed, phase, false);
      assert q == p.(buf := p.buf + received.value);
      if |netBuffer| < needed {
        return true, needed, phase, false;
      }
      ok, needed', phase', identified := FieldArrived(needed, phase);
    }

    /** A whole field has arrived. */
    method FieldArrived(needed: int, phase: Handshake.Phase)
      returns (ok: bool, needed': int, phase': Handshake.Phase, ghost identified: bool)
      requires Valid() && service.place.Identifying? && NothingSent(log)
      requires 0 < needed < 0x8000_0000 && needed <= |netBuffer| && NextField(phase, needed)
      requires Handshake.FeedAll(chunks) == Handshake.Take(Parser(needed, phase, false))
      modifies this`netBuffer, this`preferred, this`modelName, this`isUsb
      modifies this`state, this`log, this`service, this`acts
      ensures Valid() && (ok ==> InHandshake(needed', phase', identified))
      ensures !ok ==> service.place.Identifying? && NothingSent(log)
      ensures !ok ==> Handshake.FeedAll(chunks).phase.Rejected? && !Handshake.FeedAll(chunks).identified
    {
      hide Handshake.FeedAll, Handshake.Take, Valid, NothingSent;
      ghost var quiet, q := log, Parser(needed, phase, false);
      ok, needed', phase' := TakeField(needed, phase);
      identified := ok && phase.Modes?;
      if !ok {
        Handshake.OnlyModesIdentifies(q);
      }
      if identified {
        NothingSentFurther(quiet, SetState(Identified));
      } else {
        assert log == quiet;
      }
    }

    /** Identifies the device from whatever pieces the socket delivers, while other threads interfere. It fails
        exactly if a read fails before the handshake is complete, or the stream is not a handshake; true means
        that the fields are those of the whole-stream reading, with the bytes after the handshake left unread.
        A handshake without a name is accepted too, without a mode. */
    method IdentifyClient() returns (ok: bool)
      requires Valid() && log == [] && service == Serving.NEW_SERVICE && chunks == [] && netBuffer == []
      requires modelName == [] && preferred == Handshake.NO_MODE && !isUsb && !readFailed
      modifies this`netBuffer, this`preferred, this`modelName, this`isUsb, this`gone
      modifies this`incoming, this`chunks, this`readFailed, this`state, this`log, this`service, this`acts
      ensures Valid() && NothingSent(log)
      ensures service.place == if ok then Serving.Announcing else Serving.Finished(true, false)
      ensures Handshake.Segmentation(chunks) && Handshake.Flatten(chunks) + incoming == old(incoming)
      ensures ok == Handshake.Accepted(Handshake.FeedAll(chunks))
      ensures ok <==> !readFailed && !Handshake.Decode(old(incoming)).Mismatch?
      ensures ok ==>
        Handshake.Decode(old(incoming)) ==
          if Handshake.FeedAll(chunks).identified
          then Handshake.Hello(isUsb, modelName, preferred, netBuffer + incoming)
          else Handshake.Nameless(isUsb, netBuffer + incoming)
    {
      hide Handshake.FeedAll, Handshake.Segmentation, Handshake.Flatten, Handshake.Decode, Valid, NothingSent;
      Handshake.StartOfRun();
      NothingSentAtFirst();
      ghost var stream := incoming;
      ghost var identified := false;
      var bytesNeeded: int := WORD_LEN + 4;
      var phase := Handshake.Welcome;
      while bytesNeeded > 0
        invariant Valid() && ReadFrom(stream) && InHandshake(bytesNeeded, phase, identified) && !readFailed
        invariant bytesNeeded > 0 ==> !identified
        decreases |incoming|
      {
        ok, bytesNeeded, phase, identified := ReadOnce(stream, bytesNeeded, phase);
        if !ok {
          if !readFailed {
            Handshake.RejectedMeans(chunks, incoming);
          }
          Note(Serving.NotIdentified);
          return false;
        }
      }
      Handshake.AcceptedMeans(chunks, incoming);
      if !identified {
        Note(Serving.Identify(false));
      }
      return true;
    }

    // ---------- streaming ----------

    /** A pass of the loop begins. */
    ghost method BeginPass(t: Tick, kind: Serving.PassKind)
      requires Valid() && state == InStreaming && service.place.Streaming?
      modifies this`log, this`service, this`acts
      ensures Valid() && log == old(log) + [Pass(t)] && service == Serving.Acted(old(service), Serving.TakePass(kind))
    {
      hide SocketOk, BytesOf, StateOf, Encode, InLoop, Serving.Reaches;
      SocketOkSnoc(log, Pass(t));
      InLoopSnoc(log, Pass(t));
      LastEvent(log, Pass(t));
      log := log + [Pass(t)];
      Note(Serving.TakePass(kind));
    }

    /** The socket stops carrying bytes. */
    method CloseSocket(ghost how: Event, ghost a: Serving.Act)
      requires Valid() && (how == Shutdown || how == Lost) && Serving.CanAct(service, a)
      requires Serving.Acted(service, a).state == service.state && Serving.Acted(service, a).gone
      modifies this`gone, this`log, this`service, this`acts
      ensures Valid() && gone && log == old(log) + [how] && service == Serving.Acted(old(service), a)
    {
      hide SocketOk, BytesOf, StateOf, Encode, InLoop, Serving.Reaches, Serving.Acted, Serving.CanAct;
      SocketOkSnoc(log, how);
      InLoopSnoc(log, how);
      LastEvent(log, how);
      Serving.ReachesFurther(acts, service, a);
      gone := true;
      log := log + [how];
      service, acts := Serving.Acted(service, a), acts + [a];
    }

    /** Another thread overwrites `m_state`. */
    method OverwriteState()
      requires Valid()
      modifies this`state, this`log, this`service, this`acts
      ensures Valid() && state == ConnectionClosed && log == old(log) + [Forced]
      ensures service == Serving.Acted(old(service), Serving.ForceState)
    {
      hide SocketOk, Gone, Encode, StateOf, BytesOf, InLoop, Serving.Reaches, Serving.Acted, Serving.CanAct;
      Serving.Forces(service);
      SocketOkSnoc(log, Forced);
      InLoopSnoc(log, Forced);
      LastEvent(log, Forced);
      Serving.ReachesFurther(acts, service, Serving.ForceState);
      state := ConnectionClosed;
      log := log + [Forced];
      service, acts := Serving.Acted(service, Serving.ForceState), acts + [Serving.ForceState];
    }

    /** Another thread, or the network, does one thing. */
    method InterfereOnce()
      requires Valid()
      modifies this`state, this`gone, this`log, this`service, this`acts
      ensures Valid() && |log| == |old(log)| + 1 && log == old(log) + [log[|log| - 1]] && Foreign(log[|log| - 1])
      ensures service.place == old(service).place
    {
      hide Valid;
      if * {
        CloseSocket(Shutdown, Serving.ForceShutdown);
      } else if * {
        CloseSocket(Lost, Serving.Break);
      } else {
        OverwriteState();
      }
    }

    /** Other threads run: they may shut the socket down and set `ConnectionClosed`, as
        `forceDisconnect` does, and the connection may break. */
    method Interfere()
      requires Valid()
      modifies this`state, this`gone, this`log, this`service, this`acts
      ensures Valid() && Undisturbed(old(log), log) && service.place == old(service).place
    {
      var steps: nat :| true;
      UndisturbedAtFirst(log);
      hide Undisturbed, Valid, Foreign;
      ghost var start := log;
      for i := 0 to steps
        invariant Valid() && Undisturbed(start, log) && service.place == old(service).place
      {
        ghost var before := log;
        InterfereOnce();
        UndisturbedStep(start, before, log[|log| - 1]);
      }
    }

    /** `asio::write`: the whole message goes out, or some part of it and the connection is gone. */
    method WriteMessage(m: Message, ghost failed: Serving.Act) returns (ok: bool, ghost sent: nat)
      requires Valid() && (AnyFinal(log) ==> gone)
      requires Serving.CanAct(service, failed)
      requires Serving.Acted(service, failed).state == service.state && Serving.Acted(service, failed).gone
      modifies this`wire, this`gone, this`log, this`service, this`acts
      ensures Valid() && (!ok ==> gone) && (old(gone) ==> !ok && gone) && (ok ==> service == old(service))
      ensures !ok ==> service == Serving.Acted(old(service), failed)
      ensures ok == Complete(Write(m, sent))
      ensures ok || old(gone) ==> log == old(log) + [Write(m, sent)]
      ensures !ok && !old(gone) ==> log == old(log) + [Write(m, sent)] + [Lost]
    {
      hide SocketOk, BytesOf, StateOf, Encode, InLoop, Serving.Reaches, Serving.Acted, Serving.CanAct;
      EncodingsAreLong(m);
      var bytes := Encode(m);
      var k: nat := |bytes|;
      if gone {
        k := 0;
      } else if * {
        k :| 0 <= k < |bytes|;
      }
      ok := k == |bytes|;
      wire := wire + bytes[..k];
      sent := k;
      ghost var e := Write(m, k);
      SocketOkSnoc(log, e);
      InLoopSnoc(log, e);
      LastEvent(log, e);
      log := log + [e];
      if !ok && !gone {
        CloseSocket(Lost, failed);
      } else if !ok {
        Note(failed);
      }
    }

    /** A failed write of a frame: `m_state = ConnectionClosed`. */
    method CloseAfterFailure()
      requires Valid() && Quiet(log) && gone && service.place.Failing?
      modifies this`gone, this`state, this`log, this`service, this`acts
      ensures Valid() && service.place.Streaming? && gone && state == ConnectionClosed && Quiet(log)
      ensures Attempted(log) == Attempted(old(log)) && Passes(log) == Passes(old(log))
      ensures (AnyFinal(log) <==> AnyFinal(old(log))) && (GoneAtStart(log) <==> GoneAtStart(old(log)))
      ensures ForcedSinceStart(old(log)) ==> ForcedSinceStart(log)
      ensures SetState(InError) in log ==> SetState(InError) in old(log)
    {
      hide SocketOk, BytesOf, StateOf, Gone, Attempted, Passes, Quiet, Encode, InLoop, Serving.Reaches;
      hide ForcedSinceStart, GoneAtStart, AnyFinal;
      Interfere();
      StepRecorded(log, SetState(ConnectionClosed));
      SetStateTo(ConnectionClosed, Serving.MarkClosed);
    }

    /** A frame or "monitor off": a failed write closes the connection. */
    method SendFrameMessage(m: Message)
      requires Valid() && !IsError(m) && !AnyFinal(log) && Quiet(log) && service.place.Sending?
      modifies this`wire, this`gone, this`state, this`log, this`service, this`acts
      ensures Valid() && service.place.Streaming?
      ensures Attempted(log) == Attempted(old(log)) + [m] && Passes(log) == Passes(old(log))
      ensures Quiet(log) && (AnyFinal(log) ==> gone && state == ConnectionClosed)
      ensures Continues(old(log), log, true)
    {
      hide SocketOk, BytesOf, StateOf, Gone, Attempted, Passes, Quiet, Encode, Complete, InLoop, Serving.Reaches;
      hide ForcedSinceStart, GoneAtStart, AnyFinal;
      Interfere();
      ghost var before := log;
      var ok, sent := WriteMessage(m, Serving.NotSent);
      WriteRecorded(before, Write(m, sent));
      if !ok {
        StepRecorded(before + [Write(m, sent)], Lost);
        CloseAfterFailure();
      } else {
        Note(Serving.Sent);
      }
    }

    /** Compresses and sends the mapped frame; nothing is sent when the compression fails. */
    method SendFullFrame(jpeg: Option<Jpeg>)
      requires Valid() && !AnyFinal(log) && Quiet(log)
      requires service.place == if jpeg.Some? then Serving.Sending else Serving.Streaming
      modifies this`wire, this`gone, this`state, this`log, this`service, this`acts
      ensures Valid() && service.place.Streaming? && Passes(log) == Passes(old(log))
      ensures Attempted(log) == Attempted(old(log)) + match jpeg case Some(data) => [Frame(data)] case None => []
      ensures Quiet(log) && (AnyFinal(log) ==> gone && state == ConnectionClosed)
      ensures Continues(old(log), log, jpeg.Some?)
    {
      hide Valid, Quiet, Passes, Attempted, AnyFinal, ForcedSinceStart, GoneAtStart;
      match jpeg {
        case None =>
          assert Attempted(log) + [] == Attempted(log);
          return;
        case Some(data) => SendFrameMessage(Frame(data));
      }
    }

    method SendMonitorOff()
      requires Valid() && !AnyFinal(log) && Quiet(log) && service.place.Sending?
      modifies this`wire, this`gone, this`state, this`log, this`service, this`acts
      ensures Valid() && service.place.Streaming? && Passes(log) == Passes(old(log))
      ensures Attempted(log) == Attempted(old(log)) + [Message.MonitorOff]
      ensures Quiet(log) && (AnyFinal(log) ==> gone && state == ConnectionClosed)
      ensures Continues(old(log), log, true)
    {
      SendFrameMessage(Message.MonitorOff);
    }

    /** `sendError`: the message, then the socket is shut down, so that nothing can follow it. */
    method SendError(m: Message)
      requires Valid() && IsError(m) && !AnyFinal(log) && Quiet(log) && Serving.CanAct(service, Serving.LastMessage)
      modifies this`wire, this`gone, this`state, this`log, this`service, this`acts
      ensures Valid() && gone && Quiet(log)
      ensures service.place ==
        if old(service).place.GivingUp? then Serving.GaveUp else Serving.Finished(old(service).place.Refused?, true)
      ensures Attempted(log) == Attempted(old(log)) + [m] && Passes(log) == Passes(old(log))
      ensures SetState(InError) in log <==> SetState(InError) in old(log)
      ensures GoneAtStart(log) <==> GoneAtStart(old(log))
    {
      hide SocketOk, BytesOf, StateOf, Gone, Attempted, Passes, Quiet, Encode, Complete, InLoop, Serving.Reaches;
      hide ForcedSinceStart, GoneAtStart, AnyFinal;
      Interfere();
      ghost var before := log;
      var ok, sent := WriteMessage(m, Serving.Break);
      WriteRecorded(before, Write(m, sent));
      if !ok {
        StepRecorded(before + [Write(m, sent)], Lost);
      }
      Interfere();
      StepRecorded(log, Shutdown);
      CloseSocket(Shutdown, Serving.LastMessage);
    }

    /** `sendError(TooManyFails)`, and `m_state = Error`. */
    method StopWithError()
      requires Valid() && !AnyFinal(log) && Quiet(log) && service.place.GivingUp?
      modifies this`wire, this`gone, this`state, this`log, this`service, this`acts
      ensures Valid() && gone && Quiet(log) && state == InError && SetState(InError) in log && service.place.Streaming?
      ensures Attempted(log) == Attempted(old(log)) + [Message.Error(12)]
      ensures Passes(log) == Passes(old(log)) && (GoneAtStart(log) <==> GoneAtStart(old(log)))
    {
      hide SocketOk, BytesOf, StateOf, Attempted, Passes, Quiet, Encode, Complete, InLoop, Serving.Reaches;
      hide ForcedSinceStart, GoneAtStart, AnyFinal;
      SendError(Message.Error(TOO_MANY_FAILS));
      StepRecorded(log, SetState(InError));
      SetStateTo(InError, Serving.MarkError);
    }

    /** The body of the streaming loop. */
    method RunPass(t: Tick, oldFrameFails: nat, oldMapFails: nat)
      returns (frameFails: nat, mapFails: nat, tooMany: bool)
      requires Valid() && state == InStreaming && service.place.Streaming?
      requires !AnyFinal(log) && Quiet(log) && SetState(InError) !in log
      modifies this`wire, this`gone, this`state, this`log, this`service, this`acts
      ensures Valid() && Quiet(log) && service.place.Streaming? && (AnyFinal(log) ==> gone && state != InStreaming)
      ensures frameFails == if Failed(t) then oldFrameFails + 1 else 0
      ensures mapFails == if MapOk(t) then 0 else oldMapFails + if MapFailed(t) then 1 else 0
      ensures tooMany <==> (Failed(t) && frameFails >= 15) || (MapFailed(t) && mapFails >= 10)
      ensures Passes(log) == Passes(old(log)) + [t]
      ensures Attempted(log) == Attempted(old(log)) + if tooMany then [Message.Error(TOO_MANY_FAILS)] else Output(t)
      ensures tooMany ==> Output(t) == []
      ensures PassSends(Attempted(old(log)), Attempted(log), t, tooMany)
      ensures tooMany <==> SetState(InError) in log
      ensures if tooMany then state == InError && gone && (GoneAtStart(log) <==> GoneAtStart(old(log)))
              else Continues(old(log), log, Output(t) != [])
    {
      hide SocketOk, BytesOf, StateOf, Gone, Attempted, Passes, Quiet, Encode, Complete, InLoop, Serving.Reaches;
      hide ForcedSinceStart, GoneAtStart, AnyFinal, PassSends;
      frameFails, mapFails, tooMany := oldFrameFails, oldMapFails, false;
      PassRecorded(log, t);
      BeginPass(t, KindOf(t, oldFrameFails, oldMapFails));
      match t.status {
        case FrameReady | ModeChanged =>
          frameFails := 0;
          if t.mapped {
            mapFails := 0;
            SendFullFrame(t.jpeg);
          } else {
            mapFails := mapFails + 1;
            if mapFails >= 10 {
              StopWithError();
              tooMany := true;
            }
          }
        case NoUpdates =>
          frameFails := 0;
        case MonitorOff =>
          frameFails := 0;
          SendMonitorOff();
        case _ =>
          frameFails := frameFails + 1;
          if frameFails >= 15 {
            StopWithError();
            tooMany := true;
          }
      }
      PassSendsAsDue(Attempted(old(log)), Attempted(log), t, tooMany);
    }

    /** What a pass comes to, with the counters before it. */
    ghost function KindOf(t: Tick, frameFails: nat, mapFails: nat): Serving.PassKind {
      if (Failed(t) && frameFails + 1 >= 15) || (MapFailed(t) && mapFails + 1 >= 10) then Serving.TooMany
      else if Output(t) != [] then Serving.Writes
      else Serving.Silent
    }

    /** `m_state = Streaming` */
    method BeginStreaming()
      requires Valid() && service.place.Starting? && NothingSent(log)
      modifies this`gone, this`state, this`log, this`service, this`acts
      ensures Valid() && service.place.Streaming? && NothingSent(log) && Quiet(log)
      ensures state != InStreaming ==> ForcedSinceStart(log)
      ensures GoneAtStart(log) ==> gone
    {
      hide SocketOk, BytesOf, StateOf, Gone, Attempted, Passes, Quiet, AnyFinal, InLoop, Serving.Reaches, NothingSent;
      hide ForcedSinceStart, GoneAtStart;
      ghost var quiet := log;
      Interfere();
      NothingSentStays(quiet, log);
      NothingSentFurther(log, SetState(InStreaming));
      LastEvent(log, SetState(InStreaming));
      SetStateTo(InStreaming, Serving.Start);
      quiet := log;
      Interfere();
      NothingSentStays(quiet, log);
      WhenNothingSent(log);
    }

    /** The streaming loop, over what its passes meet: a status, a mapping and a compression each. It ends with
        `Error` exactly when the trace demands it. Otherwise it ends only because another thread has
        overwritten the state since it was started, which it always heeds, or because its last pass wrote and
        that failed. A disconnect from before it was started is not heeded as such: then the loop goes on
        exactly as long as its passes attempt no write. */
    method SendFrames(ticks: seq<Tick>) returns (n: nat, tooMany: bool)
      requires Valid() && service.place.Starting? && NothingSent(log)
      modifies this`wire, this`gone, this`state, this`log, this`service, this`acts
      ensures Valid() && Quiet(log) && service.place.Streaming? && (AnyFinal(log) ==> gone)
      ensures n <= |ticks| && Passes(log) == ticks[..n] && (n == |ticks| || state != InStreaming)
      ensures Attempted(log) == Outputs(ticks[..n]) + if tooMany then [Message.Error(TOO_MANY_FAILS)] else []
      ensures SessionSends(Attempted(log), Passes(log), tooMany)
      ensures tooMany <==> MustStop(ticks[..n])
      ensures tooMany <==> SetState(InError) in log
      ensures forall k | 0 <= k < n :: !MustStop(ticks[..k])
      ensures state != InStreaming && !tooMany ==>
                ForcedSinceStart(log) || (n > 0 && Output(ticks[n - 1]) != [] && AnyFinal(log))
      ensures ForcedSinceStart(log) || tooMany ==> state != InStreaming
      ensures GoneAtStart(log) ==>
                && (forall k | 0 <= k < n - 1 :: Output(ticks[k]) == [])
                && (state != InStreaming <==> ForcedSinceStart(log) || tooMany || (n > 0 && Output(ticks[n - 1]) != []))
    {
      StartsUnderLimit();
      hide SocketOk, BytesOf, StateOf, Gone, Attempted, Passes, Quiet, AnyFinal, InLoop, Serving.Reaches;
      hide MustStop, FrameFails, MapFails, Outputs, Output, SessionSends, ForcedSinceStart, GoneAtStart;
      var frameFails, mapFails := 0, 0;
      n, tooMany := 0, false;
      BeginStreaming();
      while state == InStreaming && n < |ticks|
        invariant Valid() && Quiet(log) && n <= |ticks| && service.place.Streaming?
        invariant AnyFinal(log) ==> gone && state != InStreaming
        invariant Passes(log) == ticks[..n]
        invariant Attempted(log) == Outputs(ticks[..n]) + if tooMany then [Message.Error(TOO_MANY_FAILS)] else []
        invariant tooMany || (frameFails == FrameFails(ticks[..n]) && mapFails == MapFails(ticks[..n]))
        invariant tooMany <==> MustStop(ticks[..n])
        invariant tooMany <==> SetState(InError) in log
        invariant tooMany ==> state != InStreaming
        invariant state != InStreaming && !tooMany ==>
                    ForcedSinceStart(log) || (n > 0 && Output(ticks[n - 1]) != [] && AnyFinal(log))
        invariant GoneAtStart(log) ==> gone
        invariant GoneAtStart(log) && n > 0 && Output(ticks[n - 1]) != [] ==> state != InStreaming
        invariant GoneAtStart(log) ==> forall k | 0 <= k < n - 1 :: Output(ticks[k]) == []
        invariant forall k | 0 <= k < n :: !MustStop(ticks[..k])
      {
        OneMorePass(ticks, n);
        frameFails, mapFails, tooMany := RunPass(ticks[n], frameFails, mapFails);
        assert ticks[..n + 1] == ticks[..n] + [ticks[n]];
        assert tooMany ==> Outputs(ticks[..n]) + Output(ticks[n]) == Outputs(ticks[..n]);
        n := n + 1;
        Interfere();
      }
      ForcedStays(log);
      SendsAsDue(Attempted(log), Passes(log), tooMany);
    }

    // ---------- the ends of a session ----------

    method ConnectMonitor(connected: bool) returns (ok: bool)
      requires Valid() && NothingSent(log) && service.place.Connecting?
      modifies this`state, this`log, this`service, this`acts
      ensures Valid() && ok == connected && state == (if connected then Connected else InError)
      ensures service.place == if connected then Serving.Starting else Serving.Refused
      ensures !AnyFinal(log) && Quiet(log) && Attempted(log) == [] && Passes(log) == []
      ensures connected ==> NothingSent(log)
    {
      hide SocketOk, BytesOf, StateOf, Gone, Quiet, InLoop, Serving.Reaches, ForcedSinceStart, GoneAtStart;
      NoFinalQuiet(log);
      var s := if connected then Connected else InError;
      StepRecorded(log, SetState(s));
      SetStateTo(s, Serving.Connect(if connected then Serving.Established else Serving.NoMonitor));
      return connected;
    }

    method DisconnectMonitor()
      requires Valid() && Quiet(log) && service.place.Leaving?
      modifies this`state, this`gone, this`log, this`service, this`acts
      ensures Valid() && gone && Quiet(log) && service.place == Serving.Finished(false, true)
      ensures SetState(Disconnected) in log && Shutdown in log
      ensures Attempted(log) == Attempted(old(log)) && Passes(log) == Passes(old(log))
    {
      hide SocketOk, BytesOf, StateOf, Gone, Quiet, Attempted, Passes, InLoop, Serving.Reaches;
      hide ForcedSinceStart, GoneAtStart;
      StepRecorded(log, SetState(Disconnected));
      SetStateTo(Disconnected, Serving.MarkDisconnected);
      ghost var marked := log;
      Interfere();
      assert log[|marked| - 1] == SetState(Disconnected);
      hide Undisturbed;
      StepRecorded(log, Shutdown);
      CloseSocket(Shutdown, Serving.ShutSocket);
    }

    /** `forceDisconnect` without an error message, as the server's destructor calls it from its own thread:
        all it does to the client is what `Interfere` allows at any moment. */
    method ForceDisconnect()
      requires Valid()
      modifies this`state, this`gone, this`log, this`service, this`acts
      ensures Valid() && gone && state == ConnectionClosed && service == Serving.ForcedOff(old(service))
      ensures log == old(log) + [Shutdown] + [Forced] && Undisturbed(old(log), log)
    {
      hide SocketOk, BytesOf, StateOf, Undisturbed, InLoop, Serving.Reaches;
      UndisturbedAtFirst(log);
      Synced();
      ghost var start := log;
      UndisturbedStep(start, log, Shutdown);
      CloseSocket(Shutdown, Serving.ForceShutdown);
      UndisturbedStep(start, log, Forced);
      OverwriteState();
    }

    /** What holds at the end, whatever the others did: the device reads a prefix of what was attempted, and at
        most one frame was attempted after the connection was gone. */
    lemma EndsWell()
      requires Valid() && Quiet(log)
      ensures Parse(wire).messages <= Attempted(log) && OneLateWrite(log)
    {
      hide SocketOk, Attempted, Parse, Serving.Reaches, InLoop, OneLateWrite;
      DeviceReadsAPrefix(log);
      AtMostOneLateWrite(log);
    }

    /** The part of a session after the identification: the control panel is told of the device first. */
    method ServeIdentified(connection: Connection, ticks: seq<Tick>) returns (n: nat, tooMany: bool, running: bool)
      requires Valid() && NothingSent(log) && service.place.Announcing?
      modifies this`wire, this`gone, this`state, this`log, this`service, this`acts
      ensures Valid() && Quiet(log) && n <= |ticks| && Passes(log) == ticks[..n]
      ensures !connection.Established? ==> n == 0 && !tooMany && !running
      ensures Attempted(log) ==
        match connection
        case Established => Outputs(ticks[..n]) + if tooMany then [Message.Error(TOO_MANY_FAILS)] else []
        case Refused => [Message.Error(11)]
        case Threw(text) => [ErrorText(text)]
      ensures connection.Established? ==> SessionSends(Attempted(log), Passes(log), tooMany)
      ensures tooMany <==> connection.Established? && MustStop(ticks[..n])
      ensures forall k | 0 <= k < n :: !MustStop(ticks[..k])
      ensures if running then n == |ticks| && service.place.Streaming? && state == InStreaming
              else service.place == Serving.Finished(connection.Refused?, true)
    {
      hide Valid, NothingSent, Quiet, Attempted, Passes, AnyFinal, MustStop, Outputs, SessionSends;
      hide ForcedSinceStart, GoneAtStart, Undisturbed;
      n, tooMany, running := 0, false, false;
      Note(Serving.Announce);
      ghost var quiet := log;
      Interfere();
      NothingSentStays(quiet, log);
      WhenNothingSent(log);
      match connection {
        case Threw(text) =>
          Note(Serving.Connect(Serving.Exception));
          SendError(ErrorText(text));
        case Refused =>
          var ok := ConnectMonitor(false);
          SendError(Message.Error(MONITOR_CONNECT_FAIL));
        case Established =>
          var ok := ConnectMonitor(true);
          n, tooMany := SendFrames(ticks);
          running := state == InStreaming;
          if !running {
            Synced();
            Note(Serving.LeaveLoop);
            DisconnectMonitor();
          }
      }
    }

    /** The whole session of a device on its own thread, from the first byte, other threads interfering all
        along: `running` if it is still streaming when `ticks` are used up. */
    method Communicate(connection: Connection, ticks: seq<Tick>)
      returns (identified: bool, n: nat, tooMany: bool, running: bool)
      requires Valid() && log == [] && service == Serving.NEW_SERVICE && chunks == [] && netBuffer == []
      requires modelName == [] && preferred == Handshake.NO_MODE && !isUsb && !readFailed
      modifies this
      ensures Valid() && Quiet(log) && OneLateWrite(log) && Parse(wire).messages <= Attempted(log)
      ensures identified == Handshake.Accepted(Handshake.FeedAll(chunks))
      ensures identified <==> !readFailed && !Handshake.Decode(old(incoming)).Mismatch?
      ensures n <= |ticks| && Passes(log) == ticks[..n]
      ensures !identified || !connection.Established? ==> n == 0 && !tooMany && !running
      ensures !identified ==> Attempted(log) == []
      ensures identified ==>
        Attempted(log) ==
        match connection
        case Established => Outputs(ticks[..n]) + if tooMany then [Message.Error(TOO_MANY_FAILS)] else []
        case Refused => [Message.Error(11)]
        case Threw(text) => [ErrorText(text)]
      ensures identified && connection.Established? ==> SessionSends(Attempted(log), Passes(log), tooMany)
      ensures tooMany <==> identified && connection.Established? && MustStop(ticks[..n])
      ensures forall k | 0 <= k < n :: !MustStop(ticks[..k])
      ensures if running then n == |ticks| && service.place.Streaming? && state == InStreaming
              else service.place == Serving.Finished(!identified || connection.Refused?, identified)
    {
      hide Valid, NothingSent, Quiet, Attempted, Passes, AnyFinal, MustStop, Outputs, SessionSends, Parse, OneLateWrite;
      hide Handshake.FeedAll, Handshake.Segmentation, Handshake.Flatten, Handshake.Decode;
      n, tooMany, running := 0, false, false;
      identified := IdentifyClient();
      if identified {
        n, tooMany, running := ServeIdentified(connection, ticks);
      } else {
        WhenNothingSent(log);
      }
      EndsWell();
    }
  }

  lemma WhenNothingSent(log: seq<Event>)
    requires NothingSent(log)
    ensures Quiet(log) && !AnyFinal(log) && Attempted(log) == [] && Passes(log) == []
  {
    NoFinalQuiet(log);
  }
}
