/** The server's side of the control panel's connection: the two tables of handlers, and the callback that
    takes one message off the socket and builds its reply. */
module ControlServer {
  import opened RequestTable

  // The messages of the protocol: the panel's requests, and its other messages.
  const GET_CONFIG := "config/all"
  const GET_CLIENTS := "clients/all"
  const SET_STATE := "config/serverState"
  const SHUTDOWN := "config/shutdown"
  const DISCONNECT_CLIENT := "clients/disconnect"

  const PANEL_REQUESTS := {GET_CONFIG, GET_CLIENTS, SET_STATE}
  const PANEL_EVENTS := {SHUTDOWN, DISCONNECT_CLIENT}

  /** Every request of the run is one that the panel makes. */
  ghost predicate FromPanel(steps: seq<Step>) {
    forall k | 0 <= k < |steps| && steps[k].Issue? :: steps[k].request.message in PANEL_REQUESTS
  }

  lemma FromPanelFront(steps: seq<Step>)
    requires steps != [] && FromPanel(steps)
    ensures FromPanel(steps[..|steps| - 1])
    ensures steps[|steps| - 1].Issue? ==> steps[|steps| - 1].request.message in PANEL_REQUESTS
  {
    var front := steps[..|steps| - 1];
    assert forall k | 0 <= k < |front| :: front[k] == steps[k];
  }

  lemma {:induction false} IssuedByPanel(steps: seq<Step>, id: Id)
    requires Possible(steps, PANEL_REQUESTS, PANEL_EVENTS) && FromPanel(steps)
    requires id in After(steps, PANEL_REQUESTS, PANEL_EVENTS).issued
    ensures After(steps, PANEL_REQUESTS, PANEL_EVENTS).issued[id].message in PANEL_REQUESTS
    decreases |steps|
  {
    if steps != [] {
      hide After, Possible, Next, Enabled;
      var front, t := steps[..|steps| - 1], steps[|steps| - 1];
      LastStep(steps, PANEL_REQUESTS, PANEL_EVENTS);
      IssuedAfter(After(front, PANEL_REQUESTS, PANEL_EVENTS), t, PANEL_REQUESTS, PANEL_EVENTS);
      FromPanelFront(steps);
      if id in After(front, PANEL_REQUESTS, PANEL_EVENTS).issued {
        IssuedByPanel(front, id);
      }
    } else {
      EmptyRun(PANEL_REQUESTS, PANEL_EVENTS);
    }
  }

  /** With the handlers that `setupControl` registers, every request that the panel can make is one that the
      server answers: whatever has happened, at most two more steps settle it. */
  lemma PanelIsAnswered(steps: seq<Step>, id: Id, run: Run) returns (more: seq<Step>)
    requires Possible(steps, PANEL_REQUESTS, PANEL_EVENTS) && FromPanel(steps)
    requires id in After(steps, PANEL_REQUESTS, PANEL_EVENTS).client.pending
    ensures |more| <= 2 && Possible(steps + more, PANEL_REQUESTS, PANEL_EVENTS)
    ensures id in After(steps + more, PANEL_REQUESTS, PANEL_EVENTS).client.verdicts
  {
    hide After, Possible;
    IssuedConservesPending(steps, PANEL_REQUESTS, PANEL_EVENTS, id);
    IssuedByPanel(steps, id);
    more := PendingCanBeSettled(steps, PANEL_REQUESTS, PANEL_EVENTS, id, run);
  }

  /** The panel's two messages without a reply reach their event handlers. */
  lemma PanelIsHeard(id: string, run: Run)
    ensures EffectMeans(Parsed(map["message" := Text("config/shutdown")]), PANEL_REQUESTS, PANEL_EVENTS, run, Handled)
    ensures EffectMeans(Parsed(map["message" := Text("clients/disconnect"), "id" := Text(id)]),
                        PANEL_REQUESTS, PANEL_EVENTS, run, Handled)
  {
    assert SHUTDOWN == "config/shutdown" && DISCONNECT_CLIENT == "clients/disconnect";
    assert Parsed(map["message" := Text("config/shutdown")]).fields["message"].text in PANEL_EVENTS;
  }

  /** What `setupControl` registers, by what the handlers do. */
  datatype Handler = ReportConfig | ReportClients | SwitchServer | ShutDown | ForceDisconnect

  class MDApp {
    var handlers: map<string, Handler>      // by message
    var requestHandlers: map<string, Handler>
    var called: seq<Handler>                // the handlers called, in order
    var sent: seq<Message>                  // what was sent back

    constructor ()
      ensures handlers == map[] && requestHandlers == map[] && called == [] && sent == []
    {
      handlers, requestHandlers, called, sent := map[], map[], [], [];
    }

    method OnEvent(message: string, handler: Handler)
      modifies this`handlers
      ensures handlers == old(handlers)[message := handler]
    {
      handlers := handlers[message := handler];
    }

    method OnRequest(message: string, handler: Handler)
      modifies this`requestHandlers
      ensures requestHandlers == old(requestHandlers)[message := handler]
    {
      requestHandlers := requestHandlers[message := handler];
    }

    /** `setupControl`, on a new object: three requests have a handler, and two events. */
    method SetupControl()
      requires handlers == map[] && requestHandlers == map[]
      modifies this`handlers, this`requestHandlers
      ensures requestHandlers.Keys == PANEL_REQUESTS && handlers.Keys == PANEL_EVENTS
      ensures requestHandlers ==
        map["config/all" := ReportConfig, "clients/all" := ReportClients, "config/serverState" := SwitchServer]
      ensures handlers == map["config/shutdown" := ShutDown, "clients/disconnect" := ForceDisconnect]
    {
      OnRequest(GET_CONFIG, ReportConfig);
      OnRequest(GET_CLIENTS, ReportClients);
      OnRequest(SET_STATE, SwitchServer);
      OnEvent(SHUTDOWN, ShutDown);
      OnEvent(DISCONNECT_CLIENT, ForceDisconnect);
    }

    /** `.message`; `run` is what the request's handler would give. A message that is not a string makes
        the JSON library throw. */
    method OnMessage(incoming: Incoming, run: Run) returns (effect: Effect)
      modifies this`called, this`sent
      ensures effect == Respond(incoming, requestHandlers.Keys, handlers.Keys, run)
      ensures EffectMeans(incoming, requestHandlers.Keys, handlers.Keys, run, effect)
      ensures sent == old(sent) + if effect.Reply? then [effect.answer] else []
      ensures match effect
              case Reply(_) => called == old(called) + [requestHandlers[incoming.fields["message"].text]]
              case Handled => called == old(called) + [handlers[incoming.fields["message"].text]]
              case _ => called == old(called)
    {
      RespondMeans(incoming, requestHandlers.Keys, handlers.Keys, run);
      hide EffectMeans;
      if incoming.Garbage? {
        return Ignored;
      } else if "message" !in incoming.fields {
        return Ignored;
      }
      if !incoming.fields["message"].Text? {
        return Throws;
      }
      var msg := incoming.fields["message"].text;
      if "requestId" in incoming.fields && msg in requestHandlers {
        called := called + [requestHandlers[msg]];
        var res: Message := map[];
        res := res["requestId" := incoming.fields["requestId"]];
        if run.error == "" {
          res := res["data" := run.data];
        } else {
          res := res["error" := Text(run.error)];
        }
        sent := sent + [res];
        effect := Reply(res);
      } else if msg in handlers {
        called := called + [handlers[msg]];
        effect := Handled;
      } else {
        effect := Unknown;
      }
    }
  }
}
