/** The control panel's connection to the server: the table of pending requests and the map of devices,
    changed in place by the socket's callbacks. */
module ControlPanel {
  import opened DeviceIndex
  import opened RequestTable
  import opened Wrappers

  /** A parsed message: one that bears a request id, one of the two events, or neither. */
  datatype Inbound = Response(fields: Message) | Notification(event: Event) | Unhandled

  /** What the window shows once it has taken these notices. */
  function ShownAfter(list: seq<Device>, notices: seq<Notice>): seq<Device>
    decreases |notices|
  {
    if notices == [] then list
    else Shown(ShownAfter(list, notices[..|notices| - 1]), Some(notices[|notices| - 1]))
  }

  /** The loop of `onclose` takes one more request out of those left. */
  lemma OneMoreLost(verdicts: map<Id, Verdict>, pending: set<Id>, left: set<Id>, id: Id)
    requires id in left && left <= pending
    ensures Failing(verdicts, pending - (left - {id})) == Failing(verdicts, pending - left)[id := ConnectionLost]
    ensures multiset(pending - (left - {id})) == multiset(pending - left) + multiset{id}
  {
    assert pending - (left - {id}) == (pending - left) + {id};
  }

  lemma NoneLost(verdicts: map<Id, Verdict>)
    ensures Failing(verdicts, {}) == verdicts
  {}

  lemma ShownOneMore(list: seq<Device>, notices: seq<Notice>, notice: Notice)
    ensures ShownAfter(list, notices + [notice]) == Shown(ShownAfter(list, notices), Some(notice))
  {
    assert (notices + [notice])[..|notices|] == notices;
  }

  class ControlClient {
    var pendingRequests: set<Id>
    var devices: Devices
    var sent: seq<Message>              // what `send` was given
    var notices: seq<Notice>            // what the two device callbacks were given
    var losses: nat                     // how often `onConnectionLost` was called
    ghost var verdicts: map<Id, Verdict>
    ghost var settles: multiset<Id>

    ghost function Table(): Client
      reads this
    {
      Client(pendingRequests, verdicts, settles)
    }

    constructor ()
      ensures Table() == START.client && devices == map[] && sent == [] && notices == [] && losses == 0
    {
      pendingRequests, devices, sent, notices, losses := {}, map[], [], [], 0;
      verdicts, settles := map[], multiset{};
    }

    /** `request`, with the id `crypto.randomUUID` gave. */
    method MakeRequest(id: Id, message: string, data: Value)
      modifies this`pendingRequests, this`sent
      ensures Table() == old(Table()).(pending := old(pendingRequests) + {id})
      ensures sent == old(sent) + [Encode(Request(id, message, data))]
    {
      pendingRequests := pendingRequests + {id};
      var request := map["message" := Text(message), "requestId" := Text(id)];
      if !data.Undefined? {
        request := request["data" := data];
      }
      assert request == Encode(Request(id, message, data));
      sent := sent + [request];
    }

    /** `onmessage` */
    method OnMessage(m: Inbound)
      requires m.Response? ==> "requestId" in m.fields
      modifies this`pendingRequests, this`verdicts, this`settles, this`devices, this`notices
      ensures m.Response? ==>
                Table() == Receive(old(Table()), m.fields) && devices == old(devices) && notices == old(notices)
      ensures m.Notification? ==>
                && Table() == old(Table()) && devices == Updated(old(devices), m.event)
                && var notice := NoticeOf(old(devices), m.event);
                   notices == old(notices) + if notice.Some? then [notice.value] else []
      ensures m.Unhandled? ==> Table() == old(Table()) && devices == old(devices) && notices == old(notices)
    {
      match m {
        case Response(fields) =>
          if fields["requestId"].Text? {
            var id := fields["requestId"].text;
            if id in pendingRequests {
              pendingRequests := pendingRequests - {id};
              if "error" in fields {
                Record(id, Refused(fields["error"]));
              } else {
                Record(id, Resolved(if "data" in fields then fields["data"] else Undefined));
              }
            }
          }
        case Notification(Connected(client)) =>
          var present := client.id in devices;
          devices := devices[client.id := client];
          notices := notices + [Joined(client, present)];
        case Notification(Disconnected(id)) =>
          if id in devices {
            notices := notices + [Left(id, false)];
            devices := devices - {id};
          }
        case Unhandled =>
      }
    }

    /** A call of `resolve` or of `reject`. */
    ghost method Record(id: Id, verdict: Verdict)
      modifies this`verdicts, this`settles
      ensures verdicts == old(verdicts)[id := verdict] && settles == old(settles) + multiset{id}
    {
      verdicts := verdicts[id := verdict];
      settles := settles + multiset{id};
    }

    /** `onclose`: every pending promise is rejected, then the table is cleared. */
    method OnClose()
      modifies this`pendingRequests, this`verdicts, this`settles, this`losses
      ensures Table() == Lose(old(Table())) && losses == old(losses) + 1
    {
      hide Failing;
      var left := pendingRequests;
      NoneLost(verdicts);
      assert pendingRequests - left == {};
      assert multiset(pendingRequests - left) == multiset{};
      while left != {}
        invariant left <= pendingRequests == old(pendingRequests)
        invariant verdicts == Failing(old(verdicts), pendingRequests - left)
        invariant settles == old(settles) + multiset(pendingRequests - left)
        invariant losses == old(losses)
        decreases |left|
      {
        var id :| id in left;
        OneMoreLost(old(verdicts), pendingRequests, left, id);
        left := left - {id};
        Record(id, ConnectionLost);
      }
      pendingRequests := {};
      losses := losses + 1;
    }

    /** `getAllClients` empties the map before it asks. */
    method GetAllClients(id: Id)
      modifies this`devices, this`pendingRequests, this`sent
      ensures devices == map[] && pendingRequests == old(pendingRequests) + {id}
      ensures sent == old(sent) + [Encode(Request(id, "clients/all", Undefined))]
    {
      devices := map[];
      MakeRequest(id, "clients/all", Undefined);
    }

    method GetServerInfo(id: Id)
      modifies this`pendingRequests, this`sent
      ensures pendingRequests == old(pendingRequests) + {id}
      ensures sent == old(sent) + [Encode(Request(id, "config/all", Undefined))]
    {
      MakeRequest(id, "config/all", Undefined);
    }

    method SetServerState(id: Id, options: Value)
      modifies this`pendingRequests, this`sent
      ensures pendingRequests == old(pendingRequests) + {id}
      ensures sent == old(sent) + [Encode(Request(id, "config/serverState", options))]
    {
      MakeRequest(id, "config/serverState", options);
    }

    /** Messages without an id: nothing is pending for them. */
    method ForceDisconnect(device: string)
      modifies this`sent
      ensures sent == old(sent) + [map["message" := Text("clients/disconnect"), "id" := Text(device)]]
    {
      sent := sent + [map["message" := Text("clients/disconnect"), "id" := Text(device)]];
    }

    method Shutdown()
      modifies this`sent
      ensures sent == old(sent) + [map["message" := Text("config/shutdown")]]
    {
      sent := sent + [map["message" := Text("config/shutdown")]];
    }

    /** From a fresh panel, the notices given over any history of events make the window show exactly the
        devices that came in and have not left. */
    method FollowEvents(h: seq<Event>)
      requires devices == map[] && notices == []
      modifies this
      ensures devices == DevicesAfter(h) && ShownAfter([], notices) == Arrivals(h, |h|)
      ensures Table() == old(Table())
    {
      var n := 0;
      while n < |h|
        invariant 0 <= n <= |h| && Table() == old(Table())
        invariant devices == DevicesAfter(h[..n]) && ShownAfter([], notices) == ListAfter(h[..n])
      {
        assert h[..n + 1] == h[..n] + [h[n]];
        Snoc(h[..n], h[n]);
        ghost var before := notices;
        ghost var notice := NoticeOf(devices, h[n]);
        OnMessage(Notification(h[n]));
        if notice.Some? {
          ShownOneMore([], before, notice.value);
        } else {
          assert notices == before;
        }
        n := n + 1;
      }
      assert h[..n] == h;
      ListIsTheHistory(h);
    }
  }
}
