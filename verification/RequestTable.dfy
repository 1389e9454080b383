/** The control panel's requests, end to end: the table of promises in the panel, the two directions of the
    web socket, and the handler in the server that answers. A run is any interleaving of new requests,
    servings, deliveries and lost connections; both directions may be reordered. */
module RequestTable {

  // ---------- the messages ----------

  type Id = string

  /** A JSON value; only strings are looked into. */
  datatype Value = Undefined | Null | Text(text: string) | Structure(json: string)

  type Message = map<string, Value>

  datatype Request = Request(id: Id, message: string, data: Value)

  /** What the panel sends; an undefined member is not written. */
  function Encode(r: Request): Message {
    map["message" := Text(r.message), "requestId" := Text(r.id)] +
    if r.data.Undefined? then map[] else map["data" := r.data]
  }

  /** What it carries: the id, the message, and the data unless they are undefined. */
  lemma EncodeMeans(r: Request)
    ensures var m := Encode(r);
      && m.Keys == {"message", "requestId"} + (if r.data.Undefined? then {} else {"data"})
      && m["message"] == Text(r.message) && m["requestId"] == Text(r.id)
      && (!r.data.Undefined? ==> m["data"] == r.data)
  {
  }

  // ---------- the server ----------

  /** What arrives at the server: text that is not JSON, or a value with these members. */
  datatype Incoming = Garbage | Parsed(fields: Message)

  /** What a request's handler gives back: its data, and an error text it may have set. */
  datatype Run = Run(data: Value, error: string)

  datatype Effect = Ignored | Throws | Reply(answer: Message) | Handled | Unknown

  function Answer(requestId: Value, run: Run): Message {
    map["requestId" := requestId] + if run.error == "" then map["data" := run.data] else map["error" := Text(run.error)]
  }

  function Respond(incoming: Incoming, requests: set<string>, events: set<string>, run: Run): Effect {
    if incoming.Garbage? || "message" !in incoming.fields then Ignored
    else if !incoming.fields["message"].Text? then Throws
    else
      var message := incoming.fields["message"].text;
      if "requestId" in incoming.fields && message in requests then Reply(Answer(incoming.fields["requestId"], run))
      else if message in events then Handled
      else Unknown
  }

  /** What the server does with a message, case by case: it is a request if it bears an id and a request handler
      is registered for it, and otherwise an event if an event handler is. */
  ghost predicate EffectMeans(incoming: Incoming, requests: set<string>, events: set<string>, run: Run, e: Effect) {
    var named := incoming.Parsed? && "message" in incoming.fields;
    var read := named && incoming.fields["message"].Text?;
    var asks := read && "requestId" in incoming.fields && incoming.fields["message"].text in requests;
    var tells := read && !asks && incoming.fields["message"].text in events;
    && (e.Ignored? <==> !named) && (e.Throws? <==> named && !read)
    && (e.Reply? <==> asks) && (e.Handled? <==> tells) && (e.Unknown? <==> read && !asks && !tells)
    && (asks ==>
          && "requestId" in e.answer && e.answer["requestId"] == incoming.fields["requestId"]
          && (run.error == "" ==> e.answer.Keys == {"requestId", "data"} && e.answer["data"] == run.data)
          && (run.error != "" ==> e.answer.Keys == {"requestId", "error"} && e.answer["error"] == Text(run.error)))
  }

  lemma RespondMeans(incoming: Incoming, requests: set<string>, events: set<string>, run: Run)
    ensures EffectMeans(incoming, requests, events, run, Respond(incoming, requests, events, run))
  {
  }

  // ---------- the panel ----------

  /** How a promise ended: by a reply's data, by a reply's error, or by the loss of the connection. */
  datatype Verdict = Resolved(data: Value) | Refused(error: Value) | ConnectionLost

  /** `settles` counts the calls of `resolve` and `reject`, by request. */
  datatype Client = Client(pending: set<Id>, verdicts: map<Id, Verdict>, settles: multiset<Id>)

  function VerdictOf(m: Message): Verdict {
    if "error" in m then Refused(m["error"])
    else Resolved(if "data" in m then m["data"] else Undefined)
  }

  /** An error in the reply refuses the request, whatever else it holds; a reply with neither resolves it. */
  lemma VerdictMeans(m: Message)
    ensures VerdictOf(m).Refused? <==> "error" in m
    ensures "error" in m ==> VerdictOf(m).error == m["error"]
    ensures "error" !in m ==> VerdictOf(m) == Resolved(if "data" in m then m["data"] else Undefined)
  {
  }

  predicate Bears(m: Message, id: Id) {
    "requestId" in m && m["requestId"] == Text(id)
  }

  function Settle(c: Client, id: Id, verdict: Verdict): Client {
    Client(c.pending - {id}, c.verdicts[id := verdict], c.settles + multiset{id})
  }

  function Receive(c: Client, m: Message): Client {
    if "requestId" in m && m["requestId"].Text? && m["requestId"].text in c.pending
    then Settle(c, m["requestId"].text, VerdictOf(m))
    else c
  }

  function Failing(verdicts: map<Id, Verdict>, lost: set<Id>): map<Id, Verdict> {
    map id | id in verdicts.Keys + lost :: if id in lost then ConnectionLost else verdicts[id]
  }

  function Lose(c: Client): Client {
    Client({}, Failing(c.verdicts, c.pending), c.settles + multiset(c.pending))
  }

  // ---------- the whole system ----------

  /** `ran` and `replies` are the server's record: what each handler gave, and how many replies went out. */
  datatype System = System(
    issued: map<Id, Request>, client: Client, toServer: multiset<Request>,
    ran: map<Id, Run>, replies: multiset<Id>, toClient: multiset<Message>)

  const START := System(map[], Client({}, map[], multiset{}), multiset{}, map[], multiset{}, multiset{})

  /** `Close` keeps any part of what is under way: the socket resends what it had queued. */
  datatype Step =
    | Issue(request: Request)
    | Serve(request: Request, run: Run)
    | Deliver(message: Message)
    | Close(up: multiset<Request>, down: multiset<Message>)

  predicate Enabled(s: System, t: Step) {
    match t
    case Issue(r) => r.id !in s.issued
    case Serve(r, _) => r in s.toServer
    case Deliver(m) => m in s.toClient
    case Close(up, down) => up <= s.toServer && down <= s.toClient
  }

  function Issued(s: System, r: Request): System {
    s.(issued := s.issued[r.id := r], client := s.client.(pending := s.client.pending + {r.id}),
       toServer := s.toServer + multiset{r})
  }

  /** The server takes the request off the socket; `answer` is the reply it sends, if it sends one. */
  function Taken(s: System, r: Request, run: Run, effect: Effect): System {
    var left := s.(toServer := s.toServer - multiset{r});
    match effect
    case Reply(answer) =>
      left.(ran := s.ran[r.id := run], replies := s.replies + multiset{r.id}, toClient := s.toClient + multiset{answer})
    case _ => left
  }

  function Delivered(s: System, m: Message): System {
    s.(client := Receive(s.client, m), toClient := s.toClient - multiset{m})
  }

  function Lost(s: System, up: multiset<Request>, down: multiset<Message>): System {
    s.(client := Lose(s.client), toServer := up, toClient := down)
  }

  function Next(s: System, t: Step, requests: set<string>, events: set<string>): System
    requires Enabled(s, t)
  {
    match t
    case Issue(r) => Issued(s, r)
    case Serve(r, run) => Taken(s, r, run, Respond(Parsed(Encode(r)), requests, events, run))
    case Deliver(m) => Delivered(s, m)
    case Close(up, down) => Lost(s, up, down)
  }

  /** Every step of the run is enabled where it happens. */
  ghost predicate Possible(steps: seq<Step>, requests: set<string>, events: set<string>)
    decreases |steps|, 0
  {
    steps == [] ||
    (Possible(steps[..|steps| - 1], requests, events) &&
     Enabled(After(steps[..|steps| - 1], requests, events), steps[|steps| - 1]))
  }

  ghost function After(steps: seq<Step>, requests: set<string>, events: set<string>): System
    requires Possible(steps, requests, events)
    decreases |steps|, 1
  {
    if steps == [] then START
    else Next(After(steps[..|steps| - 1], requests, events), steps[|steps| - 1], requests, events)
  }

  // ---------- what every step keeps ----------

  /** A request is pending or settled, once. */
  ghost predicate Counted(s: System) {
    && s.issued.Keys == s.client.pending + s.client.verdicts.Keys
    && s.client.pending !! s.client.verdicts.Keys
    && forall id :: s.client.settles[id] == if id in s.client.verdicts then 1 else 0
  }

  /** A request under way is the one issued, there once, and not served yet. */
  ghost predicate Upwards(s: System) {
    && (forall id :: id in s.issued ==> s.issued[id].id == id)
    && forall r: Request :: r in s.toServer ==>
         r.id in s.issued && s.issued[r.id] == r && s.toServer[r] == 1 && r.id !in s.ran
  }

  /** A handler ran for a request that was issued, and answered it once. */
  ghost predicate Served(s: System, requests: set<string>) {
    && (forall id :: id in s.ran ==> id in s.issued && s.issued[id].message in requests)
    && forall id :: s.replies[id] == if id in s.ran then 1 else 0
  }

  ghost predicate IsAnswerTo(m: Message, id: Id, s: System) {
    id in s.ran && m == Answer(Text(id), s.ran[id])
  }

  ghost predicate Downwards(s: System) {
    forall m: Message :: m in s.toClient ==>
      "requestId" in m && m["requestId"].Text? && IsAnswerTo(m, m["requestId"].text, s) && s.toClient[m] == 1
  }

  function OutcomeOf(run: Run): Verdict {
    if run.error == "" then Resolved(run.data) else Refused(Text(run.error))
  }

  /** A request ended by the loss of the connection or as its own handler decided. */
  ghost predicate Honest(s: System) {
    forall id :: id in s.client.verdicts ==>
      s.client.verdicts[id] == ConnectionLost || (id in s.ran && s.client.verdicts[id] == OutcomeOf(s.ran[id]))
  }

  /** A pending request is still under way, or its answer is, or it is one no handler is registered for. */
  ghost predicate Accounted(s: System, requests: set<string>) {
    forall id :: id in s.client.pending && id in s.issued && s.issued[id].message in requests ==>
      s.issued[id] in s.toServer || (id in s.ran && Answer(Text(id), s.ran[id]) in s.toClient)
  }

  ghost predicate Inv(s: System, requests: set<string>) {
    Counted(s) && Upwards(s) && Served(s, requests) && Downwards(s) && Honest(s) && Accounted(s, requests)
  }

  lemma AnswerIsRead(id: Id, run: Run)
    ensures VerdictOf(Answer(Text(id), run)) == OutcomeOf(run) && Bears(Answer(Text(id), run), id)
  {}

  /** The server answers a request exactly if a handler is registered for it, with the request's own id,
      and the panel reads from the answer what the handler gave. */
  lemma RequestIsAnswered(r: Request, requests: set<string>, events: set<string>, run: Run)
    ensures r.message in requests ==>
              Respond(Parsed(Encode(r)), requests, events, run) == Reply(Answer(Text(r.id), run))
    ensures r.message !in requests ==> !Respond(Parsed(Encode(r)), requests, events, run).Reply?
  {}

  lemma IssueKeeps(s: System, r: Request, requests: set<string>)
    requires Inv(s, requests) && r.id !in s.issued
    ensures Inv(Issued(s, r), requests)
  {
    hide Counted, Upwards, Served, Downwards, Honest, Accounted, Issued;
    IssueCounts(s, r);
    IssueAccounts(s, r, requests);
    IssueUpwards(s, r, requests);
    IssueKeepsRecord(s, r, requests);
  }

  lemma IssueCounts(s: System, r: Request)
    requires Counted(s) && r.id !in s.issued
    ensures Counted(Issued(s, r))
  {}

  lemma IssueAccounts(s: System, r: Request, requests: set<string>)
    requires Accounted(s, requests) && r.id !in s.issued
    ensures Accounted(Issued(s, r), requests)
  {}

  lemma IssueUpwards(s: System, r: Request, requests: set<string>)
    requires Upwards(s) && Served(s, requests) && r.id !in s.issued
    ensures Upwards(Issued(s, r))
  {
    assert r !in s.toServer && r.id !in s.ran;
    var n := Issued(s, r);
    forall q: Request | q in n.toServer
      ensures q.id in n.issued && n.issued[q.id] == q && n.toServer[q] == 1 && q.id !in n.ran
    {
      if q != r { assert q in s.toServer && q.id != r.id; }
    }
  }

  lemma IssueKeepsRecord(s: System, r: Request, requests: set<string>)
    requires Served(s, requests) && Downwards(s) && Honest(s) && r.id !in s.issued
    ensures Served(Issued(s, r), requests) && Downwards(Issued(s, r)) && Honest(Issued(s, r))
  {
    hide Answer, OutcomeOf;
  }

  lemma ServeKeeps(s: System, r: Request, run: Run, requests: set<string>)
    requires Inv(s, requests) && r in s.toServer && r.message in requests
    ensures Inv(Taken(s, r, run, Reply(Answer(Text(r.id), run))), requests)
  {
    hide Counted, Served, Downwards, Honest, Accounted, Taken;
    ServeKeepsClient(s, r, run);
    ServeUpwards(s, r, run);
    ServeServed(s, r, run, requests);
    ServeDownwards(s, r, run);
    ServeAccounts(s, r, run, requests);
  }

  lemma ServeKeepsClient(s: System, r: Request, run: Run)
    requires Counted(s) && Honest(s) && r in s.toServer && r.id !in s.ran
    ensures Counted(Taken(s, r, run, Reply(Answer(Text(r.id), run))))
    ensures Honest(Taken(s, r, run, Reply(Answer(Text(r.id), run))))
  {
    hide Answer, OutcomeOf;
  }

  lemma ServeUpwards(s: System, r: Request, run: Run)
    requires Upwards(s) && r in s.toServer
    ensures Upwards(Taken(s, r, run, Reply(Answer(Text(r.id), run))))
  {
    hide Answer;
  }

  lemma ServeServed(s: System, r: Request, run: Run, requests: set<string>)
    requires Served(s, requests) && r.message in requests
    requires r.id in s.issued && s.issued[r.id] == r && r.id !in s.ran
    ensures Served(Taken(s, r, run, Reply(Answer(Text(r.id), run))), requests)
  {
    var answer := Answer(Text(r.id), run);
    hide Answer;
    var n := Taken(s, r, run, Reply(answer));
    assert n.ran == s.ran[r.id := run] && n.issued == s.issued && n.replies == s.replies + multiset{r.id};
    hide Taken;
  }

  lemma ServeDownwards(s: System, r: Request, run: Run)
    requires Downwards(s) && r in s.toServer && r.id !in s.ran
    ensures Downwards(Taken(s, r, run, Reply(Answer(Text(r.id), run))))
  {
    AnswerIsRead(r.id, run);
    hide Answer;
    var answer := Answer(Text(r.id), run);
    assert answer !in s.toClient;
  }

  lemma ServeAccounts(s: System, r: Request, run: Run, requests: set<string>)
    requires Upwards(s) && Accounted(s, requests) && r in s.toServer
    ensures Accounted(Taken(s, r, run, Reply(Answer(Text(r.id), run))), requests)
  {
    hide Answer;
  }

  lemma PassKeeps(s: System, r: Request, run: Run, requests: set<string>, effect: Effect)
    requires Inv(s, requests) && r in s.toServer && r.message !in requests && !effect.Reply?
    ensures Inv(Taken(s, r, run, effect), requests)
  {
    hide Answer, OutcomeOf, Counted, Served, Downwards, Honest;
    hide Upwards, Accounted, Taken;
    PassKeepsRecord(s, r, run, requests, effect);
    PassUpwards(s, r, run, requests, effect);
  }

  lemma PassKeepsRecord(s: System, r: Request, run: Run, requests: set<string>, effect: Effect)
    requires Counted(s) && Served(s, requests) && Downwards(s) && Honest(s) && !effect.Reply?
    ensures Counted(Taken(s, r, run, effect)) && Served(Taken(s, r, run, effect), requests)
    ensures Downwards(Taken(s, r, run, effect)) && Honest(Taken(s, r, run, effect))
  {
    hide Answer, OutcomeOf;
  }

  lemma PassUpwards(s: System, r: Request, run: Run, requests: set<string>, effect: Effect)
    requires Upwards(s) && Accounted(s, requests) && r in s.toServer && r.message !in requests && !effect.Reply?
    ensures Upwards(Taken(s, r, run, effect)) && Accounted(Taken(s, r, run, effect), requests)
  {
    hide Answer;
  }

  lemma DeliverKeeps(s: System, m: Message, requests: set<string>)
    requires Inv(s, requests) && m in s.toClient
    ensures Inv(Delivered(s, m), requests)
  {
    hide Counted, Upwards, Served, Honest, Accounted, IsAnswerTo;
    assert IsAnswerTo(m, m["requestId"].text, s);
    DeliverKeepsRecord(s, m, requests);
    DeliverCounts(s, m);
    DeliverHonest(s, m);
    DeliverAccounts(s, m, requests);
  }

  lemma DeliverKeepsRecord(s: System, m: Message, requests: set<string>)
    requires Upwards(s) && Served(s, requests) && Downwards(s) && m in s.toClient
    ensures Upwards(Delivered(s, m)) && Served(Delivered(s, m), requests) && Downwards(Delivered(s, m))
  {
    hide Answer, OutcomeOf, Receive;
  }

  lemma DeliverCounts(s: System, m: Message)
    requires Counted(s)
    ensures Counted(Delivered(s, m))
  {}

  lemma DeliverHonest(s: System, m: Message)
    requires Honest(s) && "requestId" in m && m["requestId"].Text? && IsAnswerTo(m, m["requestId"].text, s)
    ensures Honest(Delivered(s, m))
  {
    AnswerIsRead(m["requestId"].text, s.ran[m["requestId"].text]);
    hide Answer, OutcomeOf, VerdictOf;
  }

  lemma DeliverAccounts(s: System, m: Message, requests: set<string>)
    requires Accounted(s, requests) && "requestId" in m && m["requestId"].Text?
    requires IsAnswerTo(m, m["requestId"].text, s)
    ensures Accounted(Delivered(s, m), requests)
  {}

  lemma CloseKeeps(s: System, up: multiset<Request>, down: multiset<Message>, requests: set<string>)
    requires Inv(s, requests) && up <= s.toServer && down <= s.toClient
    ensures Inv(Lost(s, up, down), requests)
  {
    hide Counted, Upwards, Served, Downwards, Honest;
    CloseCounts(s, up, down);
    CloseHonest(s, up, down);
    CloseKeepsRecord(s, up, down, requests);
  }

  lemma CloseCounts(s: System, up: multiset<Request>, down: multiset<Message>)
    requires Counted(s)
    ensures Counted(Lost(s, up, down))
  {}

  lemma CloseHonest(s: System, up: multiset<Request>, down: multiset<Message>)
    requires Honest(s)
    ensures Honest(Lost(s, up, down))
  {
    hide OutcomeOf;
  }

  lemma CloseKeepsRecord(s: System, up: multiset<Request>, down: multiset<Message>, requests: set<string>)
    requires Upwards(s) && Served(s, requests) && Downwards(s) && up <= s.toServer && down <= s.toClient
    ensures Upwards(Lost(s, up, down)) && Served(Lost(s, up, down), requests) && Downwards(Lost(s, up, down))
  {
    hide Answer, Lose;
  }

  lemma {:induction false} Invariant(steps: seq<Step>, requests: set<string>, events: set<string>)
    requires Possible(steps, requests, events)
    ensures Inv(After(steps, requests, events), requests)
    decreases |steps|
  {
    if steps != [] {
      hide Inv, Issued, Taken, Delivered, Lost, Respond, Encode, Answer;
      var front, t := steps[..|steps| - 1], steps[|steps| - 1];
      Invariant(front, requests, events);
      StepKeeps(After(front, requests, events), t, requests, events);
    }
  }

  lemma StepKeeps(s: System, t: Step, requests: set<string>, events: set<string>)
    requires Inv(s, requests) && Enabled(s, t)
    ensures Inv(Next(s, t, requests, events), requests)
  {
    hide Inv, Issued, Taken, Delivered, Lost, Respond, Encode, Answer;
    match t
    case Issue(r) => IssueKeeps(s, r, requests);
    case Serve(r, run) =>
      RequestIsAnswered(r, requests, events, run);
      if r.message in requests {
        ServeKeeps(s, r, run, requests);
      } else {
        PassKeeps(s, r, run, requests, Respond(Parsed(Encode(r)), requests, events, run));
      }
    case Deliver(m) => DeliverKeeps(s, m, requests);
    case Close(up, down) => CloseKeeps(s, up, down, requests);
  }

  // ---------- what follows for every run ----------

  function ResolvedIds(c: Client): set<Id> {
    set id | id in c.verdicts && c.verdicts[id].Resolved?
  }

  function RejectedIds(c: Client): set<Id> {
    set id | id in c.verdicts && !c.verdicts[id].Resolved?
  }

  lemma Cardinality(c: Client)
    requires c.pending !! c.verdicts.Keys
    ensures ResolvedIds(c) !! RejectedIds(c)
    ensures c.pending + c.verdicts.Keys == ResolvedIds(c) + RejectedIds(c) + c.pending
    ensures |c.pending + c.verdicts.Keys| == |ResolvedIds(c)| + |RejectedIds(c)| + |c.pending|
  {
    assert c.verdicts.Keys == ResolvedIds(c) + RejectedIds(c);
    assert c.pending + c.verdicts.Keys == (ResolvedIds(c) + RejectedIds(c)) + c.pending;
  }

  /** In every run each issued request is resolved, rejected or pending, exactly one of them, and `resolve`
      and `reject` are called at most once for it, and never for anything else. */
  lemma IssuedIsConserved(steps: seq<Step>, requests: set<string>, events: set<string>)
    requires Possible(steps, requests, events)
    ensures var s := After(steps, requests, events);
            && s.issued.Keys == ResolvedIds(s.client) + RejectedIds(s.client) + s.client.pending
            && |s.issued| == |ResolvedIds(s.client)| + |RejectedIds(s.client)| + |s.client.pending|
            && forall id :: s.client.settles[id] == if id in s.issued && id !in s.client.pending then 1 else 0
  {
    hide After, Upwards, Served, Downwards, Honest, Accounted;
    Invariant(steps, requests, events);
    var s := After(steps, requests, events);
    Cardinality(s.client);
    assert |s.issued| == |s.issued.Keys|;
  }

  /** A request is resolved only with the data its own handler returned without an error, and refused only
      with the error its own handler set; one that no handler is registered for ends only with the connection. */
  lemma VerdictIsItsOwn(steps: seq<Step>, requests: set<string>, events: set<string>, id: Id)
    requires Possible(steps, requests, events) && id in After(steps, requests, events).client.verdicts
    ensures var s := After(steps, requests, events);
            && id in s.issued
            && (s.issued[id].message !in requests ==> s.client.verdicts[id] == ConnectionLost)
            && match s.client.verdicts[id]
               case Resolved(data) => id in s.ran && s.ran[id] == Run(data, "")
               case Refused(error) => id in s.ran && error == Text(s.ran[id].error) && s.ran[id].error != ""
               case ConnectionLost => true
  {
    hide After, Upwards, Downwards, Accounted;
    Invariant(steps, requests, events);
  }

  /** The server answers a request at most once, and only a request that was issued and has a handler. */
  lemma AnsweredAtMostOnce(steps: seq<Step>, requests: set<string>, events: set<string>, id: Id)
    requires Possible(steps, requests, events)
    ensures var s := After(steps, requests, events);
            && s.replies[id] <= 1
            && (s.replies[id] == 1 <==> id in s.ran)
            && (id in s.ran ==> id in s.issued && s.issued[id].message in requests)
            && forall m: Message :: m in s.toClient && Bears(m, id) ==> id in s.ran && m == Answer(Text(id), s.ran[id])
  {
    hide After, Counted, Upwards, Honest, Accounted;
    Invariant(steps, requests, events);
  }

  lemma IssuedConservesPending(steps: seq<Step>, requests: set<string>, events: set<string>, id: Id)
    requires Possible(steps, requests, events) && id in After(steps, requests, events).client.pending
    ensures id in After(steps, requests, events).issued
  {
    hide After, Upwards, Served, Downwards, Honest, Accounted;
    Invariant(steps, requests, events);
  }

  /** What ends a request in a step: a reply bearing its id, with the verdict read from it, or a close. */
  lemma SettledInStep(s: System, t: Step, requests: set<string>, events: set<string>, id: Id)
    requires Enabled(s, t) && s.client.pending !! s.client.verdicts.Keys
    ensures var n := Next(s, t, requests, events);
            && (id in s.client.verdicts ==> id in n.client.verdicts && n.client.verdicts[id] == s.client.verdicts[id])
            && (id !in s.client.verdicts && id in n.client.verdicts ==>
                  id in s.client.pending && EndedBy(t, id, n.client.verdicts[id]))
  {
    hide Respond, Encode, Answer, VerdictOf;
  }

  predicate EndedBy(t: Step, id: Id, verdict: Verdict) {
    match t
    case Deliver(m) => Bears(m, id) && verdict == VerdictOf(m)
    case Close(_, _) => verdict == ConnectionLost
    case _ => false
  }

  lemma IssuedAfter(s: System, t: Step, requests: set<string>, events: set<string>)
    requires Enabled(s, t)
    ensures Next(s, t, requests, events).issued == if t.Issue? then s.issued[t.request.id := t.request] else s.issued
  {
    hide Respond, Encode, Answer, Receive, Lose;
  }

  lemma LastStep(steps: seq<Step>, requests: set<string>, events: set<string>)
    requires steps != [] && Possible(steps, requests, events)
    ensures var front, t := steps[..|steps| - 1], steps[|steps| - 1];
            && Possible(front, requests, events) && Enabled(After(front, requests, events), t)
            && After(steps, requests, events) == Next(After(front, requests, events), t, requests, events)
  {
    hide Next, Enabled;
  }

  /** Until step `k` the request was pending, and that step gave it the verdict. */
  ghost predicate EndedAt(steps: seq<Step>, k: nat, id: Id, verdict: Verdict,
                          requests: set<string>, events: set<string>) {
    && k < |steps| && Possible(steps[..k], requests, events)
    && id in After(steps[..k], requests, events).client.pending && EndedBy(steps[k], id, verdict)
  }

  lemma EndedEarlier(steps: seq<Step>, k: nat, id: Id, verdict: Verdict, requests: set<string>, events: set<string>)
    requires steps != [] && EndedAt(steps[..|steps| - 1], k, id, verdict, requests, events)
    ensures EndedAt(steps, k, id, verdict, requests, events)
  {
    hide Possible, After, EndedBy;
    assert steps[..|steps| - 1][..k] == steps[..k];
  }

  /** In every run each settled request was pending until one step, the delivery of a reply bearing its id, or
      a close, and has the verdict which that step gave it. */
  lemma {:induction false} SettledByReplyOrClose(steps: seq<Step>, requests: set<string>, events: set<string>, id: Id)
    returns (k: nat)
    requires Possible(steps, requests, events) && id in After(steps, requests, events).client.verdicts
    ensures EndedAt(steps, k, id, After(steps, requests, events).client.verdicts[id], requests, events)
    decreases |steps|
  {
    if steps == [] {
      EmptyRun(requests, events);
      assert false;
    } else {
      hide After, Possible, Next, Enabled, EndedBy, EndedAt, Upwards, Served, Downwards, Honest, Accounted;
      var front, t := steps[..|steps| - 1], steps[|steps| - 1];
      var verdict := After(steps, requests, events).client.verdicts[id];
      LastStep(steps, requests, events);
      Invariant(front, requests, events);
      SettledInStep(After(front, requests, events), t, requests, events, id);
      hide Inv, Counted;
      if id in After(front, requests, events).client.verdicts {
        k := SettledByReplyOrClose(front, requests, events, id);
        EndedEarlier(steps, k, id, verdict, requests, events);
      } else {
        k := |front|;
        EndedLast(steps, id, verdict, requests, events);
      }
    }
  }

  lemma EndedLast(steps: seq<Step>, id: Id, verdict: Verdict, requests: set<string>, events: set<string>)
    requires steps != [] && Possible(steps[..|steps| - 1], requests, events)
    requires id in After(steps[..|steps| - 1], requests, events).client.pending
    requires EndedBy(steps[|steps| - 1], id, verdict)
    ensures EndedAt(steps, |steps| - 1, id, verdict, requests, events)
  {
    hide Possible, After, EndedBy;
  }

  /** A settled request keeps its verdict, however the run goes on. */
  lemma {:induction false} VerdictIsFinal(steps: seq<Step>, more: seq<Step>,
                                          requests: set<string>, events: set<string>, id: Id)
    requires Possible(steps, requests, events) && Possible(steps + more, requests, events)
    requires id in After(steps, requests, events).client.verdicts
    ensures var s, n := After(steps, requests, events), After(steps + more, requests, events);
            id in n.client.verdicts && n.client.verdicts[id] == s.client.verdicts[id]
    decreases |more|
  {
    hide After, Possible, Next, Enabled, EndedBy, Upwards, Served, Downwards, Honest, Accounted;
    if more == [] {
      assert steps + more == steps;
    } else {
      var front, t := more[..|more| - 1], more[|more| - 1];
      assert (steps + more)[..|steps + more| - 1] == steps + front;
      LastStep(steps + more, requests, events);
      VerdictIsFinal(steps, front, requests, events, id);
      Invariant(steps + front, requests, events);
      SettledInStep(After(steps + front, requests, events), t, requests, events, id);
    }
  }

  /** A close leaves nothing pending, fails exactly what was pending, and touches nothing else. */
  lemma CloseLeavesNonePending(steps: seq<Step>, up: multiset<Request>, down: multiset<Message>,
                               requests: set<string>, events: set<string>)
    requires Possible(steps, requests, events) && Enabled(After(steps, requests, events), Close(up, down))
    ensures var s := After(steps, requests, events);
            var n := Next(s, Close(up, down), requests, events);
            && n.client.pending == {} && n.issued == s.issued && n.client.verdicts.Keys == n.issued.Keys
            && forall id :: id in n.issued ==>
                 n.client.verdicts[id] == if id in s.client.pending then ConnectionLost else s.client.verdicts[id]
  {
    hide After, Upwards, Served, Downwards, Honest, Accounted;
    Invariant(steps, requests, events);
  }

  lemma OneMore(steps: seq<Step>, t: Step, requests: set<string>, events: set<string>)
    requires Possible(steps, requests, events) && Enabled(After(steps, requests, events), t)
    ensures Possible(steps + [t], requests, events)
    ensures After(steps + [t], requests, events) == Next(After(steps, requests, events), t, requests, events)
  {
    hide Next, Enabled;
    assert (steps + [t])[..|steps + [t]| - 1] == steps;
  }

  /** Nothing is forgotten: at most two more steps, its serving and its delivery, settle any pending request
      that a handler is registered for, with what that handler gives. */
  lemma PendingCanBeSettled(steps: seq<Step>, requests: set<string>, events: set<string>, id: Id, run: Run)
      returns (more: seq<Step>)
    requires Possible(steps, requests, events)
    requires var s := After(steps, requests, events);
             id in s.client.pending && id in s.issued && s.issued[id].message in requests
    ensures |more| <= 2 && Possible(steps + more, requests, events)
    ensures var s := After(steps, requests, events);
            var n := After(steps + more, requests, events);
            id in n.client.verdicts && n.client.verdicts[id] == OutcomeOf(if id in s.ran then s.ran[id] else run)
  {
    hide After, Possible, Enabled, Next, Answer, Respond, Encode, OutcomeOf, VerdictOf, Counted, Served, Honest;
    Invariant(steps, requests, events);
    var s := After(steps, requests, events);
    if id in s.ran && Answer(Text(id), s.ran[id]) in s.toClient {
      more := [Deliver(Answer(Text(id), s.ran[id]))];
      DeliverSettles(steps, requests, events, id, s.ran[id]);
    } else {
      assert id !in s.ran;
      var serve, deliver := Serve(s.issued[id], run), Deliver(Answer(Text(id), run));
      ServeAnswers(steps, requests, events, id, run);
      DeliverSettles(steps + [serve], requests, events, id, run);
      more := [serve, deliver];
      assert steps + more == steps + [serve] + [deliver];
    }
  }

  lemma DeliverSettles(steps: seq<Step>, requests: set<string>, events: set<string>, id: Id, run: Run)
    requires Possible(steps, requests, events)
    requires var s := After(steps, requests, events); id in s.client.pending && Answer(Text(id), run) in s.toClient
    ensures var t := Deliver(Answer(Text(id), run));
            && Possible(steps + [t], requests, events)
            && var n := After(steps + [t], requests, events);
               id in n.client.verdicts && n.client.verdicts[id] == OutcomeOf(run)
  {
    AnswerIsRead(id, run);
    hide After, Possible, Answer, VerdictOf, OutcomeOf;
    OneMore(steps, Deliver(Answer(Text(id), run)), requests, events);
  }

  lemma ServeAnswers(steps: seq<Step>, requests: set<string>, events: set<string>, id: Id, run: Run)
    requires Possible(steps, requests, events)
    requires var s := After(steps, requests, events);
             && id in s.client.pending && id in s.issued && s.issued[id].message in requests
             && s.issued[id].id == id && s.issued[id] in s.toServer
    ensures var t := Serve(After(steps, requests, events).issued[id], run);
            && Possible(steps + [t], requests, events)
            && var n := After(steps + [t], requests, events);
               id in n.client.pending && Answer(Text(id), run) in n.toClient
  {
    hide After, Possible, Answer, Respond, Encode;
    var r := After(steps, requests, events).issued[id];
    RequestIsAnswered(r, requests, events, run);
    OneMore(steps, Serve(r, run), requests, events);
  }

  /** Losing the connection does not undo the request: the server may have served it already. */
  lemma ServedThenLost(r: Request, run: Run, requests: set<string>, events: set<string>)
    requires r.message in requests
    ensures var steps := [Issue(r), Serve(r, run), Close(multiset{}, multiset{})];
            Possible(steps, requests, events) && ServedButLost(After(steps, requests, events), r.id, run)
  {
    hide Possible, After, Respond, Encode, Answer;
    RequestIsAnswered(r, requests, events, run);
    var none, all := multiset{}, multiset{};
    IssuedFirst(r, requests, events);
    OneMore([Issue(r)], Serve(r, run), requests, events);
    OneMore([Issue(r)] + [Serve(r, run)], Close(none, all), requests, events);
    assert [Issue(r)] + [Serve(r, run)] + [Close(none, all)] == [Issue(r), Serve(r, run), Close(none, all)];
  }

  lemma IssuedThenLost(r: Request, requests: set<string>, events: set<string>)
    ensures var steps := [Issue(r), Close(multiset{r}, multiset{})];
            && Possible(steps, requests, events)
            && var s := After(steps, requests, events);
               r in s.toServer && r.id in s.client.verdicts && s.client.verdicts[r.id] == ConnectionLost
  {
    hide Possible, After, Respond, Encode, Answer;
    var close := Close(multiset{r}, multiset{});
    IssuedFirst(r, requests, events);
    OneMore([Issue(r)], close, requests, events);
    assert [Issue(r)] + [close] == [Issue(r), close];
  }

  /** If the socket resends what it had queued, the server may even serve it after the panel has failed it. */
  lemma LostThenServed(r: Request, run: Run, requests: set<string>, events: set<string>)
    requires r.message in requests
    ensures var steps := [Issue(r), Close(multiset{r}, multiset{}), Serve(r, run)];
            Possible(steps, requests, events) && ServedButLost(After(steps, requests, events), r.id, run)
  {
    hide Possible, After, Respond, Encode, Answer, Issued, Lost, Delivered;
    RequestIsAnswered(r, requests, events, run);
    var front := [Issue(r), Close(multiset{r}, multiset{})];
    IssuedThenLost(r, requests, events);
    OneMore(front, Serve(r, run), requests, events);
    assert front + [Serve(r, run)] == [Issue(r), Close(multiset{r}, multiset{}), Serve(r, run)];
  }

  ghost predicate ServedButLost(s: System, id: Id, run: Run) {
    id in s.ran && s.ran[id] == run && id in s.client.verdicts && s.client.verdicts[id] == ConnectionLost
  }

  lemma IssuedFirst(r: Request, requests: set<string>, events: set<string>)
    ensures Possible([Issue(r)], requests, events) && After([Issue(r)], requests, events) == Issued(START, r)
  {
    EmptyRun(requests, events);
    hide Possible, After;
    OneMore([], Issue(r), requests, events);
    assert [] + [Issue(r)] == [Issue(r)];
  }

  // ---------- requests that are served although their connection was lost ----------

  lemma {:induction false} NeverServed(steps: seq<Step>, more: seq<Step>,
                                       requests: set<string>, events: set<string>, id: Id)
    requires Possible(steps, requests, events) && Possible(steps + more, requests, events)
    requires var s := After(steps, requests, events); Gone(s, id)
    ensures Gone(After(steps + more, requests, events), id)
    decreases |more|
  {
    hide After, Possible, Next, Enabled, Gone, Inv;
    if more == [] {
      assert steps + more == steps;
    } else {
      var front, t := more[..|more| - 1], more[|more| - 1];
      assert (steps + more)[..|steps + more| - 1] == steps + front;
      LastStep(steps + more, requests, events);
      NeverServed(steps, front, requests, events, id);
      Invariant(steps + front, requests, events);
      GoneStep(After(steps + front, requests, events), t, requests, events, id);
    }
  }

  /** The request was issued, has not been served, and is not under way. */
  ghost predicate Gone(s: System, id: Id) {
    id in s.issued && id !in s.ran && forall r: Request :: r in s.toServer ==> r.id != id
  }

  lemma GoneStep(s: System, t: Step, requests: set<string>, events: set<string>, id: Id)
    requires Enabled(s, t) && Gone(s, id)
    ensures Gone(Next(s, t, requests, events), id)
  {
    hide Respond, Encode, Answer, Receive, Lose;
  }

  lemma IssuedAsItself(steps: seq<Step>, requests: set<string>, events: set<string>, id: Id)
    requires Possible(steps, requests, events) && id in After(steps, requests, events).client.pending
    requires var s := After(steps, requests, events); id in s.issued && s.issued[id].message in requests
    ensures var s := After(steps, requests, events);
            && (forall r: Request :: r in s.toServer && r.id == id ==> r == s.issued[id])
            && (id in s.ran ==> s.issued[id] !in s.toServer) && s.issued[id].id == id
  {
    hide After, Possible, Counted, Served, Downwards, Honest, Accounted;
    Invariant(steps, requests, events);
  }

  /** A request that a close has failed is served all the same, exactly: it has been if its handler had run by
      then, and otherwise some continuation serves it if and only if it is among what the socket kept. */
  lemma ServedDespiteClose(steps: seq<Step>, up: multiset<Request>, down: multiset<Message>,
                           requests: set<string>, events: set<string>, id: Id)
    requires Possible(steps, requests, events) && Enabled(After(steps, requests, events), Close(up, down))
    requires var s := After(steps, requests, events);
             id in s.client.pending && id in s.issued && s.issued[id].message in requests
    ensures var s, closed := After(steps, requests, events), steps + [Close(up, down)];
            && Possible(closed, requests, events)
            && (id in After(closed, requests, events).ran <==> id in s.ran)
            && (id in s.ran || s.issued[id] in up <==> CanBeServed(closed, requests, events, id))
            && (id in s.ran ==> s.issued[id] !in up)
  {
    hide After, Possible, Answer, Respond, Encode, Receive, Lose;
    var s, close := After(steps, requests, events), Close(up, down);
    IssuedAsItself(steps, requests, events, id);
    OneMore(steps, close, requests, events);
    var closed := steps + [close];
    var n := After(closed, requests, events);
    assert n.toServer == up && n.ran == s.ran && n.issued == s.issued;
    if id in s.ran {
      assert closed + [] == closed;
    } else if s.issued[id] in up {
      RequestServed(closed, requests, events, s.issued[id], id);
    } else {
      assert Gone(n, id);
      NotServedLater(closed, requests, events, id);
    }
  }

  /** In some continuation the request's handler runs, or it has run already. */
  ghost predicate CanBeServed(steps: seq<Step>, requests: set<string>, events: set<string>, id: Id)
    requires Possible(steps, requests, events)
  {
    exists more :: Possible(steps + more, requests, events) && id in After(steps + more, requests, events).ran
  }

  lemma NotServedLater(steps: seq<Step>, requests: set<string>, events: set<string>, id: Id)
    requires Possible(steps, requests, events) && Gone(After(steps, requests, events), id)
    ensures !CanBeServed(steps, requests, events, id)
  {
    hide After, Possible;
    forall more | Possible(steps + more, requests, events) ensures id !in After(steps + more, requests, events).ran {
      NeverServed(steps, more, requests, events, id);
    }
  }

  lemma RequestServed(steps: seq<Step>, requests: set<string>, events: set<string>, r: Request, id: Id)
    requires Possible(steps, requests, events) && r in After(steps, requests, events).toServer && r.id == id
    requires r.message in requests
    ensures CanBeServed(steps, requests, events, id)
  {
    hide After, Possible, Answer, Respond, Encode;
    var run := Run(Null, "");
    RequestIsAnswered(r, requests, events, run);
    OneMore(steps, Serve(r, run), requests, events);
    assert id in After(steps + [Serve(r, run)], requests, events).ran;
  }

  lemma EmptyRun(requests: set<string>, events: set<string>)
    ensures Possible([], requests, events) && After([], requests, events) == START
  {}

  // ---------- the order of the replies ----------

  function ReceiveAll(c: Client, ms: seq<Message>): Client
    decreases |ms|
  {
    if ms == [] then c else ReceiveAll(Receive(c, ms[0]), ms[1..])
  }

  /** Two messages that bear the same id are the same reply. */
  predicate Agree(m: Message, n: Message) {
    "requestId" in m && "requestId" in n && m["requestId"] == n["requestId"] ==> m == n
  }

  lemma SettlesCommute(c: Client, id: Id, v: Verdict, id': Id, v': Verdict)
    requires id != id'
    ensures Settle(Settle(c, id, v), id', v') == Settle(Settle(c, id', v'), id, v)
  {
    assert c.verdicts[id := v][id' := v'] == c.verdicts[id' := v'][id := v];
  }

  lemma Commute(c: Client, m: Message, n: Message)
    requires Agree(m, n)
    ensures Receive(Receive(c, m), n) == Receive(Receive(c, n), m)
  {
    ReceiveMeans(c, m);
    ReceiveMeans(c, n);
    ReceiveMeans(Receive(c, m), n);
    ReceiveMeans(Receive(c, n), m);
    if m != n && Awaits(c, m) && Awaits(c, n) {
      SettlesCommute(c, m["requestId"].text, VerdictOf(m), n["requestId"].text, VerdictOf(n));
    }
    hide Receive, VerdictOf;
  }

  predicate Awaits(c: Client, m: Message) {
    "requestId" in m && m["requestId"].Text? && m["requestId"].text in c.pending
  }

  lemma ReceiveMeans(c: Client, m: Message)
    ensures Receive(c, m) == if Awaits(c, m) then Settle(c, m["requestId"].text, VerdictOf(m)) else c
    ensures Receive(c, m).pending == if Awaits(c, m) then c.pending - {m["requestId"].text} else c.pending
  {
  }

  lemma {:induction false} BringForward(c: Client, ms: seq<Message>, k: nat)
    requires k < |ms|
    requires forall i | 0 <= i < |ms| :: Agree(ms[i], ms[k])
    ensures ReceiveAll(c, ms) == ReceiveAll(Receive(c, ms[k]), ms[..k] + ms[k + 1..])
    decreases |ms|
  {
    hide Receive, Agree;
    if k == 0 {
      assert ms[..0] + ms[1..] == ms[1..];
    } else {
      BringForward(Receive(c, ms[0]), ms[1..], k - 1);
      Commute(c, ms[0], ms[k]);
      var rest := ms[..k] + ms[k + 1..];
      assert rest[0] == ms[0] && rest[1..] == ms[1..][..k - 1] + ms[1..][k..];
    }
  }

  lemma WithoutOne<T>(a: seq<T>, b: seq<T>, k: nat)
    requires multiset(a) == multiset(b) && a != [] && k < |b| && b[k] == a[0]
    ensures multiset(a[1..]) == multiset(b[..k] + b[k + 1..])
  {
    assert a == [a[0]] + a[1..];
    assert b == b[..k] + ([b[k]] + b[k + 1..]);
    calc {
      multiset(a[1..]);
      multiset([a[0]] + a[1..]) - multiset{a[0]};
      multiset(b[..k] + ([b[k]] + b[k + 1..])) - multiset{b[k]};
      multiset(b[..k]) + multiset(b[k + 1..]);
    }
  }

  /** Replies may come in any order: the panel ends the same. */
  lemma {:induction false} AnyOrder(c: Client, a: seq<Message>, b: seq<Message>)
    requires multiset(a) == multiset(b)
    requires forall m, n | m in b && n in b :: Agree(m, n)
    ensures ReceiveAll(c, a) == ReceiveAll(c, b)
    decreases |a|
  {
    hide Receive, Agree;
    if a == [] {
      assert b == [] by { assert |multiset(b)| == 0; }
    } else {
      assert a[0] in multiset(b);
      var k :| 0 <= k < |b| && b[k] == a[0];
      BringForward(c, b, k);
      var rest := b[..k] + b[k + 1..];
      WithoutOne(a, b, k);
      forall m | m in rest ensures m in b {}
      AnyOrder(Receive(c, a[0]), a[1..], rest);
    }
  }

  /** In every run the replies under way may be delivered in any order. */
  lemma RepliesInAnyOrder(steps: seq<Step>, requests: set<string>, events: set<string>,
                          a: seq<Message>, b: seq<Message>)
    requires Possible(steps, requests, events)
    requires multiset(a) == multiset(b) && multiset(b) <= After(steps, requests, events).toClient
    ensures ReceiveAll(After(steps, requests, events).client, a) == ReceiveAll(After(steps, requests, events).client, b)
  {
    hide After, Receive, Counted, Upwards, Served, Honest, Accounted, Answer;
    Invariant(steps, requests, events);
    var s := After(steps, requests, events);
    forall m, n | m in b && n in b ensures Agree(m, n) {
      assert m in multiset(b) && n in multiset(b);
      assert m in s.toClient && n in s.toClient;
    }
    AnyOrder(s.client, a, b);
  }
}
