/** Requests and responses, `cyber/service/client.h` and `cyber/service/service.h`, over a network that
    may lose, repeat and reorder messages. Each call under a mutex is one step. */
module RequestResponse {
  import opened Helpers

  /** The header of a message. A response keeps the number and the spare id of its request. */
  datatype Info = Info(sender: nat, number: nat, spare: nat)

  datatype Packet<T> = Packet(info: Info, body: T)

  /** What a client knows: its writer id, and for each request sent, in order, the answer if any. */
  datatype ClientState<R> = ClientState(id: nat, answers: seq<Option<R>>)

  function Send<R>(c: ClientState<R>): ClientState<R> {
    c.(answers := c.answers + [None])
  }

  /** The header of the request that Send numbers next. */
  function NextInfo<R>(c: ClientState<R>): Info {
    Info(c.id, |c.answers| + 1, c.id)
  }

  predicate Pending<R>(c: ClientState<R>, number: nat) {
    1 <= number <= |c.answers| && c.answers[number - 1].None?
  }

  function Receive<R>(c: ClientState<R>, p: Packet<R>): ClientState<R> {
    if p.info.spare == c.id && Pending(c, p.info.number)
    then c.(answers := c.answers[p.info.number - 1 := Some(p.body)])
    else c
  }

  /** A promise can be set once. */
  class Promise<R> {
    var value: Option<R>

    constructor ()
      ensures value == None
    {
      value := None;
    }

    method SetValue(r: R)
      requires value == None
      modifies this
      ensures value == Some(r)
    {
      value := Some(r);
    }
  }

  class Client<Q, R> {
    const initialized: bool
    const writerId: nat
    var sequenceNumber: nat
    var pendingRequests: map<nat, Promise<R>>
    ghost var promises: seq<Promise<R>>   // of all requests, in order
    ghost var answers: seq<Option<R>>     // what they have been set to

    ghost predicate Valid()
      reads this, promises
    {
      && |promises| == |answers| == sequenceNumber
      && (forall i, j :: 0 <= i < j < |promises| ==> promises[i] != promises[j])
      && (forall i :: 0 <= i < |promises| ==> promises[i].value == answers[i])
      && (forall n :: n in pendingRequests ==>
            1 <= n <= |promises| && pendingRequests[n] == promises[n - 1] && answers[n - 1] == None)
      && (forall i :: 0 <= i < |promises| && answers[i] == None ==> i + 1 in pendingRequests)
    }

    ghost function Abs(): ClientState<R>
      reads this
    {
      ClientState(writerId, answers)
    }

    constructor (initialized: bool, writerId: nat)
      ensures Valid() && Abs() == ClientState(writerId, []) && this.initialized == initialized
    {
      this.initialized, this.writerId := initialized, writerId;
      sequenceNumber, pendingRequests, promises, answers := 0, map[], [], [];
    }

    /** Numbers and transmits a request and notes its promise, all under the mutex. */
    method AsyncSendRequest(request: Q) returns (future: Option<Promise<R>>, sent: Option<Packet<Q>>)
      requires Valid()
      modifies this
      ensures Valid()
      ensures !initialized ==> future == None && sent == None && Abs() == old(Abs())
      ensures initialized ==>
        && sent == Some(Packet(NextInfo(old(Abs())), request))
        && Abs() == Send(old(Abs()))
        && future.Some? && fresh(future.value) && promises == old(promises) + [future.value]
    {
      if !initialized {
        return None, None;
      }
      sequenceNumber := sequenceNumber + 1;
      sent := Some(Packet(Info(writerId, sequenceNumber, writerId), request));
      var promise := new Promise<R>();
      pendingRequests := pendingRequests[sequenceNumber := promise];
      promises, answers := promises + [promise], answers + [None];
      future := Some(promise);
    }

    /** Answers the pending request of this client that the response belongs to, if there is one. */
    method HandleResponse(response: Packet<R>)
      requires Valid()
      modifies this`pendingRequests, this`answers, pendingRequests.Values
      ensures Valid() && Abs() == Receive(old(Abs()), response)
    {
      if response.info.spare != writerId {
        return;
      }
      if response.info.number !in pendingRequests {
        return;
      }
      Resolve(response.info.number, response.body);
    }

    /** Removes a pending request and sets its promise. */
    method Resolve(number: nat, response: R)
      requires Valid() && number in pendingRequests
      modifies this`pendingRequests, this`answers, pendingRequests[number]
      ensures Valid() && answers == old(answers)[number - 1 := Some(response)]
    {
      var promise := pendingRequests[number];
      pendingRequests := pendingRequests - {number};
      promise.SetValue(response);
      answers := answers[number - 1 := Some(response)];
    }
  }

  lemma PendingOrResolved<Q, R>(c: Client<Q, R>)
    requires c.Valid()
    ensures c.pendingRequests.Keys == set n | 1 <= n <= c.sequenceNumber && Pending(c.Abs(), n)
  {
    assert forall i :: 0 <= i < c.sequenceNumber && c.answers[i] == None ==> i + 1 in c.pendingRequests;
  }

  /** The header of the response to a request: the sender becomes the service, the rest stays. */
  function ReplyInfo(request: Info, service: nat): Info {
    request.(sender := service)
  }

  /** The response to a request of client c resolves that request for c and means nothing to others. */
  lemma ReplyReachesOnlyTheAsker<R>(c: ClientState<R>, other: ClientState<R>, request: Info, service: nat, r: R)
    requires request.sender == request.spare == c.id && Pending(c, request.number) && other.id != c.id
    ensures var reply := Packet(ReplyInfo(request, service), r);
      && Receive(other, reply) == other
      && Receive(c, reply).answers == c.answers[request.number - 1 := Some(r)]
      && Receive(Receive(c, reply), reply) == Receive(c, reply)
  {
  }

  /** For the client that waits for this request, after is before with the answer; for any other client
      nothing changes. */
  predicate AnswersOnly<R(==)>(before: ClientState<R>, after: ClientState<R>, request: Info, answer: R) {
    if before.id == request.spare && Pending(before, request.number)
    then after == before.(answers := before.answers[request.number - 1 := Some(answer)])
    else after == before
  }

  /** The service. What it does is tied to the whole system s it is part of. */
  class Service<Q(==), R(==)> {
    const id: nat  // of the response transmitter
    var receiving: bool  // the request receiver exists
    var inited: bool
    var tasks: seq<Packet<Q>>

    ghost predicate Serves(s: System<Q, R>)
      reads this
    {
      s.tasks == tasks
    }

    constructor (id: nat)
      ensures this.id == id && !receiving && !inited && tasks == []
    {
      this.id, receiving, inited, tasks := id, false, false, [];
    }

    /** Creates transmitter and receiver, which can fail, and starts the worker. The answer is whether the
        receiver exists: also true for a service that has been destroyed and will not serve again, and
        false although the worker runs when only the receiver could not be made. */
    method Init(transmitterMade: bool, receiverMade: bool, ghost s: System<Q, R>) returns (ok: bool)
      requires Serves(s)
      modifies this`receiving, this`inited
      ensures Serves(s) && ok == receiving
      ensures ok && !old(receiving) ==> inited
      ensures old(receiving) ==> ok && inited == old(inited)
      ensures !old(receiving) ==> (ok <==> transmitterMade && receiverMade)
      ensures !old(receiving) && !ok ==> inited == (old(inited) || transmitterMade)
    {
      if receiving {
        return true;
      }
      if !transmitterMade {
        return false;
      }
      receiving := receiverMade;
      inited := true;
      ok := receiverMade;
    }

    /** A request that some client sent arrives. */
    method Enqueue(request: Packet<Q>, ghost s: System<Q, R>)
      requires Serves(s) && request in s.requests
      modifies this`tasks
      ensures Serves(Step(s, Arrive(request)))
    {
      tasks := tasks + [request];
    }

    /** One turn of the worker loop, entered when its wait ends. The callback fills in reply. */
    method Process(reply: R, ghost s: System<Q, R>) returns (running: bool, sent: Option<Packet<R>>)
      requires Serves(s) && (!inited || tasks != [])
      modifies this`tasks
      ensures running == inited && (sent.Some? <==> inited && receiving)
      ensures !inited ==> Serves(s)
      ensures inited ==> Serves(Step(s, if receiving then Serve(id, reply) else Discard))
      ensures sent.Some? ==> Step(s, Serve(id, reply)).responses == s.responses + {sent.value}
      ensures sent.Some? ==> sent.value.info.sender == id && forall c: ClientState<R> ::
        AnswersOnly(c, Receive(c, sent.value), old(tasks)[0].info, reply)
    {
      if !inited {
        return false, None;
      }
      var task := tasks[0];
      tasks := tasks[1..];
      sent := HandleRequest(task, reply, s);
      running := true;
    }

    /** Sends what the protocol sends for the first task, if the receiver is there. */
    method HandleRequest(request: Packet<Q>, reply: R, ghost s: System<Q, R>) returns (sent: Option<Packet<R>>)
      requires s.tasks != [] && s.tasks[0] == request
      ensures sent.Some? <==> receiving
      ensures sent.Some? ==> Step(s, Serve(id, reply)).responses == s.responses + {sent.value}
      ensures sent.Some? ==> sent.value.info.sender == id && forall c: ClientState<R> ::
        AnswersOnly(c, Receive(c, sent.value), request.info, reply)
    {
      if !receiving {
        return None;
      }
      sent := Some(Packet(request.info.(sender := id), reply));
    }

    method Destroy(ghost s: System<Q, R>)
      requires Serves(s)
      modifies this`inited, this`tasks
      ensures !inited && Serves(Step(s, Stop))
    {
      inited := false;
      tasks := [];
    }
  }

  /** The callback of the service produced response for the request that client id numbered number. */
  datatype Served<Q, R> = Served(id: nat, number: nat, request: Q, response: R)

  /** Clients, the requests each has made, what was ever sent, the tasks of the service and all it did. */
  datatype System<Q(==), R(==)> = System(
    clients: seq<ClientState<R>>,
    asked: seq<seq<Q>>,
    requests: set<Packet<Q>>,
    tasks: seq<Packet<Q>>,
    responses: set<Packet<R>>,
    served: set<Served<Q, R>>)

  /** What was sent may arrive at any later time, any number of times or never. Every client receives on
      the one response channel. A service without its request receiver discards the requests it takes. */
  datatype Event<Q, R> =
    | Ask(client: nat, request: Q)
    | Arrive(packet: Packet<Q>)
    | Serve(service: nat, response: R)
    | Discard
    | Answer(client: nat, reply: Packet<R>)
    | Stop

  function Step<Q(==), R(==)>(s: System<Q, R>, e: Event<Q, R>): System<Q, R> {
    match e
    case Ask(i, q) =>
      if i < |s.clients| && i < |s.asked| then
        s.(clients := s.clients[i := Send(s.clients[i])],
           asked := s.asked[i := s.asked[i] + [q]],
           requests := s.requests + {Packet(NextInfo(s.clients[i]), q)})
      else s
    case Arrive(p) => if p in s.requests then s.(tasks := s.tasks + [p]) else s
    case Serve(id, r) =>
      if s.tasks != [] then
        var p := s.tasks[0];
        s.(tasks := s.tasks[1..],
           responses := s.responses + {Packet(ReplyInfo(p.info, id), r)},
           served := s.served + {Served(p.info.spare, p.info.number, p.body, r)})
      else s
    case Discard => if s.tasks != [] then s.(tasks := s.tasks[1..]) else s
    case Answer(i, p) =>
      if i < |s.clients| && p in s.responses then s.(clients := s.clients[i := Receive(s.clients[i], p)]) else s
    case Stop => s.(tasks := [])
  }

  function Execute<Q(==), R(==)>(s: System<Q, R>, events: seq<Event<Q, R>>): System<Q, R>
    decreases |events|
  {
    if events == [] then s else Execute(Step(s, events[0]), events[1..])
  }

  function Start<Q(==), R(==)>(ids: seq<nat>): System<Q, R> {
    System(seq(|ids|, i requires 0 <= i < |ids| => ClientState(ids[i], [])), seq(|ids|, i => []), {}, [], {}, {})
  }

  ghost predicate Asked<Q, R>(s: System<Q, R>, id: nat, number: nat, q: Q) {
    exists i :: 0 <= i < |s.clients| && i < |s.asked| && IsRequest(s.clients[i].id, s.asked[i], id, number, q)
  }

  predicate IsRequest<Q(==)>(client: nat, asked: seq<Q>, id: nat, number: nat, q: Q) {
    id == client && 1 <= number <= |asked| && asked[number - 1] == q
  }

  ghost predicate WasServed<Q, R>(s: System<Q, R>, id: nat, number: nat, r: R) {
    exists v :: v in s.served && v.id == id && v.number == number && v.response == r
  }

  ghost predicate Inv<Q, R>(s: System<Q, R>) {
    && |s.asked| == |s.clients|
    && (forall i :: 0 <= i < |s.clients| ==> |s.asked[i]| == |s.clients[i].answers|)
    && (forall p :: p in s.requests ==> Asked(s, p.info.spare, p.info.number, p.body))
    && (forall i :: 0 <= i < |s.clients| ==> AllSent(s, s.clients[i].id, s.asked[i]))
    && (forall p :: p in s.tasks ==> p in s.requests)
    && (forall v :: v in s.served ==> Asked(s, v.id, v.number, v.request))
    && (forall p :: p in s.responses ==> WasServed(s, p.info.spare, p.info.number, p.body))
    && (forall i :: 0 <= i < |s.clients| ==> AnswersServed(s, s.clients[i]))
  }

  /** Everything a client asked has been sent. */
  ghost predicate AllSent<Q, R>(s: System<Q, R>, id: nat, asked: seq<Q>) {
    forall n :: 0 <= n < |asked| ==> Packet(Info(id, n + 1, id), asked[n]) in s.requests
  }

  ghost predicate AnswersServed<Q, R>(s: System<Q, R>, c: ClientState<R>) {
    forall n :: 0 <= n < |c.answers| && c.answers[n].Some? ==> WasServed(s, c.id, n + 1, c.answers[n].value)
  }

  lemma AskedStays<Q, R>(s: System<Q, R>, e: Event<Q, R>, id: nat, number: nat, q: Q)
    requires Asked(s, id, number, q)
    ensures Asked(Step(s, e), id, number, q)
  {
    var i :| 0 <= i < |s.clients| && i < |s.asked| && IsRequest(s.clients[i].id, s.asked[i], id, number, q);
    var t := Step(s, e);
    assert IsRequest(t.clients[i].id, t.asked[i], id, number, q);
  }

  lemma ServedStays<Q, R>(s: System<Q, R>, e: Event<Q, R>, id: nat, number: nat, r: R)
    requires WasServed(s, id, number, r)
    ensures WasServed(Step(s, e), id, number, r)
  {
    var v :| v in s.served && v.id == id && v.number == number && v.response == r;
    assert v in Step(s, e).served;
  }

  lemma RequestsStayAsked<Q, R>(s: System<Q, R>, e: Event<Q, R>, p: Packet<Q>)
    requires Inv(s) && p in Step(s, e).requests
    ensures Asked(Step(s, e), p.info.spare, p.info.number, p.body)
  {
    if p in s.requests {
      AskedStays(s, e, p.info.spare, p.info.number, p.body);
    } else {
      var t := Step(s, e);
      assert IsRequest(t.clients[e.client].id, t.asked[e.client], p.info.spare, p.info.number, p.body);
    }
  }

  lemma ServedStaysAsked<Q, R>(s: System<Q, R>, e: Event<Q, R>, v: Served<Q, R>)
    requires Inv(s) && v in Step(s, e).served
    ensures Asked(Step(s, e), v.id, v.number, v.request)
  {
    if v !in s.served {
      assert s.tasks[0] in s.tasks;
    }
    AskedStays(s, e, v.id, v.number, v.request);
  }

  lemma ResponsesStayServed<Q, R>(s: System<Q, R>, e: Event<Q, R>, p: Packet<R>)
    requires Inv(s) && p in Step(s, e).responses
    ensures WasServed(Step(s, e), p.info.spare, p.info.number, p.body)
  {
    if p in s.responses {
      ServedStays(s, e, p.info.spare, p.info.number, p.body);
    } else {
      assert Served(p.info.spare, p.info.number, s.tasks[0].body, p.body) in Step(s, e).served;
    }
  }

  lemma AnswersStayServed<Q, R>(s: System<Q, R>, e: Event<Q, R>, i: nat)
    requires Inv(s) && i < |Step(s, e).clients|
    ensures AnswersServed(Step(s, e), Step(s, e).clients[i])
  {
    var before, after := s.clients[i], Step(s, e).clients[i];
    forall n | 0 <= n < |after.answers| && after.answers[n].Some?
      ensures WasServed(Step(s, e), after.id, n + 1, after.answers[n].value)
    {
      if n < |before.answers| && before.answers[n].Some? {
        assert AnswersServed(s, before);
        ServedStays(s, e, before.id, n + 1, before.answers[n].value);
      } else {
        assert e.Answer?;
      }
    }
  }

  lemma StepKeepsCounts<Q, R>(s: System<Q, R>, e: Event<Q, R>)
    requires Inv(s)
    ensures |Step(s, e).asked| == |Step(s, e).clients| == |s.clients|
    ensures forall i :: 0 <= i < |s.clients| ==> Step(s, e).clients[i].id == s.clients[i].id
    ensures forall i :: 0 <= i < |s.clients| ==> |Step(s, e).asked[i]| == |Step(s, e).clients[i].answers|
    ensures forall p :: p in Step(s, e).tasks ==> p in Step(s, e).requests
  {
  }

  lemma StepKeepsSent<Q, R>(s: System<Q, R>, e: Event<Q, R>, i: nat)
    requires Inv(s) && i < |s.clients|
    ensures AllSent(Step(s, e), Step(s, e).clients[i].id, Step(s, e).asked[i])
  {
    assert AllSent(s, s.clients[i].id, s.asked[i]);
    assert Step(s, e).clients[i].id == s.clients[i].id;
  }

  lemma StepKeepsInv<Q, R>(s: System<Q, R>, e: Event<Q, R>)
    requires Inv(s)
    ensures Inv(Step(s, e))
  {
    var t := Step(s, e);
    StepKeepsCounts(s, e);
    forall p | p in t.requests
      ensures Asked(t, p.info.spare, p.info.number, p.body)
    {
      RequestsStayAsked(s, e, p);
    }
    forall i | 0 <= i < |t.clients|
      ensures AllSent(t, t.clients[i].id, t.asked[i])
    {
      StepKeepsSent(s, e, i);
    }
    forall v | v in t.served
      ensures Asked(t, v.id, v.number, v.request)
    {
      ServedStaysAsked(s, e, v);
    }
    forall p | p in t.responses
      ensures WasServed(t, p.info.spare, p.info.number, p.body)
    {
      ResponsesStayServed(s, e, p);
    }
    forall i | 0 <= i < |t.clients|
      ensures AnswersServed(t, t.clients[i])
    {
      AnswersStayServed(s, e, i);
    }
  }

  lemma {:induction false} ExecuteKeepsInv<Q, R>(s: System<Q, R>, events: seq<Event<Q, R>>)
    requires Inv(s)
    ensures Inv(Execute(s, events))
    ensures |Execute(s, events).clients| == |s.clients|
    ensures forall i :: 0 <= i < |s.clients| ==> Execute(s, events).clients[i].id == s.clients[i].id
    decreases |events|
  {
    if events != [] {
      StepKeepsInv(s, events[0]);
      StepKeepsCounts(s, events[0]);
      ExecuteKeepsInv(Step(s, events[0]), events[1..]);
    }
  }

  lemma AnswerIsServed<Q, R>(s: System<Q, R>, i: nat, number: nat)
    requires Inv(s) && i < |s.clients| && 1 <= number <= |s.asked[i]| && s.clients[i].answers[number - 1].Some?
    requires forall j :: 0 <= j < |s.clients| && j != i ==> s.clients[j].id != s.clients[i].id
    ensures Served(s.clients[i].id, number, s.asked[i][number - 1], s.clients[i].answers[number - 1].value) in s.served
  {
    var id, r := s.clients[i].id, s.clients[i].answers[number - 1].value;
    assert AnswersServed(s, s.clients[i]);
    assert WasServed(s, id, number, r);
    var v :| v in s.served && v.id == id && v.number == number && v.response == r;
    assert Asked(s, id, number, v.request);
    var j :| 0 <= j < |s.clients| && IsRequest(s.clients[j].id, s.asked[j], id, number, v.request);
  }

  /** However the network loses, repeats or reorders: an answer of a client is a response that the
      service produced for this very request of this client. */
  lemma AnswersAreForTheirRequests<Q, R>(ids: seq<nat>, events: seq<Event<Q, R>>, i: nat, number: nat)
    requires Distinct(ids) && i < |ids|
    ensures var s := Execute(Start(ids), events);
      && |s.clients| == |s.asked| == |ids|
      && |s.clients[i].answers| == |s.asked[i]|
      && (1 <= number <= |s.asked[i]| && s.clients[i].answers[number - 1].Some? ==>
            Served(ids[i], number, s.asked[i][number - 1], s.clients[i].answers[number - 1].value) in s.served)
  {
    ExecuteKeepsInv(Start<Q, R>(ids), events);
    var s := Execute(Start(ids), events);
    if 1 <= number <= |s.asked[i]| && s.clients[i].answers[number - 1].Some? {
      AnswerIsServed(s, i, number);
    }
  }

  /** An answer, once there, never changes, and no request is forgotten. */
  ghost predicate Extends<R>(before: ClientState<R>, after: ClientState<R>) {
    && after.id == before.id
    && |before.answers| <= |after.answers|
    && forall n :: 0 <= n < |before.answers| && before.answers[n].Some? ==> after.answers[n] == before.answers[n]
  }

  lemma {:induction false} AnswersAreFinal<Q, R>(s: System<Q, R>, events: seq<Event<Q, R>>, i: nat)
    requires i < |s.clients|
    ensures i < |Execute(s, events).clients|
    ensures Extends(s.clients[i], Execute(s, events).clients[i])
    decreases |events|
  {
    if events != [] {
      AnswersAreFinal(Step(s, events[0]), events[1..], i);
    }
  }

  /** A request that a client makes is the next of its numbers, waits for an answer, and is on its way;
      no other client notices. */
  lemma AskIsPending<Q, R>(s: System<Q, R>, i: nat, q: Q)
    requires Inv(s) && i < |s.clients|
    ensures var t := Step(s, Ask(i, q));
      var n, id := |s.asked[i]| + 1, s.clients[i].id;
      && |t.clients| == |s.clients| && t.asked == s.asked[i := s.asked[i] + [q]]
      && t.clients[i].id == id && Pending(t.clients[i], n) && |t.clients[i].answers| == n
      && Packet(Info(id, n, id), q) in t.requests
      && (forall j :: 0 <= j < |s.clients| && j != i ==> t.clients[j] == s.clients[j])
  {
  }

  /** The service neither stops nor discards. */
  predicate KeepsServing<Q, R>(events: seq<Event<Q, R>>) {
    forall i :: 0 <= i < |events| ==> !events[i].Stop? && !events[i].Discard?
  }

  function ServeCount<Q, R>(events: seq<Event<Q, R>>): nat {
    if events == [] then 0 else (if events[0].Serve? then 1 else 0) + ServeCount(events[1..])
  }

  ghost predicate IsReply<Q, R>(s: System<Q, R>, reply: Packet<R>, request: Info) {
    reply in s.responses && reply.info.spare == request.spare && reply.info.number == request.number
  }

  ghost predicate HasReply<Q, R>(s: System<Q, R>, request: Info) {
    exists reply :: reply in s.responses && IsReply(s, reply, request)
  }

  lemma {:induction false} RepliesStay<Q, R>(s: System<Q, R>, events: seq<Event<Q, R>>, request: Info)
    requires HasReply(s, request)
    ensures HasReply(Execute(s, events), request)
    decreases |events|
  {
    if events != [] {
      var reply :| reply in s.responses && IsReply(s, reply, request);
      assert IsReply(Step(s, events[0]), reply, request);
      RepliesStay(Step(s, events[0]), events[1..], request);
    }
  }

  /** The queue is served in order: a request with k others before it has its response after k + 1
      services, whatever else happens in between. */
  lemma {:induction false} ServedInTurn<Q, R>(s: System<Q, R>, events: seq<Event<Q, R>>, k: nat)
    requires k < |s.tasks| && KeepsServing(events) && ServeCount(events) > k
    ensures HasReply(Execute(s, events), s.tasks[k].info)
    decreases |events|
  {
    var e, s' := events[0], Step(s, events[0]);
    assert KeepsServing(events[1..]);
    if e.Serve? && k == 0 {
      assert IsReply(s', Packet(ReplyInfo(s.tasks[0].info, e.service), e.response), s.tasks[0].info);
      RepliesStay(s', events[1..], s.tasks[0].info);
    } else {
      ServedInTurn(s', events[1..], if e.Serve? then k - 1 else k);
    }
  }

  /** Each task taken, served or discarded, moves the queue up by one, and nothing else moves it while the
      service does not stop. */
  lemma {:induction false} QueueMovesUp<Q, R>(s: System<Q, R>, events: seq<Event<Q, R>>, k: nat)
    requires k < |s.tasks| && TakenCount(events) <= k && forall i :: 0 <= i < |events| ==> !events[i].Stop?
    ensures var t, c := Execute(s, events), TakenCount(events);
      k - c < |t.tasks| && t.tasks[k - c] == s.tasks[k]
    decreases |events|
  {
    if events != [] {
      var e := events[0];
      QueueMovesUp(Step(s, e), events[1..], if e.Serve? || e.Discard? then k - 1 else k);
    }
  }

  function TakenCount<Q, R>(events: seq<Event<Q, R>>): nat {
    if events == [] then 0
    else (if events[0].Serve? || events[0].Discard? then 1 else 0) + TakenCount(events[1..])
  }

  /** After the service has stopped, nothing that had arrived before is served any more. */
  lemma {:induction false} StoppedServesNothing<Q, R>(s: System<Q, R>, events: seq<Event<Q, R>>)
    requires forall i :: 0 <= i < |events| ==> !events[i].Arrive?
    ensures var t := Execute(Step(s, Stop), events); t.responses == s.responses && t.served == s.served
  {
    EmptyQueueServesNothing(Step(s, Stop), events);
  }

  lemma {:induction false} EmptyQueueServesNothing<Q, R>(s: System<Q, R>, events: seq<Event<Q, R>>)
    requires s.tasks == [] && forall i :: 0 <= i < |events| ==> !events[i].Arrive?
    ensures var t := Execute(s, events); t.responses == s.responses && t.served == s.served
    decreases |events|
  {
    if events != [] {
      EmptyQueueServesNothing(Step(s, events[0]), events[1..]);
    }
  }

  /** The client has an answer to the request once it receives the reply. */
  predicate Resolves<Q(==), R(==)>(s: System<Q, R>, i: nat, number: nat, reply: Packet<R>) {
    var s' := Step(s, Answer(i, reply));
    i < |s'.clients| && 1 <= number <= |s'.clients[i].answers| && s'.clients[i].answers[number - 1].Some?
  }

  ghost predicate DistinctIds<Q, R>(s: System<Q, R>) {
    forall i, j :: 0 <= i < j < |s.clients| ==> s.clients[i].id != s.clients[j].id
  }

  lemma ReplyResolves<Q, R>(s: System<Q, R>, i: nat, reply: Packet<R>, request: Info)
    requires Inv(s) && DistinctIds(s) && i < |s.clients|
    requires IsReply(s, reply, request) && request.spare == s.clients[i].id
    ensures Resolves(s, i, request.number, reply)
  {
    var id, number := request.spare, request.number;
    assert WasServed(s, id, number, reply.body);
    var v :| v in s.served && v.id == id && v.number == number && v.response == reply.body;
    assert Asked(s, id, number, v.request);
    var j :| 0 <= j < |s.clients| && IsRequest(s.clients[j].id, s.asked[j], id, number, v.request);
    assert j == i;
  }

  /** Every request of every client can still be answered, from every state a run can be in: if it
      arrives once more and the service then takes one task more than the queue held, there is a response
      that resolves it whenever the client receives it. Losses, repetitions and other clients' requests
      in between do not matter. */
  lemma RequestIsAnswered<Q, R>(s: System<Q, R>, i: nat, number: nat, more: seq<Event<Q, R>>)
    requires Inv(s) && DistinctIds(s) && i < |s.clients| && 1 <= number <= |s.asked[i]|
    requires KeepsServing(more) && ServeCount(more) > |s.tasks|
    ensures var p := Packet(Info(s.clients[i].id, number, s.clients[i].id), s.asked[i][number - 1]);
      var t := Execute(Step(s, Arrive(p)), more);
      p in s.requests && exists reply :: reply in t.responses && Resolves(t, i, number, reply)
  {
    var id := s.clients[i].id;
    var p := Packet(Info(id, number, id), s.asked[i][number - 1]);
    assert AllSent(s, id, s.asked[i]);
    var s' := Step(s, Arrive(p));
    StepKeepsInv(s, Arrive(p));
    ServedInTurn(s', more, |s.tasks|);
    ExecuteKeepsInv(s', more);
    var t := Execute(s', more);
    var reply :| reply in t.responses && IsReply(t, reply, p.info);
    ReplyResolves(t, i, reply, p.info);
  }
}
