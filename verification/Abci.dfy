/**
 * The socket pipeline of tendermint/abci: client/socket_client.go sends requests from a queue and matches responses
 * in order, server/socket_server.go answers.  Every interleaving of its routines is a run of the steps below.
 */
module Abci {
  import opened Results

  // ---------- messages

  datatype Request = Echo | Flush | Info | SetOption | DeliverTx | CheckTx | Commit | Query | QueryEx | InitChain
                   | BeginBlock | EndBlock | CleanData | GetGenesis | Rollback

  datatype Response = EchoRes | FlushRes | InfoRes | SetOptionRes | DeliverTxRes | CheckTxRes | CommitRes | QueryRes | QueryExRes
                    | InitChainRes | BeginBlockRes | EndBlockRes | CleanDataRes | GetGenesisRes | RollbackRes | Exception

  /** handleRequest: the response that each request gets */
  function Handle(r: Request): (s: Response)
  {
    match r
    case Echo => EchoRes
    case Flush => FlushRes
    case Info => InfoRes
    case SetOption => SetOptionRes
    case DeliverTx => DeliverTxRes
    case CheckTx => CheckTxRes
    case Commit => CommitRes
    case Query => QueryRes
    case QueryEx => QueryExRes
    case InitChain => InitChainRes
    case BeginBlock => BeginBlockRes
    case EndBlock => EndBlockRes
    case CleanData => CleanDataRes
    case GetGenesis => GetGenesisRes
    case Rollback => RollbackRes
  }

  /** resMatchesReq: the response that the client expects */
  predicate Matches(r: Request, s: Response)
  {
    match r
    case Echo => s.EchoRes?
    case Flush => s.FlushRes?
    case Info => s.InfoRes?
    case SetOption => s.SetOptionRes?
    case DeliverTx => s.DeliverTxRes?
    case CheckTx => s.CheckTxRes?
    case Commit => s.CommitRes?
    case Query => s.QueryRes?
    case QueryEx => s.QueryExRes?
    case InitChain => s.InitChainRes?
    case BeginBlock => s.BeginBlockRes?
    case EndBlock => s.EndBlockRes?
    case CleanData => s.CleanDataRes?
    case GetGenesis => s.GetGenesisRes?
    case Rollback => s.RollbackRes?
  }

  /** The two sides agree: a response matches the requests that it answers, and no others. */
  lemma HandleMatches(q: Request, r: Request)
    ensures Matches(q, Handle(r)) <==> q == r
  {
  }

  lemma HandleTable()
    ensures Handle(Echo) == EchoRes && Handle(Flush) == FlushRes && Handle(Info) == InfoRes && Handle(SetOption) == SetOptionRes
    ensures Handle(DeliverTx) == DeliverTxRes && Handle(CheckTx) == CheckTxRes && Handle(Commit) == CommitRes
    ensures Handle(Query) == QueryRes && Handle(QueryEx) == QueryExRes && Handle(InitChain) == InitChainRes
    ensures Handle(BeginBlock) == BeginBlockRes && Handle(EndBlock) == EndBlockRes && Handle(CleanData) == CleanDataRes
    ensures Handle(GetGenesis) == GetGenesisRes && Handle(Rollback) == RollbackRes
  {
  }

  /** A ReqRes: its request, and its number in the order in which requests enter the queue. */
  datatype Req = Req(id: nat, kind: Request)

  /** A response, with the number of the request that it was made for (which is not on the wire). */
  datatype Res = Res(of: nat, kind: Response)

  // ---------- the client's own data

  const QUEUE_SIZE := 256
  const RESPONSES_SIZE := 1000

  /**
   * kinds is the history of the requests that entered the queue, by number; got holds the Response fields that are
   * set, dones logs the calls of Done.
   */
  datatype Client = Client(kinds: seq<Request>, queue: seq<Req>, sent: seq<Req>, got: map<nat, Res>, dones: seq<nat>)

  function Enqueued(c: Client, kind: Request): (d: Client)
  {
    c.(kinds := c.kinds + [kind], queue := c.queue + [Req(|c.kinds|, kind)])
  }

  datatype Mismatch = NothingExpected | WrongKind(expected: Request)

  /** didRecvResponse: why a response is refused */
  function Refused(c: Client, res: Res): (e: Option<Mismatch>)
  {
    if c.sent == [] then Some(NothingExpected)
    else if !Matches(c.sent[0].kind, res.kind) then Some(WrongKind(c.sent[0].kind))
    else None
  }

  function Received(c: Client, res: Res): (d: Client)
    requires Refused(c, res).None?
  {
    c.(got := c.got[c.sent[0].id := res], dones := c.dones + [c.sent[0].id], sent := c.sent[1..])
  }

  function Drained(c: Client): (d: Client)
    requires c.queue != []
  {
    c.(queue := c.queue[1..], dones := c.dones + [c.queue[0].id])
  }

  /** flushQueue, when nothing is queued in the meantime */
  function DrainedAll(c: Client): (d: Client)
    decreases |c.queue|
  {
    if c.queue == [] then c else DrainedAll(Drained(c))
  }

  class SocketClient {
    ghost var kinds: seq<Request>
    var reqQueue: seq<Req>
    var reqSent: seq<Req>
    var got: map<nat, Res>
    var dones: seq<nat>

    ghost function Data(): (c: Client)
      reads this
    {
      Client(kinds, reqQueue, reqSent, got, dones)
    }

    method QueueRequest(req: Req)
      requires req.id == |kinds| && |reqQueue| < QUEUE_SIZE
      modifies `kinds, `reqQueue
      ensures Data() == Enqueued(old(Data()), req.kind) && reqQueue == old(reqQueue) + [req]
    {
      reqQueue := reqQueue + [req];
      kinds := kinds + [req.kind];
    }

    method WillSendReq(req: Req)
      modifies `reqSent
      ensures Data() == old(Data()).(sent := old(reqSent) + [req])
    {
      reqSent := reqSent + [req];
    }

    method DidRecvResponse(res: Res) returns (err: Option<Mismatch>)
      modifies `reqSent, `got, `dones
      ensures err == Refused(old(Data()), res)
      ensures err.None? <==> old(reqSent) != [] && Matches(old(reqSent)[0].kind, res.kind)
      ensures err.None? ==>
              var id := old(reqSent)[0].id;
              got == old(got)[id := res] && dones == old(dones) + [id] && reqSent == old(reqSent)[1..]
      ensures err.Some? ==> err.value == if old(reqSent) == [] then NothingExpected else WrongKind(old(reqSent)[0].kind)
      ensures Data() == if err.Some? then old(Data()) else Received(old(Data()), res)
    {
      if |reqSent| == 0 {
        return Some(NothingExpected);
      }
      var reqres := reqSent[0];
      if !Matches(reqres.kind, res.kind) {
        return Some(WrongKind(reqres.kind));
      }
      got := got[reqres.id := res];
      dones := dones + [reqres.id];
      reqSent := reqSent[1..];
      return None;
    }

    method FlushQueue()
      modifies `reqQueue, `dones
      ensures Data() == DrainedAll(old(Data())) && reqQueue == []
      ensures |dones| == |old(dones)| + |old(reqQueue)| && dones[..|old(dones)|] == old(dones)
      ensures forall i :: 0 <= i < |old(reqQueue)| ==> dones[|old(dones)| + i] == old(reqQueue)[i].id
    {
      ghost var n := 0;
      while |reqQueue| > 0
        invariant DrainedAll(Data()) == DrainedAll(old(Data()))
        invariant 0 <= n <= |old(reqQueue)| && reqQueue == old(reqQueue)[n..]
        invariant |dones| == |old(dones)| + n && dones[..|old(dones)|] == old(dones)
        invariant forall i :: 0 <= i < n ==> dones[|old(dones)| + i] == old(reqQueue)[i].id
      {
        n := n + 1;
        dones := dones + [reqQueue[0].id];
        reqQueue := reqQueue[1..];
      }
    }
  }

  // ---------- all routines

  /** The send routine: waiting, with a request taken from the queue, with one recorded as sent, or about to flush. */
  datatype Sender = Idle | Taken(req: Req) | Recorded(req: Req) | Flushing

  datatype State = State(
    client: Client, sender: Sender, clientBuf: seq<Req>, requestWire: seq<Req>,
    handling: Option<Req>, responses: seq<Res>, serverFlushing: bool, serverBuf: seq<Res>, responseWire: seq<Res>,
    receiving: bool, stopped: bool)

  function Init(): State
  {
    State(Client([], [], [], map[], []), Idle, [], [], None, [], false, [], [], true, false)
  }

  /**
   * What can happen next.  Buffered writers may write out a part at any time.  After Stop, which also follows every
   * error, what is in the queue is drained.  A routine that has ended, there or at the server, is one that takes no
   * more steps.
   */
  datatype Step =
    | Enqueue(kind: Request) | Take | Record | WriteRequest | FlushRequests | SpillRequests(n: nat)
    | ReadRequest | HandleRequest | WriteResponse | FlushResponses | SpillResponses(n: nat)
    | Receive | Stop | Drain

  predicate Enabled(s: State, step: Step)
  {
    match step
    case Enqueue(_) => |s.client.queue| < QUEUE_SIZE
    case Take => s.sender.Idle? && s.client.queue != []
    case Record => s.sender.Taken?
    case WriteRequest => s.sender.Recorded?
    case FlushRequests => s.sender.Flushing?
    case SpillRequests(n) => n <= |s.clientBuf|
    case ReadRequest => s.handling.None? && s.requestWire != []
    case HandleRequest => s.handling.Some? && |s.responses| < RESPONSES_SIZE
    case WriteResponse => !s.serverFlushing && s.responses != []
    case FlushResponses => s.serverFlushing
    case SpillResponses(n) => n <= |s.serverBuf|
    case Receive => s.receiving && s.responseWire != []
    case Stop => true
    case Drain => s.stopped && s.client.queue != []
  }

  function Next(s: State, step: Step): (t: State)
    requires Enabled(s, step)
  {
    match step
    case Enqueue(kind) => s.(client := Enqueued(s.client, kind))
    case Take => s.(sender := Taken(s.client.queue[0]), client := s.client.(queue := s.client.queue[1..]))
    case Record => s.(sender := Recorded(s.sender.req), client := s.client.(sent := s.client.sent + [s.sender.req]))
    case WriteRequest => s.(sender := if s.sender.req.kind.Flush? then Flushing else Idle,
      clientBuf := s.clientBuf + [s.sender.req])
    case FlushRequests => s.(sender := Idle, clientBuf := [], requestWire := s.requestWire + s.clientBuf)
    case SpillRequests(n) => s.(clientBuf := s.clientBuf[n..], requestWire := s.requestWire + s.clientBuf[..n])
    case ReadRequest => s.(handling := Some(s.requestWire[0]), requestWire := s.requestWire[1..])
    case HandleRequest =>
      s.(handling := None, responses := s.responses + [Res(s.handling.value.id, Handle(s.handling.value.kind))])
    case WriteResponse =>
      s.(responses := s.responses[1..], serverBuf := s.serverBuf + [s.responses[0]],
        serverFlushing := s.responses[0].kind.FlushRes?)
    case FlushResponses => s.(serverFlushing := false, serverBuf := [], responseWire := s.responseWire + s.serverBuf)
    case SpillResponses(n) => s.(serverBuf := s.serverBuf[n..], responseWire := s.responseWire + s.serverBuf[..n])
    case Receive =>
      var res, t := s.responseWire[0], s.(responseWire := s.responseWire[1..]);
      if res.kind.Exception? || Refused(s.client, res).Some? then t.(receiving := false, stopped := true)
      else t.(client := Received(s.client, res))
    case Stop => s.(stopped := true)
    case Drain => s.(client := Drained(s.client))
  }

  /** The states that steps lead through. */
  predicate IsRun(states: seq<State>, steps: seq<Step>)
  {
    && |states| == |steps| + 1 && states[0] == Init()
    && forall i :: 0 <= i < |steps| ==> Enabled(states[i], steps[i]) && states[i + 1] == Next(states[i], steps[i])
  }

  // ---------- in flight

  /** Requests that have been recorded but not answered, in the order in which the server will see them. */
  function RequestsOut(s: State): (q: seq<Req>)
  {
    (if s.handling.Some? then [s.handling.value] else []) + s.requestWire + s.clientBuf +
      (if s.sender.Recorded? then [s.sender.req] else [])
  }

  /** Responses on their way, in the order in which the client will see them. */
  function ResponsesOut(s: State): (r: seq<Res>)
  {
    s.responseWire + s.serverBuf + s.responses
  }

  predicate Answers(q: Req, r: Res)
  {
    r.of == q.id && r.kind == Handle(q.kind)
  }

  predicate InOrder(sent: seq<Req>, rs: seq<Res>, qs: seq<Req>)
  {
    && |sent| == |rs| + |qs| && sent[|rs|..] == qs
    && forall i :: 0 <= i < |rs| ==> Answers(sent[i], rs[i])
  }

  /** Recorded requests are, in order, those whose responses are on their way and those on the way to the server. */
  predicate Lined(s: State)
  {
    InOrder(s.client.sent, ResponsesOut(s), RequestsOut(s))
  }

  /** A flush is never left behind in a buffer. */
  predicate Flushed(s: State)
  {
    && (!s.sender.Flushing? ==> forall i :: 0 <= i < |s.clientBuf| ==> !s.clientBuf[i].kind.Flush?)
    && (!s.serverFlushing ==> forall i :: 0 <= i < |s.serverBuf| ==> !s.serverBuf[i].kind.FlushRes?)
  }

  // ---------- numbers

  /** All requests that are not done, in the order of their numbers. */
  function Pending(s: State): (q: seq<Req>)
  {
    s.client.sent + (if s.sender.Taken? then [s.sender.req] else []) + s.client.queue
  }

  predicate Increasing(q: seq<Req>)
  {
    forall i, j :: 0 <= i < j < |q| ==> q[i].id < q[j].id
  }

  predicate Waits(q: seq<Req>, id: nat)
  {
    exists i :: 0 <= i < |q| && q[i].id == id
  }

  /** Requests have the kinds with which they were queued. */
  predicate Own(kinds: seq<Request>, q: seq<Req>)
  {
    forall i :: 0 <= i < |q| ==> q[i].id < |kinds| && q[i].kind == kinds[q[i].id]
  }

  predicate Distinct(d: seq<nat>)
  {
    forall i, j :: 0 <= i < j < |d| ==> d[i] != d[j]
  }

  /** Every request that was queued either waits or is done, and is done once. */
  ghost predicate Accounted(queued: nat, q: seq<Req>, dones: seq<nat>)
  {
    && Increasing(q) && Distinct(dones)
    && (forall id: nat :: id < queued <==> Waits(q, id) || id in dones)
    && (forall id: nat :: !(Waits(q, id) && id in dones))
  }

  /**
   * Responses are those of their own requests; unless the queue was drained, whoever is done has one, and the first
   * are done first.
   */
  ghost predicate Answered(s: State)
  {
    && (forall id :: id in s.client.got ==> id in s.client.dones && s.client.got[id].of == id)
    && (forall id :: id in s.client.got ==> id < |s.client.kinds| && s.client.got[id].kind == Handle(s.client.kinds[id]))
    && (!s.stopped ==> forall id :: id in s.client.dones ==> id in s.client.got)
    && (!s.stopped ==> forall i, id :: 0 <= i < |Pending(s)| && id in s.client.dones ==> id < Pending(s)[i].id)
  }

  ghost predicate Inv(s: State)
  {
    && s.receiving
    && Lined(s) && Flushed(s)
    && Accounted(|s.client.kinds|, Pending(s), s.client.dones)
    && Own(s.client.kinds, Pending(s))
    && Answered(s)
  }

  // ---------- what the steps keep

  /** Steps that only pass messages on. */
  predicate PassesOn(step: Step)
  {
    !step.Enqueue? && !step.Record? && !step.HandleRequest? && !step.Receive? && !step.Drain? && !step.Stop?
  }

  lemma PassedOn(s: State, step: Step)
    requires Enabled(s, step) && PassesOn(step)
    ensures var t := Next(s, step);
            RequestsOut(t) == RequestsOut(s) && ResponsesOut(t) == ResponsesOut(s) && Pending(t) == Pending(s) &&
              t.client.sent == s.client.sent
  {
  }

  lemma RecordKeeps(s: State)
    requires Enabled(s, Record) && Lined(s)
    ensures Lined(Next(s, Record)) && Pending(Next(s, Record)) == Pending(s)
  {
    var t := Next(s, Record);
    assert RequestsOut(t) == RequestsOut(s) + [s.sender.req];
    InOrderGrows(s.client.sent, ResponsesOut(s), RequestsOut(s), s.sender.req);
  }

  lemma InOrderGrows(sent: seq<Req>, rs: seq<Res>, qs: seq<Req>, q: Req)
    requires InOrder(sent, rs, qs)
    ensures InOrder(sent + [q], rs, qs + [q])
  {
  }

  lemma HandleKeeps(s: State)
    requires Enabled(s, HandleRequest) && Lined(s)
    ensures Lined(Next(s, HandleRequest)) && Pending(Next(s, HandleRequest)) == Pending(s)
  {
    var t, q := Next(s, HandleRequest), s.handling.value;
    assert RequestsOut(s) == [q] + RequestsOut(t);
    assert ResponsesOut(t) == ResponsesOut(s) + [Res(q.id, Handle(q.kind))];
    InOrderAnswered(s.client.sent, ResponsesOut(s), RequestsOut(t), q);
  }

  lemma InOrderAnswered(sent: seq<Req>, rs: seq<Res>, qs: seq<Req>, q: Req)
    requires InOrder(sent, rs, [q] + qs)
    ensures InOrder(sent, rs + [Res(q.id, Handle(q.kind))], qs)
  {
    assert sent[|rs|] == sent[|rs|..][0] == q;
    assert sent[|rs| + 1..] == sent[|rs|..][1..];
  }

  /** The response that arrives first answers the first request that was recorded. */
  lemma FirstAnswers(s: State)
    requires Enabled(s, Receive) && Lined(s)
    ensures s.client.sent != [] && Answers(s.client.sent[0], s.responseWire[0]) && Refused(s.client, s.responseWire[0]).None?
    ensures !s.responseWire[0].kind.Exception?
  {
    assert ResponsesOut(s)[0] == s.responseWire[0];
    HandleMatches(s.client.sent[0].kind, s.client.sent[0].kind);
  }

  lemma ReceiveKeeps(s: State)
    requires Enabled(s, Receive) && Lined(s)
    ensures var t := Next(s, Receive);
            t.client == Received(s.client, s.responseWire[0]) && t.receiving == s.receiving && t.stopped == s.stopped && Lined(t)
    ensures Pending(Next(s, Receive)) == Pending(s)[1..] && Pending(s) != []
  {
    FirstAnswers(s);
    var t := Next(s, Receive);
    assert ResponsesOut(t) == ResponsesOut(s)[1..];
    InOrderShrinks(s.client.sent, ResponsesOut(s), RequestsOut(s));
  }

  lemma InOrderShrinks(sent: seq<Req>, rs: seq<Res>, qs: seq<Req>)
    requires InOrder(sent, rs, qs) && rs != []
    ensures InOrder(sent[1..], rs[1..], qs)
  {
    assert sent[1..][|rs| - 1..] == sent[|rs|..];
  }

  lemma FlushedKept(s: State, step: Step)
    requires Enabled(s, step) && Flushed(s)
    ensures Flushed(Next(s, step))
  {
  }

  // ---------- accounts

  lemma AccountNew(queued: nat, q: seq<Req>, dones: seq<nat>, kind: Request)
    requires Accounted(queued, q, dones)
    ensures Accounted(queued + 1, q + [Req(queued, kind)], dones)
  {
    var r := q + [Req(queued, kind)];
    forall i | 0 <= i < |q| ensures q[i].id < queued {
      assert Waits(q, q[i].id);
    }
    forall id: nat ensures Waits(r, id) <==> Waits(q, id) || id == queued {
      if Waits(q, id) {
        var i :| 0 <= i < |q| && q[i].id == id;
        assert r[i].id == id;
      }
      if id == queued { assert r[|q|].id == id; }
    }
    assert !Waits(q, queued) && queued !in dones;
  }

  /** A request at any place is done. */
  lemma AccountDone(queued: nat, a: seq<Req>, x: Req, b: seq<Req>, dones: seq<nat>)
    requires Accounted(queued, a + [x] + b, dones)
    ensures Accounted(queued, a + b, dones + [x.id])
  {
    var q, r := a + [x] + b, a + b;
    assert q[|a|] == x;
    assert Waits(q, x.id);
    forall i | 0 <= i < |r| ensures r[i] == q[if i < |a| then i else i + 1] {
    }
    forall id: nat ensures Waits(q, id) <==> Waits(r, id) || id == x.id {
      if Waits(q, id) {
        var i :| 0 <= i < |q| && q[i].id == id;
        assert i != |a| ==> r[if i < |a| then i else i - 1].id == id;
      }
      if Waits(r, id) {
        var i :| 0 <= i < |r| && r[i].id == id;
        assert q[if i < |a| then i else i + 1].id == id;
      }
    }
    assert !Waits(r, x.id);
    assert forall id: nat :: id in dones + [x.id] <==> id in dones || id == x.id;
  }

  lemma OwnDone(kinds: seq<Request>, a: seq<Req>, x: Req, b: seq<Req>)
    requires Own(kinds, a + [x] + b)
    ensures Own(kinds, a + b) && x.id < |kinds| && x.kind == kinds[x.id]
  {
    var q, r := a + [x] + b, a + b;
    assert q[|a|] == x;
    forall i | 0 <= i < |r| ensures r[i] == q[if i < |a| then i else i + 1] {
    }
  }

  lemma EnqueueKeeps(s: State, kind: Request)
    requires Inv(s) && Enabled(s, Enqueue(kind))
    ensures Inv(Next(s, Enqueue(kind)))
  {
    var t, r := Next(s, Enqueue(kind)), Req(|s.client.kinds|, kind);
    assert Pending(t) == Pending(s) + [r];
    AccountNew(|s.client.kinds|, Pending(s), s.client.dones, kind);
    FlushedKept(s, Enqueue(kind));
  }

  lemma ReceiveAnswered(s: State, t: State, q: Req, res: Res)
    requires Answered(s) && Answers(q, res) && q.id < |s.client.kinds| && q.kind == s.client.kinds[q.id]
    requires t.client.kinds == s.client.kinds && t.client.got == s.client.got[q.id := res]
    requires t.client.dones == s.client.dones + [q.id] && t.stopped == s.stopped
    requires Pending(s) != [] && Pending(s)[0] == q && Pending(t) == Pending(s)[1..] && Increasing(Pending(s))
    ensures Answered(t)
  {
  }

  lemma ReceiveInv(s: State)
    requires Inv(s) && Enabled(s, Receive)
    ensures Inv(Next(s, Receive))
  {
    ReceiveKeeps(s);
    FirstAnswers(s);
    FlushedKept(s, Receive);
    var p := Pending(s);
    assert p == [] + [p[0]] + p[1..] && [] + p[1..] == p[1..] && p[0] == s.client.sent[0];
    AccountDone(|s.client.kinds|, [], p[0], p[1..], s.client.dones);
    OwnDone(s.client.kinds, [], p[0], p[1..]);
    ReceiveAnswered(s, Next(s, Receive), p[0], s.responseWire[0]);
  }

  lemma DrainInv(s: State)
    requires Inv(s) && Enabled(s, Drain)
    ensures Inv(Next(s, Drain))
  {
    var t, a := Next(s, Drain), s.client.sent + (if s.sender.Taken? then [s.sender.req] else []);
    assert Pending(s) == a + [s.client.queue[0]] + s.client.queue[1..] && Pending(t) == a + s.client.queue[1..];
    AccountDone(|s.client.kinds|, a, s.client.queue[0], s.client.queue[1..], s.client.dones);
    OwnDone(s.client.kinds, a, s.client.queue[0], s.client.queue[1..]);
    FlushedKept(s, Drain);
  }

  lemma StepKeeps(s: State, step: Step)
    requires Inv(s) && Enabled(s, step)
    ensures Inv(Next(s, step))
  {
    FlushedKept(s, step);
    match step
    case Enqueue(kind) => EnqueueKeeps(s, kind);
    case Record => RecordKeeps(s);
    case HandleRequest => HandleKeeps(s);
    case Receive => ReceiveInv(s);
    case Drain => DrainInv(s);
    case Stop =>
    case _ => PassedOn(s, step);
  }

  // ---------- whole runs

  lemma {:induction false} RunKeeps(states: seq<State>, steps: seq<Step>, i: nat)
    requires IsRun(states, steps) && i < |states|
    ensures Inv(states[i])
  {
    if i > 0 {
      RunKeeps(states, steps, i - 1);
      StepKeeps(states[i - 1], steps[i - 1]);
    }
  }

  /** The kinds of the requests that steps put into the queue, in turn. */
  function QueuedBy(steps: seq<Step>): (kinds: seq<Request>)
  {
    if steps == [] then []
    else
      var last := steps[|steps| - 1];
      QueuedBy(steps[..|steps| - 1]) + if last.Enqueue? then [last.kind] else []
  }

  lemma KindsStep(s: State, step: Step)
    requires Enabled(s, step)
    ensures Next(s, step).client.kinds == s.client.kinds + if step.Enqueue? then [step.kind] else []
  {
  }

  lemma QueuedStep(steps: seq<Step>, i: nat)
    requires i < |steps|
    ensures QueuedBy(steps[..i + 1]) == QueuedBy(steps[..i]) + if steps[i].Enqueue? then [steps[i].kind] else []
  {
    var t := steps[..i + 1];
    assert t[..i] == steps[..i] && t[i] == steps[i];
  }

  lemma {:induction false} KindsAre(states: seq<State>, steps: seq<Step>, i: nat)
    requires IsRun(states, steps) && i < |states|
    ensures states[i].client.kinds == QueuedBy(steps[..i])
  {
    if i > 0 {
      KindsAre(states, steps, i - 1);
      KindsStep(states[i - 1], steps[i - 1]);
      QueuedStep(steps, i - 1);
    }
  }

  /**
   * In no run does the client see a response that it does not expect: each is of the request it completes and answers
   * the kind with which that one was queued.  It is stored for that request alone, which is then done.
   */
  lemma NoMismatch(states: seq<State>, steps: seq<Step>, i: nat)
    requires IsRun(states, steps) && i < |steps| && steps[i].Receive?
    ensures states[i].client.sent != [] && states[i].client.sent[0].id < |QueuedBy(steps[..i])|
    ensures var s, t, id := states[i].client, states[i + 1].client, states[i].client.sent[0].id;
            states[i].responseWire[0] == Res(id, Handle(QueuedBy(steps[..i])[id])) &&
            t.got == s.got[id := states[i].responseWire[0]] && t.dones == s.dones + [id] && t.sent == s.sent[1..] &&
            t.queue == s.queue && states[i + 1].receiving
  {
    RunKeeps(states, steps, i);
    KindsAre(states, steps, i);
    FirstAnswers(states[i]);
    assert Pending(states[i])[0] == states[i].client.sent[0];
  }

  /**
   * When a response arrives, of a flush or of any other request, all requests that were queued before are done;
   * without a stop, they have theirs.
   */
  lemma EarlierDone(states: seq<State>, steps: seq<Step>, i: nat, id: nat)
    requires IsRun(states, steps) && i < |steps| && steps[i].Receive? && id < states[i].responseWire[0].of
    ensures id in states[i].client.dones && (!states[i].stopped ==> id in states[i].client.got)
  {
    var s := states[i];
    RunKeeps(states, steps, i);
    FirstAnswers(s);
    assert Pending(s)[0] == s.client.sent[0];
    assert Waits(Pending(s), Pending(s)[0].id);
    assert !Waits(Pending(s), id);
  }

  /**
   * What FlushSync relies on: once a request has its response, so have all that were queued before it, each that of
   * its own kind, as long as there was no stop.
   */
  lemma FlushedAll(states: seq<State>, steps: seq<Step>, i: nat, flush: nat, id: nat)
    requires IsRun(states, steps) && i < |states| && !states[i].stopped
    requires flush in states[i].client.got && id < flush
    ensures id in states[i].client.got && id < |QueuedBy(steps[..i])|
    ensures states[i].client.got[id] == Res(id, Handle(QueuedBy(steps[..i])[id]))
  {
    var s := states[i];
    RunKeeps(states, steps, i);
    KindsAre(states, steps, i);
    assert !Waits(Pending(s), id);
  }

  /** In all runs, also those that stop and drain the queue, no request is done twice. */
  lemma DoneOnce(states: seq<State>, steps: seq<Step>, i: nat)
    requires IsRun(states, steps) && i < |states|
    ensures Distinct(states[i].client.dones)
    ensures forall id :: id in states[i].client.dones ==> id < |QueuedBy(steps[..i])|
    ensures forall id :: id in states[i].client.got ==> id in states[i].client.dones
  {
    RunKeeps(states, steps, i);
    KindsAre(states, steps, i);
    var s := states[i];
    forall id | id in s.client.dones ensures id < |s.client.kinds| {
      assert Waits(Pending(s), id) || id in s.client.dones;
    }
  }
}
