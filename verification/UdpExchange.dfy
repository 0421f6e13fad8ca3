/** Requests over UDP: clients that retry, a server that answers a repeated request from its
    cache, and a network that loses, duplicates and reorders datagrams. */
module UdpExchange {
  import opened Bytes
  import opened Counting

  datatype Request = Request(id: uint64, operation: Bytes, payload: Bytes)

  datatype Response = Response(id: uint64, status: Bytes, payload: Bytes)

  const STATUS_OK := Ascii("OK")
  const STATUS_ERROR := Ascii("ERROR")
  const TIME := Ascii("TIME")
  const UNKNOWN := Ascii("unknown operation")

  // Both sides receive into 1024 bytes; UDP drops what does not fit.
  const BUFFER := 1024

  function Received(datagram: Bytes): Bytes {
    if |datagram| <= BUFFER then datagram else datagram[..BUFFER]
  }

  /** The JSON encoding, as two partial decoders and two encoders that may be anything. */
  datatype Codec = Codec(
    requestOf: Bytes -> Option<Request>, requestBytes: Request -> Bytes,
    responseOf: Bytes -> Option<Response>, responseBytes: Response -> Bytes)

  datatype RequestError = NotJson | ZeroId | NoOperation

  function RequestFault(r: Request): Option<RequestError> {
    if r.id == 0 then Some(ZeroId)
    else if TrimSpace(r.operation) == [] then Some(NoOperation)
    else None
  }

  function DecodeRequest(codec: Codec, data: Bytes): Result<Request, RequestError> {
    match codec.requestOf(data)
    case None => Err(NotJson)
    case Some(r) => if RequestFault(r).Some? then Err(RequestFault(r).value) else Ok(r)
  }

  /** Response.ValidateFor. */
  predicate ValidFor(response: Response, request: Request) {
    && response.id != 0 && response.id == request.id
    && (response.status == STATUS_OK || response.status == STATUS_ERROR)
  }

  // ---------- the server's handler ----------

  datatype Key = Key(address: Bytes, id: uint64)

  type Cache = map<Key, Response>

  // What the handler makes of a datagram.
  datatype Handled =
    | Invalid(error: RequestError)
    | Duplicate(key: Key, response: Response)
    | Executed(key: Key, response: Response, usedClock: bool)

  function Execute(r: Request, now: Bytes): Response {
    if r.operation == TIME then Response(r.id, STATUS_OK, now) else Response(r.id, STATUS_ERROR, UNKNOWN)
  }

  function Handling(codec: Codec, cache: Cache, address: Bytes, data: Bytes, now: Bytes): Handled {
    match DecodeRequest(codec, data)
    case Err(e) => Invalid(e)
    case Ok(r) =>
      var key := Key(address, r.id);
      if key in cache then Duplicate(key, cache[key])
      else Executed(key, Execute(r, now), r.operation == TIME)
  }

  function CacheAfter(cache: Cache, handled: Handled): Cache {
    if handled.Executed? then cache[handled.key := handled.response] else cache
  }

  class RequestHandler {
    const codec: Codec
    var processed: Cache
    var clockCalls: nat

    constructor (codec: Codec)
      ensures this.codec == codec && processed == map[] && clockCalls == 0
    {
      this.codec, processed, clockCalls := codec, map[], 0;
    }

    /** `now` is what the clock would say. */
    method Handle(address: Bytes, data: Bytes, now: Bytes) returns (r: Result<(Response, bool), RequestError>)
      modifies this
      ensures var handled := Handling(codec, old(processed), address, data, now);
        && processed == CacheAfter(old(processed), handled)
        && clockCalls == old(clockCalls) + (if handled.Executed? && handled.usedClock then 1 else 0)
        && match handled
           case Invalid(e) => r == Err(e)
           case Duplicate(_, response) => r == Ok((response, true))
           case Executed(_, response, _) => r == Ok((response, false))
    {
      var decoded := DecodeRequest(codec, data);
      if decoded.Err? {
        return Err(decoded.error);
      }
      var req := decoded.value;
      var key := Key(address, req.id);
      if key in processed {
        return Ok((processed[key], true));
      }
      var response := Response(req.id, [], []);
      if req.operation == TIME {
        clockCalls := clockCalls + 1;
        response := response.(status := STATUS_OK).(payload := now);
      } else {
        response := response.(status := STATUS_ERROR).(payload := UNKNOWN);
      }
      processed := processed[key := response];
      return Ok((response, false));
    }
  }

  // ---------- the system ----------

  // A client process with one request, sent at most twice.
  datatype Phase = Ready | Waiting | Done(response: Response) | GaveUp | Fatal

  datatype Client = Client(request: Request, attempts: nat, phase: Phase)

  const MAX_ATTEMPTS := 2

  datatype Datagram = Datagram(address: Bytes, data: Bytes)

  datatype Execution = Execution(key: Key, usedClock: bool)

  /** The network keeps every datagram ever sent and may deliver each never, once or often, at
      any time. `executed` and `emitted` record what the server has done. */
  datatype State = State(
    codec: Codec, cache: Cache, clockCalls: nat, clients: map<Bytes, Client>,
    toServer: set<Datagram>, toClients: set<Datagram>,
    executed: seq<Execution>, emitted: seq<(Key, Response)>)

  datatype Step =
    | Inject(d: Datagram)                 // anyone but a client sends anything
    | Send(address: Bytes)
    | TimeOut(address: Bytes)
    | Receive(address: Bytes, data: Bytes)
    | Serve(d: Datagram, now: Bytes)

  // time.RFC3339 text is printable ASCII and short.
  predicate ClockText(now: Bytes) {
    |now| <= 40 && forall i :: 0 <= i < |now| ==> 32 <= now[i] < 127
  }

  // The responses that the handler builds.
  predicate Built(r: Response) {
    r.id != 0 && ((r.status == STATUS_OK && ClockText(r.payload)) || (r.status == STATUS_ERROR && r.payload == UNKNOWN))
  }

  /** What is asked of the JSON encoding: those responses fit the buffer and are read back. */
  ghost predicate Lawful(codec: Codec) {
    forall r: Response :: Built(r) ==>
      |codec.responseBytes(r)| <= BUFFER && codec.responseOf(codec.responseBytes(r)) == Some(r)
  }

  // A client's request is valid, fits the buffer and is read back.
  ghost predicate ProperRequest(codec: Codec, r: Request) {
    RequestFault(r) == None && |codec.requestBytes(r)| <= BUFFER && codec.requestOf(codec.requestBytes(r)) == Some(r)
  }

  // The server and the network have done nothing yet.
  ghost predicate Fresh(s: State) {
    && s.cache == map[] && s.clockCalls == 0
    && s.toServer == {} && s.toClients == {} && s.executed == [] && s.emitted == []
  }

  ghost predicate Initial(s: State) {
    && Fresh(s) && Lawful(s.codec)
    && forall a <- s.clients ::
         ProperRequest(s.codec, s.clients[a].request) && s.clients[a].attempts == 0 && s.clients[a].phase == Ready
  }

  predicate Enabled(s: State, step: Step) {
    match step
    case Inject(d) => d.address !in s.clients
    case Send(a) => a in s.clients && s.clients[a].phase == Ready && s.clients[a].attempts < MAX_ATTEMPTS
    case TimeOut(a) => a in s.clients && s.clients[a].phase == Waiting
    case Receive(a, data) => a in s.clients && s.clients[a].phase == Waiting && Datagram(a, data) in s.toClients
    case Serve(d, now) => d in s.toServer && ClockText(now)
  }

  // What a client makes of a datagram: any bad one is fatal.
  function Judge(codec: Codec, data: Bytes, request: Request): Phase {
    match codec.responseOf(Received(data))
    case None => Fatal
    case Some(response) => if ValidFor(response, request) then Done(response) else Fatal
  }

  function SetPhase(s: State, address: Bytes, phase: Phase): State
    requires address in s.clients
  {
    s.(clients := s.clients[address := s.clients[address].(phase := phase)])
  }

  function Reply(s: State, key: Key, response: Response): State {
    s.(toClients := s.toClients + {Datagram(key.address, s.codec.responseBytes(response))},
       emitted := s.emitted + [(key, response)])
  }

  function ServeOne(s: State, d: Datagram, now: Bytes): State {
    var handled := Handling(s.codec, s.cache, d.address, Received(d.data), now);
    match handled
    case Invalid(_) => s
    case Duplicate(key, response) => Reply(s, key, response)
    case Executed(key, response, usedClock) =>
      Reply(s, key, response).(
        cache := CacheAfter(s.cache, handled),
        executed := s.executed + [Execution(key, usedClock)],
        clockCalls := s.clockCalls + if usedClock then 1 else 0)
  }

  function Do(s: State, step: Step): State
    requires Enabled(s, step)
  {
    match step
    case Inject(d) => s.(toServer := s.toServer + {d})
    case Send(a) =>
      var c := s.clients[a];
      s.(clients := s.clients[a := c.(attempts := c.attempts + 1, phase := Waiting)],
         toServer := s.toServer + {Datagram(a, s.codec.requestBytes(c.request))})
    case TimeOut(a) => SetPhase(s, a, if s.clients[a].attempts < MAX_ATTEMPTS then Ready else GaveUp)
    case Receive(a, data) => SetPhase(s, a, Judge(s.codec, data, s.clients[a].request))
    case Serve(d, now) => ServeOne(s, d, now)
  }

  // ---------- the invariant ----------

  predicate UsesClock(e: Execution) { e.usedClock }

  // Keys are executed once each, and are the ones in the cache.
  ghost predicate ExecutedOnce(cache: Cache, executed: seq<Execution>, clockCalls: nat) {
    && (forall i, j :: 0 <= i < j < |executed| ==> executed[i].key != executed[j].key)
    && (forall i :: 0 <= i < |executed| ==> executed[i].key in cache)
    && clockCalls == Count(executed, UsesClock)
  }

  ghost predicate BuiltCache(cache: Cache) {
    forall key <- cache :: Built(cache[key]) && cache[key].id == key.id
  }

  ghost predicate EmittedFrom(cache: Cache, emitted: seq<(Key, Response)>) {
    forall i :: 0 <= i < |emitted| ==> emitted[i].0 in cache && cache[emitted[i].0] == emitted[i].1
  }

  ghost predicate ReplyOf(codec: Codec, cache: Cache, d: Datagram) {
    exists key :: key in cache && key.address == d.address && d.data == codec.responseBytes(cache[key])
  }

  ghost predicate RepliesFrom(codec: Codec, cache: Cache, toClients: set<Datagram>) {
    forall d <- toClients :: ReplyOf(codec, cache, d)
  }

  // The server's view of a client's address is the client's one request.
  ghost predicate ServerSees(codec: Codec, cache: Cache, toServer: set<Datagram>, a: Bytes, r: Request) {
    && ProperRequest(codec, r)
    && (forall d <- toServer :: d.address == a ==> d.data == codec.requestBytes(r))
    && (forall key <- cache :: key.address == a ==>
          key.id == r.id && (cache[key].status == STATUS_OK <==> r.operation == TIME))
  }

  // A client that is done has the cached response to its request.
  ghost predicate PhaseSound(cache: Cache, a: Bytes, c: Client) {
    && c.attempts <= MAX_ATTEMPTS && (c.phase.GaveUp? ==> c.attempts == MAX_ATTEMPTS)
    && c.phase != Fatal
    && (c.phase.Done? ==> Key(a, c.request.id) in cache && c.phase.response == cache[Key(a, c.request.id)])
  }

  ghost predicate ClientSound(s: State, a: Bytes)
    requires a in s.clients
  {
    && ServerSees(s.codec, s.cache, s.toServer, a, s.clients[a].request)
    && PhaseSound(s.cache, a, s.clients[a])
  }

  ghost predicate ServerInv(s: State) {
    && ExecutedOnce(s.cache, s.executed, s.clockCalls)
    && BuiltCache(s.cache)
    && EmittedFrom(s.cache, s.emitted)
    && RepliesFrom(s.codec, s.cache, s.toClients)
  }

  ghost predicate Inv(s: State) {
    && Lawful(s.codec)
    && ServerInv(s)
    && forall a <- s.clients :: ClientSound(s, a)
  }

  lemma HandlingIsBuilt(codec: Codec, cache: Cache, address: Bytes, data: Bytes, now: Bytes)
    requires ClockText(now)
    ensures var h := Handling(codec, cache, address, data, now);
      h.Executed? ==> Built(h.response) && h.response.id == h.key.id && h.key.address == address && h.key !in cache
    ensures var h := Handling(codec, cache, address, data, now);
      h.Duplicate? ==> h.key in cache && h.response == cache[h.key] && h.key.address == address
  {
  }

  lemma NewExecution(cache: Cache, executed: seq<Execution>, clockCalls: nat, e: Execution, response: Response)
    requires ExecutedOnce(cache, executed, clockCalls) && e.key !in cache
    ensures ExecutedOnce(cache[e.key := response], executed + [e], clockCalls + if e.usedClock then 1 else 0)
  {
    CountAdd(executed, e, UsesClock);
    hide Count;
  }

  /** The cached key is new, and everything said of the old cache goes on to hold. */
  lemma CacheAdds(
      codec: Codec, cache: Cache, key: Key, response: Response, emitted: seq<(Key, Response)>, toClients: set<Datagram>)
    requires key !in cache && BuiltCache(cache) && EmittedFrom(cache, emitted) && RepliesFrom(codec, cache, toClients)
    requires Built(response) && response.id == key.id
    ensures var cache' := cache[key := response];
      BuiltCache(cache') && EmittedFrom(cache', emitted) && RepliesFrom(codec, cache', toClients)
  {
    hide Built;
    var cache' := cache[key := response];
    forall d | d in toClients ensures ReplyOf(codec, cache', d) {
      assert ReplyOf(codec, cache, d);
      var k :| k in cache && k.address == d.address && d.data == codec.responseBytes(cache[k]);
      assert cache'[k] == cache[k];
    }
  }

  lemma ReplyAdds(codec: Codec, cache: Cache, key: Key, emitted: seq<(Key, Response)>, toClients: set<Datagram>)
    requires key in cache && EmittedFrom(cache, emitted) && RepliesFrom(codec, cache, toClients)
    ensures EmittedFrom(cache, emitted + [(key, cache[key])])
    ensures RepliesFrom(codec, cache, toClients + {Datagram(key.address, codec.responseBytes(cache[key]))})
  {
    var d := Datagram(key.address, codec.responseBytes(cache[key]));
    assert ReplyOf(codec, cache, d);
  }

  lemma ReplyKeeps(s: State, key: Key)
    requires ServerInv(s) && key in s.cache
    ensures ServerInv(Reply(s, key, s.cache[key]))
  {
    hide ExecutedOnce, BuiltCache, EmittedFrom, RepliesFrom;
    ReplyAdds(s.codec, s.cache, key, s.emitted, s.toClients);
  }

  lemma ExecuteKeeps(s: State, e: Execution, response: Response)
    requires ServerInv(s) && e.key !in s.cache && Built(response) && response.id == e.key.id
    ensures ServerInv(s.(cache := s.cache[e.key := response], executed := s.executed + [e],
                         clockCalls := s.clockCalls + if e.usedClock then 1 else 0))
  {
    hide Built, ExecutedOnce, BuiltCache, EmittedFrom, RepliesFrom;
    NewExecution(s.cache, s.executed, s.clockCalls, e, response);
    CacheAdds(s.codec, s.cache, e.key, response, s.emitted, s.toClients);
  }

  // What a served datagram leaves of the server's part of the invariant.
  lemma ServeKeeps(s: State, d: Datagram, now: Bytes)
    requires ServerInv(s) && ClockText(now)
    ensures ServerInv(ServeOne(s, d, now))
  {
    hide Handling, Received, Built, ClockText, ServerInv;
    var handled := Handling(s.codec, s.cache, d.address, Received(d.data), now);
    HandlingIsBuilt(s.codec, s.cache, d.address, Received(d.data), now);
    match handled {
      case Invalid(_) =>
      case Duplicate(key, response) =>
        ReplyKeeps(s, key);
      case Executed(key, response, usedClock) =>
        var e := Execution(key, usedClock);
        ExecuteKeeps(s, e, response);
        var t := s.(cache := s.cache[key := response], executed := s.executed + [e],
                    clockCalls := s.clockCalls + if usedClock then 1 else 0);
        ReplyKeeps(t, key);
        assert ServeOne(s, d, now) == Reply(t, key, response);
    }
  }

  // The server reads a client's datagram as the client's request.
  lemma ClientDatagram(codec: Codec, cache: Cache, toServer: set<Datagram>, d: Datagram, r: Request, now: Bytes)
    requires ServerSees(codec, cache, toServer, d.address, r) && d in toServer
    ensures var key := Key(d.address, r.id);
      Handling(codec, cache, d.address, Received(d.data), now) ==
        if key in cache then Duplicate(key, cache[key]) else Executed(key, Execute(r, now), r.operation == TIME)
  {
    assert d.data == codec.requestBytes(r);
  }

  lemma StatusesDiffer()
    ensures STATUS_OK != STATUS_ERROR
  {
    assert |STATUS_OK| == 2 && |STATUS_ERROR| == 5;
  }

  lemma CacheSees(codec: Codec, cache: Cache, toServer: set<Datagram>, a: Bytes, c: Client, key: Key, response: Response)
    requires ServerSees(codec, cache, toServer, a, c.request) && PhaseSound(cache, a, c) && key !in cache
    requires key.address == a ==> key.id == c.request.id && (response.status == STATUS_OK <==> c.request.operation == TIME)
    ensures ServerSees(codec, cache[key := response], toServer, a, c.request) && PhaseSound(cache[key := response], a, c)
  {
    hide ProperRequest;
  }

  lemma ExecuteStatus(r: Request, now: Bytes)
    ensures Execute(r, now).status == STATUS_OK <==> r.operation == TIME
  {
    StatusesDiffer();
  }

  // Serving a datagram adds nothing to a client's part of the cache but its own request.
  lemma ServeSees(codec: Codec, cache: Cache, toServer: set<Datagram>, d: Datagram, now: Bytes, a: Bytes, c: Client)
    requires ServerSees(codec, cache, toServer, a, c.request) && PhaseSound(cache, a, c)
    requires d in toServer && ClockText(now)
    ensures var cache' := CacheAfter(cache, Handling(codec, cache, d.address, Received(d.data), now));
      ServerSees(codec, cache', toServer, a, c.request) && PhaseSound(cache', a, c)
  {
    hide Handling, Received, ServerSees, PhaseSound, Execute, ClockText, Built;
    HandlingIsBuilt(codec, cache, d.address, Received(d.data), now);
    var handled := Handling(codec, cache, d.address, Received(d.data), now);
    if d.address == a {
      ClientDatagram(codec, cache, toServer, d, c.request, now);
      ExecuteStatus(c.request, now);
    }
    if handled.Executed? {
      CacheSees(codec, cache, toServer, a, c, handled.key, handled.response);
    }
  }

  lemma SendSees(codec: Codec, cache: Cache, toServer: set<Datagram>, d: Datagram, a: Bytes, r: Request)
    requires ServerSees(codec, cache, toServer, a, r)
    requires d.address == a ==> d.data == codec.requestBytes(r)
    ensures ServerSees(codec, cache, toServer + {d}, a, r)
  {
    hide ProperRequest;
  }

  // Whatever reaches a waiting client is the cached response to its request.
  lemma ClientReceives(s: State, a: Bytes, data: Bytes)
    requires Inv(s) && a in s.clients && Datagram(a, data) in s.toClients
    ensures var key := Key(a, s.clients[a].request.id);
      key in s.cache && Judge(s.codec, data, s.clients[a].request) == Done(s.cache[key])
  {
    assert ClientSound(s, a);
    assert ReplyOf(s.codec, s.cache, Datagram(a, data));
    var key :| key in s.cache && key.address == a && data == s.codec.responseBytes(s.cache[key]);
    assert key == Key(a, s.clients[a].request.id);
    assert Built(s.cache[key]);
    hide ExecutedOnce, EmittedFrom, ClientSound;
  }

  lemma ClientSoundStep(s: State, step: Step, a: Bytes)
    requires Inv(s) && Enabled(s, step) && a in s.clients
    ensures ClientSound(Do(s, step), a)
  {
    hide Judge, ServeOne, ServerSees, ExecutedOnce, BuiltCache, EmittedFrom, RepliesFrom, Lawful, ClockText;
    assert ClientSound(s, a);
    var c := s.clients[a];
    match step {
      case Inject(d) => SendSees(s.codec, s.cache, s.toServer, d, a, c.request);
      case Send(b) =>
        SendSees(s.codec, s.cache, s.toServer, Datagram(b, s.codec.requestBytes(s.clients[b].request)), a, c.request);
      case TimeOut(_) =>
      case Receive(b, data) => ClientReceives(s, b, data);
      case Serve(d, now) =>
        ServeSees(s.codec, s.cache, s.toServer, d, now, a, c);
        ServeFrame(s, d, now);
    }
  }

  lemma {:induction false} InvStep(s: State, step: Step)
    requires Inv(s) && Enabled(s, step)
    ensures Inv(Do(s, step))
  {
    hide ClientSound, ExecutedOnce, BuiltCache, EmittedFrom, RepliesFrom, Lawful, ServeOne, Judge, ClockText;
    var t := Do(s, step);
    if step.Serve? {
      ServeKeeps(s, step.d, step.now);
      ServeFrame(s, step.d, step.now);
    }
    forall a | a in t.clients ensures ClientSound(t, a) {
      ClientSoundStep(s, step, a);
    }
  }

  lemma ServeFrame(s: State, d: Datagram, now: Bytes)
    ensures var t := ServeOne(s, d, now);
      && t.codec == s.codec && t.clients == s.clients && t.toServer == s.toServer
      && t.cache == CacheAfter(s.cache, Handling(s.codec, s.cache, d.address, Received(d.data), now))
  {
    hide Handling, Received;
  }

  // ---------- runs ----------

  ghost predicate Runs(from: State, steps: seq<Step>, to: State)
    decreases |steps|
  {
    if steps == [] then from == to
    else Enabled(from, steps[0]) && Runs(Do(from, steps[0]), steps[1..], to)
  }

  // A state of a run with any encoding and any clients.
  ghost predicate Served(s: State) {
    exists from, steps :: Fresh(from) && Runs(from, steps, s)
  }

  // A state of a run with proper clients and an encoding that reads back what it writes.
  ghost predicate Reachable(s: State) {
    exists from, steps :: Initial(from) && Runs(from, steps, s)
  }

  /** Nothing ever leaves the cache or changes in it. */
  ghost predicate Grows(a: Cache, b: Cache) {
    forall key <- a :: key in b && b[key] == a[key]
  }

  lemma StepGrows(s: State, step: Step)
    requires Enabled(s, step)
    ensures var t := Do(s, step); Grows(s.cache, t.cache) && s.executed <= t.executed && s.emitted <= t.emitted
  {
    hide Received;
  }

  lemma ServerStep(s: State, step: Step)
    requires ServerInv(s) && Enabled(s, step)
    ensures ServerInv(Do(s, step))
  {
    hide ExecutedOnce, BuiltCache, EmittedFrom, RepliesFrom, ServeOne, Judge, ClockText;
    if step.Serve? {
      ServeKeeps(s, step.d, step.now);
    }
  }

  lemma {:induction false} ServerKeeps(from: State, steps: seq<Step>, to: State)
    requires ServerInv(from) && Runs(from, steps, to)
    ensures ServerInv(to) && Grows(from.cache, to.cache) && from.executed <= to.executed && from.emitted <= to.emitted
    decreases |steps|
  {
    hide ServerInv, Do, Enabled;
    if steps == [] {
    } else {
      ServerStep(from, steps[0]);
      StepGrows(from, steps[0]);
      ServerKeeps(Do(from, steps[0]), steps[1..], to);
    }
  }

  lemma ServedInv(s: State)
    requires Served(s)
    ensures ServerInv(s)
  {
    var from, steps :| Fresh(from) && Runs(from, steps, s);
    ServerKeeps(from, steps, s);
  }

  lemma {:induction false} InvRuns(from: State, steps: seq<Step>, to: State)
    requires Inv(from) && Runs(from, steps, to)
    ensures Inv(to)
    decreases |steps|
  {
    hide Inv, Do, Enabled;
    if steps == [] {
    } else {
      InvStep(from, steps[0]);
      InvRuns(Do(from, steps[0]), steps[1..], to);
    }
  }

  lemma InitialInv(s: State)
    requires Initial(s)
    ensures Inv(s)
  {
    hide Lawful, ProperRequest;
  }

  lemma ReachableInv(s: State)
    requires Reachable(s)
    ensures Inv(s)
  {
    hide Initial, Runs, Inv;
    var from, steps :| Initial(from) && Runs(from, steps, s);
    InitialInv(from);
    InvRuns(from, steps, s);
  }

  /** In every run, with any encoding and any clients, each request, by client address and ID, is
      executed at most once, although it may be delivered any number of times; the clock is read
      once for each executed TIME. */
  lemma {:induction false} AtMostOnce(s: State, i: nat, j: nat)
    requires Served(s) && i < |s.executed| && j < |s.executed|
    ensures s.executed[i].key == s.executed[j].key ==> i == j
    ensures s.clockCalls == Count(s.executed, UsesClock)
  {
    ServedInv(s);
  }

  /** All responses ever emitted for a request are the same, in every continuation of the run. */
  lemma {:induction false} OneAnswer(from: State, steps: seq<Step>, to: State, i: nat, j: nat)
    requires Served(from) && Runs(from, steps, to)
    requires i < |from.emitted| && j < |to.emitted| && from.emitted[i].0 == to.emitted[j].0
    ensures from.emitted[i].1 == to.emitted[j].1
    ensures Grows(from.cache, to.cache)
  {
    ServedInv(from);
    ServerKeeps(from, steps, to);
    hide ExecutedOnce, Runs, BuiltCache, RepliesFrom;
    assert EmittedFrom(from.cache, from.emitted) && EmittedFrom(to.cache, to.emitted);
  }

  // ---------- rejected datagrams ----------

  predicate Rejected(codec: Codec, d: Datagram) {
    DecodeRequest(codec, Received(d.data)).Err?
  }

  // The arrival and the serving of a rejected datagram from outside.
  predicate IsJunk(codec: Codec, step: Step) {
    (step.Inject? || step.Serve?) && Rejected(codec, step.d)
  }

  function WithoutJunk(codec: Codec, steps: seq<Step>): seq<Step> {
    if steps == [] then []
    else (if IsJunk(codec, steps[0]) then [] else [steps[0]]) + WithoutJunk(codec, steps[1..])
  }

  // The two states differ only in rejected datagrams on their way to the server.
  ghost predicate SameButJunk(s: State, t: State) {
    && t == s.(toServer := t.toServer)
    && forall d :: !Rejected(s.codec, d) ==> (d in s.toServer <==> d in t.toServer)
  }

  lemma JunkStep(s: State, step: Step, t: State)
    requires SameButJunk(s, t) && Enabled(s, step)
    ensures IsJunk(s.codec, step) ==> SameButJunk(Do(s, step), t)
    ensures !IsJunk(s.codec, step) ==> Enabled(t, step) && SameButJunk(Do(s, step), Do(t, step))
    ensures Do(s, step).codec == s.codec
  {
    hide Received, DecodeRequest, Execute, ClockText, Judge;
  }

  /** Rejected datagrams have no effect on a run: leaving out their arrival and every serving of
      them leads to the same cache, executions, responses, clock calls and clients. */
  lemma {:induction false} RejectedAreInert(from: State, steps: seq<Step>, to: State, from': State) returns (to': State)
    requires Runs(from, steps, to) && SameButJunk(from, from')
    ensures Runs(from', WithoutJunk(from.codec, steps), to') && SameButJunk(to, to')
    decreases |steps|
  {
    hide Enabled, Do, IsJunk, SameButJunk;
    if steps == [] {
      to' := from';
    } else {
      var step, codec := steps[0], from.codec;
      JunkStep(from, step, from');
      if IsJunk(codec, step) {
        to' := RejectedAreInert(Do(from, step), steps[1..], to, from');
        assert [] + WithoutJunk(codec, steps[1..]) == WithoutJunk(codec, steps[1..]);
      } else {
        to' := RejectedAreInert(Do(from, step), steps[1..], to, Do(from', step));
        var rest := WithoutJunk(codec, steps[1..]);
        assert WithoutJunk(codec, steps) == [step] + rest && ([step] + rest)[1..] == rest;
      }
    }
  }

  // ---------- clients ----------

  /** A client never stops on a bad response: whatever it receives passes ValidateFor and is the
      one response to its request, OK exactly when it asked for the time. */
  lemma {:induction false} ClientsSucceed(s: State, a: Bytes)
    requires Reachable(s) && a in s.clients
    ensures var c := s.clients[a]; var key := Key(a, c.request.id);
      && c.attempts <= MAX_ATTEMPTS && (c.phase.GaveUp? ==> c.attempts == MAX_ATTEMPTS)
      && c.phase != Fatal
      && (c.phase.Done? ==>
           && ValidFor(c.phase.response, c.request)
           && key in s.cache && c.phase.response == s.cache[key]
           && (c.phase.response.status == STATUS_OK <==> c.request.operation == TIME))
    ensures forall data :: Datagram(a, data) in s.toClients ==> Judge(s.codec, data, s.clients[a].request).Done?
  {
    ReachableInv(s);
    assert ClientSound(s, a);
    assert BuiltCache(s.cache);
    forall data | Datagram(a, data) in s.toClients ensures Judge(s.codec, data, s.clients[a].request).Done? {
      ClientReceives(s, a, data);
    }
    hide Judge, ExecutedOnce, Lawful;
  }

  lemma {:induction false} RunExtends(from: State, steps: seq<Step>, to: State, step: Step)
    requires Runs(from, steps, to) && Enabled(to, step)
    ensures Runs(from, steps + [step], Do(to, step))
    decreases |steps|
  {
    hide Do, Enabled;
    var all := steps + [step];
    if steps == [] {
      assert all[0] == step && all[1..] == [];
    } else {
      RunExtends(Do(from, steps[0]), steps[1..], to, step);
      assert all[0] == steps[0] && all[1..] == steps[1..] + [step];
    }
  }

  lemma ReachableStep(s: State, step: Step)
    requires Reachable(s) && Enabled(s, step)
    ensures Reachable(Do(s, step))
  {
    hide Do, Enabled, Runs, Initial;
    var from, steps :| Initial(from) && Runs(from, steps, s);
    RunExtends(from, steps, s, step);
  }

  lemma SendReaches(s: State, a: Bytes)
    requires Enabled(s, Send(a))
    ensures var t := Do(s, Send(a)); var c := s.clients[a];
      && a in t.clients && t.codec == s.codec && t.clients[a] == c.(attempts := c.attempts + 1, phase := Waiting)
      && Datagram(a, s.codec.requestBytes(c.request)) in t.toServer
  {
  }

  lemma ServeReplies(s: State, d: Datagram, now: Bytes)
    requires Enabled(s, Serve(d, now))
    ensures var handled := Handling(s.codec, s.cache, d.address, Received(d.data), now);
      !handled.Invalid? ==>
        Datagram(handled.key.address, s.codec.responseBytes(handled.response)) in Do(s, Serve(d, now)).toClients
  {
    hide Handling, Received, ClockText;
  }

  // Serving a client's request sends it something.
  lemma ServeAnswers(s: State, d: Datagram, r: Request, now: Bytes)
    requires ServerSees(s.codec, s.cache, s.toServer, d.address, r) && Enabled(s, Serve(d, now))
    ensures exists data :: Datagram(d.address, data) in Do(s, Serve(d, now)).toClients
  {
    hide Handling, Received, ServerSees, Execute, Do;
    ClientDatagram(s.codec, s.cache, s.toServer, d, r, now);
    ServeReplies(s, d, now);
  }

  lemma InvSees(s: State, a: Bytes)
    requires Inv(s) && a in s.clients
    ensures ServerSees(s.codec, s.cache, s.toServer, a, s.clients[a].request)
  {
    assert ClientSound(s, a);
  }

  /** A client that may still send can succeed: when its request and one response get through, it
      is done. */
  lemma ClientCanSucceed(s: State, a: Bytes, now: Bytes) returns (t: State)
    requires Reachable(s) && a in s.clients && ClockText(now)
    requires s.clients[a].phase == Ready && s.clients[a].attempts < MAX_ATTEMPTS
    ensures Reachable(t) && a in t.clients && t.clients[a].phase.Done?
  {
    hide Reachable, Do, Inv, ClockText, Judge, ServeOne, ServerSees;
    assert Enabled(s, Send(a));
    var sent := Do(s, Send(a));
    SendReaches(s, a);
    ReachableStep(s, Send(a));
    var d := Datagram(a, s.codec.requestBytes(s.clients[a].request));
    assert Enabled(sent, Serve(d, now));
    var served := Do(sent, Serve(d, now));
    ReachableStep(sent, Serve(d, now));
    ReachableInv(sent);
    InvSees(sent, a);
    ServeAnswers(sent, d, sent.clients[a].request, now);
    ServeLeavesClients(sent, d, now);
    var data :| Datagram(a, data) in served.toClients;
    assert Enabled(served, Receive(a, data));
    t := Do(served, Receive(a, data));
    ReachableStep(served, Receive(a, data));
    ReachableInv(served);
    ReceiveFinishes(served, a, data);
  }

  lemma ServeLeavesClients(s: State, d: Datagram, now: Bytes)
    requires Enabled(s, Serve(d, now))
    ensures Do(s, Serve(d, now)).clients == s.clients
  {
    ServeFrame(s, d, now);
  }

  lemma ReceiveFinishes(s: State, a: Bytes, data: Bytes)
    requires Inv(s) && Enabled(s, Receive(a, data))
    ensures var t := Do(s, Receive(a, data)); a in t.clients && t.clients[a].phase.Done?
  {
    ClientReceives(s, a, data);
    hide Judge, Inv;
  }
}
