/** The handlers of the server and the loop that serves one connection. */
module Servers {
  import opened Options
  import opened Bytes
  import opened Stores
  import opened WriteRequests
  import opened Framing
  import opened Connections
  import opened Spinlocks

  /** The four method names, as C strings. */
  const PING: seq<byte> := [112, 105, 110, 103, 0]
  const WRITE: seq<byte> := [119, 114, 105, 116, 101, 0]
  const READ: seq<byte> := [114, 101, 97, 100, 0]
  const QUIT: seq<byte> := [113, 117, 105, 116, 0]

  /** `strncmp(a, b, n) == 0` for a terminated `b`. */
  predicate SameName(a: seq<byte>, b: seq<byte>, n: nat)
    requires |a| >= n && |b| > 0 && b[|b| - 1] == 0
    decreases n
  {
    n == 0 || (a[0] == b[0] && (a[0] == 0 || SameName(a[1..], b[1..], n - 1)))
  }

  /** Eight bytes name a method when they start with its name and a zero; the rest is not looked at. */
  lemma {:induction false} SameNameIff(a: seq<byte>, b: seq<byte>, n: nat)
    requires |a| >= n >= |b| > 0 && b[|b| - 1] == 0
    requires forall i :: 0 <= i < |b| - 1 ==> b[i] != 0
    ensures SameName(a, b, n) <==> b <= a
  {
    if |b| > 1 && a[0] == b[0] {
      SameNameIff(a[1..], b[1..], n - 1);
      assert a == [a[0]] + a[1..] && b == [b[0]] + b[1..];
    }
  }

  datatype Command = Ping | Write | Read | Quit | Unknown

  function CommandOf(name: Name): Command {
    if SameName(name, PING, 8) then Ping
    else if SameName(name, WRITE, 8) then Write
    else if SameName(name, READ, 8) then Read
    else if SameName(name, QUIT, 8) then Quit
    else Unknown
  }

  /** What a client must put in the name field for each command. */
  lemma CommandNames(name: Name)
    ensures CommandOf(name) == Ping <==> PING <= name
    ensures CommandOf(name) == Write <==> WRITE <= name
    ensures CommandOf(name) == Read <==> READ <= name
    ensures CommandOf(name) == Quit <==> QUIT <= name
  {
    SameNameIff(name, PING, 8);
    SameNameIff(name, WRITE, 8);
    SameNameIff(name, READ, 8);
    SameNameIff(name, QUIT, 8);
  }

  /** The write that a body asks for, if its lengths add up. */
  function WriteOf(body: seq<byte>): Option<Binding> {
    FromBody(body, seq(HEADER, _ => 0))
  }

  /** The store operation of a request; ping, quit and a malformed write have none. */
  function OpOf(m: Message): Option<Op> {
    match CommandOf(m.header.name)
    case Write => (match WriteOf(m.body)
                   case None => None
                   case Some(w) => Some(Emplace(w.key, w.value)))
    case Read => Some(Find(m.body))
    case _ => None
  }

  datatype Answer = Answer(body: seq<byte>, status: u32)

  /** The answer to a request, given the result of its operation if it has one. */
  function AnswerTo(m: Message, result: Option<Result>): Answer {
    match CommandOf(m.header.name)
    case Ping => Answer(m.body, OK)
    case Write => Answer([], if result.None? then BAD_ARG else OK)
    case Read => (match result
                  case Some(Found(value)) => Answer(value, OK)
                  case _ => Answer([], NOT_FOUND))
    case _ => Answer([], OK)
  }

  function Handle(store: Store, m: Message): Answer {
    AnswerTo(m, match OpOf(m)
                case None => None
                case Some(op) => Some(Outcome(store, op)))
  }

  function StoreAfter(store: Store, m: Message): Store {
    match OpOf(m)
    case None => store
    case Some(op) => Apply(store, op)
  }

  datatype Env = Env(timeAt: nat -> u64, undefined: u8)

  /** A request as its handler sees it: T2 filled in. */
  function Arrived(m: Message, env: Env, tick: nat): Message {
    Stamped(m, env.timeAt(tick))
  }

  /** The response to request `m` that is read at the given tick of the clock. */
  function Respond(store: Store, m: Message, env: Env, tick: nat): Message {
    var request := Arrived(m, env, tick);
    var answer := Handle(store, request);
    Response(request, answer.body, answer.status, env.timeAt(tick + 1), env.undefined)
  }

  datatype Served = Served(responses: seq<Message>, store: Store, quit: bool)

  /** One connection from its first byte to its last. */
  function Serve(stream: seq<byte>, store: Store, env: Env, tick: nat): Served
    decreases |stream|
  {
    match Receive(stream)
    case Failed => Served([], store, false)
    case Got(m, rest) =>
      match CommandOf(m.header.name)
      case Unknown => Served([], store, false)
      case Quit => Served([Respond(store, m, env, tick)], store, true)
      case _ =>
        var later := Serve(rest, StoreAfter(store, m), env, tick + 2);
        Served([Respond(store, m, env, tick)] + later.responses, later.store, later.quit)
  }

  /** A request that the loop answers and reads on after. */
  ghost predicate Ordinary(m: Message) {
    && Framed(m)
    && (CommandOf(m.header.name) == Ping || CommandOf(m.header.name) == Write || CommandOf(m.header.name) == Read)
  }

  function StoreAfterAll(store: Store, ms: seq<Message>): Store
    decreases |ms|
  {
    if |ms| == 0 then store else StoreAfterAll(StoreAfter(store, ms[0]), ms[1..])
  }

  function RespondAll(store: Store, ms: seq<Message>, env: Env, tick: nat): (rs: seq<Message>)
    ensures |rs| == |ms|
    decreases |ms|
  {
    if |ms| == 0 then []
    else [Respond(store, ms[0], env, tick)] + RespondAll(StoreAfter(store, ms[0]), ms[1..], env, tick + 2)
  }

  /** Ordinary requests are answered one by one, and serving goes on with what follows them. */
  lemma {:induction false} ServeOrdinary(ms: seq<Message>, tail: seq<byte>, store: Store, env: Env, tick: nat)
    requires forall i :: 0 <= i < |ms| ==> Ordinary(ms[i])
    ensures var later := Serve(tail, StoreAfterAll(store, ms), env, tick + 2 * |ms|);
            Serve(EncodeAll(ms) + tail, store, env, tick) ==
            Served(RespondAll(store, ms, env, tick) + later.responses, later.store, later.quit)
    decreases |ms|
  {
    hide Encode, Receive, Respond, StoreAfter, CommandOf;
    if |ms| == 0 {
      assert EncodeAll(ms) + tail == tail;
    } else {
      var rest := EncodeAll(ms[1..]) + tail;
      assert Ordinary(ms[0]);
      assert EncodeAll(ms) + tail == Encode(ms[0]) + rest;
      ReceiveEncoded(ms[0], rest);
      ServeOrdinary(ms[1..], tail, StoreAfter(store, ms[0]), env, tick + 2);
      var later := Serve(tail, StoreAfterAll(store, ms), env, tick + 2 * |ms|);
      var first := [Respond(store, ms[0], env, tick)];
      var others := RespondAll(StoreAfter(store, ms[0]), ms[1..], env, tick + 2);
      assert first + (others + later.responses) == (first + others) + later.responses;
    }
  }

  /** The i-th response is the answer of a fold over the requests before it. */
  lemma {:induction false} ResponseAt(ms: seq<Message>, store: Store, env: Env, tick: nat, i: nat)
    requires i < |ms|
    ensures RespondAll(store, ms, env, tick)[i] == Respond(StoreAfterAll(store, ms[..i]), ms[i], env, tick + 2 * i)
    decreases |ms|
  {
    hide Respond, StoreAfter;
    if i > 0 {
      ResponseAt(ms[1..], StoreAfter(store, ms[0]), env, tick + 2, i - 1);
      assert ms[..i][1..] == ms[1..][..i - 1];
    }
  }

  /** A response keeps every field of its request but the data length and the six that the server sets. */
  lemma ResponseFields(store: Store, m: Message, env: Env, tick: nat)
    ensures var r, answer := Respond(store, m, env, tick), Handle(store, m);
            && r.body == answer.body
            && r.mark == m.mark.(dataLen := |answer.body| % 0x1_0000_0000)
            && r.header == m.header.(reqRecvTime := env.timeAt(tick), resSendTime := env.timeAt(tick + 1),
                                     resLenLog := LengthLog(|answer.body|, env.undefined),
                                     messageType := 1, status := answer.status)
  {
    hide LengthLog, CommandOf, WriteOf;
  }

  /** The commands as rpc_send_req writes their names. */
  lemma ClientNames()
    ensures CommandOf(CopyName(PING[..4])) == Ping && CommandOf(CopyName(WRITE[..5])) == Write
    ensures CommandOf(CopyName(READ[..4])) == Read && CommandOf(CopyName(QUIT[..4])) == Quit
  {
    hide SameName;
    CommandNames(CopyName(PING[..4]));
    CommandNames(CopyName(WRITE[..5]));
    CommandNames(CopyName(READ[..4]));
    CommandNames(CopyName(QUIT[..4]));
  }

  /** A whole connection: every ordinary request gets its response, in order, and then the loop stops at a
      quit, which it answers, or silently at an unknown method, a malformed message or the end. */
  lemma WholeConnection(ms: seq<Message>, tail: seq<byte>, store: Store, env: Env, tick: nat)
    requires forall i :: 0 <= i < |ms| ==> Ordinary(ms[i])
    requires Receive(tail) == Failed || CommandOf(Receive(tail).message.header.name) in {Quit, Unknown}
    ensures var served := Serve(EncodeAll(ms) + tail, store, env, tick);
            var quits := Receive(tail).Got? && CommandOf(Receive(tail).message.header.name) == Quit;
            && served.quit == quits
            && served.store == StoreAfterAll(store, ms)
            && |served.responses| == |ms| + (if quits then 1 else 0)
            && served.responses[..|ms|] == RespondAll(store, ms, env, tick)
            && (quits ==>
                  served.responses[|ms|] ==
                  Respond(StoreAfterAll(store, ms), Receive(tail).message, env, tick + 2 * |ms|))
  {
    hide Receive, Encode, Respond, CommandOf;
    ServeOrdinary(ms, tail, store, env, tick);
  }

  /** Every stream is such requests and such a tail, so this covers every connection. */
  lemma {:induction false} EveryStream(stream: seq<byte>) returns (ms: seq<Message>, tail: seq<byte>)
    ensures stream == EncodeAll(ms) + tail
    ensures forall i :: 0 <= i < |ms| ==> Ordinary(ms[i])
    ensures Receive(tail) == Failed || CommandOf(Receive(tail).message.header.name) in {Quit, Unknown}
    decreases |stream|
  {
    hide Receive, Encode, CommandOf;
    if Receive(stream) == Failed || CommandOf(Receive(stream).message.header.name) in {Quit, Unknown} {
      ms, tail := [], stream;
    } else {
      var m := Receive(stream).message;
      ReceivedEncodes(stream);
      RestShorter(stream);
      ms, tail := EveryStream(Receive(stream).rest);
      assert stream == Encode(m) + (EncodeAll(ms) + tail) == EncodeAll([m] + ms) + tail;
      ms := [m] + ms;
    }
  }

  /** The requests of a stream that are answered. */
  function Answered(stream: seq<byte>): (ms: seq<Message>)
    decreases |stream|
  {
    match Receive(stream)
    case Failed => []
    case Got(m, rest) =>
      match CommandOf(m.header.name)
      case Unknown => []
      case Quit => [m]
      case _ => [m] + Answered(rest)
  }

  /** What is served is the answers to those requests. */
  lemma {:induction false} ServeAnswers(stream: seq<byte>, store: Store, env: Env, tick: nat)
    ensures Serve(stream, store, env, tick).responses == RespondAll(store, Answered(stream), env, tick)
    ensures Serve(stream, store, env, tick).store == StoreAfterAll(store, Answered(stream))
    decreases |stream|
  {
    hide Receive, Respond, CommandOf, StoreAfter;
    if Receive(stream).Got? {
      var m, rest := Receive(stream).message, Receive(stream).rest;
      RestShorter(stream);
      QuitKeepsStore(store, m);
      if CommandOf(m.header.name) !in {Quit, Unknown} {
        ServeAnswers(rest, StoreAfter(store, m), env, tick + 2);
      }
    }
  }

  lemma QuitKeepsStore(store: Store, m: Message)
    ensures CommandOf(m.header.name) == Quit ==> StoreAfter(store, m) == store
  {
  }

  lemma {:induction false} StoreAfterOne(store: Store, ms: seq<Message>, m: Message)
    ensures StoreAfterAll(store, ms + [m]) == StoreAfter(StoreAfterAll(store, ms), m)
    decreases |ms|
  {
    hide StoreAfter;
    if |ms| == 0 {
      assert ms + [m] == [m] && [m][1..] == [];
    } else {
      StoreAfterOne(StoreAfter(store, ms[0]), ms[1..], m);
      assert (ms + [m])[1..] == ms[1..] + [m];
    }
  }

  /** The operations of a list of requests. */
  function OpsOf(ms: seq<Message>): (ops: seq<Op>) {
    if |ms| == 0 then []
    else (match OpOf(ms[0])
          case None => []
          case Some(op) => [op]) + OpsOf(ms[1..])
  }

  lemma {:induction false} ReplayConcat(store: Store, xs: seq<Op>, ys: seq<Op>)
    ensures Replay(store, xs + ys) == Replay(Replay(store, xs), ys)
  {
    if |ys| == 0 {
      assert xs + ys == xs;
    } else {
      assert (xs + ys)[..|xs + ys| - 1] == xs + ys[..|ys| - 1];
      ReplayConcat(store, xs, ys[..|ys| - 1]);
    }
  }

  lemma OneOperation(m: Message)
    ensures |OpsOf([m])| == match OpOf(m) case None => 0 case Some(_) => 1
  {
    assert [m][1..] == [];
    assert OpsOf([]) == [];
  }

  lemma {:induction false} OpsOfSnoc(ms: seq<Message>, m: Message)
    ensures OpsOf(ms + [m]) == OpsOf(ms) + OpsOf([m])
  {
    hide OpOf;
    if |ms| == 0 {
      assert ms + [m] == [m];
    } else {
      OpsOfSnoc(ms[1..], m);
      assert (ms + [m])[1..] == ms[1..] + [m];
    }
  }

  lemma NoOperations(x: uint32)
    ensures Plus(x, |OpsOf([])|) == x
  {
  }

  lemma PlusAll(x: uint32, ms: seq<Message>, m: Message, arrived: Message)
    requires arrived.body == m.body && arrived.header.name == m.header.name
    ensures Plus(Plus(x, |OpsOf(ms)|), |OpsOf([arrived])|) == Plus(x, |OpsOf(ms + [m])|)
  {
    hide OpsOf;
    OneOperation(m);
    OneOperation(arrived);
    OpsOfSnoc(ms, m);
  }

  /** What a connection does to the store is the replay of its requests' operations. */
  lemma {:induction false} StoreIsReplay(store: Store, ms: seq<Message>)
    ensures StoreAfterAll(store, ms) == Replay(store, OpsOf(ms))
    decreases |ms|
  {
    hide OpOf;
    if |ms| > 0 {
      StoreIsReplay(StoreAfter(store, ms[0]), ms[1..]);
      match OpOf(ms[0])
      case None => assert [] + OpsOf(ms[1..]) == OpsOf(ms[1..]);
      case Some(op) =>
        ReplayConcat(store, [op], OpsOf(ms[1..]));
        assert [op][..0] == [];
        assert Replay(store, [op]) == Apply(store, op);
    }
  }

  /** Every value in the store is short enough for a mark to give its length. */
  ghost predicate Small(store: Store) {
    forall key :: key in store ==> |store[key]| < 0x1_0000_0000
  }

  lemma SmallKept(store: Store, m: Message)
    requires Small(store) && Framed(m)
    ensures Small(StoreAfter(store, m))
  {
    hide CommandOf;
    FromBodyIff(m.body, seq(HEADER, _ => 0));
  }

  lemma ResponseFramed(store: Store, m: Message, env: Env, tick: nat)
    requires Small(store) && Framed(m)
    ensures Framed(Respond(store, m, env, tick))
  {
    hide CommandOf, WriteOf, LengthLog;
    ResponseFields(store, m, env, tick);
    AnswerSmall(store, m);
  }

  lemma AnswerSmall(store: Store, m: Message)
    requires Small(store) && Framed(m)
    ensures |Handle(store, m).body| < 0x1_0000_0000
  {
    hide CommandOf, WriteOf;
  }

  lemma {:induction false} ResponsesFramed(stream: seq<byte>, store: Store, env: Env, tick: nat)
    requires Small(store)
    ensures forall i :: 0 <= i < |Serve(stream, store, env, tick).responses| ==>
              Framed(Serve(stream, store, env, tick).responses[i])
    decreases |stream|
  {
    hide Framed, Small, Respond, StoreAfter, Encode, Receive, CommandOf;
    if Receive(stream).Got? {
      var m, rest := Receive(stream).message, Receive(stream).rest;
      ReceivedEncodes(stream);
      ResponseFramed(store, m, env, tick);
      SmallKept(store, m);
      ResponsesFramed(rest, StoreAfter(store, m), env, tick + 2);
    }
  }

  /** The client, reading the other end of the connection, receives exactly the responses. */
  lemma ResponsesArrive(stream: seq<byte>, store: Store, env: Env, tick: nat)
    requires Small(store)
    ensures var responses := Serve(stream, store, env, tick).responses;
            ReceiveMany(EncodeAll(responses), |responses|) == (responses, [])
  {
    hide Serve, Framed;
    var responses := Serve(stream, store, env, tick).responses;
    ResponsesFramed(stream, store, env, tick);
    ReceiveAllEncoded(responses, []);
    assert EncodeAll(responses) + [] == EncodeAll(responses);
  }

  class Server {
    const lock: LockAndHist
    var keystore: Store

    constructor ()
      ensures fresh(lock) && fresh(lock.hist) && Ready() && keystore == map[]
    {
      lock := new LockAndHist();
      keystore := map[];
    }

    /** No guard is alive. */
    ghost predicate Ready()
      reads this, lock
    {
      lock.lock == 0 && lock.hist.Length == BUCKETS
    }

    method HandlePing(connection: Connection, request: Message)
      requires CommandOf(request.header.name) == Ping
      modifies connection`outgoing, connection`ticks
      ensures connection.ticks == old(connection.ticks) + 1
      ensures connection.Wrote(old(connection.outgoing),
                               Encode(Reply(connection, old(keystore), request, old(connection.ticks))))
      ensures Reply(connection, old(keystore), request, old(connection.ticks)) ==
              Response(request, request.body, 0, connection.timeAt(old(connection.ticks)), connection.undefined)
    {
      var ok := connection.SendResp(request, request.body, OK);
    }

    /** The response to a request that has arrived, sent at the given tick. */
    ghost function Reply(connection: Connection, store: Store, request: Message, tick: nat): Message {
      var answer := Handle(store, request);
      Response(request, answer.body, answer.status, connection.timeAt(tick), connection.undefined)
    }

    method HandleWrite(connection: Connection, request: Message)
      requires Ready() && CommandOf(request.header.name) == Write
      modifies this`keystore, lock`lock, lock.hist, connection`outgoing, connection`ticks
      ensures Ready() && connection.ticks == old(connection.ticks) + 1
      ensures keystore == StoreAfter(old(keystore), request)
      ensures connection.Wrote(old(connection.outgoing),
                               Encode(Reply(connection, old(keystore), request, old(connection.ticks))))
      ensures var w := WriteOf(request.body);
              && Reply(connection, old(keystore), request, old(connection.ticks)) ==
                 Response(request, [], if w.None? then 1 else 0, connection.timeAt(old(connection.ticks)),
                          connection.undefined)
              && keystore == (if w.Some? && w.value.key !in old(keystore)
                              then old(keystore)[w.value.key := w.value.value] else old(keystore))
              && lock.hist[..] == old(lock.hist[..])[0 := Plus(old(lock.hist[0]), if w.None? then 0 else 1)]
    {
      hide Encode, Response, CommandOf;
      PlusOne(lock.hist[0], 0);
      assert |seq(HEADER, _ => 0 as byte)| == HEADER;
      var beyond: seq<byte> :| |beyond| == HEADER;
      BeyondIgnored(request.body, beyond, seq(HEADER, _ => 0));
      var writeReq := FromBody(request.body, beyond);
      if writeReq.None? {
        var ok := connection.SendResp(request, [], BAD_ARG);
        return;
      }
      var key, value := writeReq.value.key, writeReq.value.value;
      lock.Enter();
      if key !in keystore {
        keystore := keystore[key := value];
      }
      lock.Exit();
      var ok := connection.SendResp(request, [], OK);
    }

    method HandleRead(connection: Connection, request: Message)
      requires Ready() && CommandOf(request.header.name) == Read
      modifies lock`lock, lock.hist, connection`outgoing, connection`ticks
      ensures Ready() && connection.ticks == old(connection.ticks) + 1
      ensures connection.Wrote(old(connection.outgoing),
                               Encode(Reply(connection, keystore, request, old(connection.ticks))))
      ensures Reply(connection, keystore, request, old(connection.ticks)) ==
              Response(request, if request.body in keystore then keystore[request.body] else [],
                       if request.body in keystore then 0 else 2, connection.timeAt(old(connection.ticks)),
                       connection.undefined)
      ensures lock.hist[..] == old(lock.hist[..])[0 := Plus(old(lock.hist[0]), 1)]
    {
      hide Encode, Response, CommandOf;
      PlusOne(lock.hist[0], 0);
      var key := request.body;
      var found := false;
      var result: seq<byte> := [];
      lock.Enter();
      if key in keystore {
        found := true;
        result := keystore[key];
      }
      lock.Exit();
      if found {
        var ok := connection.SendResp(request, result, OK);
      } else {
        var ok := connection.SendResp(request, [], NOT_FOUND);
      }
    }

    /** Process one command: false ends the loop. */
    method Dispatch(connection: Connection, request: Message) returns (goOn: bool)
      requires Ready()
      modifies this`keystore, lock`lock, lock.hist, connection`outgoing, connection`ticks
      ensures Ready()
      ensures goOn <==> CommandOf(request.header.name) !in {Quit, Unknown}
      ensures CommandOf(request.header.name) == Unknown ==>
                keystore == old(keystore) && connection.outgoing == old(connection.outgoing)
                && lock.hist[..] == old(lock.hist[..])
      ensures CommandOf(request.header.name) != Unknown ==>
                && keystore == StoreAfter(old(keystore), request)
                && connection.ticks == old(connection.ticks) + 1
                && lock.hist[..] == old(lock.hist[..])[0 := Plus(old(lock.hist[0]), |OpsOf([request])|)]
                && connection.Wrote(old(connection.outgoing),
                                    Encode(Reply(connection, old(keystore), request, old(connection.ticks))))
    {
      hide Encode, Response, CommandOf;
      var command := CommandOf(request.header.name);
      OneOperation(request);
      PlusOne(lock.hist[0], 0);
      if command == Ping {
        HandlePing(connection, request);
        return true;
      } else if command == Write {
        HandleWrite(connection, request);
        return true;
      } else if command == Read {
        HandleRead(connection, request);
        return true;
      } else if command == Quit {
        var ok := connection.SendResp(request, [], OK);
        return false;
      } else {
        return false;
      }
    }

    /** The message loop. However the reads split the stream, what it writes is what Serve says; if they fail
        before the end of the stream it is the first of those responses, and the map is what the requests
        they answer made of it. */
    method HandleRpcConn(connection: Connection) returns (quit: bool, ghost answered: nat)
      requires Ready()
      modifies this`keystore, lock`lock, lock.hist, connection`incoming, connection`outgoing, connection`ticks
      ensures Ready()
      ensures var served := Serve(old(connection.incoming), old(keystore), Env(connection.timeAt, connection.undefined),
                                  old(connection.ticks));
              && answered <= |served.responses| == |Answered(old(connection.incoming))|
              && keystore == StoreAfterAll(old(keystore), Answered(old(connection.incoming))[..answered])
              && (connection.complete ==>
                    connection.outgoing == old(connection.outgoing) + EncodeAll(served.responses[..answered]))
              && lock.hist[..] == old(lock.hist[..])[0 := Plus(old(lock.hist[0]),
                   |OpsOf(Answered(old(connection.incoming))[..answered])|)]
              && (quit ==> served.quit && answered == |served.responses|)
              && (connection.reliable ==>
                    answered == |served.responses| && quit == served.quit && keystore == served.store)
    {
      hide Receive, Encode, EncodeAll, Respond, CommandOf, StoreAfter, StoreAfterAll, Serve, Reply, Answered;
      hide Progress, OpsOf, Plus;
      ghost var env := Env(connection.timeAt, connection.undefined);
      ghost var served := Serve(connection.incoming, keystore, env, connection.ticks);
      ghost var asked, first := Answered(connection.incoming), keystore;
      ghost var sent: seq<Message>, done: seq<Message> := [], [];
      NothingEncoded();
      ServeAnswers(connection.incoming, keystore, env, connection.ticks);
      ProgressStart(connection.incoming, keystore, env, connection.ticks);
      NoOperations(lock.hist[0]);
      while true
        invariant Ready()
        invariant connection.complete ==> connection.outgoing == old(connection.outgoing) + EncodeAll(sent)
        invariant lock.hist[..] == old(lock.hist[..])[0 := Plus(old(lock.hist[0]), |OpsOf(done)|)]
        invariant Progress(served, asked, first, sent, done, connection.incoming, keystore, env, connection.ticks)
        decreases |connection.incoming|
      {
        ghost var stream, store, tick := connection.incoming, keystore, connection.ticks;
        ProgressTurn(served, asked, first, sent, done, stream, store, env, tick);
        answered := |sent|;
        var message := connection.RecvReq();
        if message.None? {
          return false, answered;
        }
        var request := message.value;
        ghost var m := Receive(stream).message;
        ReplyIs(connection, store, m, tick);
        var goOn := Dispatch(connection, request);
        EncodeSnoc(sent, Respond(store, m, env, tick));
        PlusAll(old(lock.hist[0]), done, m, request);
        sent, done := sent + [Respond(store, m, env, tick)], done + [m];
        if !goOn {
          quit := CommandOf(request.header.name) == Quit;
          answered := if quit then |sent| else answered;
          return;
        }
      }
    }

    lemma ReplyIs(connection: Connection, store: Store, m: Message, tick: nat)
      ensures var env := Env(connection.timeAt, connection.undefined);
              && Reply(connection, store, Arrived(m, env, tick), tick + 1) == Respond(store, m, env, tick)
              && StoreAfter(store, Arrived(m, env, tick)) == StoreAfter(store, m)
    {
    }
  }

  /** The messages `done` of a connection were answered by `sent`, and what serving the rest of the stream
      gives makes it the whole. */
  ghost predicate Progress(served: Served, asked: seq<Message>, first: Store, sent: seq<Message>, done: seq<Message>,
                           stream: seq<byte>, store: Store, env: Env, tick: nat) {
    var later := Serve(stream, store, env, tick);
    && served == Served(sent + later.responses, later.store, later.quit)
    && |done| == |sent|
    && asked == done + Answered(stream)
    && store == StoreAfterAll(first, done)
  }

  lemma ProgressStart(stream: seq<byte>, store: Store, env: Env, tick: nat)
    ensures Progress(Serve(stream, store, env, tick), Answered(stream), store, [], [], stream, store, env, tick)
  {
    hide Receive, Respond, CommandOf, StoreAfter;
    var served := Serve(stream, store, env, tick);
    assert [] + served.responses == served.responses;
    assert [] + Answered(stream) == Answered(stream);
  }

  /** One turn of the loop, in terms of Serve. */
  lemma ProgressTurn(served: Served, asked: seq<Message>, first: Store, sent: seq<Message>, done: seq<Message>,
                     stream: seq<byte>, store: Store, env: Env, tick: nat)
    requires Progress(served, asked, first, sent, done, stream, store, env, tick)
    ensures Reached(served, asked, first, sent, done, store)
    ensures Receive(stream) == Failed ==> served == Served(sent, store, false)
    ensures Receive(stream).Got? ==>
              var m, rest := Receive(stream).message, Receive(stream).rest;
              var sent', done' := sent + [Respond(store, m, env, tick)], done + [m];
              match CommandOf(m.header.name)
              case Unknown => served == Served(sent, store, false)
              case Quit => served == Served(sent', StoreAfter(store, m), true) &&
                           Reached(served, asked, first, sent', done', StoreAfter(store, m))
              case _ => Progress(served, asked, first, sent', done', rest, StoreAfter(store, m), env, tick + 2) &&
                        |rest| < |stream|
  {
    hide Receive, Respond, CommandOf, StoreAfter, StoreAfterAll;
    assert sent + [] == sent && done + [] == done;
    if Receive(stream).Got? {
      var m, rest := Receive(stream).message, Receive(stream).rest;
      RestShorter(stream);
      QuitKeepsStore(store, m);
      StoreAfterOne(first, done, m);
      var r, others := Respond(store, m, env, tick), Serve(rest, StoreAfter(store, m), env, tick + 2).responses;
      assert sent + ([r] + others) == (sent + [r]) + others;
      assert done + ([m] + Answered(rest)) == (done + [m]) + Answered(rest);
    }
  }

  /** What has been done so far is a first part of the whole. */
  ghost predicate Reached(served: Served, asked: seq<Message>, first: Store, sent: seq<Message>, done: seq<Message>,
                          store: Store) {
    && |sent| == |done| && |sent| <= |served.responses| && |done| <= |asked|
    && served.responses[..|sent|] == sent && asked[..|done|] == done
    && store == StoreAfterAll(first, done)
  }

  lemma RestShorter(stream: seq<byte>)
    requires Receive(stream).Got?
    ensures |Receive(stream).rest| < |stream|
  {
  }
}
