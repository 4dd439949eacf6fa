/** What the clients of all connections together can observe: the lock machine and the handlers composed. */
module ConcurrentServers {
  import opened Options
  import opened Bytes
  import opened Stores
  import opened Framing
  import opened LockMachine
  import opened LockRuns
  import Connections
  import Servers

  /** A server that was started and ran without tripping the safety reset. */
  ghost predicate Served(s: State, es: seq<Event>) {
    Initial(s) && Run(s, es).Some? && Quiet(s, es)
  }

  /** The handler of any connection answers a request as a one-connection server would, whose store is
      what the operations ordered before it left. */
  lemma AnswersAreSequential(s: State, es: seq<Event>, i: nat, m: Message)
    requires Served(s, es) && i < |Run(s, es).value.replies|
    requires Servers.OpOf(m) == Some(Run(s, es).value.replies[i].op)
    ensures var end := Run(s, es).value;
            var r := end.replies[i];
            && r.ticket < |end.order|
            && Servers.AnswerTo(m, Some(r.result)) == Servers.Handle(Replay(map[], end.order[..r.ticket]), m)
  {
    Linearizable(s, es);
    var end := Run(s, es).value;
    assert ServedInOrder(end, end.replies[i]);
  }

  /** The order of acquisition extends the order of each connection. */
  lemma ConnectionsInOrder(s: State, es: seq<Event>, i: nat, j: nat)
    requires Served(s, es) && i < j < |Run(s, es).value.replies|
    requires Run(s, es).value.replies[i].thread == Run(s, es).value.replies[j].thread
    ensures Run(s, es).value.replies[i].ticket < Run(s, es).value.replies[j].ticket
  {
    Linearizable(s, es);
    ProgramOrder(s, es);
  }

  lemma BoundFrom(order: seq<Op>, i: nat, n: nat)
    requires i < n <= |order| && order[i].Emplace?
    ensures order[i].key in Replay(map[], order[..n])
  {
    assert order[..n][..i + 1] == order[..i + 1] && order[..i + 1][..i] == order[..i];
    ReplayGrows(map[], order[..n], i + 1);
  }

  /** A write that was acknowledged before a read began is visible to it, on whatever connection. */
  lemma AcknowledgedWriteVisible(s: State, es: seq<Event>, i: nat, j: nat)
    requires Served(s, es) && i < |Run(s, es).value.replies| && j < |Run(s, es).value.replies|
    requires var w, r := Run(s, es).value.replies[i], Run(s, es).value.replies[j];
             i < r.seen && w.op.Emplace? && r.op == Find(w.op.key)
    ensures Run(s, es).value.replies[j].result.Found?
  {
    Linearizable(s, es);
    var end := Run(s, es).value;
    var w, r := end.replies[i], end.replies[j];
    assert ServedInOrder(end, w) && ServedInOrder(end, r);
    BoundFrom(end.order, w.ticket, r.ticket);
  }

  /** All reads that find a key find the same value. */
  lemma ReadsAgree(s: State, es: seq<Event>, i: nat, j: nat)
    requires Served(s, es) && i < |Run(s, es).value.replies| && j < |Run(s, es).value.replies|
    requires Run(s, es).value.replies[i].op == Run(s, es).value.replies[j].op
    requires Run(s, es).value.replies[i].result.Found? && Run(s, es).value.replies[j].result.Found?
    ensures Run(s, es).value.replies[i].result == Run(s, es).value.replies[j].result
  {
    Linearizable(s, es);
    var end := Run(s, es).value;
    var a, b := end.replies[i], end.replies[j];
    assert ServedInOrder(end, a) && ServedInOrder(end, b);
    if a.ticket <= b.ticket {
      PrefixesGrow(end.order, a.ticket, b.ticket);
    } else {
      PrefixesGrow(end.order, b.ticket, a.ticket);
    }
  }

  lemma PrefixesGrow(order: seq<Op>, i: nat, n: nat)
    requires i <= n <= |order|
    ensures Within(Replay(map[], order[..i]), Replay(map[], order[..n]))
  {
    assert order[..n][..i] == order[..i];
    ReplayGrows(map[], order[..n], i);
  }

  /** Nothing is read that was not written: a value that a read found is one that some connection took up
      to write under that key. */
  lemma ReadValuesWritten(s: State, es: seq<Event>, i: nat)
    requires Served(s, es) && i < |Run(s, es).value.replies|
    requires Run(s, es).value.replies[i].op.Find? && Run(s, es).value.replies[i].result.Found?
    ensures var r := Run(s, es).value.replies[i];
            exists t: nat :: t < |s.threads| && Emplace(r.op.key, r.result.value) in Begins(es, t)
  {
    hide Run, Begins, Replay;
    Linearizable(s, es);
    var end := Run(s, es).value;
    var r := end.replies[i];
    assert ServedInOrder(end, r);
    BoundByWrite(end.order[..r.ticket], r.op.key);
    var k :| 0 <= k < r.ticket && end.order[k] == Emplace(r.op.key, r.result.value);
    EveryOrderedBegan(s, es, k);
  }

  /** The response to a request whose store operation, if it has one, came out with this result. */
  function RespondWith(m: Message, result: Option<Result>, env: Servers.Env, tick: nat): Message {
    var request := Servers.Arrived(m, env, tick);
    var answer := Servers.AnswerTo(request, result);
    Connections.Response(request, answer.body, answer.status, env.timeAt(tick + 1), env.undefined)
  }

  /** What a handler writes, given the results of its store operations so far. */
  function Responses(ms: seq<Message>, results: seq<Result>, env: Servers.Env, tick: nat): (rs: seq<Message>)
    ensures |rs| <= |ms|
    decreases |ms|
  {
    if |ms| == 0 then []
    else if Servers.OpOf(ms[0]).None? then
      [RespondWith(ms[0], None, env, tick)] + Responses(ms[1..], results, env, tick + 2)
    else if |results| == 0 then []
    else [RespondWith(ms[0], Some(results[0]), env, tick)] + Responses(ms[1..], results[1..], env, tick + 2)
  }

  function ResultsOf(replies: seq<Reply>): (results: seq<Result>) {
    seq(|replies|, i requires 0 <= i < |replies| => replies[i].result)
  }

  /** Response i is that of a one-connection server whose store is what the operations before place i left;
      the place of a store operation is its own, and later requests have later places. */
  ghost predicate InGlobalOrder(order: seq<Op>, ms: seq<Message>, responses: seq<Message>, env: Servers.Env,
                                tick: nat, places: seq<nat>) {
    && |places| == |responses| <= |ms|
    && (forall i: nat :: i < |places| ==> AtPlace(order, ms[i], responses[i], env, tick + 2 * i, places[i]))
    && (forall i: nat, j: nat :: i < j < |places| ==>
          places[i] <= places[j] && (Servers.OpOf(ms[i]).Some? ==> places[i] < places[j]))
  }

  ghost predicate AtPlace(order: seq<Op>, m: Message, response: Message, env: Servers.Env, tick: nat, place: nat) {
    && place <= |order|
    && response == Servers.Respond(Replay(map[], order[..place]), m, env, tick)
    && (Servers.OpOf(m).Some? ==> place < |order| && order[place] == Servers.OpOf(m).value)
  }

  lemma NoOperationAtPlace(order: seq<Op>, m: Message, env: Servers.Env, tick: nat, place: nat)
    requires place <= |order| && Servers.OpOf(m).None?
    ensures AtPlace(order, m, RespondWith(m, None, env, tick), env, tick, place)
  {
    hide Servers.CommandOf, Connections.Response, Servers.WriteOf;
  }

  lemma OperationAtPlace(order: seq<Op>, m: Message, env: Servers.Env, tick: nat, place: nat)
    requires place < |order| && Servers.OpOf(m) == Some(order[place])
    ensures AtPlace(order, m, RespondWith(m, Some(ResultAt(order, place)), env, tick), env, tick, place)
  {
    hide Servers.CommandOf, Connections.Response, Servers.WriteOf;
  }

  /** Replies of one handler, in its order, from a place on. */
  ghost predicate Rising(order: seq<Op>, own: seq<Reply>, from: nat) {
    && (forall i: nat :: i < |own| ==> from <= own[i].ticket < |order| && order[own[i].ticket] == own[i].op)
    && (forall i: nat :: i < |own| ==> own[i].ticket < |order| && own[i].result == ResultAt(order, own[i].ticket))
    && (forall i: nat, j: nat :: i < j < |own| ==> own[i].ticket < own[j].ticket)
  }

  lemma {:induction false} ResponsesInOrder(order: seq<Op>, own: seq<Reply>, ms: seq<Message>, env: Servers.Env,
                                            tick: nat, from: nat) returns (places: seq<nat>)
    requires from <= |order| && Rising(order, own, from)
    requires OpsOfReplies(own) <= Servers.OpsOf(ms)
    ensures InGlobalOrder(order, ms, Responses(ms, ResultsOf(own), env, tick), env, tick, places)
    ensures forall i: nat :: i < |places| ==> from <= places[i]
    decreases |ms|
  {
    hide Servers.OpOf, AtPlace, RespondWith, ResultAt;
    if |ms| == 0 {
      places := [];
    } else if Servers.OpOf(ms[0]).None? {
      assert [] + Servers.OpsOf(ms[1..]) == Servers.OpsOf(ms[1..]);
      var later := ResponsesInOrder(order, own, ms[1..], env, tick + 2, from);
      NoOperationAtPlace(order, ms[0], env, tick, from);
      places := [from] + later;
      PlacesCons(order, ms, RespondWith(ms[0], None, env, tick), Responses(ms[1..], ResultsOf(own), env, tick + 2), env,
                 tick, from, later);
    } else if |own| == 0 {
      places := [];
    } else {
      assert OpsOfReplies(own)[0] == Servers.OpsOf(ms)[0];
      assert OpsOfReplies(own[1..]) == OpsOfReplies(own)[1..] && Servers.OpsOf(ms)[1..] == Servers.OpsOf(ms[1..]);
      assert ResultsOf(own[1..]) == ResultsOf(own)[1..];
      var place := own[0].ticket;
      var later := ResponsesInOrder(order, own[1..], ms[1..], env, tick + 2, place + 1);
      OperationAtPlace(order, ms[0], env, tick, place);
      places := [place] + later;
      PlacesCons(order, ms, RespondWith(ms[0], Some(own[0].result), env, tick),
                 Responses(ms[1..], ResultsOf(own[1..]), env, tick + 2), env, tick, place, later);
    }
  }

  lemma PlacesCons(order: seq<Op>, ms: seq<Message>, first: Message, responses: seq<Message>, env: Servers.Env,
                   tick: nat, place: nat, later: seq<nat>)
    requires |ms| > 0 && AtPlace(order, ms[0], first, env, tick, place)
    requires InGlobalOrder(order, ms[1..], responses, env, tick + 2, later)
    requires forall i: nat :: i < |later| ==> (if Servers.OpOf(ms[0]).Some? then place + 1 else place) <= later[i]
    ensures InGlobalOrder(order, ms, [first] + responses, env, tick, [place] + later)
  {
    hide Servers.OpOf, AtPlace;
    var all, places := [first] + responses, [place] + later;
    forall i: nat | i < |places| ensures AtPlace(order, ms[i], all[i], env, tick + 2 * i, places[i]) {
      if i > 0 {
        assert AtPlace(order, ms[1..][i - 1], responses[i - 1], env, (tick + 2) + 2 * (i - 1), later[i - 1]);
      }
    }
    forall i: nat, j: nat | i < j < |places|
      ensures places[i] <= places[j] && (Servers.OpOf(ms[i]).Some? ==> places[i] < places[j]) {
      if i > 0 {
        assert ms[1..][i - 1] == ms[i];
      }
    }
  }

  lemma RisingSnoc(order: seq<Op>, own: seq<Reply>, r: Reply)
    requires Rising(order, own, 0)
    requires r.ticket < |order| && order[r.ticket] == r.op && r.result == ResultAt(order, r.ticket)
    requires forall i: nat :: i < |own| ==> own[i].ticket < r.ticket
    ensures Rising(order, own + [r], 0)
  {
    hide ResultAt;
  }

  lemma {:induction false} OwnAmong(replies: seq<Reply>, t: nat)
    ensures forall r :: r in RepliesOf(replies, t) ==> r in replies && r.thread == t
  {
    if |replies| > 0 {
      OwnAmong(replies[..|replies| - 1], t);
    }
  }

  /** The replies of a thread are in the same order as all replies. */
  lemma {:induction false} OwnRising(order: seq<Op>, replies: seq<Reply>, t: nat)
    requires forall i :: 0 <= i < |replies| ==> replies[i].ticket < |order| && order[replies[i].ticket] == replies[i].op
    requires forall i :: 0 <= i < |replies| ==>
               replies[i].ticket < |order| && replies[i].result == ResultAt(order, replies[i].ticket)
    requires forall i, j :: 0 <= i < j < |replies| && replies[i].thread == replies[j].thread ==>
               replies[i].ticket < replies[j].ticket
    ensures Rising(order, RepliesOf(replies, t), 0)
  {
    if |replies| > 0 {
      hide ResultAt, Rising;
      var last := |replies| - 1;
      var own := RepliesOf(replies[..last], t);
      OwnRising(order, replies[..last], t);
      if replies[last].thread == t {
        OwnAmong(replies[..last], t);
        forall i: nat | i < |own| ensures own[i].ticket < replies[last].ticket {
          assert own[i] in replies[..last];
        }
        RisingSnoc(order, own, replies[last]);
      } else {
        assert own + [] == own;
      }
    }
  }

  lemma OwnInOrder(s: State, es: seq<Event>, t: nat)
    requires Served(s, es)
    ensures Rising(Run(s, es).value.order, RepliesOf(Run(s, es).value.replies, t), 0)
  {
    hide Run, Quiet, ResultAt, RepliesOf, Rising;
    var end := Run(s, es).value;
    Linearizable(s, es);
    forall i | 0 <= i < |end.replies| ensures ServedInOrder(end, end.replies[i]) {}
    forall i: nat, j: nat | i < j < |end.replies| && end.replies[i].thread == end.replies[j].thread
      ensures end.replies[i].ticket < end.replies[j].ticket {
      ConnectionsInOrder(s, es, i, j);
    }
    OwnRising(end.order, end.replies, t);
  }

  /** A thread's replies are to a first part of the operations that it takes up, and to all of them when it
      has taken up all and is idle. */
  lemma OwnOperations(s: State, es: seq<Event>, t: nat, ops: seq<Op>)
    requires Served(s, es) && t < |s.threads| && Begins(es, t) <= ops
    ensures var end := Run(s, es).value;
            && t < |end.threads|
            && OpsOfReplies(RepliesOf(end.replies, t)) <= ops
            && (Begins(es, t) == ops && end.threads[t].Idle? ==> |RepliesOf(end.replies, t)| == |ops|)
  {
    hide Run, Begins, Quiet, RepliesOf;
    EveryOperationAnswered(s, es, t);
  }

  /** Each handler, whatever the others do: if thread t takes its operations from the requests of a stream,
      what it writes are the responses of the global order, one by one as far as its results have come. */
  lemma ConnectionInGlobalOrder(s: State, es: seq<Event>, t: nat, stream: seq<byte>, env: Servers.Env, tick: nat)
    requires Served(s, es) && t < |s.threads|
    requires Begins(es, t) <= Servers.OpsOf(Servers.Answered(stream))
    ensures var end, asked := Run(s, es).value, Servers.Answered(stream);
            var responses := Responses(asked, ResultsOf(RepliesOf(end.replies, t)), env, tick);
            && (exists places :: InGlobalOrder(end.order, asked, responses, env, tick, places))
            && t < |end.threads|
            && StopsAt(asked, |responses|, |RepliesOf(end.replies, t)|)
            && (Begins(es, t) == Servers.OpsOf(asked) && end.threads[t].Idle? ==> |responses| == |asked|)
  {
    hide Run, Begins, Quiet, Initial, InGlobalOrder, Rising, RepliesOf, OpsOfReplies, Responses, StopsAt;
    hide Servers.OpsOf, Servers.Answered;
    var end, asked := Run(s, es).value, Servers.Answered(stream);
    var own := RepliesOf(end.replies, t);
    OwnInOrder(s, es, t);
    OwnOperations(s, es, t, Servers.OpsOf(asked));
    var places := ResponsesInOrder(end.order, own, asked, env, tick, 0);
    ResponsesStop(asked, ResultsOf(own), env, tick);
    if |own| == |Servers.OpsOf(asked)| {
      AllAnswered(asked, ResultsOf(own), env, tick);
    }
  }

  /** With `done` results the first `n` requests are answered, and the next waits for a result. */
  ghost predicate StopsAt(ms: seq<Message>, n: nat, done: nat) {
    && n <= |ms| && |Servers.OpsOf(ms[..n])| <= done
    && (n < |ms| ==> Servers.OpOf(ms[n]).Some? && |Servers.OpsOf(ms[..n])| == done)
  }

  lemma {:induction false} ResponsesStop(ms: seq<Message>, results: seq<Result>, env: Servers.Env, tick: nat)
    ensures StopsAt(ms, |Responses(ms, results, env, tick)|, |results|)
    decreases |ms|
  {
    hide Servers.OpOf, RespondWith;
    var n := |Responses(ms, results, env, tick)|;
    if n > 0 {
      assert ms[..n][0] == ms[0] && ms[..n][1..] == ms[1..][..n - 1];
      if Servers.OpOf(ms[0]).None? {
        ResponsesStop(ms[1..], results, env, tick + 2);
      } else {
        ResponsesStop(ms[1..], results[1..], env, tick + 2);
      }
    } else {
      assert ms[..0] == [];
    }
  }

  /** Once every operation has its result, every request has its response. */
  lemma {:induction false} AllAnswered(ms: seq<Message>, results: seq<Result>, env: Servers.Env, tick: nat)
    requires |results| >= |Servers.OpsOf(ms)|
    ensures |Responses(ms, results, env, tick)| == |ms|
    decreases |ms|
  {
    hide Servers.OpOf, RespondWith;
    if |ms| > 0 && Servers.OpOf(ms[0]).None? {
      AllAnswered(ms[1..], results, env, tick + 2);
    } else if |ms| > 0 {
      AllAnswered(ms[1..], results[1..], env, tick + 2);
    }
  }
}
