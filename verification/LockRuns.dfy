/** Whole runs of the lock machine. */
module LockRuns {
  import opened Options
  import opened Stores
  import opened LockMachine
  import Spinlocks

  /** The state a list of events leads to, if each was enabled in its turn. */
  function Run(s: State, es: seq<Event>): Option<State> {
    if |es| == 0 then Some(s)
    else match Run(s, es[..|es| - 1])
      case None => None
      case Some(m) => if Enabled(m, es[|es| - 1]) then Some(After(m, es[|es| - 1])) else None
  }

  /** A run in which no safety reset finds the lock taken. */
  predicate Quiet(s: State, es: seq<Event>) {
    |es| == 0 ||
    (Quiet(s, es[..|es| - 1]) &&
     match Run(s, es[..|es| - 1])
     case None => true
     case Some(m) => Enabled(m, es[|es| - 1]) ==> !Breaks(m, es[|es| - 1]))
  }

  lemma {:induction false} RunKeepsInv(s: State, es: seq<Event>)
    requires Inv(s) && Run(s, es).Some? && Quiet(s, es)
    ensures Inv(Run(s, es).value)
  {
    hide Inv, After;
    if |es| > 0 {
      RunKeepsInv(s, es[..|es| - 1]);
      InvKept(Run(s, es[..|es| - 1]).value, es[|es| - 1]);
    }
  }

  /** In every state that a quiet run reaches at most one thread holds the lock, and the byte says so. */
  lemma MutualExclusion(s: State, es: seq<Event>)
    requires Initial(s) && Run(s, es).Some? && Quiet(s, es)
    ensures Exclusive(Run(s, es).value)
  {
    InvInitially(s);
    RunKeepsInv(s, es);
  }

  /** The replies are those of a server that performs the operations one at a time, in the order in
      which the lock was acquired; that order respects which replies were sent before an operation began. */
  ghost predicate Linearized(s: State) {
    && (forall i :: 0 <= i < |s.replies| ==> ServedInOrder(s, s.replies[i]))
    && RepliesDistinct(s)
    && (forall i, j :: 0 <= i < |s.replies| && 0 <= j < s.replies[i].seen && j < |s.replies| ==>
          s.replies[j].ticket < s.replies[i].ticket)
  }

  ghost predicate ServedInOrder(s: State, r: Reply) {
    r.ticket < |s.order| && s.order[r.ticket] == r.op && r.result == ResultAt(s.order, r.ticket)
  }

  lemma Linearizable(s: State, es: seq<Event>)
    requires Initial(s) && Run(s, es).Some? && Quiet(s, es)
    ensures var end := Run(s, es).value;
            Linearized(end) && AllClaimed(end) && (end.lock == 0 ==> end.store == Replay(map[], end.order))
  {
    hide Claimed;
    InvInitially(s);
    RunKeepsInv(s, es);
    EveryTicketClaimed(s, es);
    var end := Run(s, es).value;
    forall i | 0 <= i < |end.replies| ensures ServedInOrder(end, end.replies[i]) {
      assert ReplyInv(end, end.replies[i]);
    }
  }

  /** Each thread's replies are in the order of its operations: one began after all its earlier replies. */
  ghost predicate InOrder(s: State) {
    && (forall t, k :: 0 <= t < |s.threads| && 0 <= k < |s.replies| ==>
          !s.threads[t].Idle? && s.replies[k].thread == t ==> k < s.threads[t].seen)
    && (forall i, j :: 0 <= i < j < |s.replies| && s.replies[i].thread == s.replies[j].thread ==> i < s.replies[j].seen)
  }

  lemma InOrderKept(s: State, e: Event)
    requires Enabled(s, e) && InOrder(s)
    ensures InOrder(After(s, e))
  {
  }

  lemma {:induction false} ProgramOrder(s: State, es: seq<Event>)
    requires Initial(s) && Run(s, es).Some?
    ensures InOrder(Run(s, es).value)
  {
    hide After, InOrder;
    if |es| == 0 {
      NothingSent(s);
    } else {
      ProgramOrder(s, es[..|es| - 1]);
      InOrderKept(Run(s, es[..|es| - 1]).value, es[|es| - 1]);
    }
  }

  lemma NothingSent(s: State)
    requires Initial(s)
    ensures InOrder(s)
  {
  }

  /** The operations that a thread took up, in order. */
  function Begins(es: seq<Event>, t: nat): (ops: seq<Op>) {
    if |es| == 0 then []
    else
      var last := es[|es| - 1];
      Begins(es[..|es| - 1], t) + if last.Begin? && last.thread == t then [last.op] else []
  }

  /** The replies of one thread, in order. */
  function RepliesOf(replies: seq<Reply>, t: nat): (own: seq<Reply>) {
    if |replies| == 0 then []
    else
      var last := replies[|replies| - 1];
      RepliesOf(replies[..|replies| - 1], t) + if last.thread == t then [last] else []
  }

  function OpsOfReplies(replies: seq<Reply>): (ops: seq<Op>) {
    seq(|replies|, i requires 0 <= i < |replies| => replies[i].op)
  }

  /** The operation a thread is at work on. */
  function Pending(pc: Pc): (ops: seq<Op>) {
    if pc.Idle? then [] else [pc.op]
  }

  /** A step keeps its thread's operation, takes one up, or answers it. */
  lemma OperationMoves(s: State, e: Event)
    requires Enabled(s, e)
    ensures var pc, pc', r, r' := s.threads[e.thread], After(s, e).threads[e.thread], s.replies, After(s, e).replies;
            || (e.Step? && r' == r && Pending(pc') == Pending(pc))
            || (e.Begin? && r' == r && Pending(pc) == [] && Pending(pc') == [e.op])
            || (e.Step? && |r'| == |r| + 1 && r' == r + [r'[|r|]] && r'[|r|].thread == e.thread
                && Pending(pc) == [r'[|r|].op] && Pending(pc') == [])
  {
    hide Spinlocks.SAFETY_LIMIT, Apply, Outcome;
    var pc := s.threads[e.thread];
    if e.Step? && pc.Replying? {
      assert After(s, e).replies == s.replies + [Reply(e.thread, pc.op, pc.seen, pc.ticket, pc.result)];
    }
  }

  lemma PendingMoves(s: State, e: Event, t: nat)
    requires Enabled(s, e) && t < |s.threads|
    ensures |After(s, e).threads| == |s.threads|
    ensures var own, own' := RepliesOf(s.replies, t), RepliesOf(After(s, e).replies, t);
            OpsOfReplies(own') + Pending(After(s, e).threads[t]) ==
            OpsOfReplies(own) + Pending(s.threads[t]) + if e.Begin? && e.thread == t then [e.op] else []
  {
    hide After, Pending;
    OperationMoves(s, e);
    OthersStay(s, e);
    var own, r' := RepliesOf(s.replies, t), After(s, e).replies;
    if r' != s.replies {
      assert r'[..|s.replies|] == s.replies;
      if t == e.thread {
        assert OpsOfReplies(own + [r'[|s.replies|]]) == OpsOfReplies(own) + [r'[|s.replies|].op];
      }
    }
  }

  /** What a thread took up is what it answered, and at most one operation more. */
  lemma {:induction false} EveryOperationAnswered(s: State, es: seq<Event>, t: nat)
    requires Initial(s) && Run(s, es).Some? && t < |s.threads|
    ensures var end := Run(s, es).value;
            && |end.threads| == |s.threads|
            && Begins(es, t) == OpsOfReplies(RepliesOf(end.replies, t)) + Pending(end.threads[t])
  {
    hide After, OpsOfReplies, Pending;
    if |es| == 0 {
      NothingPending(s, t);
    } else {
      EveryOperationAnswered(s, es[..|es| - 1], t);
      var before := Run(s, es[..|es| - 1]).value;
      PendingMoves(before, es[|es| - 1], t);
    }
  }

  lemma NothingPending(s: State, t: nat)
    requires Initial(s) && t < |s.threads|
    ensures OpsOfReplies(RepliesOf(s.replies, t)) + Pending(s.threads[t]) == []
  {
  }

  /** Each operation in the order is one that its thread took up. */
  lemma {:induction false} EveryTicketClaimed(s: State, es: seq<Event>)
    requires Initial(s) && Run(s, es).Some?
    ensures AllClaimed(Run(s, es).value)
  {
    hide After, Claimed;
    if |es| > 0 {
      EveryTicketClaimed(s, es[..|es| - 1]);
      AllClaimedKept(Run(s, es[..|es| - 1]).value, es[|es| - 1]);
    }
  }

  lemma {:induction false} AmongOwn(replies: seq<Reply>, i: nat)
    requires i < |replies|
    ensures replies[i].op in OpsOfReplies(RepliesOf(replies, replies[i].thread))
  {
    var last := |replies| - 1;
    var t := replies[i].thread;
    var own := RepliesOf(replies[..last], t);
    if i < last {
      AmongOwn(replies[..last], i);
      var k :| 0 <= k < |OpsOfReplies(own)| && OpsOfReplies(own)[k] == replies[i].op;
      assert OpsOfReplies(RepliesOf(replies, t))[k] == replies[i].op;
    } else {
      assert OpsOfReplies(RepliesOf(replies, t))[|own|] == replies[i].op;
    }
  }

  lemma {:induction false} ThreadsOf(s: State, es: seq<Event>, i: nat)
    requires Initial(s) && Run(s, es).Some? && i < |Run(s, es).value.replies|
    ensures Run(s, es).value.replies[i].thread < |s.threads|
    ensures |Run(s, es).value.threads| == |s.threads|
  {
    hide After, Initial;
    if |es| == 0 {
      NoReplies(s);
    } else {
      var before := Run(s, es[..|es| - 1]).value;
      OperationMoves(before, es[|es| - 1]);
      RunThreads(s, es);
      RunThreads(s, es[..|es| - 1]);
      if i < |before.replies| {
        ThreadsOf(s, es[..|es| - 1], i);
        assert Run(s, es).value.replies[i] == before.replies[i];
      }
    }
  }

  lemma NoReplies(s: State)
    requires Initial(s)
    ensures s.replies == []
  {
  }

  lemma {:induction false} RunThreads(s: State, es: seq<Event>)
    requires Run(s, es).Some?
    ensures |Run(s, es).value.threads| == |s.threads|
  {
    if |es| > 0 {
      RunThreads(s, es[..|es| - 1]);
    }
  }

  /** Every operation in the order is one that some thread took up. */
  lemma EveryOrderedBegan(s: State, es: seq<Event>, ticket: nat)
    requires Initial(s) && Run(s, es).Some? && Quiet(s, es)
    requires ticket < |Run(s, es).value.order|
    ensures exists t: nat :: t < |s.threads| && Run(s, es).value.order[ticket] in Begins(es, t)
  {
    hide Run, Begins, Exclusive, TicketsDistinct;
    var end := Run(s, es).value;
    InvInitially(s);
    RunKeepsInv(s, es);
    EveryTicketClaimed(s, es);
    assert Claimed(end, ticket);
    RunThreads(s, es);
    if i :| 0 <= i < |end.replies| && end.replies[i].ticket == ticket {
      assert ReplyInv(end, end.replies[i]);
      ThreadsOf(s, es, i);
      var t := end.replies[i].thread;
      EveryOperationAnswered(s, es, t);
      AmongOwn(end.replies, i);
      assert end.order[ticket] in Begins(es, t);
    } else {
      var t :| 0 <= t < |end.threads| && HasTicket(end.threads[t]) && end.threads[t].ticket == ticket;
      assert ThreadInv(end, end.threads[t]);
      EveryOperationAnswered(s, es, t);
      assert end.threads[t].op in Pending(end.threads[t]);
      assert end.order[ticket] in Begins(es, t);
    }
  }

  lemma StoreGrows(s: State, e: Event)
    requires Enabled(s, e) && Inv(s)
    ensures Within(s.store, After(s, e).store)
  {
    assert ThreadInv(s, s.threads[e.thread]);
  }

  /** Once bound, a key keeps its value for the rest of the run, and no key is ever lost. */
  lemma {:induction false} BindingsLast(s: State, es: seq<Event>)
    requires Inv(s) && Run(s, es).Some? && Quiet(s, es)
    ensures Within(s.store, Run(s, es).value.store)
  {
    hide Inv, After;
    if |es| > 0 {
      BindingsLast(s, es[..|es| - 1]);
      RunKeepsInv(s, es[..|es| - 1]);
      StoreGrows(Run(s, es[..|es| - 1]).value, es[|es| - 1]);
    }
  }

  /** A step that finds the lock free and takes it. */
  predicate Acquires(s: State, e: Event)
    requires Enabled(s, e)
  {
    e.Step? && s.threads[e.thread].Setting? && s.lock == 0
  }

  /** The operations of the steps of a run that took the lock, in order. */
  function Acquired(s: State, es: seq<Event>): (ops: seq<Op>) {
    if |es| == 0 then []
    else
      var front, last := es[..|es| - 1], es[|es| - 1];
      Acquired(s, front) +
      match Run(s, front)
      case None => []
      case Some(m) => if Enabled(m, last) && Acquires(m, last) then [m.threads[last.thread].op] else []
  }

  lemma OrderMoves(s: State, e: Event)
    requires Enabled(s, e)
    ensures After(s, e).order == s.order + if Acquires(s, e) then [s.threads[e.thread].op] else []
  {
    assert s.order + [] == s.order;
  }

  /** The order of the operations is that of the steps that took the lock. */
  lemma {:induction false} OrderIsAcquired(s: State, es: seq<Event>)
    requires Initial(s) && Run(s, es).Some?
    ensures Run(s, es).value.order == Acquired(s, es)
  {
    hide After;
    if |es| > 0 {
      OrderIsAcquired(s, es[..|es| - 1]);
      OrderMoves(Run(s, es[..|es| - 1]).value, es[|es| - 1]);
    }
  }

  /** The thread holds the lock and has not yet stored its update of the histogram. */
  predicate Updating(pc: Pc) {
    pc.LoadingHist? || pc.StoringHist?
  }

  /** The updates that are still to be stored. */
  ghost function Underway(s: State): nat {
    if exists t :: 0 <= t < |s.threads| && Updating(s.threads[t]) then 1 else 0
  }

  /** Bucket 0 after this many acquisitions: no update is lost, and the other buckets are as they were. */
  ghost predicate Counted(s: State, hist: seq<nat>) {
    |hist| == Spinlocks.BUCKETS && s.hist == hist[0 := (hist[0] + |s.order| - Underway(s)) % WRAP]
  }

  /** A step takes the lock, stores an update, or does neither. */
  lemma HistMoves(s: State, e: Event)
    requires Enabled(s, e) && Inv(s)
    ensures var pc, pc', h, h' := s.threads[e.thread], After(s, e).threads[e.thread], s.hist, After(s, e).hist;
            var n, n' := |s.order|, |After(s, e).order|;
            || (n' == n + 1 && h' == h && s.lock == 0 && !Updating(pc) && Updating(pc'))
            || (n' == n && h' == h[0 := (h[0] + 1) % WRAP] && Updating(pc) && !Updating(pc'))
            || (n' == n && h' == h && Updating(pc) == Updating(pc'))
  {
    hide Apply, Outcome;
    assert ThreadInv(s, s.threads[e.thread]);
  }

  lemma UnderwayMoves(s: State, e: Event)
    requires Enabled(s, e) && !Breaks(s, e) && Exclusive(s)
    requires s.lock == 0 || !Updating(After(s, e).threads[e.thread]) || Updating(s.threads[e.thread])
    ensures Underway(After(s, e)) == Underway(s) + (if Updating(After(s, e).threads[e.thread]) then 1 else 0)
                                     - (if Updating(s.threads[e.thread]) then 1 else 0)
  {
    hide After;
    var s', t := After(s, e), e.thread;
    OthersStay(s, e);
    if u :| 0 <= u < |s.threads| && u != t && Updating(s.threads[u]) {
      assert Holds(s.threads[u]) && s.lock != 0;
      assert Updating(s'.threads[u]);
      OneHolder(s, t, u);
    }
  }

  lemma CountedKept(s: State, e: Event, hist: seq<nat>)
    requires Enabled(s, e) && !Breaks(s, e) && Inv(s) && Counted(s, hist)
    ensures Counted(After(s, e), hist)
  {
    hide After, Inv, Updating, Underway;
    HistMoves(s, e);
    assert Exclusive(s) by {
      ExclusiveOf(s);
    }
    UnderwayMoves(s, e);
    NextCount(hist[0] + |s.order| - Underway(s));
    assert s.hist[0] == (hist[0] + |s.order| - Underway(s)) % WRAP;
  }

  lemma ExclusiveOf(s: State)
    requires Inv(s)
    ensures Exclusive(s)
  {
  }

  lemma NextCount(n: int)
    ensures (n % WRAP + 1) % WRAP == (n + 1) % WRAP
  {
  }

  /** In every quiet run bucket 0 counts the acquisitions, but for one that has not yet stored its update. */
  lemma NoLostUpdates(s: State, es: seq<Event>)
    requires Initial(s) && Run(s, es).Some? && Quiet(s, es)
    ensures var end := Run(s, es).value;
            var acquired := |Acquired(s, es)|;
            end.hist == s.hist[0 := (s.hist[0] + acquired - Underway(end)) % WRAP]
  {
    hide Run, Acquired, Initial, Quiet, Counted, Underway;
    EveryUpdateCounted(s, es);
    OrderIsAcquired(s, es);
    CountedIs(Run(s, es).value, s.hist);
  }

  lemma CountedIs(s: State, hist: seq<nat>)
    requires Counted(s, hist)
    ensures |hist| > 0 && s.hist == hist[0 := (hist[0] + |s.order| - Underway(s)) % WRAP]
  {
  }

  lemma {:induction false} EveryUpdateCounted(s: State, es: seq<Event>)
    requires Initial(s) && Run(s, es).Some? && Quiet(s, es)
    ensures Counted(Run(s, es).value, s.hist)
  {
    hide Inv, After, Counted;
    if |es| == 0 {
      NothingCounted(s);
    } else {
      EveryUpdateCounted(s, es[..|es| - 1]);
      InvInitially(s);
      RunKeepsInv(s, es[..|es| - 1]);
      CountedKept(Run(s, es[..|es| - 1]).value, es[|es| - 1], s.hist);
    }
  }

  lemma NothingCounted(s: State)
    requires Initial(s)
    ensures Counted(s, s.hist)
  {
  }

  /** No other kind of step breaks mutual exclusion, and a reset does exactly when the lock was taken. */
  lemma ResetBreaksIff(s: State, e: Event)
    requires Enabled(s, e) && Exclusive(s)
    ensures !Exclusive(After(s, e)) <==> IsReset(s, e) && s.lock != 0
  {
    if !Breaks(s, e) {
      ExclusiveKept(s, e);
    } else {
      var s', t := After(s, e), e.thread;
      forall u | 0 <= u < |s.threads| ensures Holds(s'.threads[u]) == Holds(s.threads[u]) {}
    }
  }

  lemma {:induction false} RunPrefix(s: State, es: seq<Event>, k: nat)
    requires Run(s, es).Some? && k <= |es|
    ensures Run(s, es[..k]).Some?
  {
    if k < |es| {
      RunPrefix(s, es[..|es| - 1], k);
      assert es[..|es| - 1][..k] == es[..k];
    } else {
      assert es[..k] == es;
    }
  }

  /** After every event of the run at most one thread holds the lock, and the byte says so. */
  ghost predicate ExclusiveThroughout(s: State, es: seq<Event>) {
    forall k :: 0 <= k <= |es| ==> Run(s, es[..k]).Some? && Exclusive(Run(s, es[..k]).value)
  }

  /** Exactly the runs in which a reset finds the lock taken lose mutual exclusion. */
  lemma {:induction false} ExclusiveIff(s: State, es: seq<Event>)
    requires Initial(s) && Run(s, es).Some?
    ensures ExclusiveThroughout(s, es) <==> Quiet(s, es)
  {
    hide Exclusive, After, Enabled;
    assert es[..|es|] == es;
    if |es| == 0 {
      MutualExclusion(s, es);
    } else {
      var front, last := es[..|es| - 1], es[|es| - 1];
      RunPrefix(s, es, |es| - 1);
      ExclusiveIff(s, front);
      forall k | 0 <= k < |es| ensures es[..k] == front[..k] {}
      assert ExclusiveThroughout(s, es) <==> ExclusiveThroughout(s, front) && Exclusive(Run(s, es).value);
      assert front[..|front|] == front;
      if Exclusive(Run(s, front).value) {
        ResetBreaksIff(Run(s, front).value, last);
      }
    }
  }

  function Times(e: Event, n: nat): (es: seq<Event>)
    ensures |es| == n
  {
    seq(n, _ => e)
  }

  lemma {:induction false} RunConcat(s: State, es: seq<Event>, fs: seq<Event>)
    requires Run(s, es).Some?
    ensures Run(s, es + fs) == Run(Run(s, es).value, fs)
  {
    if |fs| == 0 {
      assert es + fs == es;
    } else {
      assert (es + fs)[..|es + fs| - 1] == es + fs[..|fs| - 1];
      RunConcat(s, es, fs[..|fs| - 1]);
    }
  }

  /** Polling a taken lock only counts, up to the limit. */
  lemma {:induction false} Polls(s: State, t: nat, n: nat)
    requires t < |s.threads| && |s.hist| == Spinlocks.BUCKETS && s.lock != 0
    requires s.threads[t].Polling? && s.threads[t].safetyCount + n <= SAFETY_LIMIT
    ensures var pc := s.threads[t];
            Run(s, Times(Step(t), n)) == Some(Moved(s, t, Polling(pc.op, pc.seen, pc.safetyCount + n)))
  {
    var pc := s.threads[t];
    if n == 0 {
      assert s.threads[t := pc] == s.threads;
    } else {
      Polls(s, t, n - 1);
      assert Times(Step(t), n)[..n - 1] == Times(Step(t), n - 1);
      var before := Moved(s, t, Polling(pc.op, pc.seen, pc.safetyCount + n - 1));
      var after := Polling(pc.op, pc.seen, pc.safetyCount + n);
      assert After(before, Step(t)) == Moved(before, t, after);
      assert before.threads[t := after] == s.threads[t := after];
    }
  }

  function TwoThreads(op: Op): (s: State)
    ensures Initial(s)
  {
    State(0, seq(Spinlocks.BUCKETS, _ => 0), map[], [Idle, Idle], [], [])
  }

  /** A run that trips the reset lets two threads hold the lock at once. */
  lemma TwoHolders(op: Op)
    ensures exists es: seq<Event> ::
              var end := Run(TwoThreads(op), es);
              end.Some? && |end.value.threads| == 2 && Holds(end.value.threads[0]) && Holds(end.value.threads[1])
  {
    var s0 := TwoThreads(op);
    var taken := [Begin(0, op), Step(0), Step(0), Begin(1, op)];
    var s1 := Run4(s0, taken);
    var polls := Times(Step(1), SAFETY_LIMIT);
    Polls(s1, 1, SAFETY_LIMIT);
    RunConcat(s0, taken, polls);
    var s2 := Moved(s1, 1, Polling(op, 0, SAFETY_LIMIT));
    var grab := [Step(1), Step(1), Step(1), Step(1)];
    var s3 := Run4(s2, grab);
    RunConcat(s0, taken + polls, grab);
    assert Run(s0, taken + polls + grab) == Some(s3);
  }

  /** Four events at once. */
  lemma Run4(s: State, es: seq<Event>) returns (end: State)
    requires |es| == 4
    requires Enabled(s, es[0]) && Enabled(After(s, es[0]), es[1])
    requires Enabled(After(After(s, es[0]), es[1]), es[2])
    requires Enabled(After(After(After(s, es[0]), es[1]), es[2]), es[3])
    ensures end == After(After(After(After(s, es[0]), es[1]), es[2]), es[3])
    ensures Run(s, es) == Some(end)
  {
    hide After, Enabled;
    assert es[..0] == [] && es[..1][..0] == [] && es[..2][..1] == es[..1] && es[..3][..2] == es[..2];
    assert Run(s, es[..1]) == Some(After(s, es[0]));
    assert Run(s, es[..2]) == Some(After(After(s, es[0]), es[1]));
    assert Run(s, es[..3]) == Some(After(After(After(s, es[0]), es[1]), es[2]));
    end := After(After(After(After(s, es[0]), es[1]), es[2]), es[3]);
  }
}
