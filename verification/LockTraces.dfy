/** What the events of a run say about the records that the lock machine keeps: the wait counter counts the
    polls of one acquisition, and `seen` the replies that were sent before an operation began. */
module LockTraces {
  import opened Options
  import opened Stores
  import opened LockMachine
  import opened LockRuns
  import Spinlocks

  lemma RunStep(s: State, es: seq<Event>, m: State, e: Event)
    requires Run(s, es) == Some(m) && Enabled(m, e)
    ensures Run(s, es + [e]) == Some(After(m, e))
  {
    assert (es + [e])[..|es + [e]| - 1] == es;
  }

  /** An operation that a thread takes up when the lock is free, and performs while the others stand still:
      a write binds its key if it has no value yet, a read looks it up, and one acquisition is counted. */
  lemma SoloOperation(s: State, t: nat, op: Op)
    requires t < |s.threads| && s.threads[t].Idle? && s.lock == 0 && |s.hist| == Spinlocks.BUCKETS
    ensures var result := match op
                          case Emplace(_, _) => Stored
                          case Find(key) => if key in s.store then Found(s.store[key]) else Missing;
            var store := if op.Emplace? && op.key !in s.store then s.store[op.key := op.value] else s.store;
            Run(s, [Begin(t, op)] + Times(Step(t), 8)) ==
            Some(State(0, s.hist[0 := (s.hist[0] + 1) % 0x1_0000_0000], store, s.threads, s.order + [op],
                       s.replies + [Reply(t, op, |s.replies|, |s.order|, result)]))
  {
    hide Run, After;
    var es, m := SoloAcquires(s, t, op);
    es, m := SoloUpdates(s, es, m, t);
    var result := Outcome(s.store, op);
    var more, last := SoloReplies(s, es, m, t, result);
    assert more == [Begin(t, op)] + Times(Step(t), 8);
    assert last.threads == s.threads;
  }

  lemma SoloAcquires(s: State, t: nat, op: Op) returns (es: seq<Event>, m: State)
    requires t < |s.threads| && s.threads[t].Idle? && s.lock == 0 && |s.hist| == Spinlocks.BUCKETS
    ensures es == [Begin(t, op)] + Times(Step(t), 2) && Run(s, es) == Some(m)
    ensures m == Moved(s, t, LoadingHist(op, |s.replies|, |s.order|)).(lock := 1, order := s.order + [op])
  {
    hide Run, After;
    RunNothing(s);
    RunStep(s, [], s, Begin(t, op));
    es := [] + [Begin(t, op)];
    m := Moved(s, t, Polling(op, |s.replies|, 0));
    assert After(s, Begin(t, op)) == m by {
      SoloBegin(s, t, op);
    }
    SoloStep(m, t);
    es, m := Next(s, es, m, t);
    SoloStep(m, t);
    es, m := Next(s, es, m, t);
    assert m.threads == s.threads[t := LoadingHist(op, |s.replies|, |s.order|)];
  }

  lemma SoloUpdates(s: State, es: seq<Event>, m: State, t: nat) returns (more: seq<Event>, after: State)
    requires Run(s, es) == Some(m) && t < |m.threads| && |m.hist| == Spinlocks.BUCKETS && m.threads[t].LoadingHist?
    ensures more == es + Times(Step(t), 4) && Run(s, more) == Some(after)
    ensures var pc := m.threads[t];
            after == Moved(m, t, Releasing(pc.op, pc.seen, pc.ticket, Outcome(m.store, pc.op)))
                       .(hist := m.hist[0 := (m.hist[0] + 1) % WRAP], store := Apply(m.store, pc.op))
  {
    hide Run, After, Apply, Outcome;
    SoloStep(m, t);
    more, after := Next(s, es, m, t);
    SoloStep(after, t);
    more, after := Next(s, more, after, t);
    SoloStep(after, t);
    more, after := Next(s, more, after, t);
    SoloStep(after, t);
    more, after := Next(s, more, after, t);
    var pc := m.threads[t];
    assert after.threads == m.threads[t := Releasing(pc.op, pc.seen, pc.ticket, Outcome(m.store, pc.op))];
  }

  lemma SoloReplies(s: State, es: seq<Event>, m: State, t: nat, result: Result) returns (more: seq<Event>, after: State)
    requires Run(s, es) == Some(m) && t < |m.threads| && |m.hist| == Spinlocks.BUCKETS
    requires m.threads[t].Releasing? && m.threads[t].result == result
    ensures more == es + Times(Step(t), 2) && Run(s, more) == Some(after)
    ensures var pc := m.threads[t];
            after == Moved(m, t, Idle)
                       .(lock := 0, replies := m.replies + [Reply(t, pc.op, pc.seen, pc.ticket, result)])
  {
    hide Run, After;
    SoloStep(m, t);
    more, after := Next(s, es, m, t);
    SoloStep(after, t);
    more, after := Next(s, more, after, t);
    assert after.threads == m.threads[t := Idle];
  }

  lemma RunNothing(s: State)
    ensures Run(s, []) == Some(s)
  {
  }

  lemma SoloBegin(s: State, t: nat, op: Op)
    requires Enabled(s, Begin(t, op))
    ensures After(s, Begin(t, op)) == Moved(s, t, Polling(op, |s.replies|, 0))
  {
  }

  /** Every step of an operation that finds the lock free. */
  lemma SoloStep(m: State, t: nat)
    requires t < |m.threads| && |m.hist| == Spinlocks.BUCKETS
    ensures var pc, m' := m.threads[t], if m.threads[t].Idle? then m else After(m, Step(t));
            && (pc.Polling? && m.lock == 0 ==> m' == Moved(m, t, Setting(pc.op, pc.seen, pc.safetyCount)))
            && (pc.Setting? && m.lock == 0 ==>
                  m' == Moved(m, t, LoadingHist(pc.op, pc.seen, |m.order|)).(lock := 1, order := m.order + [pc.op]))
            && (pc.LoadingHist? ==> m' == Moved(m, t, StoringHist(pc.op, pc.seen, pc.ticket, m.hist[0])))
            && (pc.StoringHist? ==>
                  m' == Moved(m, t, ReadingMap(pc.op, pc.seen, pc.ticket))
                          .(hist := m.hist[0 := (pc.loaded + 1) % WRAP]))
            && (pc.ReadingMap? ==> m' == Moved(m, t, WritingMap(pc.op, pc.seen, pc.ticket, m.store)))
            && (pc.WritingMap? && pc.snapshot == m.store ==>
                  m' == Moved(m, t, Releasing(pc.op, pc.seen, pc.ticket, Outcome(m.store, pc.op)))
                          .(store := Apply(m.store, pc.op)))
            && (pc.Releasing? ==> m' == Moved(m, t, Replying(pc.op, pc.seen, pc.ticket, pc.result)).(lock := 0))
            && (pc.Replying? ==>
                  m' == Moved(m, t, Idle)
                          .(replies := m.replies + [Reply(t, pc.op, pc.seen, pc.ticket, pc.result)]))
  {
  }

  lemma Next(s: State, es: seq<Event>, m: State, t: nat) returns (more: seq<Event>, after: State)
    requires Run(s, es) == Some(m) && Enabled(m, Step(t))
    ensures more == es + [Step(t)] && after == After(m, Step(t)) && Run(s, more) == Some(after)
  {
    hide After;
    RunStep(s, es, m, Step(t));
    more, after := es + [Step(t)], After(m, Step(t));
  }

  /** The polls of thread `t` that found the lock taken, since it took up its last operation. */
  function PollsSince(s: State, es: seq<Event>, t: nat): (polls: nat) {
    if |es| == 0 then 0
    else
      var front, last := es[..|es| - 1], es[|es| - 1];
      if last.thread != t then PollsSince(s, front, t)
      else if last.Begin? then 0
      else PollsSince(s, front, t) + match Run(s, front)
                                     case None => 0
                                     case Some(m) => if TakenPoll(m, t) then 1 else 0
  }

  predicate TakenPoll(s: State, t: nat) {
    t < |s.threads| && s.threads[t].Polling? && s.lock != 0
  }

  predicate Waiting(pc: Pc) {
    pc.Polling? || pc.Resetting? || pc.Setting?
  }

  /** A step counts a poll, starts to count, or leaves the counter; only a count over the limit leads to a reset. */
  lemma WaitMoves(s: State, e: Event)
    requires Enabled(s, e)
    ensures var pc, pc' := s.threads[e.thread], After(s, e).threads[e.thread];
            && (Waiting(pc') ==> e.Begin? || Waiting(pc))
            && (Waiting(pc') && e.Begin? ==> pc'.safetyCount == 0 && !pc'.Resetting?)
            && (Waiting(pc') && e.Step? ==>
                  pc'.safetyCount == pc.safetyCount + if TakenPoll(s, e.thread) then 1 else 0)
            && (e.Step? ==>
                  (pc'.Resetting? <==> TakenPoll(s, e.thread) && pc.safetyCount + 1 > 100_000_000))
  {
  }

  lemma {:induction false} WaitCounted(s: State, es: seq<Event>, t: nat)
    requires Initial(s) && Run(s, es).Some? && t < |s.threads|
    ensures var end := Run(s, es).value;
            && |end.threads| == |s.threads|
            && (Waiting(end.threads[t]) ==> end.threads[t].safetyCount == PollsSince(s, es, t))
  {
    hide After, Enabled;
    if |es| > 0 {
      var front, e := es[..|es| - 1], es[|es| - 1];
      WaitCounted(s, front, t);
      WaitMoves(Run(s, front).value, e);
      OthersStay(Run(s, front).value, e);
    } else {
      AllIdle(s, t);
    }
  }

  lemma AllIdle(s: State, t: nat)
    requires Initial(s) && t < |s.threads|
    ensures s.threads[t].Idle?
  {
  }

  /** A thread sets out to reset the lock exactly at a poll that finds it taken and is at least the
      100,000,001st such poll since it took up its operation. */
  lemma ResetsWhen(s: State, es: seq<Event>, t: nat)
    requires Initial(s) && Run(s, es).Some? && t < |s.threads|
    requires Enabled(Run(s, es).value, Step(t))
    ensures var m := Run(s, es).value;
            After(m, Step(t)).threads[t].Resetting? <==>
            TakenPoll(m, t) && PollsSince(s, es + [Step(t)], t) >= 100_000_001
  {
    hide After;
    var m := Run(s, es).value;
    assert (es + [Step(t)])[..|es + [Step(t)]| - 1] == es;
    WaitCounted(s, es, t);
    WaitMoves(m, Step(t));
  }

  /** What became of an operation that thread `t` took up when `n` replies had been sent: it is still at work
      on it, or this is its next reply. */
  ghost predicate Followed(s: State, t: nat, op: Op, n: nat) {
    n <= |s.replies| &&
    if forall i :: n <= i < |s.replies| ==> s.replies[i].thread != t
    then t < |s.threads| && !s.threads[t].Idle? && s.threads[t].op == op && s.threads[t].seen == n
    else exists j :: n <= j < |s.replies| && NextOf(s, t, n, j) && s.replies[j].op == op && s.replies[j].seen == n
  }

  /** Reply `j` is the first to thread `t` after `n` replies. */
  ghost predicate NextOf(s: State, t: nat, n: nat, j: nat)
    requires j < |s.replies|
  {
    n <= j && s.replies[j].thread == t && forall i :: n <= i < j ==> s.replies[i].thread != t
  }

  lemma FollowedBegin(s: State, e: Event)
    requires Enabled(s, e) && e.Begin?
    ensures Followed(After(s, e), e.thread, e.op, |s.replies|)
  {
  }

  /** A step keeps what its thread is at work on, or sends the reply to it. */
  lemma WorkMoves(s: State, e: Event)
    requires Enabled(s, e) && e.Step?
    ensures var pc, pc', r, r' := s.threads[e.thread], After(s, e).threads[e.thread], s.replies, After(s, e).replies;
            || (r' == r && !pc'.Idle? && pc'.op == pc.op && pc'.seen == pc.seen)
            || (|r'| == |r| + 1 && r'[..|r|] == r && r'[|r|].thread == e.thread && r'[|r|].op == pc.op
                && r'[|r|].seen == pc.seen)
  {
    hide Apply, Outcome;
  }

  lemma FollowedKept(s: State, e: Event, t: nat, op: Op, n: nat)
    requires Enabled(s, e) && Followed(s, t, op, n) && (e.thread == t && e.Begin? ==> |s.replies| > n)
    requires e.thread == t && e.Begin? ==> exists i :: n <= i < |s.replies| && s.replies[i].thread == t
    ensures Followed(After(s, e), t, op, n)
  {
    hide After, Enabled;
    var s' := After(s, e);
    OthersStay(s, e);
    if e.Step? {
      WorkMoves(s, e);
    } else {
      BeginKeepsReplies(s, e);
    }
    var k := |s.replies|;
    forall i | 0 <= i < k ensures s'.replies[i] == s.replies[i] {
      assert |s'.replies| > k ==> s'.replies[..k][i] == s.replies[i];
    }
    if forall i :: n <= i < k ==> s.replies[i].thread != t {
      if |s'.replies| > k && e.thread == t {
        assert NextOf(s', t, n, k) && s'.replies[k].op == op && s'.replies[k].seen == n;
      }
    } else {
      var j :| n <= j < k && NextOf(s, t, n, j) && s.replies[j].op == op && s.replies[j].seen == n;
      assert NextOf(s', t, n, j) && s'.replies[j].op == op && s'.replies[j].seen == n;
      assert s'.replies[j].thread == t;
    }
  }

  lemma BeginKeepsReplies(s: State, e: Event)
    requires Enabled(s, e) && e.Begin?
    ensures After(s, e).replies == s.replies && s.threads[e.thread].Idle?
  {
  }

  /** Every event that takes up an operation is followed by the work on it or by its reply, which says how many
      replies, of all threads, had been sent at that event. */
  lemma {:induction false} BeginFollowed(s: State, es: seq<Event>, k: nat)
    requires Run(s, es).Some? && k < |es| && es[k].Begin?
    ensures Run(s, es[..k]).Some?
    ensures Followed(Run(s, es).value, es[k].thread, es[k].op, |Run(s, es[..k]).value.replies|)
  {
    hide After, Followed, Enabled;
    var front, e := es[..|es| - 1], es[|es| - 1];
    RunPrefix(s, es, k);
    if k == |es| - 1 {
      FollowedBegin(Run(s, front).value, e);
    } else {
      BeginFollowed(s, front, k);
      assert front[..k] == es[..k];
      var m, t, n := Run(s, front).value, es[k].thread, |Run(s, es[..k]).value.replies|;
      if e.thread == t && e.Begin? {
        IdleHasReplied(m, e, t, es[k].op, n);
      }
      FollowedKept(m, e, t, es[k].op, n);
    }
  }

  lemma IdleHasReplied(s: State, e: Event, t: nat, op: Op, n: nat)
    requires Enabled(s, e) && e.Begin? && e.thread == t && Followed(s, t, op, n)
    ensures exists i :: n <= i < |s.replies| && s.replies[i].thread == t
  {
  }

  /** Real time, in terms of the events: what had been replied to when an operation was taken up comes before
      it in the order, on whatever thread. */
  lemma RealTime(s: State, es: seq<Event>, k: nat, i: nat, j: nat)
    requires Initial(s) && Run(s, es).Some? && Quiet(s, es) && k < |es| && es[k].Begin?
    requires Run(s, es[..k]).Some? && i < |Run(s, es[..k]).value.replies|
    requires j < |Run(s, es).value.replies|
    requires NextOf(Run(s, es).value, es[k].thread, |Run(s, es[..k]).value.replies|, j)
    ensures i < |Run(s, es).value.replies|
    ensures var end := Run(s, es).value;
            && end.replies[j].op == es[k].op
            && end.replies[i] == Run(s, es[..k]).value.replies[i]
            && end.replies[i].ticket < end.replies[j].ticket
  {
    hide After, Run, Quiet, ServedInOrder, RepliesDistinct;
    var end, n := Run(s, es).value, |Run(s, es[..k]).value.replies|;
    BeginFollowed(s, es, k);
    Linearizable(s, es);
    RepliesStay(s, es, k);
    assert end.replies[j].thread == es[k].thread;
    var first :| n <= first < |end.replies| && NextOf(end, es[k].thread, n, first) && end.replies[first].op == es[k].op
                 && end.replies[first].seen == n;
    assert first == j;
  }

  lemma {:induction false} RepliesStay(s: State, es: seq<Event>, k: nat)
    requires Run(s, es).Some? && k <= |es| && Run(s, es[..k]).Some?
    ensures Run(s, es[..k]).value.replies <= Run(s, es).value.replies
  {
    hide After;
    if k < |es| {
      RepliesStay(s, es[..|es| - 1], k) by {
        assert es[..|es| - 1][..k] == es[..k];
      }
      assert es[..|es| - 1][..k] == es[..k];
      OneMoreReply(Run(s, es[..|es| - 1]).value, es[|es| - 1]);
    } else {
      assert es[..k] == es;
    }
  }

  lemma OneMoreReply(s: State, e: Event)
    requires Enabled(s, e)
    ensures s.replies <= After(s, e).replies
  {
    if e.Step? {
      WorkMoves(s, e);
    }
  }
}
