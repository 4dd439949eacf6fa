/** The handler threads of the server, interleaved: every poll, test-and-set, reset, histogram load and
    store, map read and write, release and reply is a step of its own. */
module LockMachine {
  import opened Stores
  import Spinlocks

  const SAFETY_LIMIT: nat := Spinlocks.SAFETY_LIMIT as nat
  const WRAP: nat := 0x1_0000_0000

  /** What a thread does next. `seen` is how many replies had been sent when its operation began, and
      `ticket` the place of its operation in the order in which the lock was acquired. */
  datatype Pc =
    | Idle
    | Polling(op: Op, seen: nat, safetyCount: nat)
    | Resetting(op: Op, seen: nat, safetyCount: nat)
    | Setting(op: Op, seen: nat, safetyCount: nat)
    | LoadingHist(op: Op, seen: nat, ticket: nat)
    | StoringHist(op: Op, seen: nat, ticket: nat, loaded: nat)
    | ReadingMap(op: Op, seen: nat, ticket: nat)
    | WritingMap(op: Op, seen: nat, ticket: nat, snapshot: Store)
    | Releasing(op: Op, seen: nat, ticket: nat, result: Result)
    | Replying(op: Op, seen: nat, ticket: nat, result: Result)

  datatype Reply = Reply(thread: nat, op: Op, seen: nat, ticket: nat, result: Result)

  /** The shared memory, the threads, and two records of the run: the operations in lock-acquisition
      order and the replies in the order in which they were sent. */
  datatype State = State(lock: nat, hist: seq<nat>, store: Store, threads: seq<Pc>,
                         order: seq<Op>, replies: seq<Reply>)

  /** A thread takes up an operation, or makes its next step. */
  datatype Event = Begin(thread: nat, op: Op) | Step(thread: nat)

  predicate Enabled(s: State, e: Event) {
    && e.thread < |s.threads| && |s.hist| == Spinlocks.BUCKETS
    && (e.Begin? <==> s.threads[e.thread].Idle?)
  }

  function Moved(s: State, t: nat, pc: Pc): State
    requires t < |s.threads|
  {
    s.(threads := s.threads[t := pc])
  }

  function After(s: State, e: Event): State
    requires Enabled(s, e)
  {
    var t := e.thread;
    match e
    case Begin(_, op) => Moved(s, t, Polling(op, |s.replies|, 0))
    case Step(_) =>
      match s.threads[t]
      case Polling(op, seen, n) =>
        if s.lock == 0 then Moved(s, t, Setting(op, seen, n))
        else if n + 1 > SAFETY_LIMIT then Moved(s, t, Resetting(op, seen, n + 1))
        else Moved(s, t, Polling(op, seen, n + 1))
      case Resetting(op, seen, n) => Moved(s, t, Polling(op, seen, n)).(lock := 0)
      case Setting(op, seen, n) =>
        if s.lock != 0 then Moved(s, t, Polling(op, seen, n)).(lock := 1)
        else Moved(s, t, LoadingHist(op, seen, |s.order|)).(lock := 1, order := s.order + [op])
      case LoadingHist(op, seen, ticket) => Moved(s, t, StoringHist(op, seen, ticket, s.hist[0]))
      case StoringHist(op, seen, ticket, loaded) =>
        Moved(s, t, ReadingMap(op, seen, ticket)).(hist := s.hist[0 := (loaded + 1) % WRAP])
      case ReadingMap(op, seen, ticket) => Moved(s, t, WritingMap(op, seen, ticket, s.store))
      case WritingMap(op, seen, ticket, snapshot) =>
        Moved(s, t, Releasing(op, seen, ticket, Outcome(snapshot, op)))
          .(store := if op.Emplace? then Apply(snapshot, op) else s.store)
      case Releasing(op, seen, ticket, result) => Moved(s, t, Replying(op, seen, ticket, result)).(lock := 0)
      case Replying(op, seen, ticket, result) =>
        Moved(s, t, Idle).(replies := s.replies + [Reply(t, op, seen, ticket, result)])
  }

  /** The step of AcquireSpinlock that clears the lock byte, whoever holds the lock. */
  predicate IsReset(s: State, e: Event)
    requires Enabled(s, e)
  {
    e.Step? && s.threads[e.thread].Resetting?
  }

  /** A reset that finds the lock free changes nothing but the thread that makes it; this one is different. */
  predicate Breaks(s: State, e: Event)
    requires Enabled(s, e)
  {
    IsReset(s, e) && s.lock != 0
  }

  predicate Holds(pc: Pc) {
    pc.LoadingHist? || pc.StoringHist? || pc.ReadingMap? || pc.WritingMap? || pc.Releasing?
  }

  /** Initially: a free lock, an empty map and no thread at work. */
  predicate Initial(s: State) {
    && s.lock == 0 && |s.hist| == Spinlocks.BUCKETS && s.hist[0] < WRAP && s.store == map[]
    && s.order == [] && s.replies == []
    && forall t :: 0 <= t < |s.threads| ==> s.threads[t] == Idle
  }

  /** At most one thread is between its acquisition and its release, and then the lock byte is nonzero. */
  ghost predicate Exclusive(s: State) {
    && (forall t, u :: 0 <= t < u < |s.threads| ==> !(Holds(s.threads[t]) && Holds(s.threads[u])))
    && (s.lock != 0 <==> exists t :: 0 <= t < |s.threads| && Holds(s.threads[t]))
  }

  /** The result that a one-at-a-time server gives to the operation with this ticket. */
  function ResultAt(order: seq<Op>, ticket: nat): Result
    requires ticket < |order|
  {
    Outcome(Replay(map[], order[..ticket]), order[ticket])
  }

  /** What the invariant says of one thread: of a holder, that nobody else touched what it works on. */
  ghost predicate ThreadInv(s: State, pc: Pc) {
    && (Holds(pc) ==> pc.ticket == |s.order| - 1)
    && (Holds(pc) || pc.Replying? ==> pc.ticket < |s.order| && s.order[pc.ticket] == pc.op)
    && (Holds(pc) && !pc.Releasing? ==> s.store == Replay(map[], s.order[..pc.ticket]))
    && (pc.StoringHist? && |s.hist| == Spinlocks.BUCKETS ==> pc.loaded == s.hist[0])
    && (pc.WritingMap? ==> pc.snapshot == s.store)
    && (pc.Releasing? ==> s.store == Replay(map[], s.order))
    && (pc.Releasing? || pc.Replying? ==> pc.ticket < |s.order| && pc.result == ResultAt(s.order, pc.ticket))
    && (!pc.Idle? ==> pc.seen <= |s.replies|)
    && (Holds(pc) || pc.Replying? ==>
          forall k :: 0 <= k < pc.seen && k < |s.replies| ==> s.replies[k].ticket < pc.ticket)
  }

  ghost predicate ReplyInv(s: State, r: Reply) {
    && r.ticket < |s.order| && s.order[r.ticket] == r.op && r.result == ResultAt(s.order, r.ticket)
    && r.seen <= |s.replies|
    && forall k :: 0 <= k < r.seen ==> s.replies[k].ticket < r.ticket
  }

  /** No ticket is served twice: not by two replies, a thread and a reply, or two threads. */
  ghost predicate TicketsDistinct(s: State) {
    RepliesDistinct(s) && PendingDistinct(s) && ThreadsDistinct(s)
  }

  ghost predicate RepliesDistinct(s: State) {
    forall i, j :: 0 <= i < j < |s.replies| ==> s.replies[i].ticket != s.replies[j].ticket
  }

  ghost predicate PendingDistinct(s: State) {
    forall t, i :: 0 <= t < |s.threads| && 0 <= i < |s.replies| && HasTicket(s.threads[t]) ==>
      s.threads[t].ticket != s.replies[i].ticket
  }

  ghost predicate ThreadsDistinct(s: State) {
    forall t, u :: 0 <= t < u < |s.threads| && HasTicket(s.threads[t]) && HasTicket(s.threads[u]) ==>
      s.threads[t].ticket != s.threads[u].ticket
  }

  predicate HasTicket(pc: Pc) {
    Holds(pc) || pc.Replying?
  }

  ghost predicate Inv(s: State) {
    && |s.hist| == Spinlocks.BUCKETS
    && Exclusive(s)
    && (s.lock == 0 ==> s.store == Replay(map[], s.order))
    && (forall t :: 0 <= t < |s.threads| ==> ThreadInv(s, s.threads[t]))
    && (forall i :: 0 <= i < |s.replies| ==> ReplyInv(s, s.replies[i]))
    && TicketsDistinct(s)
  }

  lemma ExclusiveKept(s: State, e: Event)
    requires Enabled(s, e) && !Breaks(s, e)
    requires Exclusive(s)
    ensures Exclusive(After(s, e))
  {
    var s', t := After(s, e), e.thread;
    forall u | 0 <= u < |s'.threads| && u != t ensures s'.threads[u] == s.threads[u] {}
    if Holds(s'.threads[t]) {
      assert s'.lock != 0;
    } else if s'.lock != 0 {
      var u :| 0 <= u < |s.threads| && Holds(s.threads[u]);
      assert u != t ==> Holds(s'.threads[u]);
    }
  }

  lemma InvInitially(s: State)
    requires Initial(s)
    ensures Inv(s)
  {
  }

  /** Replaying is unchanged for tickets already given when one more operation is appended. */
  lemma ResultKept(order: seq<Op>, op: Op, ticket: nat)
    requires ticket < |order|
    ensures ResultAt(order + [op], ticket) == ResultAt(order, ticket)
  {
    assert (order + [op])[..ticket] == order[..ticket];
  }

  lemma ReplayNext(order: seq<Op>, op: Op)
    ensures (order + [op])[..|order|] == order
    ensures Replay(map[], order + [op]) == Apply(Replay(map[], order), op)
  {
    assert (order + [op])[..|order|] == order;
  }

  /** The mover's own part of the invariant. */
  lemma MoverKept(s: State, e: Event)
    requires Enabled(s, e) && !Breaks(s, e) && Inv(s)
    ensures ThreadInv(After(s, e), After(s, e).threads[e.thread])
  {
    var pc := s.threads[e.thread];
    assert ThreadInv(s, pc);
    if e.Step? && pc.Setting? && s.lock == 0 {
      ReplayNext(s.order, pc.op);
      forall k | 0 <= k < pc.seen && k < |s.replies| ensures s.replies[k].ticket < |s.order| {
        assert ReplyInv(s, s.replies[k]);
      }
    } else if e.Step? && pc.WritingMap? {
      var front := s.order[..pc.ticket];
      assert s.order == front + [pc.op];
      ReplayNext(front, pc.op);
    }
  }

  lemma OneHolder(s: State, t: nat, u: nat)
    requires Exclusive(s) && t < |s.threads| && u < |s.threads|
    ensures Holds(s.threads[t]) && Holds(s.threads[u]) ==> t == u
  {
  }

  /** A thread that does not move keeps its part: what a holder relies on, only it changes. */
  lemma OtherKept(s: State, e: Event, u: nat)
    requires Enabled(s, e) && !Breaks(s, e) && Inv(s)
    requires u < |s.threads| && u != e.thread
    ensures ThreadInv(After(s, e), s.threads[u])
  {
    var pc, mover := s.threads[u], s.threads[e.thread];
    assert ThreadInv(s, pc);
    if Holds(pc) {
      assert s.lock != 0;
      OneHolder(s, u, e.thread);
    }
    if e.Step? && mover.Setting? && s.lock == 0 && pc.Replying? {
      ResultKept(s.order, mover.op, pc.ticket);
    }
  }

  lemma RepliesKept(s: State, e: Event, i: nat)
    requires Enabled(s, e) && !Breaks(s, e) && Inv(s)
    requires i < |After(s, e).replies|
    ensures ReplyInv(After(s, e), After(s, e).replies[i])
  {
    var mover := s.threads[e.thread];
    assert ThreadInv(s, mover);
    if i < |s.replies| {
      assert ReplyInv(s, s.replies[i]);
      if e.Step? && mover.Setting? && s.lock == 0 {
        ResultKept(s.order, mover.op, s.replies[i].ticket);
      }
    }
  }

  /** Every ticket given so far is below the next one. */
  lemma TicketsBelow(s: State)
    requires Inv(s)
    ensures forall i :: 0 <= i < |s.replies| ==> s.replies[i].ticket < |s.order|
    ensures forall t :: 0 <= t < |s.threads| && HasTicket(s.threads[t]) ==> s.threads[t].ticket < |s.order|
  {
    forall i | 0 <= i < |s.replies| ensures s.replies[i].ticket < |s.order| {
      assert ReplyInv(s, s.replies[i]);
    }
    forall t | 0 <= t < |s.threads| && HasTicket(s.threads[t]) ensures s.threads[t].ticket < |s.order| {
      assert ThreadInv(s, s.threads[t]);
    }
  }

  /** A step gives its thread the next ticket, keeps the one it has, or hands it to a reply. */
  lemma TicketMoves(s: State, e: Event)
    requires Enabled(s, e)
    ensures var pc, pc', r, r' := s.threads[e.thread], After(s, e).threads[e.thread], s.replies, After(s, e).replies;
            || (r' == r && (HasTicket(pc) ==> HasTicket(pc')) &&
                (HasTicket(pc') ==> pc'.ticket == if HasTicket(pc) then pc.ticket else |s.order|))
            || (HasTicket(pc) && !HasTicket(pc') && |r'| == |r| + 1 && r'[..|r|] == r && r'[|r|].ticket == pc.ticket)
    ensures var pc, pc' := s.threads[e.thread], After(s, e).threads[e.thread];
            |After(s, e).order| == |s.order| + if HasTicket(pc') && !HasTicket(pc) then 1 else 0
  {
  }

  /** Some thread, or some reply, has this ticket. */
  ghost predicate Claimed(s: State, ticket: nat) {
    || (exists i :: 0 <= i < |s.replies| && s.replies[i].ticket == ticket)
    || (exists t :: 0 <= t < |s.threads| && HasTicket(s.threads[t]) && s.threads[t].ticket == ticket)
  }

  /** Nothing is in the order that no thread put there. */
  ghost predicate AllClaimed(s: State) {
    forall ticket: nat :: ticket < |s.order| ==> Claimed(s, ticket)
  }

  /** This is so whether the lock is reset or not. */
  lemma AllClaimedKept(s: State, e: Event)
    requires Enabled(s, e) && AllClaimed(s)
    ensures AllClaimed(After(s, e))
  {
    hide After;
    var s' := After(s, e);
    TicketMoves(s, e);
    OthersStay(s, e);
    forall ticket: nat | ticket < |s'.order| ensures Claimed(s', ticket) {
      assert ticket < |s.order| ==> Claimed(s, ticket);
      if ticket == |s.order| {
        assert s'.threads[e.thread].ticket == ticket;
      } else if i :| 0 <= i < |s.replies| && s.replies[i].ticket == ticket {
        assert s'.replies[..|s.replies|][i] == s'.replies[i];
      } else {
        var t :| 0 <= t < |s.threads| && HasTicket(s.threads[t]) && s.threads[t].ticket == ticket;
        assert t == e.thread ==> HasTicket(s'.threads[t]) || s'.replies[|s.replies|].ticket == ticket;
      }
    }
  }

  lemma RepliesStayDistinct(s: State, e: Event)
    requires Enabled(s, e) && Inv(s)
    ensures RepliesDistinct(After(s, e))
  {
    hide After, Exclusive, ThreadInv, ReplyInv, ThreadsDistinct;
    TicketMoves(s, e);
    var r, r' := s.replies, After(s, e).replies;
    forall i, j | 0 <= i < j < |r'| ensures r'[i].ticket != r'[j].ticket {
      assert r'[i] == r[i];
      assert j < |r| ==> r'[j] == r[j];
    }
  }

  lemma PendingStayDistinct(s: State, e: Event)
    requires Enabled(s, e) && Inv(s)
    ensures PendingDistinct(After(s, e))
  {
    hide After, Exclusive, ThreadInv, ReplyInv, RepliesDistinct;
    TicketMoves(s, e);
    TicketsBelow(s);
    OthersStay(s, e);
    var r, r' := s.replies, After(s, e).replies;
    forall t, i | 0 <= t < |After(s, e).threads| && 0 <= i < |r'| && HasTicket(After(s, e).threads[t])
      ensures After(s, e).threads[t].ticket != r'[i].ticket {
      assert i < |r| ==> r'[i] == r[i];
    }
  }

  lemma ThreadsStayDistinct(s: State, e: Event)
    requires Enabled(s, e) && Inv(s)
    ensures ThreadsDistinct(After(s, e))
  {
    hide After, Exclusive, ThreadInv, ReplyInv, RepliesDistinct, PendingDistinct;
    TicketMoves(s, e);
    TicketsBelow(s);
    OthersStay(s, e);
  }

  lemma OthersStay(s: State, e: Event)
    requires Enabled(s, e)
    ensures |After(s, e).threads| == |s.threads|
    ensures forall u :: 0 <= u < |s.threads| && u != e.thread ==> After(s, e).threads[u] == s.threads[u]
  {
  }

  lemma FreeStoreKept(s: State, e: Event)
    requires Enabled(s, e) && !Breaks(s, e) && Inv(s)
    ensures After(s, e).lock == 0 ==> After(s, e).store == Replay(map[], After(s, e).order)
  {
    var mover := s.threads[e.thread];
    assert ThreadInv(s, mover);
    if Holds(mover) {
      assert s.lock != 0;
    }
  }

  /** Every step but a reset of a taken lock keeps the invariant. */
  lemma InvKept(s: State, e: Event)
    requires Enabled(s, e) && !Breaks(s, e)
    requires Inv(s)
    ensures Inv(After(s, e))
  {
    hide ThreadInv, ReplyInv, Exclusive, RepliesDistinct, PendingDistinct, ThreadsDistinct, Replay;
    var s' := After(s, e);
    ExclusiveKept(s, e);
    FreeStoreKept(s, e);
    RepliesStayDistinct(s, e);
    PendingStayDistinct(s, e);
    ThreadsStayDistinct(s, e);
    forall t | 0 <= t < |s'.threads| ensures ThreadInv(s', s'.threads[t]) {
      if t == e.thread {
        MoverKept(s, e);
      } else {
        OtherKept(s, e, t);
      }
    }
    forall i | 0 <= i < |s'.replies| ensures ReplyInv(s', s'.replies[i]) {
      RepliesKept(s, e, i);
    }
  }
}
