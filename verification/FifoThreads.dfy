/**
 Any number of threads pushing to and popping from one lk::Fifo, in single steps: every read or write of the ring, of
 the pipe and of the mutex is a step of its own, and any thread may make the next one.
 */
module FifoThreads {
  import opened Options
  import opened Fifo

  /** Where a thread stands; waits means in front of the mutex, and all states after that until Idle hold it. */
  datatype Thread =
    | Idle
    | PushWaits(m: nat)
    | PushHolds(m: nat)
    | PushStored(m: nat)     // the message is in the ring, write_idx_ has not moved
    | PushMoved              // queued, the pipe has not been written
    | PushFull(m: nat)       // rejected, the message is still to be deleted
    | PopWaits
    | PopHolds
    | PopMoved(m: nat)       // taken off, the pipe has not been read
    | PopRead(m: nat)        // to be handed over and deleted
    | Leaves                 // about to unlock

  /** The calls in the order in which they take effect. */
  datatype Effect = Accepted(m: nat) | Rejected(m: nat) | Popped(m: nat) | FoundEmpty

  /** What a queue has seen, and what it holds. */
  datatype History = History(accepted: seq<nat>, rejected: seq<nat>, popped: seq<nat>, queue: seq<nat>)

  function Noted(h: History, e: Effect): History
  {
    match e
    case Accepted(m) => h.(accepted := h.accepted + [m], queue := h.queue + [m])
    case Rejected(m) => h.(rejected := h.rejected + [m])
    case Popped(m) => h.(popped := h.popped + [m], queue := if h.queue == [] then [] else h.queue[1..])
    case FoundEmpty => h
  }

  /** A step of the fields and the mutex; pushed, deleted, log and history record what happened so far. */
  datatype State = State(read: nat, write: nat, data: seq<nat>, pipe: nat, lock: Option<nat>, threads: seq<Thread>,
                         pushed: seq<nat>, deleted: seq<nat>, log: seq<Effect>, history: History)

  datatype Choice = Push(m: nat) | Pop

  predicate HasLock(t: Thread)
  {
    !t.Idle? && !t.PushWaits? && !t.PopWaits?
  }

  function Put(s: State, i: nat, t: Thread): State
    requires i < |s.threads|
  {
    s.(threads := s.threads[i := t])
  }

  function Note(s: State, e: Effect): State
  {
    s.(log := s.log + [e], history := Noted(s.history, e))
  }

  /** Thread i makes a step; an idle one starts the call it chooses, with a message that was not pushed before. */
  function Move(s: State, i: nat, c: Choice): State
    requires i < |s.threads| && |s.data| == SIZE && s.read < SIZE && s.write < SIZE
  {
    match s.threads[i]
    case Idle => (
      match c
      case Push(m) => if m in s.pushed then s else Put(s, i, PushWaits(m)).(pushed := s.pushed + [m])
      case Pop => Put(s, i, PopWaits))
    case PushWaits(m) => if s.lock == None then Put(s, i, PushHolds(m)).(lock := Some(i)) else s
    case PushHolds(m) =>
      if Next(s.write) != s.read then Put(s, i, PushStored(m)).(data := s.data[s.write := m])
      else Note(Put(s, i, PushFull(m)), Rejected(m))
    case PushStored(m) => Note(Put(s, i, PushMoved).(write := Next(s.write)), Accepted(m))
    case PushMoved => Put(s, i, Leaves).(pipe := s.pipe + 1)
    case PushFull(m) => Put(s, i, Leaves).(deleted := s.deleted + [m])
    case PopWaits => if s.lock == None then Put(s, i, PopHolds).(lock := Some(i)) else s
    case PopHolds =>
      if s.read == s.write then Note(Put(s, i, Leaves), FoundEmpty)
      else Note(Put(s, i, PopMoved(s.data[s.read])).(read := Next(s.read)), Popped(s.data[s.read]))
    case PopMoved(m) => Put(s, i, PopRead(m)).(pipe := if s.pipe > 0 then s.pipe - 1 else 0)
    case PopRead(m) => Put(s, i, Leaves).(deleted := s.deleted + [m])
    case Leaves => Put(s, i, Idle).(lock := None)
  }

  ghost predicate InRange(s: State)
  {
    |s.data| == SIZE && s.read < SIZE && s.write < SIZE
  }

  function Init(n: nat): State
  {
    State(0, 0, seq(SIZE, _ => 0), 0, None, seq(n, _ => Idle), [], [], [], History([], [], [], []))
  }

  /** A step of the scheduler: which thread, and what it chooses if it is idle. */
  datatype Turn = Turn(thread: nat, choice: Choice)

  function Run(n: nat, turns: seq<Turn>): (s: State)
    ensures |s.data| == SIZE && s.read < SIZE && s.write < SIZE && |s.threads| == n
  {
    if turns == [] then Init(n) else
      var s := Run(n, turns[..|turns| - 1]);
      var turn := turns[|turns| - 1];
      if turn.thread < n then Move(s, turn.thread, turn.choice) else s
  }

  // ----- What is meant -----

  /** A first-in first-out queue of limited capacity with this history allows e next. */
  predicate Allows(h: History, e: Effect)
  {
    match e
    case Accepted(m) => |h.queue| < CAPACITY
    case Rejected(m) => |h.queue| == CAPACITY
    case Popped(m) => h.queue != [] && h.queue[0] == m
    case FoundEmpty => h.queue == []
  }

  /** The history after the effects, if the queue allows them in this order. */
  function Replay(log: seq<Effect>): Option<History>
  {
    if log == [] then Some(History([], [], [], [])) else
      var before, e := Replay(log[..|log| - 1]), log[|log| - 1];
      if before.Some? && Allows(before.value, e) then Some(Noted(before.value, e)) else None
  }

  // ----- The invariant -----

  /** How often m occurs in xs. */
  function Count(xs: seq<nat>, m: nat): nat
  {
    if xs == [] then 0 else One(xs[0] == m) + Count(xs[1..], m)
  }

  function One(b: bool): nat
  {
    if b then 1 else 0
  }

  /** Whether t pushes m, which has not taken effect. */
  predicate Carries(t: Thread, m: nat)
  {
    (t.PushWaits? || t.PushHolds? || t.PushStored?) && t.m == m
  }

  function Carriers(ts: seq<Thread>, m: nat): nat
  {
    if ts == [] then 0 else Carriers(ts[..|ts| - 1], m) + One(Carries(ts[|ts| - 1], m))
  }

  /** Whether t is about to delete m. */
  predicate Dooms(t: Thread, m: nat)
  {
    (t.PushFull? || t.PopMoved? || t.PopRead?) && t.m == m
  }

  function Holder(s: State): Thread
  {
    if s.lock.Some? && s.lock.value < |s.threads| then s.threads[s.lock.value] else Idle
  }

  ghost predicate LockOk(s: State)
  {
    && (s.lock.Some? ==> s.lock.value < |s.threads|)
    && forall i | 0 <= i < |s.threads| :: HasLock(s.threads[i]) <==> s.lock == Some(i)
  }

  /** The pipe has a byte for each queued message, except between moving an index and the pipe operation. */
  ghost predicate PipeOk(s: State, q: seq<nat>)
  {
    s.pipe == |q| + match Holder(s) case PushMoved => -1 case PopMoved(_) => 1 case _ => 0
  }

  ghost predicate StoredOk(s: State, q: seq<nat>)
  {
    Holder(s).PushStored? ==> |q| < CAPACITY && s.write < |s.data| && s.data[s.write] == Holder(s).m
  }

  ghost predicate RingOk(s: State)
  {
    Holds(s.read, s.write, s.data, s.history.queue) && PipeOk(s, s.history.queue) && StoredOk(s, s.history.queue)
  }

  /** A message is carried by its push, queued, popped or rejected; the last two are deleted or about to be. */
  ghost predicate MessageOk(s: State, m: nat)
  {
    && Count(s.pushed, m) <= 1
    && Count(s.pushed, m) == Carriers(s.threads, m) + Count(s.history.accepted, m) + Count(s.history.rejected, m)
    && Count(s.history.popped, m) + Count(s.history.rejected, m) == Count(s.deleted, m) + One(Dooms(Holder(s), m))
  }

  ghost predicate MessagesOk(s: State)
  {
    && s.history.accepted == s.history.popped + s.history.queue
    && forall m {:trigger MessageOk(s, m)} :: MessageOk(s, m)
  }

  ghost predicate Inv(s: State)
  {
    InRange(s) && LockOk(s) && RingOk(s) && MessagesOk(s)
  }

  lemma CountSnoc(xs: seq<nat>, x: nat, m: nat)
    ensures Count(xs + [x], m) == Count(xs, m) + One(x == m)
  {
    CountConcat(xs, [x], m);
  }

  lemma {:induction false} CountConcat(xs: seq<nat>, ys: seq<nat>, m: nat)
    ensures Count(xs + ys, m) == Count(xs, m) + Count(ys, m)
  {
    if xs == [] {
      assert xs + ys == ys;
    } else {
      CountConcat(xs[1..], ys, m);
      assert (xs + ys)[1..] == xs[1..] + ys;
    }
  }

  lemma {:induction false} CountNone(xs: seq<nat>, m: nat)
    requires m !in xs
    ensures Count(xs, m) == 0
  {
    if xs != [] {
      CountNone(xs[1..], m);
    }
  }

  lemma {:induction false} CarriersUpdate(ts: seq<Thread>, i: nat, t: Thread, m: nat)
    requires i < |ts|
    ensures Carriers(ts[i := t], m) + One(Carries(ts[i], m)) == Carriers(ts, m) + One(Carries(t, m))
  {
    var n := |ts| - 1;
    var us := ts[i := t];
    assert Carriers(us, m) == Carriers(us[..n], m) + One(Carries(us[n], m));
    if i < n {
      CarriersUpdate(ts[..n], i, t, m);
      assert us[..n] == ts[..n][i := t];
    } else {
      assert us[..n] == ts[..n];
    }
  }

  lemma {:induction false} NoneCarries(ts: seq<Thread>, m: nat)
    requires forall i | 0 <= i < |ts| :: ts[i] == Idle
    ensures Carriers(ts, m) == 0
  {
    if ts != [] {
      NoneCarries(ts[..|ts| - 1], m);
    }
  }

  lemma InitOk(n: nat)
    ensures Inv(Init(n))
  {
    var s := Init(n);
    forall m
      ensures MessageOk(s, m)
    {
      NoneCarries(s.threads, m);
    }
  }

  /** A step changes one thread, and the mutex when it takes or leaves it. */
  lemma MoveAndLock(s: State, i: nat, c: Choice)
    requires Inv(s) && i < |s.threads|
    ensures var t := Move(s, i, c);
      && |t.threads| == |s.threads| && t.threads == s.threads[i := t.threads[i]] && InRange(t)
      && t.lock == (if HasLock(t.threads[i]) then Some(i) else if HasLock(s.threads[i]) then None else s.lock)
      && (HasLock(t.threads[i]) ==> s.lock == Some(i) || s.lock == None)
  {
  }

  lemma MoveKeepsLock(s: State, i: nat, c: Choice)
    requires Inv(s) && i < |s.threads|
    ensures LockOk(Move(s, i, c))
    ensures HasLock(s.threads[i]) ==> Holder(s) == s.threads[i]
    ensures HasLock(Move(s, i, c).threads[i]) ==> Holder(Move(s, i, c)) == Move(s, i, c).threads[i]
    ensures !HasLock(s.threads[i]) && !HasLock(Move(s, i, c).threads[i]) ==> Holder(Move(s, i, c)) == Holder(s)
    ensures HasLock(s.threads[i]) && !HasLock(Move(s, i, c).threads[i]) ==> Holder(Move(s, i, c)) == Idle
    ensures !HasLock(s.threads[i]) && HasLock(Move(s, i, c).threads[i]) ==> Holder(s) == Idle
  {
    MoveAndLock(s, i, c);
  }

  /** A thread that is not in the mutex leaves the ring alone. */
  lemma OutsideKeepsRing(s: State, i: nat, c: Choice)
    requires Inv(s) && i < |s.threads| && !HasLock(s.threads[i])
    ensures RingOk(Move(s, i, c))
  {
    MoveKeepsLock(s, i, c);
  }

  lemma InsideKeepsRing(s: State, i: nat, c: Choice)
    requires Inv(s) && i < |s.threads| && HasLock(s.threads[i])
    ensures RingOk(Move(s, i, c))
  {
    var q := s.history.queue;
    MoveKeepsLock(s, i, c);
    FullOrEmpty(s.read, s.write, s.data, q);
    match s.threads[i] {
      case PushHolds(m) => StoreKeeps(s.read, s.write, s.data, q, m);
      case PushStored(m) => MoveWrite(s.read, s.write, s.data, q);
      case PopHolds =>
        if q != [] {
          MoveRead(s.read, s.write, s.data, q);
        }
      case _ =>
    }
  }

  /** From s to t either no call takes effect, or one that the queue allows. */
  ghost predicate Effective(s: State, t: State)
  {
    (t.log == s.log && t.history == s.history) || exists e :: TookEffect(s, t, e)
  }

  ghost predicate TookEffect(s: State, t: State, e: Effect)
  {
    Allows(s.history, e) && t.log == s.log + [e] && t.history == Noted(s.history, e)
  }

  lemma MoveIsEffective(s: State, i: nat, c: Choice)
    requires Inv(s) && i < |s.threads|
    ensures Effective(s, Move(s, i, c))
  {
    var q, t := s.history.queue, Move(s, i, c);
    MoveKeepsLock(s, i, c);
    FullOrEmpty(s.read, s.write, s.data, q);
    match s.threads[i] {
      case PushHolds(m) =>
        if Next(s.write) == s.read {
          assert TookEffect(s, t, Rejected(m));
        }
      case PushStored(m) => assert TookEffect(s, t, Accepted(m));
      case PopHolds =>
        if q != [] {
          MoveRead(s.read, s.write, s.data, q);
          assert TookEffect(s, t, Popped(q[0]));
        } else {
          assert TookEffect(s, t, FoundEmpty);
        }
      case _ =>
    }
  }

  lemma QueueFollowsEffects(s: State, t: State)
    requires Effective(s, t) && s.history.accepted == s.history.popped + s.history.queue
    ensures t.history.accepted == t.history.popped + t.history.queue
  {
    var h := s.history;
    if t.history != h {
      var e :| TookEffect(s, t, e);
      if e.Popped? {
        assert h.popped + h.queue == (h.popped + [h.queue[0]]) + h.queue[1..];
      }
    }
  }

  /** The step that starts the push of m. */
  predicate Starts(s: State, i: nat, c: Choice, m: nat)
    requires i < |s.threads|
  {
    s.threads[i].Idle? && c.Push? && c.m !in s.pushed && c.m == m
  }

  lemma StartStep(s: State, i: nat, c: Choice, m: nat)
    requires InRange(s) && i < |s.threads|
    ensures Count(Move(s, i, c).pushed, m) == Count(s.pushed, m) + One(Starts(s, i, c, m))
  {
    if s.threads[i].Idle? && c.Push? {
      CountSnoc(s.pushed, c.m, m);
    } else {
      assert Move(s, i, c).pushed == s.pushed;
    }
  }

  /** Where message m goes with each step of its push. */
  lemma PushStep(s: State, i: nat, c: Choice, m: nat)
    requires InRange(s) && i < |s.threads|
    ensures var t := Move(s, i, c);
      One(Carries(s.threads[i], m)) + One(Starts(s, i, c, m)) + Count(s.history.accepted, m) + Count(s.history.rejected, m)
      == One(Carries(t.threads[i], m)) + Count(t.history.accepted, m) + Count(t.history.rejected, m)
  {
    var t := Move(s, i, c);
    match s.threads[i] {
      case PushHolds(x) =>
        CountSnoc(s.history.rejected, x, m);
        assert t.history.accepted == s.history.accepted;
      case PushStored(x) =>
        CountSnoc(s.history.accepted, x, m);
        assert t.history.rejected == s.history.rejected;
      case _ =>
        assert t.history.accepted == s.history.accepted && t.history.rejected == s.history.rejected;
    }
  }

  lemma PushesOnce(s: State, i: nat, c: Choice, m: nat)
    requires InRange(s) && i < |s.threads| && Count(s.pushed, m) <= 1
    ensures Count(Move(s, i, c).pushed, m) <= 1
  {
    if s.threads[i].Idle? && c.Push? && c.m !in s.pushed {
      CountSnoc(s.pushed, c.m, m);
      CountNone(s.pushed, c.m);
    }
  }

  /** The steps that delete m. */
  predicate Deletes(t: Thread, m: nat)
  {
    (t.PushFull? || t.PopRead?) && t.m == m
  }

  lemma DeleteStep(s: State, i: nat, c: Choice, m: nat)
    requires InRange(s) && i < |s.threads|
    ensures Count(Move(s, i, c).deleted, m) == Count(s.deleted, m) + One(Deletes(s.threads[i], m))
  {
    if s.threads[i].PushFull? || s.threads[i].PopRead? {
      CountSnoc(s.deleted, s.threads[i].m, m);
    } else {
      assert Move(s, i, c).deleted == s.deleted;
    }
  }

  lemma RejectStep(s: State, i: nat, c: Choice, m: nat)
    requires InRange(s) && i < |s.threads|
    ensures var t := Move(s, i, c);
      Count(t.history.rejected, m) + One(Dooms(s.threads[i], m) && s.threads[i].PushFull?)
      == Count(s.history.rejected, m) + One(Dooms(t.threads[i], m) && t.threads[i].PushFull?)
         + One(Deletes(s.threads[i], m) && s.threads[i].PushFull?)
  {
    if s.threads[i].PushHolds? && Next(s.write) == s.read {
      CountSnoc(s.history.rejected, s.threads[i].m, m);
    } else {
      assert Move(s, i, c).history.rejected == s.history.rejected;
    }
  }

  lemma PopStep(s: State, i: nat, c: Choice, m: nat)
    requires InRange(s) && i < |s.threads|
    ensures var t := Move(s, i, c);
      Count(t.history.popped, m) + One(Dooms(s.threads[i], m) && !s.threads[i].PushFull?)
      == Count(s.history.popped, m) + One(Dooms(t.threads[i], m) && !t.threads[i].PushFull?)
         + One(Deletes(s.threads[i], m) && !s.threads[i].PushFull?)
  {
    if s.threads[i].PopHolds? && s.read != s.write {
      CountSnoc(s.history.popped, s.data[s.read], m);
    } else {
      assert Move(s, i, c).history.popped == s.history.popped;
    }
  }

  /** Where it goes when it is popped or rejected. */
  lemma SettleStep(s: State, i: nat, c: Choice, m: nat)
    requires InRange(s) && i < |s.threads|
    ensures var t := Move(s, i, c);
      Count(t.history.popped, m) + Count(t.history.rejected, m) + One(Dooms(s.threads[i], m))
      == Count(s.history.popped, m) + Count(s.history.rejected, m) + One(Deletes(s.threads[i], m)) + One(Dooms(t.threads[i], m))
  {
    RejectStep(s, i, c, m);
    PopStep(s, i, c, m);
  }

  /** The thread that holds the mutex is the only one that dooms a message. */
  lemma DoomsStep(s: State, i: nat, c: Choice, m: nat)
    requires Inv(s) && i < |s.threads|
    ensures var t := Move(s, i, c);
      One(Dooms(Holder(t), m)) + One(Dooms(s.threads[i], m)) == One(Dooms(Holder(s), m)) + One(Dooms(t.threads[i], m))
  {
    MoveKeepsLock(s, i, c);
  }

  lemma MoveKeepsMessages(s: State, i: nat, c: Choice)
    requires Inv(s) && i < |s.threads|
    ensures MessagesOk(Move(s, i, c))
  {
    var t := Move(s, i, c);
    MoveIsEffective(s, i, c);
    QueueFollowsEffects(s, t);
    forall m
      ensures MessageOk(t, m)
    {
      assert MessageOk(s, m);
      StartStep(s, i, c, m);
      PushStep(s, i, c, m);
      PushesOnce(s, i, c, m);
      DeleteStep(s, i, c, m);
      SettleStep(s, i, c, m);
      DoomsStep(s, i, c, m);
      MoveAndLock(s, i, c);
      CarriersUpdate(s.threads, i, t.threads[i], m);
    }
  }

  lemma MoveKeepsInv(s: State, i: nat, c: Choice)
    requires Inv(s) && i < |s.threads|
    ensures Inv(Move(s, i, c)) && Effective(s, Move(s, i, c))
  {
    MoveAndLock(s, i, c);
    MoveKeepsLock(s, i, c);
    if HasLock(s.threads[i]) {
      InsideKeepsRing(s, i, c);
    } else {
      OutsideKeepsRing(s, i, c);
    }
    MoveIsEffective(s, i, c);
    MoveKeepsMessages(s, i, c);
  }

  lemma {:induction false} RunKeepsInv(n: nat, turns: seq<Turn>)
    ensures Inv(Run(n, turns))
  {
    if turns == [] {
      InitOk(n);
    } else {
      RunKeepsInv(n, turns[..|turns| - 1]);
      var turn := turns[|turns| - 1];
      if turn.thread < n {
        MoveKeepsInv(Run(n, turns[..|turns| - 1]), turn.thread, turn.choice);
      }
    }
  }

  // ----- What every interleaving satisfies -----

  /**
   Under any interleaving, the calls take effect, each at one of its own steps, as those of a first-in first-out queue
   with room for 1023 messages. The ring holds that queue.
   */
  lemma {:induction false} RunIsFifo(n: nat, turns: seq<Turn>)
    ensures var s := Run(n, turns);
      Replay(s.log) == Some(s.history) && Holds(s.read, s.write, s.data, s.history.queue)
  {
    RunKeepsInv(n, turns);
    if turns != [] {
      var before := turns[..|turns| - 1];
      var turn := turns[|turns| - 1];
      RunIsFifo(n, before);
      RunKeepsInv(n, before);
      if turn.thread < n {
        MoveKeepsInv(Run(n, before), turn.thread, turn.choice);
        ReplayOn(Run(n, before), Run(n, turns));
      }
    }
  }

  lemma ReplayOn(s: State, t: State)
    requires Replay(s.log) == Some(s.history) && Effective(s, t)
    ensures Replay(t.log) == Some(t.history)
  {
    if t.log != s.log || t.history != s.history {
      var e :| TookEffect(s, t, e);
      assert t.log[..|t.log| - 1] == s.log;
    }
  }

  /** What was popped is a prefix of what was accepted, and the rest is queued. */
  lemma PoppedIsPrefix(n: nat, turns: seq<Turn>)
    ensures var h := Run(n, turns).history; h.accepted == h.popped + h.queue && |h.queue| <= CAPACITY
  {
    RunKeepsInv(n, turns);
  }

  /** Whenever the mutex is free, the pipe has exactly one byte per queued message. */
  lemma PipeCountsMessages(n: nat, turns: seq<Turn>)
    requires Run(n, turns).lock == None
    ensures Run(n, turns).pipe == |Run(n, turns).history.queue|
  {
    RunKeepsInv(n, turns);
  }

  /** A read of the pipe always finds a byte. */
  lemma PipeIsNeverEmptyWhenRead(n: nat, turns: seq<Turn>, i: nat)
    requires i < n && Run(n, turns).threads[i].PopMoved?
    ensures Run(n, turns).pipe > 0
  {
    RunKeepsInv(n, turns);
    HolderHasByte(Run(n, turns), i);
  }

  lemma HolderHasByte(s: State, i: nat)
    requires Inv(s) && i < |s.threads| && s.threads[i].PopMoved?
    ensures s.pipe > 0
  {
    assert Holder(s) == s.threads[i];
  }

  /** At most one thread is in the mutex. */
  lemma MutualExclusion(n: nat, turns: seq<Turn>, i: nat, j: nat)
    requires i < n && j < n
    requires HasLock(Run(n, turns).threads[i]) && HasLock(Run(n, turns).threads[j])
    ensures i == j
  {
    RunKeepsInv(n, turns);
  }

  /** No message is deleted twice, and none that is queued is deleted. */
  lemma DeletedOnce(n: nat, turns: seq<Turn>, m: nat)
    ensures Count(Run(n, turns).deleted, m) + Count(Run(n, turns).history.queue, m) <= 1
  {
    RunKeepsInv(n, turns);
    CountedOnce(Run(n, turns), m);
  }

  lemma CountedOnce(s: State, m: nat)
    requires Inv(s)
    ensures Count(s.deleted, m) + Count(s.history.queue, m) <= 1
  {
    assert MessageOk(s, m);
    CountConcat(s.history.popped, s.history.queue, m);
  }

  /** Once all threads are idle, every message pushed so far has been deleted or is queued, for the destructor to delete. */
  lemma AllAccountedFor(n: nat, turns: seq<Turn>, m: nat)
    requires forall i | 0 <= i < n :: Run(n, turns).threads[i] == Idle
    ensures Count(Run(n, turns).pushed, m) == Count(Run(n, turns).deleted, m) + Count(Run(n, turns).history.queue, m)
  {
    RunKeepsInv(n, turns);
    IdleAccountedFor(Run(n, turns), m);
  }

  lemma IdleAccountedFor(s: State, m: nat)
    requires Inv(s) && forall i | 0 <= i < |s.threads| :: s.threads[i] == Idle
    ensures Count(s.pushed, m) == Count(s.deleted, m) + Count(s.history.queue, m)
  {
    assert MessageOk(s, m);
    NoneCarries(s.threads, m);
    CountConcat(s.history.popped, s.history.queue, m);
  }
}
