/**
 * JThreadQueue: a queue shared by threads that post and take items under one mutex and one condition.
 * A run is any interleaving of atomic moves: a lock, a queue operation, a signal, an unlock, a spurious wakeup.
 */
module Monitor {
  import opened Base

  /** Where a thread stands; the item is what the call carries or has taken. */
  datatype Pc<T> =
    | Idle
      // WaitForItem
    | Waiting           // about to lock
    | WaitLocked        // about to pop
    | Empty             // the pop failed; about to wait for the condition
    | Asleep            // waiting, without the lock
    | Woken             // about to lock again
    | Relocked          // about to pop again
    | Retry             // the second pop failed; about to unlock and start over
      // PollForItem
    | Polling
    | PollLocked
    | Missed            // about to unlock and return false
      // both
    | Got(item: T)      // about to unlock and return the item
      // PostItem
    | Posting(item: T)
    | PostLocked(item: T)
    | Pushed(ok: bool)  // about to signal
    | Signalled(ok: bool)
    | Aborted           // its assertion failed: the queue was full

  datatype Delivery<T> = Delivery(thread: nat, item: T)

  datatype State<T> = State(
    threads: seq<Pc<T>>,
    lock: Option<nat>,
    queue: seq<T>,              // from begin to end
    capacity: nat,
    posted: seq<T>,             // every item pushed, in order
    popped: seq<Delivery<T>>,   // every item popped, in order
    returned: seq<seq<T>>)      // what the calls of each thread have returned

  datatype Move<T> =
    | StartWait(thread: nat)
    | StartPoll(thread: nat)
    | StartPost(thread: nat, item: T)
    | Spurious(thread: nat)
    | Work(thread: nat, sleeper: nat)   // `sleeper` is whom a signal wakes

  ghost predicate Holds<T>(pc: Pc<T>) {
    pc.WaitLocked? || pc.Empty? || pc.Relocked? || pc.Retry? || pc.PollLocked? || pc.Missed?
    || pc.Got? || pc.PostLocked? || pc.Pushed? || pc.Signalled?
  }

  ghost predicate NeedsLock<T>(pc: Pc<T>) {
    pc.Waiting? || pc.Woken? || pc.Polling? || pc.Posting?
  }

  ghost predicate SomeAsleep<T>(threads: seq<Pc<T>>) {
    exists t | 0 <= t < |threads| :: threads[t].Asleep?
  }

  ghost predicate Enabled<T>(s: State<T>, m: Move<T>) {
    && m.thread < |s.threads| == |s.returned|
    && var pc := s.threads[m.thread];
    match m
    case StartWait(_) | StartPoll(_) | StartPost(_, _) => pc.Idle?
    case Spurious(_) => pc.Asleep?
    case Work(_, u) =>
      if pc.Pushed? then SomeAsleep(s.threads) ==> u < |s.threads| && s.threads[u].Asleep?
      else Holds(pc) || (NeedsLock(pc) && s.lock == None)
  }

  function At<T>(s: State<T>, t: nat, pc: Pc<T>): (s': State<T>)
    requires t < |s.threads|
  {
    s.(threads := s.threads[t := pc])
  }

  function Pop<T>(s: State<T>, t: nat, otherwise: Pc<T>): (s': State<T>)
    requires t < |s.threads|
  {
    if s.queue == [] then At(s, t, otherwise)
    else
      var n := |s.queue| - 1;
      At(s, t, Got(s.queue[n])).(queue := s.queue[..n], popped := s.popped + [Delivery(t, s.queue[n])])
  }

  function Push<T>(s: State<T>, t: nat, x: T): (s': State<T>)
    requires t < |s.threads|
  {
    if |s.queue| == s.capacity then At(s, t, Pushed(false))
    else At(s, t, Pushed(true)).(queue := [x] + s.queue, posted := s.posted + [x])
  }

  ghost function Next<T>(s: State<T>, m: Move<T>): (s': State<T>)
    requires Enabled(s, m)
  {
    var t := m.thread;
    match m
    case StartWait(_) => At(s, t, Waiting)
    case StartPoll(_) => At(s, t, Polling)
    case StartPost(_, x) => At(s, t, Posting(x))
    case Spurious(_) => At(s, t, Woken)
    case Work(_, u) =>
      match s.threads[t]
      case Waiting => At(s, t, WaitLocked).(lock := Some(t))
      case WaitLocked => Pop(s, t, Empty)
      case Empty => At(s, t, Asleep).(lock := None)
      case Woken => At(s, t, Relocked).(lock := Some(t))
      case Relocked => Pop(s, t, Retry)
      case Retry => At(s, t, Waiting).(lock := None)
      case Polling => At(s, t, PollLocked).(lock := Some(t))
      case PollLocked => Pop(s, t, Missed)
      case Missed => At(s, t, Idle).(lock := None)
      case Got(x) => At(s, t, Idle).(lock := None, returned := s.returned[t := s.returned[t] + [x]])
      case Posting(x) => At(s, t, PostLocked(x)).(lock := Some(t))
      case PostLocked(x) => Push(s, t, x)
      case Pushed(ok) =>
        var s1 := At(s, t, Signalled(ok));
        if SomeAsleep(s.threads) then At(s1, u, Woken) else s1
      case Signalled(ok) => At(s, t, if ok then Idle else Aborted).(lock := None)
  }

  function Total<T>(threads: seq<Pc<T>>, weight: Pc<T> -> nat): (n: nat) {
    if threads == [] then 0 else Total(threads[..|threads| - 1], weight) + weight(threads[|threads| - 1])
  }

  lemma {:induction false} TotalAfter<T>(threads: seq<Pc<T>>, weight: Pc<T> -> nat, t: nat, pc: Pc<T>)
    requires t < |threads|
    ensures Total(threads[t := pc], weight) == Total(threads, weight) - weight(threads[t]) + weight(pc)
  {
    var n := |threads| - 1;
    if t == n {
      assert threads[t := pc][..n] == threads[..n];
    } else {
      TotalAfter(threads[..n], weight, t, pc);
      assert threads[t := pc][..n] == threads[..n][t := pc];
    }
  }

  lemma {:induction false} PositiveTotal<T>(threads: seq<Pc<T>>, weight: Pc<T> -> nat)
    requires Total(threads, weight) > 0
    ensures exists t | 0 <= t < |threads| :: weight(threads[t]) > 0
  {
    var n := |threads| - 1;
    if weight(threads[n]) == 0 {
      PositiveTotal(threads[..n], weight);
      var t :| 0 <= t < n && weight(threads[..n][t]) > 0;
      assert weight(threads[t]) > 0;
    }
  }

  /** A thread that will look at the queue again, or is about to wake one that will. */
  function Credit<T>(pc: Pc<T>): nat {
    if pc.Woken? || pc.Relocked? || pc == Pushed(true) then 1 else 0
  }

  /** The items the calls of thread `t` have popped. */
  function Taken<T>(popped: seq<Delivery<T>>, t: nat): (xs: seq<T>) {
    if popped == [] then []
    else
      var n := |popped| - 1;
      Taken(popped[..n], t) + if popped[n].thread == t then [popped[n].item] else []
  }

  function InHand<T>(pc: Pc<T>): seq<T> {
    if pc.Got? then [pc.item] else []
  }

  ghost predicate OneHolder<T>(s: State<T>) {
    && (forall t | 0 <= t < |s.threads| :: Holds(s.threads[t]) <==> s.lock == Some(t))
    && (s.lock.Some? ==> s.lock.value < |s.threads|)
  }

  /** First posted, first popped: the queue holds, from its end to its begin, what is posted and not yet popped. */
  ghost predicate Fifo<T>(s: State<T>) {
    && |s.posted| == |s.popped| + |s.queue| && |s.queue| <= s.capacity
    && (forall i | 0 <= i < |s.popped| :: s.popped[i].item == s.posted[i])
    && (forall j | 0 <= j < |s.queue| :: s.queue[j] == s.posted[|s.posted| - 1 - j])
  }

  /** Every item popped is returned by the call that popped it, once and in order. */
  ghost predicate Returned<T>(s: State<T>) {
    && |s.returned| == |s.threads|
    && forall t | 0 <= t < |s.threads| :: Taken(s.popped, t) == s.returned[t] + InHand(s.threads[t])
  }

  /** No lost wakeup: while a thread sleeps, every queued item has a thread coming for it. */
  ghost predicate NoLostWakeup<T>(s: State<T>) {
    && (forall t | 0 <= t < |s.threads| :: s.threads[t].Empty? ==> s.queue == [])
    && (SomeAsleep(s.threads) ==> |s.queue| <= Total(s.threads, Credit))
  }

  ghost predicate PoppedByThreads<T>(s: State<T>) {
    forall i | 0 <= i < |s.popped| :: s.popped[i].thread < |s.threads|
  }

  ghost predicate Inv<T>(s: State<T>) {
    OneHolder(s) && Fifo(s) && Returned(s) && NoLostWakeup(s) && PoppedByThreads(s)
  }

  function Init<T>(threads: nat, capacity: nat): (s: State<T>) {
    State(seq(threads, _ => Idle), None, [], capacity, [], [], seq(threads, _ => []))
  }

  lemma InitInv<T>(threads: nat, capacity: nat)
    ensures Inv(Init<T>(threads, capacity))
  {
  }

  /** What a move does to the queue: nothing, pop the last item, or push in front. */
  ghost predicate Quiet<T>(s: State<T>, s': State<T>) {
    s'.queue == s.queue && s'.posted == s.posted && s'.popped == s.popped
  }

  ghost predicate Popped<T>(s: State<T>, s': State<T>, t: nat) {
    && s.queue != []
    && s'.queue == s.queue[..|s.queue| - 1] && s'.posted == s.posted
    && s'.popped == s.popped + [Delivery(t, s.queue[|s.queue| - 1])]
  }

  ghost predicate PushedOne<T>(s: State<T>, s': State<T>) {
    && |s.queue| != s.capacity && |s'.queue| == |s.queue| + 1 && |s'.posted| == |s.posted| + 1
    && s'.queue == [s'.posted[|s.posted|]] + s.queue
    && s'.posted[..|s.posted|] == s.posted && s'.popped == s.popped
  }

  lemma QueueMove<T>(s: State<T>, m: Move<T>)
    requires Enabled(s, m)
    ensures var s', t := Next(s, m), m.thread;
      && s'.capacity == s.capacity
      && if m.Work? && (s.threads[t].WaitLocked? || s.threads[t].Relocked? || s.threads[t].PollLocked?) && s.queue != []
         then Popped(s, s', t)
         else Quiet(s, s') || PushedOne(s, s')
  {
  }

  lemma KeepsFifo<T>(s: State<T>, m: Move<T>)
    requires Fifo(s) && Enabled(s, m)
    ensures Fifo(Next(s, m))
  {
    hide Enabled, Next;
    QueueMove(s, m);
  }

  /** A move changes its own thread, and a signal wakes one sleeper. */
  ghost predicate Signals<T>(s: State<T>, m: Move<T>)
    requires Enabled(s, m)
  {
    m.Work? && s.threads[m.thread].Pushed? && SomeAsleep(s.threads)
  }

  lemma ThreadMove<T>(s: State<T>, m: Move<T>)
    requires Enabled(s, m)
    ensures m.thread < |s.threads| == |Next(s, m).threads|
    ensures Signals(s, m) ==> m.Work? && s.threads[m.thread].Pushed?
    ensures Signals(s, m) ==> m.sleeper < |s.threads| && s.threads[m.sleeper].Asleep?
    ensures var s', t := Next(s, m), m.thread;
      var own := s.threads[t := s'.threads[t]];
      s'.threads == if Signals(s, m) then own[m.sleeper := Woken] else own
  {
    var s', t := Next(s, m), m.thread;
    var own := s.threads[t := s'.threads[t]];
    if m.Work? && s.threads[t].Pushed? {
      assert s'.threads == if Signals(s, m) then own[m.sleeper := Woken] else own;
    } else {
      assert s'.threads == own;
    }
  }

  /** A thread takes the lock only when it is free, and gives up only its own. */
  lemma LockMove<T>(s: State<T>, m: Move<T>)
    requires Enabled(s, m) && (m.thread < |s.threads| && Holds(s.threads[m.thread]) ==> s.lock == Some(m.thread))
    ensures var s', t := Next(s, m), m.thread;
      && t < |s.threads| == |s'.threads|
      && var before, after := Holds(s.threads[t]), Holds(s'.threads[t]);
        if after then s'.lock == Some(t) && (before || s.lock == None)
        else s'.lock == if before then None else s.lock
  {
  }

  lemma KeepsOneHolder<T>(s: State<T>, m: Move<T>)
    requires OneHolder(s) && Enabled(s, m)
    ensures OneHolder(Next(s, m))
  {
    LockMove(s, m);
    ThreadMove(s, m);
    hide Enabled, Next;
  }

  lemma HandMove<T>(s: State<T>, m: Move<T>)
    requires Enabled(s, m)
    ensures var s', t := Next(s, m), m.thread;
      && m.thread < |s.threads| == |s.returned| == |s'.returned| == |s'.threads|
      && (forall v | 0 <= v < |s.threads| && v != t :: s'.returned[v] == s.returned[v])
      && (Popped(s, s', t) ==> s'.returned[t] == s.returned[t] && InHand(s.threads[t]) == [])
      && (Popped(s, s', t) ==> s'.threads[t] == Got(s.queue[|s.queue| - 1]))
      && (s'.popped == s.popped ==> s'.returned[t] + InHand(s'.threads[t]) == s.returned[t] + InHand(s.threads[t]))
  {
    var s', t := Next(s, m), m.thread;
    if s'.popped == s.popped {
      assert s'.returned[t] + InHand(s'.threads[t]) == s.returned[t] + InHand(s.threads[t]);
    }
  }

  lemma KeepsReturned<T>(s: State<T>, m: Move<T>)
    requires Returned(s) && Enabled(s, m)
    ensures Returned(Next(s, m))
  {
    hide Enabled, Next;
    QueueMove(s, m);
    HandMove(s, m);
    ThreadMove(s, m);
    var t, s' := m.thread, Next(s, m);
    if Popped(s, s', t) {
      assert s'.popped[..|s.popped|] == s.popped;
    }
    forall v | 0 <= v < |s'.threads| ensures Taken(s'.popped, v) == s'.returned[v] + InHand(s'.threads[v]) {
      assert Taken(s.popped, v) == s.returned[v] + InHand(s.threads[v]);
    }
  }

  /** A pop spends at most one credit, a push brings one, and only an empty queue sends a thread to sleep. */
  lemma CreditMove<T>(s: State<T>, m: Move<T>)
    requires OneHolder(s) && Enabled(s, m)
    requires forall t | 0 <= t < |s.threads| :: s.threads[t].Empty? ==> s.queue == []
    ensures var s', t := Next(s, m), m.thread;
      && t < |s.threads| == |s'.threads|
      && var was, now := Credit(s.threads[t]), Credit(s'.threads[t]) + if Signals(s, m) then 1 else 0;
      && (s'.queue == [] || was + |s'.queue| <= now + |s.queue| || (s.threads[t].Pushed? && !SomeAsleep(s.threads)))
      && (s'.threads[t].Asleep? ==> s'.queue == [])
      && (s'.threads[t].Empty? ==> s'.queue == [])
      && (s'.queue == s.queue || s.lock == Some(t))
  {
  }

  lemma KeepsNoLostWakeup<T>(s: State<T>, m: Move<T>)
    requires OneHolder(s) && NoLostWakeup(s) && Enabled(s, m)
    ensures NoLostWakeup(Next(s, m))
  {
    CreditMove(s, m);
    ThreadMove(s, m);
    hide Enabled, Next;
    var t, s' := m.thread, Next(s, m);
    var own := s.threads[t := s'.threads[t]];
    TotalAfter(s.threads, Credit, t, s'.threads[t]);
    if Signals(s, m) {
      TotalAfter(own, Credit, m.sleeper, Woken);
    }
  }

  lemma KeepsPoppedByThreads<T>(s: State<T>, m: Move<T>)
    requires PoppedByThreads(s) && Enabled(s, m)
    ensures PoppedByThreads(Next(s, m))
  {
    QueueMove(s, m);
    ThreadMove(s, m);
    hide Enabled, Next;
  }

  lemma StepKeepsInv<T>(s: State<T>, m: Move<T>)
    requires Inv(s) && Enabled(s, m)
    ensures Inv(Next(s, m))
  {
    KeepsOneHolder(s, m);
    KeepsFifo(s, m);
    KeepsReturned(s, m);
    KeepsNoLostWakeup(s, m);
    KeepsPoppedByThreads(s, m);
  }

  /** A run: each state follows from the one before by an enabled move. */
  ghost predicate IsRun<T>(states: seq<State<T>>, moves: seq<Move<T>>) {
    && |states| == |moves| + 1
    && forall i | 0 <= i < |moves| :: Enabled(states[i], moves[i]) && states[i + 1] == Next(states[i], moves[i])
  }

  lemma {:induction false} RunKeepsInv<T>(states: seq<State<T>>, moves: seq<Move<T>>, n: nat)
    requires IsRun(states, moves) && Inv(states[0]) && n <= |moves|
    ensures Inv(states[n])
  {
    if n > 0 {
      RunKeepsInv(states, moves, n - 1);
      StepKeepsInv(states[n - 1], moves[n - 1]);
    }
  }

  /** With the lock free, an item in the queue and a sleeper, some thread is on its way to pop. */
  lemma SomeoneIsComing<T>(s: State<T>)
    requires Inv(s) && s.lock == None && s.queue != [] && SomeAsleep(s.threads)
    ensures exists t | 0 <= t < |s.threads| :: s.threads[t].Woken?
  {
    PositiveTotal(s.threads, Credit);
  }

  /** How many moves a thread may still make on its own, a signal paying for the thread it wakes. */
  function Effort<T>(pc: Pc<T>): nat {
    match pc
    case Idle | Asleep | Aborted => 0
    case Empty | Missed | Got(_) | Signalled(_) => 1
    case WaitLocked | PollLocked => 2
    case Waiting | Polling => 3
    case Retry => 4
    case Relocked => 5
    case Woken => 6
    case Pushed(_) => 8
    case PostLocked(_) => 9
    case Posting(_) => 10
  }

  function Remaining<T>(s: State<T>): nat {
    Total(s.threads, Effort)
  }

  lemma EffortMove<T>(s: State<T>, m: Move<T>)
    requires Enabled(s, m) && m.Work?
    ensures var s', t := Next(s, m), m.thread;
      && t < |s.threads| == |s'.threads|
      && Effort(s'.threads[t]) + (if Signals(s, m) then 6 else 0) < Effort(s.threads[t])
  {
  }

  lemma WorkIsFinite<T>(s: State<T>, m: Move<T>)
    requires Enabled(s, m) && m.Work?
    ensures Remaining(Next(s, m)) < Remaining(s)
  {
    EffortMove(s, m);
    ThreadMove(s, m);
    hide Enabled, Next;
    var t, s' := m.thread, Next(s, m);
    TotalAfter(s.threads, Effort, t, s'.threads[t]);
    if Signals(s, m) {
      TotalAfter(s.threads[t := s'.threads[t]], Effort, m.sleeper, Woken);
    }
  }

  /** No deadlock: work is enabled if and only if some thread is inside a call and not asleep. */
  lemma NeverStuck<T>(s: State<T>)
    requires Inv(s)
    ensures (exists t, u :: Enabled(s, Work(t, u))) <==> Remaining(s) > 0
  {
    if t, u :| Enabled(s, Work(t, u)) {
      WorkIsFinite(s, Work(t, u));
    }
    if Remaining(s) > 0 {
      PositiveTotal(s.threads, Effort);
      var t :| 0 <= t < |s.threads| && Effort(s.threads[t]) > 0;
      var v := if s.lock.Some? then s.lock.value else t;
      var u :| SomeAsleep(s.threads) ==> 0 <= u < |s.threads| && s.threads[u].Asleep?;
      assert Enabled(s, Work(v, if u < 0 then 0 else u));
    }
  }

  function WorkMoves<T>(moves: seq<Move<T>>, n: nat): (k: nat)
    requires n <= |moves|
  {
    if n == 0 then 0 else WorkMoves(moves, n - 1) + if moves[n - 1].Work? then 1 else 0
  }

  /** However the threads interleave, a run makes at most ten moves for each call and each spurious wakeup. */
  lemma {:induction false} RunsComeToRest<T>(states: seq<State<T>>, moves: seq<Move<T>>, n: nat)
    requires IsRun(states, moves) && n <= |moves| && Remaining(states[0]) == 0
    ensures WorkMoves(moves, n) + Remaining(states[n]) <= 10 * (n - WorkMoves(moves, n))
  {
    hide Next, Enabled, Remaining;
    if n > 0 {
      RunsComeToRest(states, moves, n - 1);
      var s, m := states[n - 1], moves[n - 1];
      if m.Work? {
        WorkIsFinite(s, m);
      } else {
        OtherMovesCost(s, m);
      }
    }
  }

  lemma OtherMovesCost<T>(s: State<T>, m: Move<T>)
    requires Enabled(s, m) && !m.Work?
    ensures Remaining(Next(s, m)) <= Remaining(s) + 10
  {
    TotalAfter(s.threads, Effort, m.thread, Next(s, m).threads[m.thread]);
  }

  /** From an empty queue, whatever the interleaving: deliveries are in the order of the posts, and a run that
      comes to rest with a sleeper has delivered them all. */
  lemma RunsDeliver<T>(states: seq<State<T>>, moves: seq<Move<T>>, threads: nat, capacity: nat, n: nat)
    requires IsRun(states, moves) && states[0] == Init(threads, capacity) && n <= |moves|
    ensures var s := states[n];
      && |s.popped| <= |s.posted|
      && (forall i | 0 <= i < |s.popped| :: s.popped[i].item == s.posted[i])
      && (forall t | 0 <= t < |s.threads| :: t < |s.returned| && s.returned[t] <= Taken(s.popped, t))
      && (Remaining(s) == 0 && SomeAsleep(s.threads) ==> |s.popped| == |s.posted|)
      && (s.lock == None && SomeAsleep(s.threads) && s.queue != [] ==>
            exists t | 0 <= t < |s.threads| :: s.threads[t].Woken?)
  {
    InitInv<T>(threads, capacity);
    RunKeepsInv(states, moves, n);
    var s := states[n];
    if Remaining(s) == 0 && SomeAsleep(s.threads) {
      AtRestAllIsDelivered(s);
    }
    if s.lock == None && SomeAsleep(s.threads) && s.queue != [] {
      SomeoneIsComing(s);
    }
  }

  /** Once every call has returned or sleeps, nobody sleeps beside an item: all that was posted has been popped and
      returned. */
  lemma AtRestAllIsDelivered<T>(s: State<T>)
    requires Inv(s) && Remaining(s) == 0 && SomeAsleep(s.threads)
    ensures s.queue == [] && |s.popped| == |s.posted|
    ensures forall i | 0 <= i < |s.posted| :: s.popped[i].item == s.posted[i]
    ensures forall t | 0 <= t < |s.threads| :: s.returned[t] == Taken(s.popped, t)
  {
    hide OneHolder, Taken;
    if s.queue != [] {
      PositiveTotal(s.threads, Credit);
      var t :| 0 <= t < |s.threads| && Credit(s.threads[t]) > 0;
      AtRestEach(s.threads, t);
    }
    forall t | 0 <= t < |s.threads| ensures s.returned[t] == Taken(s.popped, t) {
      AtRestEach(s.threads, t);
    }
  }

  lemma {:induction false} AtRestEach<T>(threads: seq<Pc<T>>, t: nat)
    requires Total(threads, Effort) == 0 && t < |threads|
    ensures Effort(threads[t]) == 0
  {
    var n := |threads| - 1;
    if t < n {
      AtRestEach(threads[..n], t);
      assert threads[..n][t] == threads[t];
    }
  }

  // ----- nothing handed over is forgotten

  function One(b: bool): nat {
    if b then 1 else 0
  }

  /** A call that still carries item x to the queue. */
  ghost function Carries<T>(x: T): Pc<T> -> nat {
    pc => One(pc == Posting(x) || pc == PostLocked(x))
  }

  /** A post that has been refused. */
  function Refused<T>(pc: Pc<T>): nat {
    One(pc.Aborted? || ((pc.Pushed? || pc.Signalled?) && !pc.ok))
  }

  /** The move finds the queue full with an item in hand. */
  ghost predicate FindsFull<T>(s: State<T>, m: Move<T>) {
    m.Work? && m.thread < |s.threads| && s.threads[m.thread].PostLocked? && |s.queue| == s.capacity
  }

  ghost predicate FindsFullWith<T>(s: State<T>, m: Move<T>, x: T) {
    FindsFull(s, m) && s.threads[m.thread] == PostLocked(x)
  }

  ghost predicate StartsWith<T>(m: Move<T>, x: T) {
    m.StartPost? && m.item == x
  }

  /** How many of the first n moves hand x to PostItem. */
  ghost function Starts<T>(moves: seq<Move<T>>, x: T, n: nat): nat
    requires n <= |moves|
  {
    if n == 0 then 0 else Starts(moves, x, n - 1) + One(StartsWith(moves[n - 1], x))
  }

  /** How many of them are refused with x. */
  ghost function Refusals<T>(states: seq<State<T>>, moves: seq<Move<T>>, x: T, n: nat): nat
    requires n <= |moves| && n <= |states|
  {
    if n == 0 then 0 else Refusals(states, moves, x, n - 1) + One(FindsFullWith(states[n - 1], moves[n - 1], x))
  }

  lemma CarryMove<T>(s: State<T>, m: Move<T>, x: T)
    requires Enabled(s, m)
    ensures var s', t := Next(s, m), m.thread;
      && t < |s.threads| == |s'.threads|
      && Carries(x)(s'.threads[t]) + multiset(s'.posted)[x] + One(FindsFullWith(s, m, x))
         == Carries(x)(s.threads[t]) + multiset(s.posted)[x] + One(StartsWith(m, x))
  {
    LoadMove(s, m, x);
    PostedMove(s, m);
    hide Next, Enabled, Carries;
  }

  lemma LoadMove<T>(s: State<T>, m: Move<T>, x: T)
    requires Enabled(s, m)
    ensures var s', t := Next(s, m), m.thread;
      && t < |s.threads| == |s'.threads|
      && Carries(x)(s'.threads[t]) + One(m.Work? && s.threads[t] == PostLocked(x))
         == Carries(x)(s.threads[t]) + One(StartsWith(m, x))
  {
  }

  lemma PostedMove<T>(s: State<T>, m: Move<T>)
    requires Enabled(s, m)
    ensures var s', t := Next(s, m), m.thread;
      && t < |s.threads|
      && s'.posted ==
         if m.Work? && s.threads[t].PostLocked? && |s.queue| != s.capacity then s.posted + [s.threads[t].item]
         else s.posted
  {
  }

  /** A full queue takes nothing and fails the post; any other takes the item. */
  lemma RefuseMove<T>(s: State<T>, m: Move<T>)
    requires Enabled(s, m)
    ensures var s', t := Next(s, m), m.thread;
      && t < |s.threads| == |s'.threads| && Refused(s'.threads[t]) == Refused(s.threads[t]) + One(FindsFull(s, m))
      && (FindsFull(s, m) ==> Quiet(s, s'))
      && (m.Work? && s.threads[t].PostLocked? && !FindsFull(s, m) ==> PushedOne(s, s'))
  {
  }

  /** A weight that waking up does not change is changed by the move's own thread alone. */
  lemma TotalMove<T>(s: State<T>, m: Move<T>, weight: Pc<T> -> nat)
    requires Enabled(s, m) && weight(Woken) == weight(Asleep)
    ensures var s', t := Next(s, m), m.thread;
      && t < |s.threads| == |s'.threads|
      && Total(s'.threads, weight) == Total(s.threads, weight) - weight(s.threads[t]) + weight(s'.threads[t])
  {
    ThreadMove(s, m);
    hide Enabled, Next;
    var t, s' := m.thread, Next(s, m);
    TotalAfter(s.threads, weight, t, s'.threads[t]);
    if Signals(s, m) {
      TotalAfter(s.threads[t := s'.threads[t]], weight, m.sleeper, Woken);
    }
  }

  lemma {:induction false} NoWeight<T>(threads: seq<Pc<T>>, weight: Pc<T> -> nat)
    requires forall t | 0 <= t < |threads| :: weight(threads[t]) == 0
    ensures Total(threads, weight) == 0
  {
    if threads != [] {
      NoWeight(threads[..|threads| - 1], weight);
    }
  }

  /** Every item handed to PostItem is still carried, or has been posted, or was refused by a full queue. */
  lemma {:induction false} ItemsAccountedFor<T>(states: seq<State<T>>, moves: seq<Move<T>>, x: T,
                                                threads: nat, capacity: nat, n: nat)
    requires IsRun(states, moves) && states[0] == Init(threads, capacity) && n <= |moves|
    ensures multiset(states[n].posted)[x] + Total(states[n].threads, Carries(x)) + Refusals(states, moves, x, n)
            == Starts(moves, x, n)
  {
    hide Next, Enabled, FindsFullWith, StartsWith;
    if n == 0 {
      NoWeight(states[0].threads, Carries(x));
    } else {
      var s, m := states[n - 1], moves[n - 1];
      ItemsAccountedFor(states, moves, x, threads, capacity, n - 1);
      CarryMove(s, m, x);
      TotalMove(s, m, Carries(x));
    }
  }

  /** PostItem fails its assertion exactly as often as it finds the queue full. */
  lemma {:induction false} OnlyFullQueuesRefuse<T>(states: seq<State<T>>, moves: seq<Move<T>>, threads: nat,
                                                   capacity: nat, n: nat)
    requires IsRun(states, moves) && states[0] == Init(threads, capacity) && n <= |moves|
    requires forall i | 0 <= i < n :: !FindsFull(states[i], moves[i])
    ensures forall t | 0 <= t < |states[n].threads| :: Refused(states[n].threads[t]) == 0
    ensures forall x :: Refusals(states, moves, x, n) == 0
  {
    hide Next, Enabled, Refused, FindsFull;
    if n == 0 {
      NoneRefused(states[0]);
    } else {
      var s, m := states[n - 1], moves[n - 1];
      OnlyFullQueuesRefuse(states, moves, threads, capacity, n - 1);
      RefuseMove(s, m);
      ThreadMove(s, m);
      WokenIsNotRefused<T>();
    }
  }

  lemma NoneRefused<T>(s: State<T>)
    requires forall t | 0 <= t < |s.threads| :: s.threads[t].Idle?
    ensures forall t | 0 <= t < |s.threads| :: Refused(s.threads[t]) == 0
  {
  }

  lemma WokenIsNotRefused<T>()
    ensures Refused<T>(Woken) == 0
  {
  }

  // ----- what is returned, all callers taken together

  ghost function ReturnedTo<T>(returned: seq<seq<T>>, x: T): nat {
    if returned == [] then 0
    else ReturnedTo(returned[..|returned| - 1], x) + multiset(returned[|returned| - 1])[x]
  }

  lemma {:induction false} ReturnedOneMore<T>(was: seq<seq<T>>, now: seq<seq<T>>, t: nat, x: T, k: nat)
    requires |was| == |now| && t < |was| && (forall i | 0 <= i < |was| && i != t :: now[i] == was[i])
    requires multiset(now[t])[x] == multiset(was[t])[x] + k
    ensures ReturnedTo(now, x) == ReturnedTo(was, x) + k
  {
    var n := |was| - 1;
    if t == n {
      assert now[..n] == was[..n];
    } else {
      ReturnedOneMore(was[..n], now[..n], t, x, k);
    }
  }

  lemma {:induction false} NothingReturned<T>(returned: seq<seq<T>>, x: T)
    requires forall i | 0 <= i < |returned| :: returned[i] == []
    ensures ReturnedTo(returned, x) == 0
  {
    if returned != [] {
      NothingReturned(returned[..|returned| - 1], x);
    }
  }

  ghost function TakenByAll<T>(popped: seq<Delivery<T>>, threads: nat): (r: seq<seq<T>>)
    ensures |r| == threads && forall t | 0 <= t < threads :: r[t] == Taken(popped, t)
  {
    seq(threads, t requires t >= 0 => Taken(popped, t))
  }

  function Items<T>(popped: seq<Delivery<T>>): (xs: seq<T>)
    ensures |xs| == |popped| && forall i | 0 <= i < |xs| :: xs[i] == popped[i].item
  {
    seq(|popped|, i requires 0 <= i < |popped| => popped[i].item)
  }

  lemma NothingTaken<T>()
    ensures forall t: nat :: Taken<T>([], t) == []
  {
  }

  lemma TakenOneMore<T>(front: seq<Delivery<T>>, d: Delivery<T>)
    ensures forall t: nat ::
      Taken(front + [d], t) == if t == d.thread then Taken(front, t) + [d.item] else Taken(front, t)
  {
    assert (front + [d])[..|front|] == front;
  }

  /** What the threads have taken, together, is what has been popped. */
  lemma {:induction false} TakenIsPopped<T>(popped: seq<Delivery<T>>, threads: nat, x: T)
    requires forall i | 0 <= i < |popped| :: popped[i].thread < threads
    ensures ReturnedTo(TakenByAll(popped, threads), x) == multiset(Items(popped))[x]
  {
    hide Taken;
    NothingTaken<T>();
    if popped == [] {
      NothingReturned(TakenByAll(popped, threads), x);
    } else {
      var front, d := popped[..|popped| - 1], popped[|popped| - 1];
      TakenIsPopped(front, threads, x);
      TakenOneMore(front, d);
      assert popped == front + [d];
      ReturnedOneMore(TakenByAll(front, threads), TakenByAll(popped, threads), d.thread, x, One(d.item == x));
      assert Items(popped) == Items(front) + [d.item];
    }
  }

  /** The law the queue is for. From an empty queue, through any interleaving in which no post finds it full: once the
      run has come to rest with a thread asleep, every item has been returned exactly as often as it was handed over. */
  lemma EveryItemIsReturned<T>(states: seq<State<T>>, moves: seq<Move<T>>, x: T, threads: nat, capacity: nat, n: nat)
    requires IsRun(states, moves) && states[0] == Init(threads, capacity) && n <= |moves|
    requires forall i | 0 <= i < n :: !FindsFull(states[i], moves[i])
    requires Remaining(states[n]) == 0 && SomeAsleep(states[n].threads)
    ensures ReturnedTo(states[n].returned, x) == Starts(moves, x, n)
  {
    hide FindsFull, Next, Enabled, Taken, Total, OneHolder, Fifo, NoLostWakeup, TakenByAll, Starts;
    var s := states[n];
    InitInv<T>(threads, capacity);
    RunKeepsInv(states, moves, n);
    AtRestAllIsDelivered(s);
    OnlyFullQueuesRefuse(states, moves, threads, capacity, n);
    ItemsAccountedFor(states, moves, x, threads, capacity, n);
    AtRestCarriesNothing(s, x);
    TakenIsPopped(s.popped, |s.threads|, x);
    SameReturned(s);
  }

  lemma SameReturned<T>(s: State<T>)
    requires |s.returned| == |s.threads| && |s.popped| == |s.posted|
    requires forall t | 0 <= t < |s.threads| :: s.returned[t] == Taken(s.popped, t)
    requires forall i | 0 <= i < |s.posted| :: s.popped[i].item == s.posted[i]
    ensures s.returned == TakenByAll(s.popped, |s.threads|) && s.posted == Items(s.popped)
  {
    hide Taken;
  }

  lemma AtRestCarriesNothing<T>(s: State<T>, x: T)
    requires Remaining(s) == 0
    ensures Total(s.threads, Carries(x)) == 0
  {
    forall t | 0 <= t < |s.threads| ensures Carries(x)(s.threads[t]) == 0 {
      AtRestEach(s.threads, t);
    }
    NoWeight(s.threads, Carries(x));
  }

  // ----- what a single call gives

  predicate InWait<T>(pc: Pc<T>) {
    pc.Waiting? || pc.WaitLocked? || pc.Empty? || pc.Asleep? || pc.Woken? || pc.Relocked? || pc.Retry?
  }

  predicate InPoll<T>(pc: Pc<T>) {
    pc.Polling? || pc.PollLocked?
  }

  /** The oldest item not yet popped. */
  ghost predicate TakesOldest<T>(s: State<T>, pc: Pc<T>) {
    |s.popped| < |s.posted| && pc == Got(s.posted[|s.popped|])
  }

  /** A call begins as what it is. */
  lemma CallsBegin<T>(s: State<T>, m: Move<T>)
    requires Enabled(s, m) && (m.StartWait? || m.StartPoll? || m.StartPost?)
    ensures m.thread < |s.threads| && s.threads[m.thread].Idle?
    ensures var pc := Next(s, m).threads[m.thread];
      if m.StartWait? then InWait(pc) else if m.StartPoll? then InPoll(pc) else Carries(m.item)(pc) == 1
  {
  }

  /** WaitForItem goes on until it has the oldest item. */
  lemma WaitTakesOldest<T>(s: State<T>, m: Move<T>)
    requires Fifo(s) && Enabled(s, m) && m.thread < |s.threads| && InWait(s.threads[m.thread])
    ensures var pc := Next(s, m).threads[m.thread]; InWait(pc) || TakesOldest(s, pc)
  {
  }

  /** PollForItem takes the oldest item if there is one, and misses if and only if there is none. */
  lemma PollTakesOldest<T>(s: State<T>, m: Move<T>)
    requires Fifo(s) && Enabled(s, m) && m.thread < |s.threads| && InPoll(s.threads[m.thread])
    ensures var pc := Next(s, m).threads[m.thread];
      || (pc.PollLocked? && s.threads[m.thread].Polling?)
      || if |s.popped| == |s.posted| then pc.Missed? else TakesOldest(s, pc)
  {
  }
}
