/** The blocking queue as a monitor: any number of threads that push and pop, plain and timed, in
    every interleaving, with wake-ups that nobody asked for and waits that fail. */
module QueueMonitor {

  import opened RingBuffer
  import opened ThreadCounts

  /** Where a thread stands. `timed` tells the two pop() apart. */
  datatype Pc<T> =
    | Idle
    | PLock(item: T) | PBody(item: T) | PCast | PUnlock
    | CLock(timed: bool) | CBody(timed: bool)
    | CWaiting(timed: bool)      // in the condition variable's queue, not notified
    | CWoken(timed: bool)        // the wait is over, the mutex not got back yet
    | CFailed                    // the wait has timed out or failed, the mutex not got back yet
    | CAgain                     // the second look of the timed pop()
    | CUnlock

  /** What a call comes to, noted while it holds the mutex. */
  datatype Outcome<T> =
    | Pushed(item: T) | Refused(item: T)
    | Popped(item: T) | FoundEmpty | GaveUp

  datatype State<T> = State(threads: seq<Pc<T>>, ring: Ring<T>, locked: bool, log: seq<Outcome<T>>)

  datatype Event<T> = CallPush(item: T) | CallPop(timed: bool) | Fail | Go

  datatype Act<T> = Act(thread: nat, event: Event<T>)

  /** A wait ends by itself (Go, without notice) or fails (Fail). */
  predicate Fits<T>(pc: Pc<T>, locked: bool, e: Event<T>) {
    match pc
    case Idle => e.CallPush? || e.CallPop?
    case PLock(_) => e.Go? && !locked
    case CLock(_) => e.Go? && !locked
    case CWaiting(_) => e.Go? || e.Fail?
    case CWoken(_) => e.Go? && !locked
    case CFailed => e.Go? && !locked
    case _ => e.Go?
  }

  predicate Can<T>(s: State<T>, a: Act<T>) {
    a.thread < |s.threads| && Fits(s.threads[a.thread], s.locked, a.event)
  }

  /** pthread_cond_broadcast: everybody who waits is notified. */
  function Wake<T>(threads: seq<Pc<T>>): (us: seq<Pc<T>>)
    ensures |us| == |threads|
    ensures forall i :: 0 <= i < |threads| ==>
      us[i] == if threads[i].CWaiting? then CWoken(threads[i].timed) else threads[i]
  {
    seq(|threads|, i requires 0 <= i < |threads| =>
      if threads[i].CWaiting? then CWoken(threads[i].timed) else threads[i])
  }

  function Move<T>(s: State<T>, i: nat, pc: Pc<T>): State<T>
    requires i < |s.threads|
  {
    s.(threads := s.threads[i := pc])
  }

  function TakeNow<T>(s: State<T>, i: nat): State<T>
    requires i < |s.threads| && Valid(s.ring) && s.ring.size > 0
  {
    var (item, r) := TakeRing(s.ring);
    Move(s, i, CUnlock).(ring := r, log := s.log + [Popped(item)])
  }

  function Next<T>(s: State<T>, a: Act<T>): State<T>
    requires Can(s, a) && Valid(s.ring)
  {
    var i := a.thread;
    match s.threads[i]
    case Idle => Move(s, i, if a.event.CallPush? then PLock(a.event.item) else CLock(a.event.timed))
    case PLock(x) => Move(s, i, PBody(x)).(locked := true)
    case PBody(x) =>
      if s.ring.size >= |s.ring.cells| then Move(s, i, PCast).(log := s.log + [Refused(x)])
      else Move(s, i, PCast).(ring := PushRing(s.ring, x), log := s.log + [Pushed(x)])
    case PCast => s.(threads := Wake(s.threads)[i := PUnlock])
    case PUnlock => Move(s, i, Idle).(locked := false)
    case CLock(timed) => Move(s, i, CBody(timed)).(locked := true)
    case CBody(timed) =>
      if s.ring.size <= 0 then Move(s, i, CWaiting(timed)).(locked := false)
      else TakeNow(s, i)
    case CWaiting(timed) => Move(s, i, if a.event.Fail? then CFailed else CWoken(timed))
    case CWoken(timed) => Move(s, i, if timed then CAgain else CBody(false)).(locked := true)
    case CFailed => Move(s, i, CUnlock).(locked := true, log := s.log + [GaveUp])
    case CAgain =>
      if s.ring.size <= 0 then Move(s, i, CUnlock).(log := s.log + [FoundEmpty])
      else TakeNow(s, i)
    case CUnlock => Move(s, i, Idle).(locked := false)
  }

  // ---------- what a legal history is ----------

  datatype Replayed<T> = Legal(queue: seq<T>) | Illegal

  /** The history of a bounded first-in-first-out queue: pushes are refused exactly when it is full,
      pops get the first element, and only an empty queue is found empty. */
  ghost function After<T>(cap: nat, q: Replayed<T>, o: Outcome<T>): Replayed<T> {
    if q.Illegal? then Illegal
    else match o
      case Pushed(x) => if |q.queue| < cap then Legal(q.queue + [x]) else Illegal
      case Refused(_) => if |q.queue| == cap then q else Illegal
      case Popped(x) => if q.queue != [] && q.queue[0] == x then Legal(q.queue[1..]) else Illegal
      case FoundEmpty => if q.queue == [] then q else Illegal
      case GaveUp => q
  }

  ghost function Replay<T>(cap: nat, log: seq<Outcome<T>>): Replayed<T> {
    if log == [] then Legal([]) else After(cap, Replay(cap, log[..|log|-1]), log[|log|-1])
  }

  // ---------- counting threads ----------

  /** How many threads hold the mutex, are about to broadcast, and wait without notice. */
  datatype Tally = Tally(locking: nat, casting: nat, waiting: nat)

  const NONE: Tally := Tally(0, 0, 0)

  function Share<T>(pc: Pc<T>): Tally {
    Tally(Bit(pc.PBody? || pc.PCast? || pc.PUnlock? || pc.CBody? || pc.CAgain? || pc.CUnlock?),
          Bit(pc.PCast?), Bit(pc.CWaiting?))
  }

  function Plus(a: Tally, b: Tally): Tally {
    Tally(a.locking + b.locking, a.casting + b.casting, a.waiting + b.waiting)
  }

  function Total<T>(threads: seq<Pc<T>>): Tally {
    Sum(threads, Share<T>, Plus, NONE)
  }

  function Others<T>(threads: seq<Pc<T>>, i: nat): Tally
    requires i < |threads|
  {
    SumOthers(threads, i, Share<T>, Plus, NONE)
  }

  lemma TotalUnfolds<T>(threads: seq<Pc<T>>)
    ensures Total(threads) == if threads == [] then NONE else Plus(Share(threads[0]), Total(threads[1..]))
  {
  }

  lemma PlusLaws(a: Tally, b: Tally, c: Tally)
    ensures Plus(a, b) == Plus(b, a)
    ensures Plus(Plus(a, b), c) == Plus(a, Plus(b, c))
    ensures Plus(NONE, b) == b
  {
  }

  lemma PlusAdditive()
    ensures Additive(Plus, NONE)
  {
    hide Plus;
    forall a, b ensures Plus(a, b) == Plus(b, a) { PlusLaws(a, b, a); }
    forall a, b, c ensures Plus(Plus(a, b), c) == Plus(a, Plus(b, c)) { PlusLaws(a, b, c); }
    forall a ensures Plus(NONE, a) == a { PlusLaws(a, a, a); }
  }

  lemma TotalUpdate<T>(threads: seq<Pc<T>>, i: nat, pc: Pc<T>)
    requires i < |threads|
    ensures Total(threads) == Plus(Others(threads, i), Share(threads[i]))
    ensures Total(threads[i := pc]) == Plus(Others(threads, i), Share(pc))
  {
    hide Share, Plus, Additive, Sum, SumOthers;
    PlusAdditive();
    SumUpdate(threads, i, pc, Share<T>, Plus, NONE);
  }

  lemma OthersUnfolds<T>(threads: seq<Pc<T>>, i: nat)
    requires i < |threads|
    ensures Others(threads, i) == Plus(Total(threads[..i]), Total(threads[i+1..]))
  {
    hide Plus, Sum;
  }

  lemma {:induction false} TotalWake<T>(threads: seq<Pc<T>>)
    ensures Total(Wake(threads)) == Total(threads).(waiting := 0)
  {
    hide Wake, Total;
    var us := Wake(threads);
    TotalUnfolds(threads);
    TotalUnfolds(us);
    if threads != [] {
      TotalWake(threads[1..]);
      assert us[1..] == Wake(threads[1..]);
    }
  }

  lemma {:induction false} TotalCasting<T>(threads: seq<Pc<T>>)
    ensures Total(threads).casting <= Total(threads).locking
  {
    hide Total;
    TotalUnfolds(threads);
    if threads != [] {
      TotalCasting(threads[1..]);
    }
  }

  // ---------- what every step keeps ----------

  /** One thread has the mutex; and a thread waits without notice only while the queue is empty,
      or while whoever has filled it is about to broadcast. */
  ghost predicate Counts(t: Tally, size: int, locked: bool) {
    && t.locking == Bit(locked)
    && (t.waiting > 0 ==> size == 0 || t.casting > 0)
  }

  /** The log is the history of a bounded queue that now holds what the ring holds. */
  ghost predicate History<T>(r: Ring<T>, log: seq<Outcome<T>>) {
    Valid(r) && Replay(|r.cells|, log) == Legal(Contents(r))
  }

  ghost predicate Inv<T>(s: State<T>) {
    History(s.ring, s.log) && Counts(Total(s.threads), s.ring.size, s.locked)
  }

  lemma Logged<T>(cap: nat, log: seq<Outcome<T>>, o: Outcome<T>)
    ensures Replay(cap, log + [o]) == After(cap, Replay(cap, log), o)
  {
    assert (log + [o])[..|log|] == log;
  }

  lemma PushKeepsHistory<T>(r: Ring<T>, log: seq<Outcome<T>>, x: T)
    requires History(r, log)
    ensures r.size >= |r.cells| ==> History(r, log + [Refused(x)])
    ensures r.size < |r.cells| ==> History(PushRing(r, x), log + [Pushed(x)])
  {
    hide Replay;
    if r.size < |r.cells| {
      PushAppends(r, x);
      Logged(|r.cells|, log, Pushed(x));
    } else {
      Logged(|r.cells|, log, Refused(x));
    }
  }

  lemma TakeKeepsHistory<T>(r: Ring<T>, log: seq<Outcome<T>>)
    requires History(r, log) && r.size > 0
    ensures History(TakeRing(r).1, log + [Popped(TakeRing(r).0)])
  {
    hide Replay;
    TakeRemoves(r);
    Logged(|r.cells|, log, Popped(TakeRing(r).0));
  }

  lemma NoItemKeepsHistory<T>(r: Ring<T>, log: seq<Outcome<T>>)
    requires History(r, log)
    ensures History(r, log + [GaveUp])
    ensures r.size == 0 ==> History(r, log + [FoundEmpty])
  {
    hide Replay;
    Logged(|r.cells|, log, GaveUp);
    Logged(|r.cells|, log, FoundEmpty);
  }

  lemma StepHistory<T>(s: State<T>, a: Act<T>)
    requires Can(s, a) && History(s.ring, s.log)
    ensures History(Next(s, a).ring, Next(s, a).log)
  {
    hide Replay, Contents, PushRing, TakeRing, Wake;
    assert Valid(s.ring);
    if s.threads[a.thread].PBody? {
      PushKeepsHistory(s.ring, s.log, s.threads[a.thread].item);
    }
    if s.ring.size > 0 {
      TakeKeepsHistory(s.ring, s.log);
    }
    NoItemKeepsHistory(s.ring, s.log);
  }

  lemma StepCounts<T>(s: State<T>, o: Tally, a: Act<T>)
    requires Can(s, a) && Valid(s.ring) && o.casting <= o.locking && !s.threads[a.thread].PCast?
    requires Counts(Plus(o, Share(s.threads[a.thread])), s.ring.size, s.locked)
    ensures var t := Next(s, a); Counts(Plus(o, Share(t.threads[a.thread])), t.ring.size, t.locked)
    ensures Next(s, a).threads == s.threads[a.thread := Next(s, a).threads[a.thread]]
  {
  }

  /** After the broadcast nobody waits without notice. */
  lemma CastCounts<T>(s: State<T>, a: Act<T>)
    requires Can(s, a) && Valid(s.ring) && s.threads[a.thread].PCast?
    requires Counts(Total(s.threads), s.ring.size, s.locked)
    ensures var t := Next(s, a); Total(t.threads).waiting == 0 && Counts(Total(t.threads), t.ring.size, t.locked)
  {
    hide Total, Others;
    TotalWake(s.threads);
    TotalUpdate(Wake(s.threads), a.thread, PUnlock);
  }

  lemma NextKeepsInv<T>(s: State<T>, a: Act<T>)
    requires Inv(s) && Can(s, a)
    ensures Inv(Next(s, a))
  {
    hide Total, Others, Share, Plus, Counts, Next, Fits, Replay, Contents;
    StepHistory(s, a);
    if s.threads[a.thread].PCast? {
      CastCounts(s, a);
    } else {
      var t := Next(s, a);
      NextThreads(s, a);
      TotalUpdate(s.threads, a.thread, t.threads[a.thread]);
      OthersCasting(s.threads, a.thread);
      StepCounts(s, Others(s.threads, a.thread), a);
    }
  }

  lemma NextCapacity<T>(s: State<T>, a: Act<T>)
    requires Can(s, a) && Valid(s.ring)
    ensures |Next(s, a).ring.cells| == |s.ring.cells|
  {
  }

  lemma NextThreads<T>(s: State<T>, a: Act<T>)
    requires Can(s, a) && Valid(s.ring)
    ensures |Next(s, a).threads| == |s.threads|
  {
  }

  lemma OthersCasting<T>(threads: seq<Pc<T>>, i: nat)
    requires i < |threads|
    ensures Others(threads, i).casting <= Others(threads, i).locking
  {
    OthersUnfolds(threads, i);
    TotalCasting(threads[..i]);
    TotalCasting(threads[i+1..]);
  }

  // ---------- runs ----------

  ghost predicate Possible<T>(s: State<T>, acts: seq<Act<T>>)
    requires Inv(s)
    decreases |acts|
  {
    acts != [] ==> Can(s, acts[0]) && (NextKeepsInv(s, acts[0]); Possible(Next(s, acts[0]), acts[1..]))
  }

  ghost function Run<T>(s: State<T>, acts: seq<Act<T>>): State<T>
    requires Inv(s) && Possible(s, acts)
    decreases |acts|
  {
    if acts == [] then s else (NextKeepsInv(s, acts[0]); Run(Next(s, acts[0]), acts[1..]))
  }

  /** A new queue and any number of threads. */
  function Initial<T>(cells: seq<T>, threads: nat): State<T> {
    State(Times(Idle, threads), Ring(cells, -1, -1, 0), false, [])
  }

  lemma InitialInv<T>(cells: seq<T>, threads: nat)
    requires cells != []
    ensures Inv(Initial(cells, threads))
  {
    TotalIdle<T>(threads);
  }

  lemma {:induction false} TotalIdle<T>(n: nat)
    ensures Total(Times<Pc<T>>(Idle, n)) == NONE
  {
    hide Total, Plus;
    var ts := Times<Pc<T>>(Idle, n);
    TotalUnfolds(ts);
    if n > 0 {
      PlusLaws(NONE, NONE, NONE);
      TotalIdle<T>(n - 1);
      assert Times<Pc<T>>(Idle, n)[1..] == Times<Pc<T>>(Idle, n - 1);
    }
  }

  function Pushes<T>(log: seq<Outcome<T>>): seq<T> {
    if log == [] then []
    else Pushes(log[..|log|-1]) + if log[|log|-1].Pushed? then [log[|log|-1].item] else []
  }

  function Pops<T>(log: seq<Outcome<T>>): seq<T> {
    if log == [] then []
    else Pops(log[..|log|-1]) + if log[|log|-1].Popped? then [log[|log|-1].item] else []
  }

  lemma {:induction false} ReplayConserves<T>(cap: nat, log: seq<Outcome<T>>)
    requires Replay(cap, log).Legal?
    ensures Pops(log) + Replay(cap, log).queue == Pushes(log) && |Replay(cap, log).queue| <= cap
  {
    if log != [] {
      var front, o := log[..|log|-1], log[|log|-1];
      ReplayConserves(cap, front);
      var q := Replay(cap, front).queue;
      match o
      case Pushed(x) => assert Pops(front) + (q + [x]) == (Pops(front) + q) + [x];
      case Popped(x) => assert Pops(front) + q == (Pops(front) + [x]) + q[1..];
      case _ =>
    }
  }

  /** In every interleaving the calls, in the order in which they had the mutex, are a legal history
      of a bounded queue: what was popped, followed by what the ring still holds, is what was
      pushed. */
  lemma {:induction false} EveryRunLegal<T>(s: State<T>, acts: seq<Act<T>>)
    requires Inv(s) && Possible(s, acts)
    ensures var t := Run(s, acts);
      && Inv(t)
      && Pops(t.log) + Contents(t.ring) == Pushes(t.log)
      && |Contents(t.ring)| <= |t.ring.cells| == |s.ring.cells|
    decreases |acts|
  {
    hide Counts, Total, Next, Can;
    if acts == [] {
      ReplayConserves(|s.ring.cells|, s.log);
    } else {
      NextKeepsInv(s, acts[0]);
      NextCapacity(s, acts[0]);
      EveryRunLegal(Next(s, acts[0]), acts[1..]);
    }
  }

  /** What a new queue with so many threads can come to. */
  ghost predicate Reached<T(!new)>(cells: seq<T>, threads: nat, t: State<T>) {
    var s := Initial(cells, threads);
    Inv(s) && exists acts :: Possible(s, acts) && Run(s, acts) == t
  }

  /** So for every run of a new queue: a legal history, conserved items, no lost wake-up. */
  lemma NewQueueLegal<T(!new)>(cells: seq<T>, threads: nat, t: State<T>)
    requires Reached(cells, threads, t)
    ensures Inv(t) && Replay(|cells|, t.log) == Legal(Contents(t.ring))
    ensures Pops(t.log) + Contents(t.ring) == Pushes(t.log) && |Contents(t.ring)| <= |cells|
    ensures !t.locked && (exists i :: 0 <= i < |t.threads| && t.threads[i].CWaiting?) ==> Contents(t.ring) == []
  {
    hide Possible, Run, Counts, Replay, Contents, Total;
    var s := Initial(cells, threads);
    var acts :| Possible(s, acts) && Run(s, acts) == t;
    EveryRunLegal(s, acts);
    if i :| 0 <= i < |t.threads| && !t.locked && t.threads[i].CWaiting? {
      NoLostWakeUp(t, i);
    }
  }

  /** A new queue is one of them, whatever its capacity. */
  lemma NewQueueReached<T(!new)>(cells: seq<T>, threads: nat)
    requires cells != []
    ensures Reached(cells, threads, Initial(cells, threads))
  {
    InitialInv(cells, threads);
    assert Possible(Initial(cells, threads), []);
  }

  /** No wake-up is lost: when the mutex is free and a thread waits without notice, the queue is
      empty. */
  lemma NoLostWakeUp<T>(s: State<T>, i: nat)
    requires Inv(s) && !s.locked && i < |s.threads| && s.threads[i].CWaiting?
    ensures s.ring.size == 0 && Contents(s.ring) == []
  {
    hide Total, Replay;
    TotalUpdate(s.threads, i, s.threads[i]);
    TotalCasting(s.threads);
  }

  // ---------- progress ----------

  /** A step that is neither a new call nor the end of a wait that nobody notified. */
  predicate Moves<T>(s: State<T>, a: Act<T>) {
    Can(s, a) && !s.threads[a.thread].Idle? && !s.threads[a.thread].CWaiting?
  }

  ghost predicate Stuck<T>(s: State<T>) {
    forall i :: 0 <= i < |s.threads| ==> !Moves(s, Act(i, Go))
  }

  lemma {:induction false} FindHolder<T>(threads: seq<Pc<T>>) returns (i: nat)
    requires Total(threads).locking > 0
    ensures i < |threads| && Share(threads[i]).locking == 1
  {
    hide Total;
    TotalUnfolds(threads);
    if Share(threads[0]).locking == 1 {
      i := 0;
    } else {
      i := FindHolder(threads[1..]);
      i := i + 1;
    }
  }

  lemma HolderMoves<T>(s: State<T>, i: nat)
    requires i < |s.threads| && Share(s.threads[i]).locking == 1
    ensures Moves(s, Act(i, Go))
  {
  }

  /** When nobody can go on, the mutex is free, every thread is idle or waits without notice, and
      if one waits the queue is empty. */
  lemma StuckIsEmpty<T>(s: State<T>)
    requires Inv(s) && Stuck(s)
    ensures !s.locked
    ensures forall i :: 0 <= i < |s.threads| ==> s.threads[i].Idle? || s.threads[i].CWaiting?
    ensures (exists i :: 0 <= i < |s.threads| && s.threads[i].CWaiting?) ==> Contents(s.ring) == []
  {
    hide Total, Replay, Contents;
    if s.locked {
      var i := FindHolder(s.threads);
      HolderMoves(s, i);
      assert false;
    }
    forall i | 0 <= i < |s.threads|
      ensures s.threads[i].Idle? || s.threads[i].CWaiting?
    {
      assert !Moves(s, Act(i, Go));
    }
    if i :| 0 <= i < |s.threads| && s.threads[i].CWaiting? {
      NoLostWakeUp(s, i);
    }
  }

  /** Steps a thread has left before it is idle or waits again; a broadcast may set n others going. */
  function Rank<T>(pc: Pc<T>, n: nat): nat {
    match pc
    case Idle => 0
    case PLock(_) => 3 * n + 4
    case PBody(_) => 3 * n + 3
    case PCast => 3 * n + 2
    case PUnlock => 1
    case CLock(_) => 3
    case CBody(_) => 2
    case CWaiting(_) => 0
    case CWoken(_) => 3
    case CFailed => 2
    case CAgain => 2
    case CUnlock => 1
  }

  function Measure<T>(threads: seq<Pc<T>>, n: nat): nat {
    if threads == [] then 0 else Rank(threads[0], n) + Measure(threads[1..], n)
  }

  lemma {:induction false} MeasureUpdate<T>(threads: seq<Pc<T>>, n: nat, i: nat, pc: Pc<T>)
    requires i < |threads|
    ensures Measure(threads[i := pc], n) + Rank(threads[i], n) == Measure(threads, n) + Rank(pc, n)
  {
    hide Rank;
    if i > 0 {
      MeasureUpdate(threads[1..], n, i - 1, pc);
      assert threads[i := pc][1..] == threads[1..][i - 1 := pc];
    }
  }

  lemma {:induction false} MeasureWake<T>(threads: seq<Pc<T>>, n: nat)
    ensures Measure(Wake(threads), n) <= Measure(threads, n) + 3 * |threads|
  {
    hide Wake;
    if threads != [] {
      assert Wake(threads)[1..] == Wake(threads[1..]);
      MeasureWake(threads[1..], n);
    }
  }

  lemma RankFalls<T>(s: State<T>, a: Act<T>, n: nat)
    requires Moves(s, a) && Valid(s.ring)
    ensures var r := Rank(Next(s, a).threads[a.thread], n);
      r + (if s.threads[a.thread].PCast? then 3 * n else 0) < Rank(s.threads[a.thread], n)
  {
  }

  lemma MeasureFalls<T>(s: State<T>, a: Act<T>)
    requires Moves(s, a) && Valid(s.ring)
    ensures var t := Next(s, a);
      |t.threads| == |s.threads| && Measure(t.threads, |s.threads|) < Measure(s.threads, |s.threads|)
  {
    hide Measure, Rank;
    var n := |s.threads|;
    var i := a.thread;
    var t := Next(s, a);
    RankFalls(s, a, n);
    if s.threads[i].PCast? {
      MeasureWake(s.threads, n);
      MeasureUpdate(Wake(s.threads), n, i, t.threads[i]);
    } else {
      MeasureUpdate(s.threads, n, i, t.threads[i]);
    }
  }

  ghost predicate Quiet<T>(s: State<T>, acts: seq<Act<T>>)
    requires Inv(s) && Possible(s, acts)
    decreases |acts|
  {
    acts != [] ==> Moves(s, acts[0]) && (NextKeepsInv(s, acts[0]); Quiet(Next(s, acts[0]), acts[1..]))
  }

  /** Left to itself the queue settles under every schedule: such a run has a bounded number of
      steps, and when it cannot go on, whoever still waits waits at an empty queue. */
  lemma {:induction false} Settles<T>(s: State<T>, acts: seq<Act<T>>)
    requires Inv(s) && Possible(s, acts) && Quiet(s, acts)
    ensures |acts| <= Measure(s.threads, |s.threads|)
    ensures var t := Run(s, acts);
      Inv(t) && (Stuck(t) ==> !t.locked && forall i :: 0 <= i < |t.threads| && !t.threads[i].Idle? ==>
        t.threads[i].CWaiting? && Contents(t.ring) == [])
    decreases |acts|
  {
    hide Counts, History, Total, Measure, Fits, Next, Stuck, Contents;
    if acts == [] {
      if Stuck(s) { StuckIsEmpty(s); }
    } else {
      InvValid(s);
      NextKeepsInv(s, acts[0]);
      MeasureFalls(s, acts[0]);
      Settles(Next(s, acts[0]), acts[1..]);
    }
  }

  lemma InvValid<T>(s: State<T>)
    requires Inv(s)
    ensures Valid(s.ring)
  {
  }
}
