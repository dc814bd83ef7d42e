/** What a single call of push or pop does, watched from outside while other threads interleave: when
    it waits, and what it may come back with. */
module QueueCalls {

  import opened RingBuffer
  import opened QueueMonitor

  datatype Kind<T> = Push(item: T) | Pop(timed: bool)

  /** A call under way: how often it has begun to wait, whether a wait has failed, and what it has
      noted in the log. */
  datatype Watch<T> = NoCall | Call(kind: Kind<T>, waits: nat, failed: bool, outcomes: seq<Outcome<T>>)

  /** What a watcher of thread i sees of a step. */
  function Observe<T>(w: Watch<T>, s: State<T>, a: Act<T>, i: nat): Watch<T>
    requires Can(s, a) && Valid(s.ring) && i < |s.threads| && |Next(s, a).threads| == |s.threads|
  {
    var t := Next(s, a);
    if a.thread != i then w
    else match a.event
      case CallPush(x) => Call(Push(x), 0, false, [])
      case CallPop(timed) => Call(Pop(timed), 0, false, [])
      case _ =>
        if w.NoCall? || t.threads[i].Idle? || |t.log| < |s.log| then NoCall
        else Call(w.kind, w.waits + (if t.threads[i].CWaiting? then 1 else 0), w.failed || a.event.Fail?,
                  w.outcomes + t.log[|s.log|..])
  }

  /** What a call may have behind it when it returns. A push never waits, and has pushed its item or
      had it refused. A plain pop has popped an item, after however many waits, unless a wait has
      failed. A timed pop waits at most once; it finds the queue empty only after a wait that has not
      failed. */
  ghost predicate Proper<T>(w: Watch<T>) {
    && w.Call? && |w.outcomes| == 1
    && match w.kind
       case Push(x) => w.waits == 0 && !w.failed && (w.outcomes[0] == Pushed(x) || w.outcomes[0] == Refused(x))
       case Pop(timed) =>
         && (w.outcomes[0].Popped? || w.outcomes[0].GaveUp? || (timed && w.outcomes[0].FoundEmpty?))
         && (w.outcomes[0].GaveUp? <==> w.failed)
         && (w.failed ==> w.waits > 0)
         && (w.outcomes[0].FoundEmpty? ==> w.waits == 1)
         && (timed ==> w.waits <= 1)
  }

  /** How far a call is, by where its thread stands. */
  ghost predicate Underway<T>(pc: Pc<T>, w: Watch<T>) {
    match pc
    case Idle => w.NoCall?
    case PLock(x) => w == Call(Push(x), 0, false, [])
    case PBody(x) => w == Call(Push(x), 0, false, [])
    case PCast => Proper(w) && w.kind.Push?
    case PUnlock => Proper(w) && w.kind.Push?
    case CLock(timed) => w == Call(Pop(timed), 0, false, [])
    case CBody(timed) =>
      w.Call? && w.kind == Pop(timed) && !w.failed && w.outcomes == [] && (timed ==> w.waits == 0)
    case CWaiting(timed) => Waiting(timed, w)
    case CWoken(timed) => Waiting(timed, w)
    case CFailed =>
      w.Call? && w.kind.Pop? && w.failed && w.outcomes == [] && w.waits > 0 && (w.kind.timed ==> w.waits == 1)
    case CAgain => Waiting(true, w)
    case CUnlock => Proper(w) && w.kind.Pop?
  }

  ghost predicate Waiting<T>(timed: bool, w: Watch<T>) {
    w.Call? && w.kind == Pop(timed) && !w.failed && w.outcomes == [] && w.waits > 0 && (timed ==> w.waits == 1)
  }

  lemma StepUnderway<T>(s: State<T>, a: Act<T>, i: nat, w: Watch<T>)
    requires Can(s, a) && Valid(s.ring) && i < |s.threads| && Underway(s.threads[i], w)
    ensures var t := Next(s, a);
      && |t.threads| == |s.threads| && Underway(t.threads[i], Observe(w, s, a, i))
      && (a.thread == i && t.threads[i].Idle? ==> Proper(w))
  {
    hide Valid, PushRing, TakeRing, Next, Underway, Observe, Proper;
    if a.thread != i {
      OtherUnderway(s, a, i, w);
    } else {
      OwnUnderway(s, a, w);
    }
  }

  /** A step of another thread may wake this one, and nothing else. */
  lemma OtherUnderway<T>(s: State<T>, a: Act<T>, i: nat, w: Watch<T>)
    requires Can(s, a) && Valid(s.ring) && i < |s.threads| && a.thread != i && Underway(s.threads[i], w)
    ensures |Next(s, a).threads| == |s.threads|
    ensures Underway(Next(s, a).threads[i], w) && Observe(w, s, a, i) == w
  {
    hide Valid, PushRing, TakeRing, Proper, Waiting;
    var t := Next(s, a);
    assert t.threads[i] == s.threads[i] || (s.threads[i].CWaiting? && t.threads[i] == CWoken(s.threads[i].timed));
  }

  lemma OwnUnderway<T>(s: State<T>, a: Act<T>, w: Watch<T>)
    requires Can(s, a) && Valid(s.ring) && Underway(s.threads[a.thread], w)
    ensures var t, i := Next(s, a), a.thread;
      && |t.threads| == |s.threads| && Underway(t.threads[i], Observe(w, s, a, i))
      && (t.threads[i].Idle? ==> Proper(w))
  {
    hide Valid, Next, Underway, Observe, Proper;
    var pc := s.threads[a.thread];
    if pc.Idle? || pc.PLock? || pc.CLock? || pc.CWaiting? || pc.CWoken? {
      SilentUnderway(s, a, w);
    } else if pc.PBody? || pc.PCast? || pc.PUnlock? {
      PushUnderway(s, a, w);
    } else if pc.CBody? {
      LookUnderway(s, a, w);
    } else {
      PopUnderway(s, a, w);
    }
  }

  /** Calls, locks and waits. */
  lemma SilentUnderway<T>(s: State<T>, a: Act<T>, w: Watch<T>)
    requires Can(s, a) && Valid(s.ring) && Underway(s.threads[a.thread], w)
    requires var pc := s.threads[a.thread]; pc.Idle? || pc.PLock? || pc.CLock? || pc.CWaiting? || pc.CWoken?
    ensures var t, i := Next(s, a), a.thread;
      && |t.threads| == |s.threads| && Underway(t.threads[i], Observe(w, s, a, i)) && !t.threads[i].Idle?
  {
    hide Valid, PushRing, TakeRing, Wake, Proper;
    var t := Next(s, a);
    assert t.log[|s.log|..] == [];
  }

  lemma PushUnderway<T>(s: State<T>, a: Act<T>, w: Watch<T>)
    requires Can(s, a) && Valid(s.ring) && Underway(s.threads[a.thread], w)
    requires var pc := s.threads[a.thread]; pc.PBody? || pc.PCast? || pc.PUnlock?
    ensures var t, i := Next(s, a), a.thread;
      && |t.threads| == |s.threads| && Underway(t.threads[i], Observe(w, s, a, i))
      && (t.threads[i].Idle? ==> Proper(w))
  {
    hide Valid, PushRing, TakeRing, Wake;
    var t := Next(s, a);
    assert t.log == s.log + t.log[|s.log|..];
  }

  lemma LookUnderway<T>(s: State<T>, a: Act<T>, w: Watch<T>)
    requires Can(s, a) && Valid(s.ring) && Underway(s.threads[a.thread], w) && s.threads[a.thread].CBody?
    ensures var t, i := Next(s, a), a.thread;
      && |t.threads| == |s.threads| && Underway(t.threads[i], Observe(w, s, a, i)) && !t.threads[i].Idle?
  {
    hide Valid, PushRing, TakeRing, Wake;
    var t := Next(s, a);
    assert t.log == s.log + t.log[|s.log|..];
  }

  lemma PopUnderway<T>(s: State<T>, a: Act<T>, w: Watch<T>)
    requires Can(s, a) && Valid(s.ring) && Underway(s.threads[a.thread], w)
    requires var pc := s.threads[a.thread]; pc.CAgain? || pc.CFailed? || pc.CUnlock?
    ensures var t, i := Next(s, a), a.thread;
      && |t.threads| == |s.threads| && Underway(t.threads[i], Observe(w, s, a, i))
      && (t.threads[i].Idle? ==> Proper(w))
  {
    hide Valid, PushRing, TakeRing, Wake;
    var t := Next(s, a);
    assert t.log == s.log + t.log[|s.log|..];
  }

  /** Every call of thread i in a run is proper when it returns. */
  ghost predicate AllProper<T>(s: State<T>, acts: seq<Act<T>>, i: nat, w: Watch<T>)
    requires Inv(s) && Possible(s, acts) && i < |s.threads|
    decreases |acts|
  {
    acts != [] ==> (
      NextKeepsInv(s, acts[0]);
      NextThreads(s, acts[0]);
      var t := Next(s, acts[0]);
      && (acts[0].thread == i && t.threads[i].Idle? ==> Proper(w))
      && AllProper(t, acts[1..], i, Observe(w, s, acts[0], i)))
  }

  lemma {:induction false} EveryCallProper<T>(s: State<T>, acts: seq<Act<T>>, i: nat, w: Watch<T>)
    requires Inv(s) && Possible(s, acts) && i < |s.threads| && Underway(s.threads[i], w)
    ensures AllProper(s, acts, i, w)
    decreases |acts|
  {
    hide Counts, History, Underway, Proper, Observe, Next, Fits;
    if acts != [] {
      InvValid(s);
      NextKeepsInv(s, acts[0]);
      StepUnderway(s, acts[0], i, w);
      EveryCallProper(Next(s, acts[0]), acts[1..], i, Observe(w, s, acts[0], i));
    }
  }

  /** So for every thread and every run of a new queue. */
  lemma NewQueueCallsProper<T>(cells: seq<T>, threads: nat, acts: seq<Act<T>>, i: nat)
    requires Inv(Initial(cells, threads)) && Possible(Initial(cells, threads), acts) && i < threads
    ensures |Initial(cells, threads).threads| == threads
    ensures AllProper(Initial(cells, threads), acts, i, NoCall)
  {
    hide Inv, Possible, AllProper;
    EveryCallProper(Initial(cells, threads), acts, i, NoCall);
  }

  // ---------- a call by itself ----------

  /** n steps of thread i, and none of others, lead from s to t. */
  ghost predicate GoesTo<T>(s: State<T>, i: nat, n: nat, t: State<T>)
    decreases n
  {
    if n == 0 then s == t
    else Valid(s.ring) && Can(s, Act(i, Go)) && GoesTo(Next(s, Act(i, Go)), i, n - 1, t)
  }

  /** A thread that gets the mutex to look at an empty queue comes to wait, with the mutex released:
      in either pop at first, in the plain one after every wake-up. */
  lemma EmptyWaits<T>(s: State<T>, i: nat)
    requires Valid(s.ring) && !s.locked && s.ring.size == 0 && i < |s.threads|
    requires s.threads[i].CLock? || s.threads[i] == CWoken(false)
    ensures var timed := s.threads[i].timed;
      GoesTo(s, i, 2, s.(threads := s.threads[i := CWaiting(timed)]))
  {
    hide Valid;
    var s1 := Next(s, Act(i, Go));
    var s2 := Next(s1, Act(i, Go));
    assert s2.threads == s.threads[i := CWaiting(s.threads[i].timed)];
    assert GoesTo(s2, i, 0, s2);
    assert GoesTo(s1, i, 1, s2);
  }

  /** The timed pop looks once more after its wait, and then comes back. */
  lemma TimedFindsEmpty<T>(s: State<T>, i: nat)
    requires Valid(s.ring) && !s.locked && s.ring.size == 0 && i < |s.threads| && s.threads[i] == CWoken(true)
    ensures GoesTo(s, i, 3, State(s.threads[i := Idle], s.ring, false, s.log + [FoundEmpty]))
  {
    hide Valid;
    var s1 := Next(s, Act(i, Go));
    var s2 := Next(s1, Act(i, Go));
    var s3 := Next(s2, Act(i, Go));
    assert s3.threads == s.threads[i := Idle];
    assert GoesTo(s3, i, 0, s3) && GoesTo(s2, i, 1, s3);
    assert GoesTo(s1, i, 2, s3);
  }

  /** Where there is an item, either pop takes the first one, whether it has waited or not. */
  lemma PopTakes<T>(s: State<T>, i: nat) returns (t: State<T>)
    requires Valid(s.ring) && !s.locked && s.ring.size > 0 && i < |s.threads|
    requires s.threads[i].CLock? || s.threads[i].CWoken?
    ensures GoesTo(s, i, 3, t) && t.threads == s.threads[i := Idle] && !t.locked
    ensures Valid(t.ring) && Contents(s.ring) == [Contents(s.ring)[0]] + Contents(t.ring)
    ensures t.log == s.log + [Popped(Contents(s.ring)[0])]
  {
    hide Valid, Contents, TakeRing;
    TakeRemoves(s.ring);
    var s1 := Next(s, Act(i, Go));
    var s2 := Next(s1, Act(i, Go));
    t := Next(s2, Act(i, Go));
    assert t.threads == s.threads[i := Idle];
    assert GoesTo(t, i, 0, t) && GoesTo(s2, i, 1, t);
    assert GoesTo(s1, i, 2, t);
  }

  /** A wait that has failed ends the call, whatever the queue holds by then. */
  lemma FailedGivesUp<T>(s: State<T>, i: nat)
    requires Valid(s.ring) && !s.locked && i < |s.threads| && s.threads[i].CFailed?
    ensures GoesTo(s, i, 2, State(s.threads[i := Idle], s.ring, false, s.log + [GaveUp]))
  {
    hide Valid;
    var s1 := Next(s, Act(i, Go));
    var s2 := Next(s1, Act(i, Go));
    assert s2.threads == s.threads[i := Idle];
    assert GoesTo(s2, i, 0, s2);
    assert GoesTo(s1, i, 1, s2);
  }

  /** A push appends its item, or is refused by a full queue; either way everybody who waits is woken. */
  lemma PushCall<T>(s: State<T>, i: nat) returns (t: State<T>)
    requires Valid(s.ring) && !s.locked && i < |s.threads| && s.threads[i].PLock?
    ensures GoesTo(s, i, 4, t) && !t.locked && Valid(t.ring) && |t.threads| == |s.threads|
    ensures t.threads[i] == Idle && forall j :: 0 <= j < |s.threads| && j != i ==>
      t.threads[j] == if s.threads[j].CWaiting? then CWoken(s.threads[j].timed) else s.threads[j]
    ensures var x := s.threads[i].item;
      if |Contents(s.ring)| < |s.ring.cells| then
        Contents(t.ring) == Contents(s.ring) + [x] && t.log == s.log + [Pushed(x)]
      else t.ring == s.ring && t.log == s.log + [Refused(x)]
  {
    hide Valid, Contents, PushRing;
    SizeIs(s.ring);
    if s.ring.size < |s.ring.cells| {
      PushAppends(s.ring, s.threads[i].item);
    }
    var s1 := Next(s, Act(i, Go));
    var s2 := Next(s1, Act(i, Go));
    var s3 := Next(s2, Act(i, Go));
    t := Next(s3, Act(i, Go));
    assert GoesTo(t, i, 0, t) && GoesTo(s3, i, 1, t);
    assert GoesTo(s2, i, 2, t);
    assert GoesTo(s1, i, 3, t);
  }

  lemma SizeIs<T>(r: Ring<T>)
    requires Valid(r)
    ensures |Contents(r)| == r.size
  {
  }

  /** A wait fails, or ends without notice, at any time, and leaves the queue alone. */
  lemma WaitEnds<T>(s: State<T>, i: nat)
    requires Valid(s.ring) && i < |s.threads| && s.threads[i].CWaiting?
    ensures Can(s, Act(i, Go)) && Can(s, Act(i, Fail))
    ensures Next(s, Act(i, Go)) == s.(threads := s.threads[i := CWoken(s.threads[i].timed)])
    ensures Next(s, Act(i, Fail)) == s.(threads := s.threads[i := CFailed])
  {
  }
}
