/** What becomes of the requests that the workers take: each is processed exactly
    once, and a null request is dropped. */
module PoolService {
  import opened ThreadCounts
  import opened WorkerPool

  /** The request a worker has taken and not processed yet. */
  function InHand(pc: Pc): multiset<nat> {
    if Carries(pc) && pc.request != NULL then multiset{pc.request} else multiset{}
  }

  predicate Carries(pc: Pc) {
    pc.WUnlock? || pc.CSize? || pc.CWait? || pc.CLock? || pc.CPop? || pc.CFree? || pc.CCur? || pc.CUnlock? ||
    pc.Process?
  }

  function Union(a: multiset<nat>, b: multiset<nat>): multiset<nat> { a + b }

  function Doing(threads: seq<Pc>): multiset<nat> {
    Sum(threads, InHand, Union, multiset{})
  }

  function DoingOthers(threads: seq<Pc>, i: nat): multiset<nat>
    requires i < |threads|
  {
    SumOthers(threads, i, InHand, Union, multiset{})
  }

  lemma UnionAdditive()
    ensures Additive(Union, multiset{})
  {
    forall a, b ensures Union(a, b) == Union(b, a) {}
    forall a, b, c ensures Union(Union(a, b), c) == Union(a, Union(b, c)) {
      assert (a + b) + c == a + (b + c);
    }
    forall a ensures Union(multiset{}, a) == a {
      assert multiset{} + a == a;
    }
  }

  lemma DoingUpdate(threads: seq<Pc>, i: nat, pc: Pc)
    requires i < |threads|
    ensures Doing(threads) == DoingOthers(threads, i) + InHand(threads[i])
    ensures Doing(threads[i := pc]) == DoingOthers(threads, i) + InHand(pc)
  {
    hide InHand, Additive, Sum, SumOthers;
    UnionAdditive();
    SumUpdate(threads, i, pc, InHand, Union, multiset{});
  }

  /** The requests that are not null, in order. */
  function NotNull(rs: seq<nat>): seq<nat> {
    if rs == [] then []
    else NotNull(rs[..|rs|-1]) + if rs[|rs|-1] == NULL then [] else [rs[|rs|-1]]
  }

  function Requests(served: seq<Service>): seq<nat> {
    seq(|served|, k requires 0 <= k < |served| => served[k].request)
  }

  lemma NotNullAdds(rs: seq<nat>, r: nat)
    ensures NotNull(rs + [r]) == NotNull(rs) + if r == NULL then [] else [r]
  {
    assert (rs + [r])[..|rs|] == rs;
  }

  lemma RequestsAdd(served: seq<Service>, x: Service)
    ensures Requests(served + [x]) == Requests(served) + [x.request]
  {
  }

  /** From the connection on a worker has a request that is not null. */
  predicate Named(pc: Pc) {
    Carries(pc) && !pc.WUnlock? ==> pc.request != NULL
  }

  /** Taken is processed or in hand, as often. */
  ghost predicate Served(doing: multiset<nat>, j: Jobs, c: Conns) {
    multiset(NotNull(j.taken)) == multiset(Requests(c.served)) + doing
  }

  ghost predicate ServiceInv(s: State) {
    && Served(Doing(s.threads), s.jobs, s.conns)
    && (forall i :: 0 <= i < |s.threads| ==> Named(s.threads[i]))
  }

  // ---------- one step ----------

  /** The two have the same request in hand, or neither has one. */
  predicate SameHand(pc: Pc, n: Pc) {
    && (Holding(pc) <==> Holding(n))
    && (Holding(pc) ==> pc.request == n.request)
  }

  predicate Holding(pc: Pc) { Carries(pc) && pc.request != NULL }

  /** A step that takes and processes nothing. */
  lemma QuietServes(o: multiset<nat>, pc: Pc, j: Jobs, c: Conns, l: Local)
    requires Served(o + InHand(pc), j, c) && SameHand(pc, l.pc)
    requires l.jobs.taken == j.taken && l.conns.served == c.served
    ensures Served(o + InHand(l.pc), l.jobs, l.conns)
  {
    hide Carries;
    assert InHand(pc) == InHand(l.pc);
  }

  predicate Taking(pc: Pc, j: Jobs) { pc.WPop? && j.queue != [] }

  ghost predicate Quiet(pc: Pc, j: Jobs, c: Conns, n: Local) {
    && Named(n.pc) && n.jobs.taken == j.taken && n.conns.served == c.served
    && (n.pc.Broken? || SameHand(pc, n.pc))
  }

  lemma StepQuiet(cfg: Config, pc: Pc, j: Jobs, c: Conns, request: nat)
    requires !Blocked(pc, j, c) && !Taking(pc, j) && !pc.Process? && Named(pc)
    ensures Quiet(pc, j, c, Step(cfg, pc, j, c, request))
  {
    hide Quiet, AppendStep, TakeStep, AcquireStep, ReleaseStep;
    if IsAppender(pc) {
      AppendQuiet(cfg, pc, j, c, request);
    } else if IsTaking(pc) {
      TakeQuiet(pc, j, c);
    } else if IsAcquiring(pc) {
      AcquireQuiet(cfg, pc, j, c);
    } else {
      ReleaseQuiet(pc, j, c);
    }
  }

  lemma AppendQuiet(cfg: Config, pc: Pc, j: Jobs, c: Conns, request: nat)
    requires IsAppender(pc) && !Blocked(pc, j, c)
    ensures Quiet(pc, j, c, AppendStep(cfg, pc, j, c, request))
  {
  }

  lemma TakeQuiet(pc: Pc, j: Jobs, c: Conns)
    requires IsTaking(pc) && !Blocked(pc, j, c) && !Taking(pc, j)
    ensures Quiet(pc, j, c, TakeStep(pc, j, c))
  {
  }

  lemma AcquireQuiet(cfg: Config, pc: Pc, j: Jobs, c: Conns)
    requires IsAcquiring(pc) && !Blocked(pc, j, c) && !pc.Process? && Named(pc)
    ensures Quiet(pc, j, c, AcquireStep(cfg, pc, j, c))
  {
  }

  lemma ReleaseQuiet(pc: Pc, j: Jobs, c: Conns)
    requires IsReleasing(pc) && !Blocked(pc, j, c)
    ensures Quiet(pc, j, c, ReleaseStep(pc, j, c))
  {
  }

  lemma TakeServes(o: multiset<nat>, j: Jobs, j2: Jobs, c: Conns)
    requires Served(o, j, c) && j.queue != [] && j2.taken == j.taken + [j.queue[0]]
    ensures Served(o + InHand(WUnlock(j.queue[0])), j2, c)
  {
    hide NotNull;
    NotNullAdds(j.taken, j.queue[0]);
  }

  lemma ProcessServes(o: multiset<nat>, x: Service, j: Jobs, c: Conns, c2: Conns)
    requires Served(o + InHand(Process(x.request, x.con)), j, c) && c2.served == c.served + [x] && x.request != NULL
    ensures Served(o, j, c2)
  {
    RequestsAdd(c.served, x);
  }

  lemma StepServes(cfg: Config, o: multiset<nat>, pc: Pc, j: Jobs, c: Conns, request: nat)
    requires !Blocked(pc, j, c) && Named(pc) && Served(o + InHand(pc), j, c)
    ensures var n := Step(cfg, pc, j, c, request);
      Named(n.pc) && (n.pc.Broken? || Served(o + InHand(n.pc), n.jobs, n.conns))
  {
    hide Served, AppendStep, ReleaseStep, InHand, SameHand, Blocked;
    var n := Step(cfg, pc, j, c, request);
    if Taking(pc, j) {
      NoHand(pc);
      assert o + InHand(pc) == o;
      TakeServes(o, j, n.jobs, c);
    } else if pc.Process? {
      ProcessServes(o, Service(pc.request, pc.con), j, c, n.conns);
      NoHand(n.pc);
      assert o + InHand(n.pc) == o;
    } else {
      hide Step, Named, Carries;
      StepQuiet(cfg, pc, j, c, request);
      if !n.pc.Broken? {
        QuietServes(o, pc, j, c, n);
      }
    }
  }

  lemma NoHand(pc: Pc)
    requires !Carries(pc)
    ensures InHand(pc) == multiset{}
  {
  }

  lemma NextServes(cfg: Config, s: State, a: Act)
    requires Inv(cfg, s) && ServiceInv(s) && Can(s, a)
    ensures ServiceInv(Next(cfg, s, a))
  {
    hide Doing, DoingOthers, InHand, Served, Named, Step, Total, Inv;
    var i := a.thread;
    var pc, o := s.threads[i], DoingOthers(s.threads, i);
    DoingUpdate(s.threads, i, Step(cfg, pc, s.jobs, s.conns, a.request).pc);
    StepServes(cfg, o, pc, s.jobs, s.conns, a.request);
    NextKeepsInv(cfg, s, a);
    NobodyBroken(cfg, Next(cfg, s, a), i);
  }

  lemma NobodyBroken(cfg: Config, s: State, i: nat)
    requires Inv(cfg, s) && i < |s.threads|
    ensures !s.threads[i].Broken?
  {
    hide Total, Others;
    ShareWithin(s.threads, i);
  }

  lemma {:induction false} EveryRunServes(cfg: Config, s: State, acts: seq<Act>)
    requires Inv(cfg, s) && ServiceInv(s) && Possible(cfg, s, acts)
    ensures ServiceInv(Run(cfg, s, acts))
    decreases |acts|
  {
    hide Inv, ServiceInv, Can, Next;
    if acts != [] {
      NextServes(cfg, s, acts[0]);
      NextKeepsInv(cfg, s, acts[0]);
      EveryRunServes(cfg, Next(cfg, s, acts[0]), acts[1..]);
    }
  }

  lemma {:induction false} DoingIdle(threads: seq<Pc>)
    requires forall i :: 0 <= i < |threads| ==> !Carries(threads[i])
    ensures Doing(threads) == multiset{}
  {
    hide Carries;
    if threads != [] {
      DoingIdle(threads[1..]);
      assert InHand(threads[0]) == multiset{};
      var none: multiset<nat> := multiset{};
      assert none + none == none;
    }
  }

  /** In every reached state: the requests taken, other than null ones, are those processed and those
      in a worker's hands, each as often. */
  lemma ServedOnce(cfg: Config, appenders: nat, workers: nat, s: State)
    requires Sound(cfg, workers) && Reached(cfg, Initial(cfg, appenders, workers), s)
    ensures multiset(NotNull(s.jobs.taken)) == multiset(Requests(s.conns.served)) + Doing(s.threads)
  {
    hide Inv, Possible, Run, Doing;
    var from := Initial(cfg, appenders, workers);
    var acts :| Possible(cfg, from, acts) && Run(cfg, from, acts) == s;
    InitialInv(cfg, appenders, workers);
    StartServes(cfg, appenders, workers);
    EveryRunServes(cfg, from, acts);
  }

  lemma StartServes(cfg: Config, appenders: nat, workers: nat)
    ensures ServiceInv(Initial(cfg, appenders, workers))
  {
    hide Doing;
    DoingIdle(Initial(cfg, appenders, workers).threads);
    assert multiset(NotNull([])) == multiset(Requests([])) + multiset{};
  }

  /** And where a run without arrivals ends, every request that was accepted, other than null ones, has
      been processed as often as it was accepted, and nothing else has. */
  lemma AllServed(cfg: Config, appenders: nat, workers: nat, s: State)
    requires Sound(cfg, workers) && Reached(cfg, Initial(cfg, appenders, workers), s) && Stuck(s)
    ensures multiset(Requests(s.conns.served)) == multiset(NotNull(s.jobs.accepted))
  {
    hide Inv, Reached, Doing, Initial;
    ReachedInv(cfg, appenders, workers, s);
    ServedOnce(cfg, appenders, workers, s);
    StuckIsIdle(cfg, s);
    StuckWaits(cfg, s);
    DoingIdle(s.threads);
    assert multiset(Requests(s.conns.served)) + multiset{} == multiset(Requests(s.conns.served));
  }

  // ---------- whole calls ----------

  /** Thread i takes n steps, one after the other, and the state is `t`. */
  ghost predicate GoesTo(cfg: Config, s: State, i: nat, n: nat, t: State)
    decreases n
  {
    if n == 0 then s == t
    else Can(s, Act(i, NULL)) && GoesTo(cfg, Next(cfg, s, Act(i, NULL)), i, n - 1, t)
  }

  lemma OneStep(cfg: Config, was: seq<Pc>, s: State, i: nat, n: nat, t: State) returns (u: State)
    requires n > 0 && Can(s, Act(i, NULL)) && |was| == |s.threads| && s.threads == was[i := s.threads[i]]
    ensures i < |s.threads| && !Blocked(s.threads[i], s.jobs, s.conns)
    ensures var l := Step(cfg, s.threads[i], s.jobs, s.conns, NULL);
      u == State(was[i := l.pc], l.jobs, l.conns) && u.threads[i] == l.pc && u.threads == was[i := u.threads[i]]
    ensures GoesTo(cfg, u, i, n - 1, t) ==> GoesTo(cfg, s, i, n, t)
  {
    u := Next(cfg, s, Act(i, NULL));
  }

  lemma Arrives(cfg: Config, s: State, i: nat, t: State)
    requires s == t
    ensures GoesTo(cfg, s, i, 0, t)
  {
  }

  /** append() refuses a request if and only if more than max_requests are queued when it has the lock,
      and otherwise queues it last and posts once. */
  lemma AppendCall(cfg: Config, s: State, i: nat)
    requires i < |s.threads| && s.threads[i].ALock? && !s.jobs.locked
    ensures var j, idle, r := s.jobs, s.threads[i := AIdle], s.threads[i].request;
      if |j.queue| > cfg.max then GoesTo(cfg, s, i, 3, s.(threads := idle))
      else GoesTo(cfg, s, i, 5, State(idle, Jobs(j.queue + [r], j.sem + 1, false, j.accepted + [r], j.taken), s.conns))
  {
    hide GoesTo, TakeStep, AcquireStep, ReleaseStep;
    var j, idle, r := s.jobs, s.threads[i := AIdle], s.threads[i].request;
    if |j.queue| > cfg.max {
      var t := s.(threads := idle);
      var u := OneStep(cfg, s.threads, s, i, 3, t);
      u := OneStep(cfg, s.threads, u, i, 2, t);
      u := OneStep(cfg, s.threads, u, i, 1, t);
      Arrives(cfg, u, i, t);
    } else {
      var t := State(idle, Jobs(j.queue + [r], j.sem + 1, false, j.accepted + [r], j.taken), s.conns);
      var u := OneStep(cfg, s.threads, s, i, 5, t);
      u := OneStep(cfg, s.threads, u, i, 4, t);
      u := PushOne(cfg, s.threads, u, i, 3, t);
      Arrives(cfg, u, i, t);
    }
  }

  lemma PushOne(cfg: Config, was: seq<Pc>, s: State, i: nat, n: nat, t: State) returns (u: State)
    requires i < |was| == |s.threads| && s.threads == was[i := s.threads[i]] && s.threads[i].APush? && n >= 3
    ensures var j, r := s.jobs, s.threads[i].request;
      u == State(was[i := AIdle], Jobs(j.queue + [r], j.sem + 1, false, j.accepted + [r], j.taken), s.conns)
    ensures GoesTo(cfg, u, i, n - 3, t) ==> GoesTo(cfg, s, i, n, t)
  {
    hide GoesTo, TakeStep, AcquireStep, ReleaseStep;
    u := OneStep(cfg, was, s, i, n, t);
    u := OneStep(cfg, was, u, i, n - 1, t);
    u := OneStep(cfg, was, u, i, n - 2, t);
  }

  /** A worker that is posted to takes the first request; a null one sends it back to wait. */
  lemma TakeCall(cfg: Config, s: State, i: nat)
    requires i < |s.threads| && s.threads[i].WWait? && !s.jobs.locked && s.jobs.sem > 0 && s.jobs.queue != []
    ensures var j, r := s.jobs, s.jobs.queue[0];
      GoesTo(cfg, s, i, 5, State(s.threads[i := if r == NULL then WWait else CSize(r)],
        Jobs(j.queue[1..], j.sem - 1, false, j.accepted, j.taken + [r]), s.conns))
  {
    hide GoesTo, AppendStep, AcquireStep, ReleaseStep;
    var j, r := s.jobs, s.jobs.queue[0];
    var t := State(s.threads[i := if r == NULL then WWait else CSize(r)],
                   Jobs(j.queue[1..], j.sem - 1, false, j.accepted, j.taken + [r]), s.conns);
    var u := OneStep(cfg, s.threads, s, i, 5, t);
    u := OneStep(cfg, s.threads, u, i, 4, t);
    u := PopOne(cfg, s.threads, u, i, 3, t);
    Arrives(cfg, u, i, t);
  }

  lemma PopOne(cfg: Config, was: seq<Pc>, s: State, i: nat, n: nat, t: State) returns (u: State)
    requires i < |was| == |s.threads| && s.threads == was[i := s.threads[i]] && s.threads[i].WCheck? && n >= 3
    requires s.jobs.queue != []
    ensures var j, r := s.jobs, s.jobs.queue[0];
      u == State(was[i := if r == NULL then WWait else CSize(r)],
                 Jobs(j.queue[1..], j.sem, false, j.accepted, j.taken + [r]), s.conns)
    ensures GoesTo(cfg, u, i, n - 3, t) ==> GoesTo(cfg, s, i, n, t)
  {
    hide GoesTo, AppendStep, AcquireStep, ReleaseStep;
    u := OneStep(cfg, was, s, i, n, t);
    u := OneStep(cfg, was, u, i, n - 1, t);
    u := OneStep(cfg, was, u, i, n - 2, t);
  }

  /** GetConnection() answers null if and only if it sees the list empty, and otherwise takes the first
      connection. */
  lemma GetCall(cfg: Config, s: State, i: nat)
    requires i < |s.threads| && s.threads[i].CSize? && !s.conns.locked && (s.conns.list != [] ==> s.conns.sem > 0)
    ensures var c, r := s.conns, s.threads[i].request;
      if c.list == [] then GoesTo(cfg, s, i, 1, s.(threads := s.threads[i := Process(r, NULL)]))
      else GoesTo(cfg, s, i, 7, State(s.threads[i := Process(r, c.list[0])], s.jobs,
        Conns(c.list[1..], c.sem - 1, false, c.free - 1, c.cur + 1, c.extra, c.served)))
  {
    hide GoesTo, AppendStep, TakeStep, ReleaseStep;
    var c, r := s.conns, s.threads[i].request;
    if c.list == [] {
      var t := s.(threads := s.threads[i := Process(r, NULL)]);
      var u := OneStep(cfg, s.threads, s, i, 1, t);
      Arrives(cfg, u, i, t);
    } else {
      var t := State(s.threads[i := Process(r, c.list[0])], s.jobs,
                     Conns(c.list[1..], c.sem - 1, false, c.free - 1, c.cur + 1, c.extra, c.served));
      var u := OneStep(cfg, s.threads, s, i, 7, t);
      u := OneStep(cfg, s.threads, u, i, 6, t);
      u := OneStep(cfg, s.threads, u, i, 5, t);
      u := OneStep(cfg, s.threads, u, i, 4, t);
      u := CountOut(cfg, s.threads, u, i, 3, t);
      Arrives(cfg, u, i, t);
    }
  }

  lemma CountOut(cfg: Config, was: seq<Pc>, s: State, i: nat, n: nat, t: State) returns (u: State)
    requires i < |was| == |s.threads| && s.threads == was[i := s.threads[i]] && s.threads[i].CFree? && n >= 3
    ensures var c, pc := s.conns, s.threads[i];
      u == State(was[i := Process(pc.request, pc.con)], s.jobs,
                 c.(locked := false, free := c.free - 1, cur := c.cur + 1))
    ensures GoesTo(cfg, u, i, n - 3, t) ==> GoesTo(cfg, s, i, n, t)
  {
    hide GoesTo, AppendStep, TakeStep, ReleaseStep;
    u := OneStep(cfg, was, s, i, n, t);
    u := OneStep(cfg, was, u, i, n - 1, t);
    u := OneStep(cfg, was, u, i, n - 2, t);
  }

  /** The coded worker's end of a request: the connection goes back to the list once by line 134 and once
      more by connectionRAII; without line 134, once. */
  lemma FinishCall(cfg: Config, s: State, i: nat)
    requires i < |s.threads| && s.threads[i].Process? && !s.conns.locked
    ensures var c, r, x, n := s.conns, s.threads[i].request, s.threads[i].con, if cfg.doubled then 2 else 1;
      var done, rest := c.served + [Service(r, x)], s.threads[i := WWait];
      if x == NULL then GoesTo(cfg, s, i, 1, s.(threads := rest, conns := c.(served := done)))
      else GoesTo(cfg, s, i, 1 + 6 * n, State(rest, s.jobs,
        Conns(c.list + Times(x, n), c.sem + n, false, c.free + n, c.cur - n,
              if cfg.doubled then c.extra + multiset{x} else c.extra, done)))
  {
    hide GoesTo, AppendStep, TakeStep, ReleaseStep;
    var c, r, x, n := s.conns, s.threads[i].request, s.threads[i].con, if cfg.doubled then 2 else 1;
    var done, rest := c.served + [Service(r, x)], s.threads[i := WWait];
    if x == NULL {
      var t := s.(threads := rest, conns := c.(served := done));
      var u := OneStep(cfg, s.threads, s, i, 1, t);
      Arrives(cfg, u, i, t);
    } else {
      var t := State(rest, s.jobs,
                     Conns(c.list + Times(x, n), c.sem + n, false, c.free + n, c.cur - n,
                           if cfg.doubled then c.extra + multiset{x} else c.extra, done));
      var u := OneStep(cfg, s.threads, s, i, 1 + 6 * n, t);
      if cfg.doubled {
        u := ReleaseCall(cfg, u, i, 12, t);
        u := ReleaseCall(cfg, u, i, 6, t);
        assert c.list + [x] + [x] == c.list + Times(x, 2);
      } else {
        u := ReleaseCall(cfg, u, i, 6, t);
        assert c.list + [x] == c.list + Times(x, 1);
      }
      assert u.threads == rest;
      Arrives(cfg, u, i, t);
    }
  }

  /** One ReleaseConnection(). */
  lemma ReleaseCall(cfg: Config, s: State, i: nat, n: nat, t: State) returns (u: State)
    requires i < |s.threads| && s.threads[i].RLock? && !s.conns.locked && n >= 6
    ensures var c, x, last := s.conns, s.threads[i].con, s.threads[i].last;
      u == State(s.threads[i := if last then WWait else RLock(x, true)], s.jobs,
        Conns(c.list + [x], c.sem + 1, false, c.free + 1, c.cur - 1,
              if last then c.extra else c.extra + multiset{x}, c.served))
    ensures GoesTo(cfg, u, i, n - 6, t) ==> GoesTo(cfg, s, i, n, t)
  {
    hide GoesTo, AppendStep, TakeStep, AcquireStep;
    u := OneStep(cfg, s.threads, s, i, n, t);
    u := OneStep(cfg, s.threads, u, i, n - 1, t);
    u := CountIn(cfg, s.threads, u, i, n - 2, t);
    u := OneStep(cfg, s.threads, u, i, n - 5, t);
  }

  lemma CountIn(cfg: Config, was: seq<Pc>, s: State, i: nat, n: nat, t: State) returns (u: State)
    requires i < |was| == |s.threads| && s.threads == was[i := s.threads[i]] && s.threads[i].RFree? && n >= 3
    ensures var c, pc := s.conns, s.threads[i];
      u == State(was[i := RPost(pc.con, pc.last)], s.jobs, c.(locked := false, free := c.free + 1, cur := c.cur - 1))
    ensures GoesTo(cfg, u, i, n - 3, t) ==> GoesTo(cfg, s, i, n, t)
  {
    hide GoesTo, AppendStep, TakeStep, AcquireStep;
    u := OneStep(cfg, was, s, i, n, t);
    u := OneStep(cfg, was, u, i, n - 1, t);
    u := OneStep(cfg, was, u, i, n - 2, t);
  }
}
