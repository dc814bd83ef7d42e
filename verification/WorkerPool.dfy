/** The thread pool and the connection pool together: any number of threads that append requests
    and any number of workers, each at its own point of its code, with the steps of all of them
    interleaved in every way. A step is one access to what the threads share. */
module WorkerPool {
  import opened ThreadCounts

  /** Requests and connections are pointers. */
  const NULL: nat := 0

  /** The bound on the queue, the connections there are, and whether the worker releases its
      connection itself before the destructor of connectionRAII does. */
  datatype Config = Config(max: nat, pool: seq<nat>, doubled: bool)

  /** Where a thread stands: the next thing it does. */
  datatype Pc =
    | AIdle | ALock(request: nat) | ACheck(request: nat) | AReject | APush(request: nat) | AUnlock | APost
    | WWait | WLock | WCheck | WEmpty | WPop | WUnlock(request: nat)
    | CSize(request: nat) | CWait(request: nat) | CLock(request: nat) | CPop(request: nat)
    | CFree(request: nat, con: nat) | CCur(request: nat, con: nat) | CUnlock(request: nat, con: nat)
    | Process(request: nat, con: nat)
    | RLock(con: nat, last: bool) | RPush(con: nat, last: bool) | RFree(con: nat, last: bool)
    | RCur(con: nat, last: bool) | RUnlock(con: nat, last: bool) | RPost(con: nat, last: bool)
    | Broken

  /** m_workqueue, m_queuestat and m_queuelocker; and what has been accepted and taken so far. */
  datatype Jobs = Jobs(queue: seq<nat>, sem: nat, locked: bool, accepted: seq<nat>, taken: seq<nat>)

  /** connList, reserve, lock and the two counters; what line 134 has put back so far; and what has been
      processed. */
  datatype Conns = Conns(list: seq<nat>, sem: nat, locked: bool, free: int, cur: int, extra: multiset<nat>,
                         served: seq<Service>)

  /** A request that has been processed, and the connection it was processed with. */
  datatype Service = Service(request: nat, con: nat)

  datatype State = State(threads: seq<Pc>, jobs: Jobs, conns: Conns)

  datatype Local = Local(pc: Pc, jobs: Jobs, conns: Conns)

  /** A lock that is taken or a semaphore at zero. */
  predicate Blocked(pc: Pc, j: Jobs, c: Conns) {
    match pc
    case ALock(_) => j.locked
    case WLock => j.locked
    case WWait => j.sem == 0
    case CWait(_) => c.sem == 0
    case CLock(_) => c.locked
    case RLock(_, _) => c.locked
    case Broken => true
    case _ => false
  }

  /** append(). */
  function AppendStep(cfg: Config, pc: Pc, j: Jobs, c: Conns, request: nat): Local
    requires IsAppender(pc) && !Blocked(pc, j, c)
  {
    match pc
    case AIdle => Local(ALock(request), j, c)
    case ALock(r) => Local(ACheck(r), j.(locked := true), c)
    case ACheck(r) => Local(if |j.queue| > cfg.max then AReject else APush(r), j, c)
    case AReject => Local(AIdle, j.(locked := false), c)
    case APush(r) => Local(AUnlock, j.(queue := j.queue + [r], accepted := j.accepted + [r]), c)
    case AUnlock => Local(APost, j.(locked := false), c)
    case APost => Local(AIdle, j.(sem := j.sem + 1), c)
  }

  /** run() up to the connection. front() of an empty list breaks the worker. */
  function TakeStep(pc: Pc, j: Jobs, c: Conns): Local
    requires IsTaking(pc) && !Blocked(pc, j, c)
  {
    match pc
    case WWait => Local(WLock, j.(sem := j.sem - 1), c)
    case WLock => Local(WCheck, j.(locked := true), c)
    case WCheck => Local(if j.queue == [] then WEmpty else WPop, j, c)
    case WEmpty => Local(WWait, j.(locked := false), c)
    case WPop =>
      if j.queue == [] then Local(Broken, j, c)
      else Local(WUnlock(j.queue[0]), j.(queue := j.queue[1..], taken := j.taken + [j.queue[0]]), c)
    case WUnlock(r) => Local(if r == NULL then WWait else CSize(r), j.(locked := false), c)
  }

  /** GetConnection(), which looks at the size of the list without the lock. */
  function AcquireStep(cfg: Config, pc: Pc, j: Jobs, c: Conns): Local
    requires IsAcquiring(pc) && !Blocked(pc, j, c)
  {
    match pc
    case CSize(r) => Local(if c.list == [] then Process(r, NULL) else CWait(r), j, c)
    case CWait(r) => Local(CLock(r), j, c.(sem := c.sem - 1))
    case CLock(r) => Local(CPop(r), j, c.(locked := true))
    case CPop(r) =>
      if c.list == [] then Local(Broken, j, c)
      else Local(CFree(r, c.list[0]), j, c.(list := c.list[1..]))
    case CFree(r, x) => Local(CCur(r, x), j, c.(free := c.free - 1))
    case CCur(r, x) => Local(CUnlock(r, x), j, c.(cur := c.cur + 1))
    case CUnlock(r, x) => Local(Process(r, x), j, c.(locked := false))
    case Process(r, x) =>
      Local(if x == NULL then WWait else RLock(x, !cfg.doubled), j, c.(served := c.served + [Service(r, x)]))
  }

  /** ReleaseConnection(); the last release is the destructor's. */
  function ReleaseStep(pc: Pc, j: Jobs, c: Conns): Local
    requires IsReleasing(pc) && !Blocked(pc, j, c)
  {
    match pc
    case RLock(x, last) => Local(RPush(x, last), j, c.(locked := true))
    case RPush(x, last) =>
      Local(RFree(x, last), j,
            c.(list := c.list + [x], extra := if last then c.extra else c.extra + multiset{x}))
    case RFree(x, last) => Local(RCur(x, last), j, c.(free := c.free + 1))
    case RCur(x, last) => Local(RUnlock(x, last), j, c.(cur := c.cur - 1))
    case RUnlock(x, last) => Local(RPost(x, last), j, c.(locked := false))
    case RPost(x, last) => Local(if last then WWait else RLock(x, true), j, c.(sem := c.sem + 1))
  }

  predicate IsAppender(pc: Pc) {
    pc.AIdle? || pc.ALock? || pc.ACheck? || pc.AReject? || pc.APush? || pc.AUnlock? || pc.APost?
  }

  predicate IsTaking(pc: Pc) {
    pc.WWait? || pc.WLock? || pc.WCheck? || pc.WEmpty? || pc.WPop? || pc.WUnlock?
  }

  predicate IsAcquiring(pc: Pc) {
    pc.CSize? || pc.CWait? || pc.CLock? || pc.CPop? || pc.CFree? || pc.CCur? || pc.CUnlock? || pc.Process?
  }

  predicate IsReleasing(pc: Pc) {
    pc.RLock? || pc.RPush? || pc.RFree? || pc.RCur? || pc.RUnlock? || pc.RPost?
  }

  function Step(cfg: Config, pc: Pc, j: Jobs, c: Conns, request: nat): Local
    requires !Blocked(pc, j, c)
  {
    if IsAppender(pc) then AppendStep(cfg, pc, j, c, request)
    else if IsTaking(pc) then TakeStep(pc, j, c)
    else if IsAcquiring(pc) then AcquireStep(cfg, pc, j, c)
    else ReleaseStep(pc, j, c)
  }

  /** One step of one thread; the request is what an idle appender is called with. */
  datatype Act = Act(thread: nat, request: nat)

  predicate Can(s: State, a: Act) {
    a.thread < |s.threads| && !Blocked(s.threads[a.thread], s.jobs, s.conns)
  }

  function Next(cfg: Config, s: State, a: Act): State
    requires Can(s, a)
  {
    var n := Step(cfg, s.threads[a.thread], s.jobs, s.conns, a.request);
    State(s.threads[a.thread := n.pc], n.jobs, n.conns)
  }

  ghost predicate Possible(cfg: Config, s: State, acts: seq<Act>)
    decreases |acts|
  {
    acts != [] ==> Can(s, acts[0]) && Possible(cfg, Next(cfg, s, acts[0]), acts[1..])
  }

  ghost function Run(cfg: Config, s: State, acts: seq<Act>): State
    requires Possible(cfg, s, acts)
    decreases |acts|
  {
    if acts == [] then s else Run(cfg, Next(cfg, s, acts[0]), acts[1..])
  }

  /** Before anything happens. */
  function Initial(cfg: Config, appenders: nat, workers: nat): State {
    State(Times(AIdle, appenders) + Times(WWait, workers),
          Jobs([], 0, false, [], []),
          Conns(cfg.pool, |cfg.pool|, false, |cfg.pool|, 0, multiset{}, []))
  }

  // ---------- counting threads ----------

  /** How many threads, at the queue, ... */
  datatype AtQueue = AtQueue(
    locking: nat,      // hold its lock
    push: nat,         // have found room and not pushed yet
    due: nat,          // have pushed a request and not posted yet
    pend: nat,         // have waited for a request and not popped it yet
    bad: nat)          // are where no thread should be

  /** ... at the pool, ... */
  datatype AtPool = AtPool(
    locking: nat,      // hold its lock
    due: nat,          // have put a connection back and not posted yet
    pend: nat,         // have waited for a connection and not popped it yet
    popped: nat, pushed: nat,    // have changed the list and not FreeConn yet
    fell: nat, rose: nat)        // have changed FreeConn and not CurConn yet

  /** ... and otherwise. */
  datatype Use = Use(
    wants: nat,        // are about to take a connection
    first: nat,        // are in the release that is not the last
    workers: nat)      // are workers

  /** What one thread, or several, contribute to the counts of the invariant; with the steps left
      until idle, and the connections acquired and not given back by the destructor. */
  datatype Tally = Tally(q: AtQueue, c: AtPool, use: Use, rank: nat, held: multiset<nat>)

  /** Every request costs a worker at most so many steps. */
  const CYCLE: nat := 25

  function Rank(pc: Pc): nat {
    match pc
    case AIdle => 0
    case ALock(_) => CYCLE + 5
    case ACheck(_) => CYCLE + 4
    case AReject => 1
    case APush(_) => CYCLE + 3
    case AUnlock => CYCLE + 2
    case APost => CYCLE + 1
    case WWait => 0
    case WLock => 24
    case WCheck => 23
    case WEmpty => 1
    case WPop => 22
    case WUnlock(_) => 21
    case CSize(_) => 20
    case CWait(_) => 19
    case CLock(_) => 18
    case CPop(_) => 17
    case CFree(_, _) => 16
    case CCur(_, _) => 15
    case CUnlock(_, _) => 14
    case Process(_, _) => 13
    case RLock(_, last) => if last then 6 else 12
    case RPush(_, last) => if last then 5 else 11
    case RFree(_, last) => if last then 4 else 10
    case RCur(_, last) => if last then 3 else 9
    case RUnlock(_, last) => if last then 2 else 8
    case RPost(_, last) => if last then 1 else 7
    case Broken => 0
  }

  predicate Holds(pc: Pc) {
    || pc.CFree? || pc.CCur? || pc.CUnlock? || (pc.Process? && pc.con != NULL)
    || pc.RLock? || pc.RPush? || ((pc.RFree? || pc.RCur? || pc.RUnlock? || pc.RPost?) && !pc.last)
  }

  function Holding(pc: Pc): multiset<nat> {
    if Holds(pc) then multiset{pc.con} else multiset{}
  }

  function QueueShare(pc: Pc): AtQueue {
    AtQueue(
      Bit(pc.ACheck? || pc.AReject? || pc.APush? || pc.AUnlock? || pc.WCheck? || pc.WEmpty? || pc.WPop? || pc.WUnlock?),
      Bit(pc.APush?),
      Bit(pc.AUnlock? || pc.APost?),
      Bit(pc.WLock? || pc.WCheck? || pc.WPop?),
      Bit(pc.WEmpty? || pc.Broken?))
  }

  function PoolShare(pc: Pc): AtPool {
    AtPool(
      Bit(pc.CPop? || pc.CFree? || pc.CCur? || pc.CUnlock? || pc.RPush? || pc.RFree? || pc.RCur? || pc.RUnlock?),
      Bit(pc.RFree? || pc.RCur? || pc.RUnlock? || pc.RPost?),
      Bit(pc.CLock? || pc.CPop?),
      Bit(pc.CFree?), Bit(pc.RFree?), Bit(pc.CCur?), Bit(pc.RCur?))
  }

  function UseShare(pc: Pc): Use {
    Use(Bit(pc.CWait? || pc.CLock? || pc.CPop?), Bit(IsReleasing(pc) && !pc.last), Bit(!IsAppender(pc)))
  }

  function Share(pc: Pc): Tally {
    Tally(QueueShare(pc), PoolShare(pc), UseShare(pc), Rank(pc), Holding(pc))
  }

  const NONE: Tally := Tally(AtQueue(0, 0, 0, 0, 0), AtPool(0, 0, 0, 0, 0, 0, 0), Use(0, 0, 0), 0, multiset{})

  function PlusQueue(a: AtQueue, b: AtQueue): AtQueue {
    AtQueue(a.locking + b.locking, a.push + b.push, a.due + b.due, a.pend + b.pend, a.bad + b.bad)
  }

  function PlusPool(a: AtPool, b: AtPool): AtPool {
    AtPool(a.locking + b.locking, a.due + b.due, a.pend + b.pend,
           a.popped + b.popped, a.pushed + b.pushed, a.fell + b.fell, a.rose + b.rose)
  }

  function PlusUse(a: Use, b: Use): Use {
    Use(a.wants + b.wants, a.first + b.first, a.workers + b.workers)
  }

  function Plus(a: Tally, b: Tally): Tally {
    Tally(PlusQueue(a.q, b.q), PlusPool(a.c, b.c), PlusUse(a.use, b.use), a.rank + b.rank, a.held + b.held)
  }

  function Total(threads: seq<Pc>): Tally {
    Sum(threads, Share, Plus, NONE)
  }

  function Others(threads: seq<Pc>, i: nat): Tally
    requires i < |threads|
  {
    SumOthers(threads, i, Share, Plus, NONE)
  }

  lemma PlusLaws(a: Tally, b: Tally, c: Tally)
    ensures Plus(a, b) == Plus(b, a)
    ensures Plus(Plus(a, b), c) == Plus(a, Plus(b, c))
    ensures Plus(NONE, b) == b
  {
  }

  lemma PlusAdditive()
    ensures Additive(Plus, NONE)
  {
    hide Plus;
    forall a, b ensures Plus(a, b) == Plus(b, a) { PlusLaws(a, b, a); }
    forall a, b, c ensures Plus(Plus(a, b), c) == Plus(a, Plus(b, c)) { PlusLaws(a, b, c); }
    forall a ensures Plus(NONE, a) == a { PlusLaws(a, a, a); }
  }

  lemma OthersUnfolds(threads: seq<Pc>, i: nat)
    requires i < |threads|
    ensures Others(threads, i) == Plus(Total(threads[..i]), Total(threads[i+1..]))
  {
    hide Plus, Sum;
  }

  /** A step of one thread changes its own share of the counts and no other. */
  lemma TotalUpdate(threads: seq<Pc>, i: nat, pc: Pc)
    requires i < |threads|
    ensures Total(threads) == Plus(Others(threads, i), Share(threads[i]))
    ensures Total(threads[i := pc]) == Plus(Others(threads, i), Share(pc))
  {
    hide Share, Plus, Additive, Sum, SumOthers;
    PlusAdditive();
    SumUpdate(threads, i, pc, Share, Plus, NONE);
  }

  // ---------- what every step keeps ----------

  /** The queue: one holder of the lock; as many requests as the semaphore and the threads between
      semaphore and queue account for; room for one more than the bound; nobody in the branch for
      an empty queue or at front() of an empty list; and what was taken, followed by what is queued,
      is what was accepted. */
  ghost predicate JobsInv(cfg: Config, t: AtQueue, j: Jobs) {
    && t.locking == Bit(j.locked)
    && |j.queue| == j.sem + t.due + t.pend
    && |j.queue| + t.push <= cfg.max + 1
    && t.bad == 0
    && j.taken + j.queue == j.accepted
  }

  /** The pool: one holder of the lock; as many connections in the list as the semaphore and the
      threads between semaphore and list account for; and the counters, but for the threads in the
      middle of changing them. */
  ghost predicate ConnsInv(cfg: Config, t: AtPool, c: Conns) {
    && t.locking == Bit(c.locked)
    && |c.list| == c.sem + t.due + t.pend
    && c.free + t.pushed == |c.list| + t.popped
    && c.free + c.cur + t.fell == |cfg.pool| + t.rose
  }

  /** The connections: those in the list and those held are those there are and, once more, those
      put back by line 134. */
  ghost predicate Balance(cfg: Config, list: seq<nat>, held: multiset<nat>, extra: multiset<nat>) {
    && multiset(list) + held == multiset(cfg.pool) + extra
    && (forall x <- extra :: x in cfg.pool)
    && NULL !in cfg.pool
  }

  ghost predicate UseInv(cfg: Config, t: Use, c: Conns) {
    && (!cfg.doubled ==> t.first == 0 && c.extra == multiset{})
    && (t.wants > 0 ==> cfg.pool != [])
    && t.workers > 0
  }

  ghost predicate InvOf(cfg: Config, t: Tally, j: Jobs, c: Conns) {
    && JobsInv(cfg, t.q, j)
    && ConnsInv(cfg, t.c, c)
    && UseInv(cfg, t.use, c)
    && Balance(cfg, c.list, t.held, c.extra)
  }

  ghost predicate Inv(cfg: Config, s: State) {
    InvOf(cfg, Total(s.threads), s.jobs, s.conns)
  }

  /** Who has found room, or is in the middle of a change to the counters, holds the lock. */
  ghost predicate Locking(t: Tally) {
    t.q.push <= t.q.locking && t.c.popped + t.c.pushed + t.c.fell + t.c.rose <= t.c.locking
  }

  lemma {:induction false} TotalLocking(threads: seq<Pc>)
    ensures Locking(Total(threads))
  {
    hide Total, Rank, Holding, QueueShare, PoolShare, UseShare;
    TotalEmpty();
    if threads != [] {
      SharesUnfold(threads);
      ShareLocking(threads[0]);
      TotalLocking(threads[1..]);
    }
  }

  lemma ShareLocking(pc: Pc)
    ensures Locking(Share(pc))
  {
    hide Rank, Holding;
  }

  lemma OthersLocking(threads: seq<Pc>, i: nat)
    requires i < |threads|
    ensures Locking(Others(threads, i))
  {
    hide Total, Others, Share;
    OthersUnfolds(threads, i);
    TotalLocking(threads[..i]);
    TotalLocking(threads[i+1..]);
  }

  lemma JobsAppend(cfg: Config, o: AtQueue, pc: Pc, j: Jobs, c: Conns, request: nat)
    requires o.push <= o.locking && IsAppender(pc) && !Blocked(pc, j, c)
    requires JobsInv(cfg, PlusQueue(o, QueueShare(pc)), j)
    ensures var n := AppendStep(cfg, pc, j, c, request); JobsInv(cfg, PlusQueue(o, QueueShare(n.pc)), n.jobs)
  {
    if pc.APush? {
      assert j.taken + (j.queue + [pc.request]) == j.accepted + [pc.request];
    }
  }

  lemma JobsTake(cfg: Config, o: AtQueue, pc: Pc, j: Jobs, c: Conns)
    requires IsTaking(pc) && !Blocked(pc, j, c) && JobsInv(cfg, PlusQueue(o, QueueShare(pc)), j)
    ensures var n := TakeStep(pc, j, c); JobsInv(cfg, PlusQueue(o, QueueShare(n.pc)), n.jobs)
  {
    if pc.WPop? {
      assert j.queue == [j.queue[0]] + j.queue[1..];
      assert (j.taken + [j.queue[0]]) + j.queue[1..] == j.accepted;
    }
  }

  /** A connection that was waited for is there. */
  lemma PopsSomething(cfg: Config, o: AtPool, pc: Pc, c: Conns)
    requires pc.CPop? && ConnsInv(cfg, PlusPool(o, PoolShare(pc)), c)
    ensures c.list != []
  {
  }

  lemma ConnsAcquire(cfg: Config, o: AtPool, pc: Pc, j: Jobs, c: Conns)
    requires IsAcquiring(pc) && !Blocked(pc, j, c) && ConnsInv(cfg, PlusPool(o, PoolShare(pc)), c)
    ensures var n := AcquireStep(cfg, pc, j, c); ConnsInv(cfg, PlusPool(o, PoolShare(n.pc)), n.conns)
  {
  }

  lemma ConnsRelease(cfg: Config, o: AtPool, pc: Pc, j: Jobs, c: Conns)
    requires IsReleasing(pc) && !Blocked(pc, j, c) && ConnsInv(cfg, PlusPool(o, PoolShare(pc)), c)
    ensures var n := ReleaseStep(pc, j, c); ConnsInv(cfg, PlusPool(o, PoolShare(n.pc)), n.conns)
  {
  }

  lemma HeldIsPooled(cfg: Config, list: seq<nat>, held: multiset<nat>, extra: multiset<nat>, x: nat)
    requires Balance(cfg, list, held, extra) && (x in held || x in list)
    ensures x in cfg.pool && x != NULL
  {
    assert x in multiset(cfg.pool) + extra by {
      assert x in multiset(list) + held;
    }
  }

  lemma PopBalance(cfg: Config, list: seq<nat>, held: multiset<nat>, extra: multiset<nat>)
    requires Balance(cfg, list, held, extra) && list != []
    ensures Balance(cfg, list[1..], held + multiset{list[0]}, extra)
  {
    assert list == [list[0]] + list[1..];
  }

  /** A release gives the connection up, or puts it back while it is still held. */
  lemma PushBalance(cfg: Config, list: seq<nat>, held: multiset<nat>, extra: multiset<nat>, x: nat)
    requires Balance(cfg, list, held + multiset{x}, extra)
    ensures Balance(cfg, list + [x], held, extra)
    ensures Balance(cfg, list + [x], held + multiset{x}, extra + multiset{x})
  {
    assert x in held + multiset{x};
    HeldIsPooled(cfg, list, held + multiset{x}, extra, x);
    assert multiset(list + [x]) == multiset(list) + multiset{x};
    Shift(multiset(list), held, multiset{x}, multiset(cfg.pool), extra);
  }

  lemma Shift(l: multiset<nat>, h: multiset<nat>, m: multiset<nat>, p: multiset<nat>, e: multiset<nat>)
    requires l + (h + m) == p + e
    ensures (l + m) + h == p + e
    ensures (l + m) + (h + m) == p + (e + m)
  {
    assert (l + m) + h == l + (h + m);
    assert (l + m) + (h + m) == (l + (h + m)) + m;
    assert (p + e) + m == p + (e + m);
  }

  lemma BalanceAcquire(cfg: Config, o: multiset<nat>, pc: Pc, j: Jobs, c: Conns)
    requires IsAcquiring(pc) && !Blocked(pc, j, c) && Balance(cfg, c.list, o + Holding(pc), c.extra)
    ensures var n := AcquireStep(cfg, pc, j, c); Balance(cfg, n.conns.list, o + Holding(n.pc), n.conns.extra)
  {
    hide Balance, Holding;
    var n := AcquireStep(cfg, pc, j, c);
    HoldingIs(pc);
    HoldingIs(n.pc);
    if pc.CPop? && c.list != [] {
      assert o + multiset{} == o;
      PopBalance(cfg, c.list, o, c.extra);
    } else {
      if pc.CUnlock? {
        assert pc.con in o + multiset{pc.con};
        HeldIsPooled(cfg, c.list, o + multiset{pc.con}, c.extra, pc.con);
      }
      AcquireKeeps(cfg, pc, j, c);
    }
  }

  /** Other steps of GetConnection than the pop leave the connection where it is. */
  lemma AcquireKeeps(cfg: Config, pc: Pc, j: Jobs, c: Conns)
    requires IsAcquiring(pc) && !Blocked(pc, j, c)
    requires (pc.CPop? ==> c.list == []) && (pc.CUnlock? ==> pc.con != NULL)
    ensures var n := AcquireStep(cfg, pc, j, c);
      && Holds(n.pc) == Holds(pc) && (Holds(pc) ==> n.pc.con == pc.con)
      && n.conns.list == c.list && n.conns.extra == c.extra
  {
  }

  lemma BalanceRelease(cfg: Config, o: multiset<nat>, pc: Pc, j: Jobs, c: Conns)
    requires IsReleasing(pc) && !Blocked(pc, j, c) && Balance(cfg, c.list, o + Holding(pc), c.extra)
    ensures var n := ReleaseStep(pc, j, c); Balance(cfg, n.conns.list, o + Holding(n.pc), n.conns.extra)
  {
    hide Balance, Holding;
    var n := ReleaseStep(pc, j, c);
    HoldingIs(pc);
    HoldingIs(n.pc);
    if pc.RPush? {
      PushBalance(cfg, c.list, o, c.extra, pc.con);
      assert o + multiset{} == o;
    } else {
      assert Holds(n.pc) == Holds(pc) && (Holds(pc) ==> n.pc.con == pc.con);
      assert n.conns.list == c.list && n.conns.extra == c.extra;
    }
  }

  lemma HoldingIs(pc: Pc)
    ensures Holding(pc) == if Holds(pc) then multiset{pc.con} else multiset{}
  {
  }

  lemma UseAcquire(cfg: Config, o: Use, pc: Pc, j: Jobs, c: Conns)
    requires IsAcquiring(pc) && !Blocked(pc, j, c) && UseInv(cfg, PlusUse(o, UseShare(pc)), c)
    requires c.list != [] ==> cfg.pool != []
    ensures var n := AcquireStep(cfg, pc, j, c); UseInv(cfg, PlusUse(o, UseShare(n.pc)), n.conns)
  {
  }

  lemma UseRelease(cfg: Config, o: Use, pc: Pc, j: Jobs, c: Conns)
    requires IsReleasing(pc) && !Blocked(pc, j, c) && UseInv(cfg, PlusUse(o, UseShare(pc)), c)
    ensures var n := ReleaseStep(pc, j, c); UseInv(cfg, PlusUse(o, UseShare(n.pc)), n.conns)
  {
  }

  /** What concerns the queue leaves the shares at the pool alone, ... */
  lemma AppendOnly(cfg: Config, pc: Pc, j: Jobs, c: Conns, request: nat)
    requires IsAppender(pc) && !Blocked(pc, j, c)
    ensures var n := AppendStep(cfg, pc, j, c, request);
      PoolShare(n.pc) == PoolShare(pc) && UseShare(n.pc) == UseShare(pc) && Holding(n.pc) == Holding(pc) && n.conns == c
  {
    hide Holding, PoolShare, UseShare, Holds;
    var n := AppendStep(cfg, pc, j, c, request);
    QueueKind(pc);
    QueueKind(n.pc);
  }

  lemma TakeOnly(pc: Pc, j: Jobs, c: Conns)
    requires IsTaking(pc) && !Blocked(pc, j, c)
    ensures var n := TakeStep(pc, j, c);
      PoolShare(n.pc) == PoolShare(pc) && UseShare(n.pc) == UseShare(pc) && Holding(n.pc) == Holding(pc) && n.conns == c
  {
    hide Holding, PoolShare, UseShare, Holds;
    var n := TakeStep(pc, j, c);
    QueueKind(pc);
    QueueKind(n.pc);
  }

  /** The shares of a thread that is at the queue, or about to leave it. */
  lemma QueueKind(pc: Pc)
    requires IsAppender(pc) || IsTaking(pc) || pc.CSize? || pc.Broken?
    ensures PoolShare(pc) == NONE.c && UseShare(pc) == Use(0, 0, Bit(!IsAppender(pc))) && Holding(pc) == multiset{}
  {
    hide PoolShare, UseShare, Holding, Holds;
    NotAtPool(pc);
    HoldingIs(pc);
  }

  lemma NotAtPool(pc: Pc)
    requires IsAppender(pc) || IsTaking(pc) || pc.CSize? || pc.Broken?
    ensures PoolShare(pc) == NONE.c && UseShare(pc) == Use(0, 0, Bit(!IsAppender(pc))) && !Holds(pc)
  {
  }

  /** ... and the other way about. */
  lemma AcquireOnly(cfg: Config, pc: Pc, j: Jobs, c: Conns)
    requires IsAcquiring(pc) && !Blocked(pc, j, c) && (pc.CPop? ==> c.list != [])
    ensures var n := AcquireStep(cfg, pc, j, c); QueueShare(n.pc) == QueueShare(pc) && n.jobs == j
  {
  }

  lemma ReleaseOnly(pc: Pc, j: Jobs, c: Conns)
    requires IsReleasing(pc) && !Blocked(pc, j, c)
    ensures var n := ReleaseStep(pc, j, c); QueueShare(n.pc) == QueueShare(pc) && n.jobs == j
  {
  }

  /** The step of one thread, whatever the others are doing. */
  lemma StepKeepsInv(cfg: Config, o: Tally, pc: Pc, j: Jobs, c: Conns, request: nat)
    requires Locking(o) && !Blocked(pc, j, c) && InvOf(cfg, Plus(o, Share(pc)), j, c)
    ensures var n := Step(cfg, pc, j, c, request); InvOf(cfg, Plus(o, Share(n.pc)), n.jobs, n.conns)
  {
    hide JobsInv, ConnsInv, UseInv, Balance, QueueShare, PoolShare, UseShare, Holding, PlusQueue, PlusPool, PlusUse;
    hide AppendStep, TakeStep, AcquireStep, ReleaseStep;
    if IsAppender(pc) {
      JobsAppend(cfg, o.q, pc, j, c, request);
      AppendOnly(cfg, pc, j, c, request);
    } else if IsTaking(pc) {
      JobsTake(cfg, o.q, pc, j, c);
      TakeOnly(pc, j, c);
    } else if IsAcquiring(pc) {
      if pc.CPop? {
        PopsSomething(cfg, o.c, pc, c);
      }
      if c.list != [] {
        HeldIsPooled(cfg, c.list, o.held + Holding(pc), c.extra, c.list[0]);
      }
      ConnsAcquire(cfg, o.c, pc, j, c);
      UseAcquire(cfg, o.use, pc, j, c);
      BalanceAcquire(cfg, o.held, pc, j, c);
      AcquireOnly(cfg, pc, j, c);
    } else {
      ConnsRelease(cfg, o.c, pc, j, c);
      UseRelease(cfg, o.use, pc, j, c);
      BalanceRelease(cfg, o.held, pc, j, c);
      ReleaseOnly(pc, j, c);
    }
  }

  lemma NextKeepsInv(cfg: Config, s: State, a: Act)
    requires Inv(cfg, s) && Can(s, a)
    ensures Inv(cfg, Next(cfg, s, a))
  {
    hide InvOf, Locking, Step, Plus, Share, Total, Others, Blocked;
    var i := a.thread;
    var n := Step(cfg, s.threads[i], s.jobs, s.conns, a.request);
    TotalUpdate(s.threads, i, n.pc);
    OthersLocking(s.threads, i);
    StepKeepsInv(cfg, Others(s.threads, i), s.threads[i], s.jobs, s.conns, a.request);
  }

  /** Every interleaving keeps the invariant. */
  lemma {:induction false} EveryRunKeepsInv(cfg: Config, s: State, acts: seq<Act>)
    requires Inv(cfg, s) && Possible(cfg, s, acts)
    ensures Inv(cfg, Run(cfg, s, acts))
    decreases |acts|
  {
    hide Inv, Can, Next;
    if acts != [] {
      NextKeepsInv(cfg, s, acts[0]);
      EveryRunKeepsInv(cfg, Next(cfg, s, acts[0]), acts[1..]);
    }
  }

  /** What init() and the constructor see to: no null connection, and at least one worker. */
  predicate Sound(cfg: Config, workers: nat) {
    NULL !in cfg.pool && workers > 0
  }

  lemma InitialInv(cfg: Config, appenders: nat, workers: nat)
    requires Sound(cfg, workers)
    ensures Inv(cfg, Initial(cfg, appenders, workers))
  {
    hide Total;
    TotalIdle(appenders, workers);
  }

  lemma {:induction false} TotalIdle(appenders: nat, workers: nat)
    ensures var t := Total(Times(AIdle, appenders) + Times(WWait, workers));
      t == NONE.(use := Use(0, 0, workers))
    decreases appenders + workers
  {
    hide Total, Share, Plus;
    var ts := Times(AIdle, appenders) + Times(WWait, workers);
    TotalUnfolds(ts);
    IdleShares(Total(ts[if ts == [] then 0 else 1..]));
    if appenders > 0 {
      TotalIdle(appenders - 1, workers);
      assert ts[1..] == Times(AIdle, appenders - 1) + Times(WWait, workers);
    } else if workers > 0 {
      TotalIdle(0, workers - 1);
      assert ts[1..] == Times(AIdle, 0) + Times(WWait, workers - 1);
    }
  }

  lemma TotalUnfolds(threads: seq<Pc>)
    ensures Total(threads) == if threads == [] then NONE else Plus(Share(threads[0]), Total(threads[1..]))
  {
  }

  lemma IdleShares(t: Tally)
    ensures Plus(Share(AIdle), t) == t
    ensures Plus(Share(WWait), t) == t.(use := Use(t.use.wants, t.use.first, t.use.workers + 1))
  {
  }

  /** A thread's share is part of the total. */
  lemma ShareWithin(threads: seq<Pc>, i: nat)
    requires i < |threads|
    ensures Total(threads) == Plus(Others(threads, i), Share(threads[i]))
  {
    TotalUpdate(threads, i, threads[i]);
  }

  // ---------- requests ----------

  /** Requests are dispatched once each, in the order in which they were accepted, from a queue of
      bounded length; no worker finds the queue empty, and front() is never asked of an empty
      list. */
  lemma DispatchedOnce(cfg: Config, appenders: nat, workers: nat, acts: seq<Act>)
    requires Sound(cfg, workers) && Possible(cfg, Initial(cfg, appenders, workers), acts)
    ensures var s := Run(cfg, Initial(cfg, appenders, workers), acts);
      && s.jobs.taken + s.jobs.queue == s.jobs.accepted
      && |s.jobs.queue| <= cfg.max + 1
      && forall i :: 0 <= i < |s.threads| ==> !s.threads[i].WEmpty? && !s.threads[i].Broken?
  {
    hide Total, Run, Possible;
    InitialInv(cfg, appenders, workers);
    EveryRunKeepsInv(cfg, Initial(cfg, appenders, workers), acts);
    var s := Run(cfg, Initial(cfg, appenders, workers), acts);
    forall i | 0 <= i < |s.threads|
      ensures !s.threads[i].WEmpty? && !s.threads[i].Broken?
    {
      ShareWithin(s.threads, i);
    }
  }

  // ---------- connections ----------

  /** While nobody holds the pool's lock the counters are what their names say. */
  lemma CountersMatch(cfg: Config, s: State)
    requires Inv(cfg, s) && !s.conns.locked
    ensures s.conns.free == |s.conns.list| && s.conns.free + s.conns.cur == |cfg.pool|
  {
    hide Total;
    TotalLocking(s.threads);
  }

  predicate Distinct(xs: seq<nat>) {
    forall i, j :: 0 <= i < j < |xs| ==> xs[i] != xs[j]
  }

  ghost predicate HoldersDiffer(threads: seq<Pc>) {
    forall i, j :: 0 <= i < j < |threads| && Holds(threads[i]) && Holds(threads[j]) ==> threads[i].con != threads[j].con
  }

  /** No connection is in the list twice, or with two threads, or in both places. */
  ghost predicate Exclusive(s: State) {
    && Distinct(s.conns.list)
    && HoldersDiffer(s.threads)
    && (forall i :: 0 <= i < |s.threads| && Holds(s.threads[i]) ==> s.threads[i].con !in s.conns.list)
  }

  lemma {:induction false} DistinctOnce(xs: seq<nat>, x: nat)
    requires Distinct(xs)
    ensures multiset(xs)[x] <= 1
  {
    if xs != [] {
      assert xs == [xs[0]] + xs[1..];
      DistinctOnce(xs[1..], x);
    }
  }

  lemma Twice(xs: seq<nat>, i: nat, j: nat)
    requires i < j < |xs| && xs[i] == xs[j]
    ensures multiset(xs)[xs[i]] >= 2
  {
    assert xs == xs[..i] + [xs[i]] + xs[i+1..j] + [xs[j]] + xs[j+1..];
  }

  function Held(threads: seq<Pc>): multiset<nat> { Total(threads).held }

  lemma HeldUnfolds(threads: seq<Pc>)
    requires threads != []
    ensures Held(threads) == Holding(threads[0]) + Held(threads[1..])
  {
    hide QueueShare, PoolShare, UseShare, Holding;
  }

  lemma {:induction false} HeldCount(threads: seq<Pc>, i: nat)
    requires i < |threads| && Holds(threads[i])
    ensures Held(threads)[threads[i].con] >= 1
  {
    hide Held, Holds;
    HeldUnfolds(threads);
    HoldingIs(threads[0]);
    if i > 0 {
      HeldCount(threads[1..], i - 1);
    }
  }

  lemma {:induction false} HeldTwice(threads: seq<Pc>, i: nat, j: nat)
    requires i < j < |threads| && Holds(threads[i]) && Holds(threads[j]) && threads[i].con == threads[j].con
    ensures Held(threads)[threads[i].con] >= 2
  {
    hide Held, Holds;
    HeldUnfolds(threads);
    HoldingIs(threads[0]);
    if i > 0 {
      HeldTwice(threads[1..], i - 1, j - 1);
    } else {
      HeldCount(threads[1..], j - 1);
    }
  }

  lemma {:induction false} HeldByNobody(threads: seq<Pc>, x: nat)
    requires forall i :: 0 <= i < |threads| && Holds(threads[i]) ==> threads[i].con != x
    ensures Held(threads)[x] == 0
  {
    hide Holds, QueueShare, PoolShare, UseShare;
    if threads != [] {
      HeldUnfolds(threads);
      HoldingIs(threads[0]);
      HeldByNobody(threads[1..], x);
    }
  }

  lemma {:induction false} HeldByOne(threads: seq<Pc>, x: nat)
    requires HoldersDiffer(threads)
    ensures Held(threads)[x] <= 1
  {
    hide Held, Holding;
    if threads == [] {
      HeldByNobody(threads, x);
    } else {
      HeldUnfolds(threads);
      HoldingIs(threads[0]);
      if Holds(threads[0]) && threads[0].con == x {
        HeldByNobody(threads[1..], x);
      } else {
        HeldByOne(threads[1..], x);
      }
    }
  }

  /** Exclusive, said with counts. */
  lemma ExclusiveCounts(s: State)
    ensures Exclusive(s) <==> forall x :: (multiset(s.conns.list) + Held(s.threads))[x] <= 1
  {
    if Exclusive(s) {
      forall x
        ensures (multiset(s.conns.list) + Held(s.threads))[x] <= 1
      {
        ExclusiveOnce(s, x);
      }
    }
    if forall x :: (multiset(s.conns.list) + Held(s.threads))[x] <= 1 {
      OnceExclusive(s);
    }
  }

  lemma ExclusiveOnce(s: State, x: nat)
    requires Exclusive(s)
    ensures (multiset(s.conns.list) + Held(s.threads))[x] <= 1
  {
    hide Held, Holds;
    DistinctOnce(s.conns.list, x);
    HeldByOne(s.threads, x);
    if x in s.conns.list {
      HeldByNobody(s.threads, x);
    }
  }

  lemma OnceExclusive(s: State)
    requires forall x :: (multiset(s.conns.list) + Held(s.threads))[x] <= 1
    ensures Exclusive(s)
  {
    hide Held;
    var all := multiset(s.conns.list) + Held(s.threads);
    forall i, j | 0 <= i < j < |s.conns.list|
      ensures s.conns.list[i] != s.conns.list[j]
    {
      assert all[s.conns.list[i]] <= 1;
      if s.conns.list[i] == s.conns.list[j] { Twice(s.conns.list, i, j); }
    }
    forall i, j | 0 <= i < j < |s.threads| && Holds(s.threads[i]) && Holds(s.threads[j])
      ensures s.threads[i].con != s.threads[j].con
    {
      assert all[s.threads[i].con] <= 1;
      if s.threads[i].con == s.threads[j].con { HeldTwice(s.threads, i, j); }
    }
    forall i | 0 <= i < |s.threads| && Holds(s.threads[i])
      ensures s.threads[i].con !in s.conns.list
    {
      assert all[s.threads[i].con] <= 1;
      HeldCount(s.threads, i);
    }
  }

  /** In every reachable state the connections are exclusive - each is in the list once, or held by
      one thread - if and only if line 134 has not released any. */
  lemma ExclusiveExactly(cfg: Config, s: State)
    requires Inv(cfg, s) && Distinct(cfg.pool)
    ensures Exclusive(s) <==> s.conns.extra == multiset{}
  {
    hide JobsInv, ConnsInv, UseInv, Total, Exclusive;
    var all := multiset(s.conns.list) + Held(s.threads);
    assert all == multiset(cfg.pool) + s.conns.extra;
    ExclusiveCounts(s);
    if s.conns.extra == multiset{} {
      forall x
        ensures all[x] <= 1
      {
        DistinctOnce(cfg.pool, x);
      }
    } else {
      var x :| x in s.conns.extra;
      assert x in cfg.pool;
      assert all[x] >= 2;
    }
  }

  /** With one release for each acquisition the connections are exclusive in every reachable state,
      and none gets lost. */
  lemma SingleReleaseExclusive(cfg: Config, s: State)
    requires Inv(cfg, s) && Distinct(cfg.pool) && !cfg.doubled
    ensures Exclusive(s) && multiset(s.conns.list) + Held(s.threads) == multiset(cfg.pool)
  {
    hide JobsInv, ConnsInv, Total, Exclusive;
    ExclusiveExactly(cfg, s);
    assert multiset(cfg.pool) + multiset{} == multiset(cfg.pool);
  }

  // ---------- progress ----------

  /** A request that is queued or under way: being appended, or with a worker. */
  ghost predicate Busy(s: State) {
    s.jobs.queue != [] || exists i :: 0 <= i < |s.threads| && !Resting(s.threads[i])
  }

  predicate Resting(pc: Pc) { pc.AIdle? || pc.WWait? }

  /** A step other than a new call of append(). */
  ghost predicate Moves(s: State, a: Act) {
    Can(s, a) && !s.threads[a.thread].AIdle?
  }

  ghost predicate Stuck(s: State) {
    forall i :: 0 <= i < |s.threads| ==> s.threads[i].AIdle? || Blocked(s.threads[i], s.jobs, s.conns)
  }

  /** When nobody can move every thread is at one of the waits: the locks are free. */
  lemma StuckWaits(cfg: Config, s: State)
    requires Inv(cfg, s) && Stuck(s)
    ensures !s.jobs.locked && !s.conns.locked
    ensures forall i :: 0 <= i < |s.threads| ==> AtWait(s.threads[i])
  {
    hide Total;
    if s.jobs.locked {
      var i := FindQueueHolder(s.threads);
      HolderRuns(s.threads[i], s.jobs, s.conns);
      assert false;
    }
    if s.conns.locked {
      var i := FindPoolHolder(s.threads);
      HolderRuns(s.threads[i], s.jobs, s.conns);
      assert false;
    }
    forall i | 0 <= i < |s.threads|
      ensures AtWait(s.threads[i])
    {
      ShareWithin(s.threads, i);
      BlockedWaits(s.threads[i], s.jobs, s.conns);
    }
  }

  /** Who holds a lock can go on. */
  lemma HolderRuns(pc: Pc, j: Jobs, c: Conns)
    requires QueueShare(pc).locking == 1 || PoolShare(pc).locking == 1
    ensures !pc.AIdle? && !Blocked(pc, j, c)
  {
  }

  lemma BlockedWaits(pc: Pc, j: Jobs, c: Conns)
    requires (pc.AIdle? || Blocked(pc, j, c)) && !j.locked && !c.locked && QueueShare(pc).bad == 0
    ensures AtWait(pc)
  {
  }

  lemma SharesUnfold(threads: seq<Pc>)
    requires threads != []
    ensures Total(threads).q == PlusQueue(QueueShare(threads[0]), Total(threads[1..]).q)
    ensures Total(threads).c == PlusPool(PoolShare(threads[0]), Total(threads[1..]).c)
    ensures Total(threads).use == PlusUse(UseShare(threads[0]), Total(threads[1..]).use)
    ensures Total(threads).held == Holding(threads[0]) + Total(threads[1..]).held
  {
    hide PlusQueue, PlusPool, PlusUse, QueueShare, PoolShare, UseShare, Holding;
  }

  predicate AtWait(pc: Pc) { pc.AIdle? || pc.WWait? || pc.CWait? }

  lemma {:induction false} FindQueueHolder(threads: seq<Pc>) returns (i: nat)
    requires Total(threads).q.locking > 0
    ensures i < |threads| && QueueShare(threads[i]).locking == 1
  {
    hide Total;
    TotalEmpty();
    SharesUnfold(threads);
    if QueueShare(threads[0]).locking == 1 {
      i := 0;
    } else {
      i := FindQueueHolder(threads[1..]);
      i := i + 1;
    }
  }

  lemma {:induction false} FindPoolHolder(threads: seq<Pc>) returns (i: nat)
    requires Total(threads).c.locking > 0
    ensures i < |threads| && PoolShare(threads[i]).locking == 1
  {
    hide Total;
    TotalEmpty();
    SharesUnfold(threads);
    if PoolShare(threads[0]).locking == 1 {
      i := 0;
    } else {
      i := FindPoolHolder(threads[1..]);
      i := i + 1;
    }
  }

  lemma {:induction false} FindWorker(threads: seq<Pc>) returns (i: nat)
    requires Total(threads).use.workers > 0
    ensures i < |threads| && !IsAppender(threads[i])
  {
    hide Total;
    TotalEmpty();
    SharesUnfold(threads);
    if !IsAppender(threads[0]) {
      i := 0;
    } else {
      i := FindWorker(threads[1..]);
      i := i + 1;
    }
  }

  lemma {:induction false} WaitersHaveNothing(threads: seq<Pc>)
    requires forall i :: 0 <= i < |threads| ==> AtWait(threads[i])
    ensures var t := Total(threads);
      t.q == NONE.q && t.c == NONE.c && t.held == NONE.held
  {
    hide Total, QueueShare, PoolShare, Holding, PlusQueue, PlusPool, PlusUse, UseShare;
    TotalEmpty();
    if threads != [] {
      SharesUnfold(threads);
      WaitersHaveNothing(threads[1..]);
      WaiterShares(threads[0]);
      NonePlus();
    }
  }

  lemma NonePlus()
    ensures PlusQueue(NONE.q, NONE.q) == NONE.q && PlusPool(NONE.c, NONE.c) == NONE.c
    ensures NONE.held + NONE.held == NONE.held
  {
    hide PlusQueue, PlusPool, PlusUse, NONE;
    PlusLaws(NONE, NONE, NONE);
  }

  lemma WaiterShares(pc: Pc)
    requires AtWait(pc)
    ensures QueueShare(pc) == NONE.q && PoolShare(pc) == NONE.c && Holding(pc) == NONE.held
  {
  }

  lemma TotalEmpty()
    ensures Total([]) == NONE
  {
  }

  lemma PoolNonempty(cfg: Config, s: State, i: nat)
    requires Inv(cfg, s) && i < |s.threads| && s.threads[i].CWait?
    ensures |multiset(cfg.pool) + s.conns.extra| > 0
  {
    hide Total, Others, QueueShare, PoolShare, Holding, Rank, PlusQueue, PlusPool, JobsInv, ConnsInv, Balance;
    ShareWithin(s.threads, i);
    assert cfg.pool[0] in multiset(cfg.pool) + s.conns.extra;
  }

  /** No deadlock: while a request is queued or under way, some thread can take a step that is not
      a new arrival. A worker that waits for a connection is not the end of it: if the semaphore is
      at zero, somebody else holds a connection or is on the way to posting it. */
  lemma NoDeadlock(cfg: Config, s: State)
    requires Inv(cfg, s) && Busy(s)
    ensures exists a :: Moves(s, a)
  {
    hide Inv, Total;
    if i :| 0 <= i < |s.threads| && !s.threads[i].AIdle? && !Blocked(s.threads[i], s.jobs, s.conns) {
      assert Moves(s, Act(i, NULL));
    } else {
      StuckIsIdle(cfg, s);
    }
  }

  lemma StuckIsIdle(cfg: Config, s: State)
    requires Inv(cfg, s) && Stuck(s)
    ensures !Busy(s)
    ensures s.jobs.taken == s.jobs.accepted && multiset(s.conns.list) == multiset(cfg.pool) + s.conns.extra
  {
    hide Total;
    StuckWaits(cfg, s);
    WaitersHaveNothing(s.threads);
    assert multiset(s.conns.list) + multiset{} == multiset(s.conns.list);
    forall i | 0 <= i < |s.threads|
      ensures Resting(s.threads[i])
    {
      if s.threads[i].CWait? {
        PoolNonempty(cfg, s, i);
      }
    }
    var w := FindWorker(s.threads);
    assert s.threads[w].WWait?;
    assert s.jobs.sem == 0;
    assert s.jobs.taken + [] == s.jobs.taken;
  }

  /** An upper bound on the steps that are left if nothing new arrives. */
  ghost function Measure(s: State): nat { Total(s.threads).rank + CYCLE * s.jobs.sem }

  lemma RankFalls(cfg: Config, pc: Pc, j: Jobs, c: Conns, request: nat)
    requires !Blocked(pc, j, c) && !pc.AIdle?
    ensures var n := Step(cfg, pc, j, c, request); Rank(n.pc) + CYCLE * n.jobs.sem < Rank(pc) + CYCLE * j.sem
  {
    if IsAppender(pc) {
      AppendFalls(cfg, pc, j, c, request);
    } else if IsTaking(pc) {
      TakeFalls(pc, j, c);
    } else if IsAcquiring(pc) {
      AcquireFalls(cfg, pc, j, c);
    } else {
      ReleaseFalls(pc, j, c);
    }
  }

  lemma AppendFalls(cfg: Config, pc: Pc, j: Jobs, c: Conns, request: nat)
    requires IsAppender(pc) && !Blocked(pc, j, c) && !pc.AIdle?
    ensures var n := AppendStep(cfg, pc, j, c, request); Rank(n.pc) + CYCLE * n.jobs.sem < Rank(pc) + CYCLE * j.sem
  {
  }

  lemma TakeFalls(pc: Pc, j: Jobs, c: Conns)
    requires IsTaking(pc) && !Blocked(pc, j, c)
    ensures var n := TakeStep(pc, j, c); Rank(n.pc) + CYCLE * n.jobs.sem < Rank(pc) + CYCLE * j.sem
  {
  }

  lemma AcquireFalls(cfg: Config, pc: Pc, j: Jobs, c: Conns)
    requires IsAcquiring(pc) && !Blocked(pc, j, c)
    ensures var n := AcquireStep(cfg, pc, j, c); Rank(n.pc) < Rank(pc) && n.jobs == j
  {
  }

  lemma ReleaseFalls(pc: Pc, j: Jobs, c: Conns)
    requires IsReleasing(pc) && !Blocked(pc, j, c)
    ensures var n := ReleaseStep(pc, j, c); Rank(n.pc) < Rank(pc) && n.jobs == j
  {
  }

  lemma MeasureFalls(cfg: Config, s: State, a: Act)
    requires Moves(s, a)
    ensures Measure(Next(cfg, s, a)) < Measure(s)
  {
    hide Total, Others, Rank, Step, Blocked;
    var n := Step(cfg, s.threads[a.thread], s.jobs, s.conns, a.request);
    RankFalls(cfg, s.threads[a.thread], s.jobs, s.conns, a.request);
    TotalUpdate(s.threads, a.thread, n.pc);
  }

  ghost predicate NoArrivals(cfg: Config, s: State, acts: seq<Act>)
    requires Possible(cfg, s, acts)
    decreases |acts|
  {
    acts != [] ==> Moves(s, acts[0]) && NoArrivals(cfg, Next(cfg, s, acts[0]), acts[1..])
  }

  /** The backlog drains under every schedule: without new arrivals a run has at most Measure(s)
      steps, and one that cannot go on has dispatched every request it accepted and given every
      connection back. */
  lemma {:induction false} Drains(cfg: Config, s: State, acts: seq<Act>)
    requires Inv(cfg, s) && Possible(cfg, s, acts) && NoArrivals(cfg, s, acts)
    ensures var t := Run(cfg, s, acts);
      && |acts| + Measure(t) <= Measure(s)
      && (Stuck(t) ==> t.jobs.taken == t.jobs.accepted && multiset(t.conns.list) == multiset(cfg.pool) + t.conns.extra)
    decreases |acts|
  {
    hide Inv, Can, Moves, Next, Measure, Stuck;
    if acts == [] {
      if Stuck(s) { StuckIsIdle(cfg, s); }
    } else {
      MovesCan(s, acts[0]);
      MeasureFalls(cfg, s, acts[0]);
      NextKeepsInv(cfg, s, acts[0]);
      Drains(cfg, Next(cfg, s, acts[0]), acts[1..]);
    }
  }

  lemma MovesCan(s: State, a: Act)
    requires Moves(s, a)
    ensures Can(s, a)
  {
  }

  // ---------- states that are reached ----------

  ghost predicate Reached(cfg: Config, from: State, s: State) {
    exists acts :: Possible(cfg, from, acts) && Run(cfg, from, acts) == s
  }

  lemma {:induction false} RunFurther(cfg: Config, s: State, acts: seq<Act>, a: Act)
    requires Possible(cfg, s, acts) && Can(Run(cfg, s, acts), a)
    ensures Possible(cfg, s, acts + [a]) && Run(cfg, s, acts + [a]) == Next(cfg, Run(cfg, s, acts), a)
    decreases |acts|
  {
    hide Next, Can;
    if acts == [] {
      assert [] + [a] == [a] && [a][1..] == [];
    } else {
      RunFurther(cfg, Next(cfg, s, acts[0]), acts[1..], a);
      assert (acts + [a])[1..] == acts[1..] + [a];
    }
  }

  lemma Go(cfg: Config, from: State, s: State, thread: nat, request: nat) returns (t: State)
    requires Reached(cfg, from, s) && Can(s, Act(thread, request))
    ensures t == Next(cfg, s, Act(thread, request)) && Reached(cfg, from, t)
  {
    hide Next, Can;
    t := Next(cfg, s, Act(thread, request));
    var acts :| Possible(cfg, from, acts) && Run(cfg, from, acts) == s;
    RunFurther(cfg, from, acts, Act(thread, request));
  }

  lemma ReachedStart(cfg: Config, s: State)
    ensures Reached(cfg, s, s)
  {
    assert Possible(cfg, s, []) && Run(cfg, s, []) == s;
  }

  /** One whole call of append(). */
  lemma Appended(cfg: Config, from: State, s: State, i: nat, request: nat) returns (t: State)
    requires Reached(cfg, from, s) && i < |s.threads| && s.threads[i].AIdle?
    requires !s.jobs.locked && |s.jobs.queue| <= cfg.max
    ensures Reached(cfg, from, t) && t.threads == s.threads && t.conns == s.conns
    ensures t.jobs == s.jobs.(queue := s.jobs.queue + [request], accepted := s.jobs.accepted + [request],
                              sem := s.jobs.sem + 1)
  {
    hide Reached;
    t := Go(cfg, from, s, i, request);
    t := Go(cfg, from, t, i, request);
    t := Go(cfg, from, t, i, request);
    t := Go(cfg, from, t, i, request);
    t := Go(cfg, from, t, i, request);
    t := Go(cfg, from, t, i, request);
    assert t.threads == s.threads;
  }

  lemma {:induction false} Fill(cfg: Config, from: State, n: nat) returns (t: State)
    requires from.threads != [] && from.threads[0].AIdle? && from.jobs == Jobs([], 0, false, [], [])
    requires n <= cfg.max + 1
    ensures Reached(cfg, from, t) && t.threads == from.threads && |t.jobs.queue| == n && !t.jobs.locked
  {
    if n == 0 {
      t := from;
      ReachedStart(cfg, from);
    } else {
      t := Fill(cfg, from, n - 1);
      t := Appended(cfg, from, t, 0, NULL);
    }
  }

  /** The bound on the queue is attained, by one more than max_requests, whatever that is. */
  lemma BoundAttained(cfg: Config, appenders: nat, workers: nat) returns (t: State)
    requires appenders > 0
    ensures Reached(cfg, Initial(cfg, appenders, workers), t) && |t.jobs.queue| == cfg.max + 1
  {
    hide Reached;
    t := Fill(cfg, Initial(cfg, appenders, workers), cfg.max + 1);
  }

  /** One turn of the coded worker up to the connection, ... */
  lemma Acquired(cfg: Config, from: State, s: State, i: nat) returns (t: State)
    requires Reached(cfg, from, s) && i < |s.threads| && s.threads[i].WWait? && !s.jobs.locked && !s.conns.locked
    requires s.jobs.sem > 0 && s.jobs.queue != [] && s.jobs.queue[0] != NULL
    requires s.conns.sem > 0 && s.conns.list != [] && s.conns.list[0] != NULL
    ensures Reached(cfg, from, t) && t.threads == s.threads[i := Process(s.jobs.queue[0], s.conns.list[0])]
    ensures t.conns == s.conns.(list := s.conns.list[1..], sem := s.conns.sem - 1,
                                free := s.conns.free - 1, cur := s.conns.cur + 1)
    ensures t.jobs == s.jobs.(queue := s.jobs.queue[1..], sem := s.jobs.sem - 1,
                              taken := s.jobs.taken + [s.jobs.queue[0]])
  {
    hide Reached, AppendStep, ReleaseStep;
    t := Go(cfg, from, s, i, NULL);
    t := Go(cfg, from, t, i, NULL);
    t := Go(cfg, from, t, i, NULL);
    t := Go(cfg, from, t, i, NULL);
    t := Go(cfg, from, t, i, NULL);
    t := Go(cfg, from, t, i, NULL);
    t := Go(cfg, from, t, i, NULL);
    t := Go(cfg, from, t, i, NULL);
    t := Go(cfg, from, t, i, NULL);
    t := Go(cfg, from, t, i, NULL);
    t := Go(cfg, from, t, i, NULL);
    t := Go(cfg, from, t, i, NULL);
    assert t.threads == s.threads[i := Process(s.jobs.queue[0], s.conns.list[0])];
  }

  lemma PutBack(cfg: Config, from: State, s: State, i: nat) returns (t: State)
    requires Reached(cfg, from, s) && i < |s.threads| && s.threads[i].RLock? && !s.conns.locked
    ensures Reached(cfg, from, t)
    ensures var x, last := s.threads[i].con, s.threads[i].last;
      && t.threads == s.threads[i := RFree(x, last)] && t.jobs == s.jobs
      && t.conns == s.conns.(list := s.conns.list + [x], locked := true,
                             extra := if last then s.conns.extra else s.conns.extra + multiset{x})
  {
    hide Reached, AppendStep, TakeStep, AcquireStep;
    t := Go(cfg, from, s, i, NULL);
    t := Go(cfg, from, t, i, NULL);
    assert t.threads == s.threads[i := RFree(s.threads[i].con, s.threads[i].last)];
  }

  /** ... and one release. */
  lemma Released(cfg: Config, from: State, s: State, i: nat) returns (t: State)
    requires Reached(cfg, from, s) && i < |s.threads| && s.threads[i].RLock? && !s.conns.locked
    ensures Reached(cfg, from, t)
    ensures var x, last := s.threads[i].con, s.threads[i].last;
      && t.threads == s.threads[i := if last then WWait else RLock(x, true)]
      && t.conns == s.conns.(list := s.conns.list + [x], sem := s.conns.sem + 1,
                             free := s.conns.free + 1, cur := s.conns.cur - 1,
                             extra := if last then s.conns.extra else s.conns.extra + multiset{x})
  {
    hide Reached, AppendStep, TakeStep, AcquireStep;
    t := PutBack(cfg, from, s, i);
    var extra := t.conns.extra;
    t := Go(cfg, from, t, i, NULL);
    t := Go(cfg, from, t, i, NULL);
    t := Go(cfg, from, t, i, NULL);
    t := Go(cfg, from, t, i, NULL);
    assert t.conns.extra == extra;
    assert t.threads == s.threads[i := if s.threads[i].last then WWait else RLock(s.threads[i].con, true)];
  }

  /** The worker as coded: a pool of one connection, one request, and the connection is in the list
      twice, while CurConn has gone below zero. */
  lemma ListedTwice(max: nat, x: nat, request: nat) returns (t: State)
    requires x != NULL && request != NULL
    ensures Reached(Config(max, [x], true), Initial(Config(max, [x], true), 1, 1), t)
    ensures t.conns.list == [x, x] && t.conns.cur == -1
  {
    hide Reached;
    var cfg := Config(max, [x], true);
    var from := Initial(cfg, 1, 1);
    ReachedStart(cfg, from);
    t := Appended(cfg, from, from, 0, request);
    t := Acquired(cfg, from, t, 1);
    t := Go(cfg, from, t, 1, NULL);
    t := Released(cfg, from, t, 1);
    t := Released(cfg, from, t, 1);
  }

  /** So everything above holds of every state that is reached. */
  lemma ReachedInv(cfg: Config, appenders: nat, workers: nat, s: State)
    requires Sound(cfg, workers) && Reached(cfg, Initial(cfg, appenders, workers), s)
    ensures Inv(cfg, s)
  {
    hide Inv, Possible, Run;
    var from := Initial(cfg, appenders, workers);
    var acts :| Possible(cfg, from, acts) && Run(cfg, from, acts) == s;
    InitialInv(cfg, appenders, workers);
    EveryRunKeepsInv(cfg, from, acts);
  }

  // ---------- requests that get no connection ----------

  lemma NextWorkers(cfg: Config, s: State, a: Act)
    requires Can(s, a)
    ensures Total(Next(cfg, s, a).threads).use.workers == Total(s.threads).use.workers
  {
    hide Total, Others, Rank, Holding, QueueShare, PoolShare, Step;
    var n := Step(cfg, s.threads[a.thread], s.jobs, s.conns, a.request);
    KindStays(cfg, s.threads[a.thread], s.jobs, s.conns, a.request);
    TotalUpdate(s.threads, a.thread, n.pc);
  }

  /** A worker stays a worker. */
  lemma KindStays(cfg: Config, pc: Pc, j: Jobs, c: Conns, request: nat)
    requires !Blocked(pc, j, c)
    ensures IsAppender(Step(cfg, pc, j, c, request).pc) == IsAppender(pc)
  {
  }

  lemma {:induction false} HeldAtMost(threads: seq<Pc>)
    ensures |Total(threads).held| <= Total(threads).use.workers
  {
    hide Total, QueueShare, PoolShare, Holding;
    TotalEmpty();
    if threads != [] {
      SharesUnfold(threads);
      HoldingIs(threads[0]);
      HeldAtMost(threads[1..]);
    }
  }

  /** With a connection for every worker, one that holds none finds one in the list. */
  lemma ListNotEmpty(cfg: Config, s: State, i: nat)
    requires Inv(cfg, s) && Total(s.threads).use.workers <= |cfg.pool|
    requires i < |s.threads| && s.threads[i].CSize?
    ensures s.conns.list != []
  {
    hide Total, Others, JobsInv, ConnsInv;
    ShareWithin(s.threads, i);
    OthersUnfolds(s.threads, i);
    HeldAtMost(s.threads[..i]);
    HeldAtMost(s.threads[i+1..]);
    var held := Total(s.threads).held;
    assert |held| < |cfg.pool|;
    assert |multiset(s.conns.list) + held| == |multiset(cfg.pool) + s.conns.extra|;
  }

  predicate Without(pc: Pc) { pc.Process? && pc.con == NULL }

  ghost predicate NobodyWithout(s: State) {
    forall i :: 0 <= i < |s.threads| ==> !Without(s.threads[i])
  }

  lemma NextNobodyWithout(cfg: Config, s: State, a: Act)
    requires Inv(cfg, s) && Total(s.threads).use.workers <= |cfg.pool|
    requires NobodyWithout(s) && Can(s, a)
    ensures NobodyWithout(Next(cfg, s, a))
  {
    hide Total, Inv;
    var pc := s.threads[a.thread];
    if pc.CSize? {
      ListNotEmpty(cfg, s, a.thread);
    } else if pc.CUnlock? {
      HeldNotNull(cfg, s, a.thread);
    }
    if Without(Step(cfg, pc, s.jobs, s.conns, a.request).pc) {
      NullFrom(cfg, pc, s.jobs, s.conns, a.request);
      assert false;
    }
  }

  lemma HeldNotNull(cfg: Config, s: State, i: nat)
    requires Inv(cfg, s) && i < |s.threads| && s.threads[i].CUnlock?
    ensures s.threads[i].con != NULL
  {
    hide Total, JobsInv, ConnsInv, UseInv;
    HeldCount(s.threads, i);
    HeldIsPooled(cfg, s.conns.list, Total(s.threads).held, s.conns.extra, s.threads[i].con);
  }

  lemma NullFrom(cfg: Config, pc: Pc, j: Jobs, c: Conns, request: nat)
    requires !Blocked(pc, j, c) && Without(Step(cfg, pc, j, c, request).pc)
    ensures (pc.CSize? && c.list == []) || (pc.CUnlock? && pc.con == NULL)
  {
  }

  lemma {:induction false} RunNobodyWithout(cfg: Config, s: State, acts: seq<Act>)
    requires Inv(cfg, s) && Total(s.threads).use.workers <= |cfg.pool|
    requires NobodyWithout(s) && Possible(cfg, s, acts)
    ensures NobodyWithout(Run(cfg, s, acts))
    decreases |acts|
  {
    hide Inv, Total, NobodyWithout, Can, Next;
    if acts != [] {
      NextKeepsInv(cfg, s, acts[0]);
      NextWorkers(cfg, s, acts[0]);
      NextNobodyWithout(cfg, s, acts[0]);
      RunNobodyWithout(cfg, Next(cfg, s, acts[0]), acts[1..]);
    }
  }

  /** k workers, one after the other, have taken the first k connections and keep them. */
  ghost predicate Taken(cfg: Config, appenders: nat, workers: nat, k: nat, t: State) {
    && |t.threads| == appenders + workers && k <= workers && k <= |cfg.pool|
    && appenders > 0 && t.threads[0] == AIdle
    && (forall j :: appenders + k <= j < |t.threads| ==> t.threads[j] == WWait)
    && t.jobs.queue == [] && t.jobs.sem == 0 && !t.jobs.locked
    && t.conns.list == cfg.pool[k..] && t.conns.sem == |cfg.pool| - k && !t.conns.locked
  }

  lemma {:induction false} TakeMany(cfg: Config, appenders: nat, workers: nat, k: nat) returns (t: State)
    requires appenders > 0 && k <= workers && k <= |cfg.pool| && NULL !in cfg.pool
    ensures Reached(cfg, Initial(cfg, appenders, workers), t) && Taken(cfg, appenders, workers, k, t)
  {
    hide Reached;
    var from := Initial(cfg, appenders, workers);
    if k == 0 {
      t := from;
      ReachedStart(cfg, from);
    } else {
      t := TakeMany(cfg, appenders, workers, k - 1);
      t := Appended(cfg, from, t, 0, 1);
      assert t.conns.list[0] == cfg.pool[k-1] && cfg.pool[k-1] in cfg.pool;
      t := Acquired(cfg, from, t, appenders + k - 1);
      assert cfg.pool[k-1..][1..] == cfg.pool[k..];
    }
  }

  /** A worker that takes a request while the list is empty goes on without a connection. */
  lemma WithoutConnection(cfg: Config, from: State, s: State, i: nat) returns (t: State)
    requires Reached(cfg, from, s) && i < |s.threads| && s.threads[i].WWait? && !s.jobs.locked
    requires s.jobs.sem > 0 && s.jobs.queue != [] && s.jobs.queue[0] != NULL && s.conns.list == []
    ensures Reached(cfg, from, t) && |t.threads| == |s.threads| && Without(t.threads[i])
  {
    hide Reached, AppendStep, ReleaseStep;
    t := Go(cfg, from, s, i, NULL);
    t := Go(cfg, from, t, i, NULL);
    t := Go(cfg, from, t, i, NULL);
    t := Go(cfg, from, t, i, NULL);
    t := Go(cfg, from, t, i, NULL);
    t := Go(cfg, from, t, i, NULL);
  }

  ghost predicate SomebodyWithout(cfg: Config, appenders: nat, workers: nat) {
    exists s :: Reached(cfg, Initial(cfg, appenders, workers), s) && !NobodyWithout(s)
  }

  /** GetConnection hands out NULL when the list looks empty. Whichever worker it is, a request is
      processed without a connection in some run if and only if there are more workers than
      connections. */
  lemma WithoutExactly(cfg: Config, appenders: nat, workers: nat)
    requires Sound(cfg, workers) && appenders > 0
    ensures SomebodyWithout(cfg, appenders, workers) <==> workers > |cfg.pool|
  {
    hide Reached, Inv, Possible, Run, Total, Initial;
    var from := Initial(cfg, appenders, workers);
    if workers > |cfg.pool| {
      var t := TakeMany(cfg, appenders, workers, |cfg.pool|);
      t := Appended(cfg, from, t, 0, 1);
      t := WithoutConnection(cfg, from, t, appenders + |cfg.pool|);
    } else if s :| Reached(cfg, from, s) && !NobodyWithout(s) {
      NeverWithout(cfg, appenders, workers, s);
    }
  }

  lemma NeverWithout(cfg: Config, appenders: nat, workers: nat, s: State)
    requires Sound(cfg, workers) && workers <= |cfg.pool|
    requires Reached(cfg, Initial(cfg, appenders, workers), s)
    ensures NobodyWithout(s)
  {
    hide Inv, Possible, Run, Total;
    var from := Initial(cfg, appenders, workers);
    var acts :| Possible(cfg, from, acts) && Run(cfg, from, acts) == s;
    InitialInv(cfg, appenders, workers);
    TotalIdle(appenders, workers);
    RunNobodyWithout(cfg, from, acts);
  }
}
