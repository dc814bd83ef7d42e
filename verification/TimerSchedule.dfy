/** What the sorted timer list does, on sequences: each operation as a function, and what holds
    over every run of operations. */
module TimerSchedule {

  datatype Entry<T> = Entry(timer: T, expire: int)

  ghost predicate Sorted<T>(es: seq<Entry<T>>) {
    forall i, j :: 0 <= i < j < |es| ==> es[i].expire <= es[j].expire
  }

  /** The private add_timer: the first entry from `k` on that expires later. */
  function InsertPos<T>(es: seq<Entry<T>>, k: nat, expire: int): (p: nat)
    requires k <= |es|
    ensures k <= p <= |es|
    decreases |es| - k
  {
    if k == |es| || expire < es[k].expire then k else InsertPos(es, k + 1, expire)
  }

  function InsertAt<T>(es: seq<Entry<T>>, p: nat, e: Entry<T>): seq<Entry<T>>
    requires p <= |es|
  {
    es[..p] + [e] + es[p..]
  }

  function Remove<T>(es: seq<Entry<T>>, i: nat): seq<Entry<T>>
    requires i < |es|
  {
    es[..i] + es[i+1..]
  }

  function Add<T>(es: seq<Entry<T>>, e: Entry<T>): seq<Entry<T>> {
    if es == [] then [e]
    else if e.expire < es[0].expire then [e] + es
    else InsertAt(es, InsertPos(es, 1, e.expire), e)
  }

  /** adjust_timer for the i-th timer, whose expiry the caller has already changed. It looks for
      a new place only behind the next timer. */
  function Adjust<T>(es: seq<Entry<T>>, i: nat): seq<Entry<T>>
    requires i < |es|
  {
    if i == |es| - 1 || es[i].expire < es[0].expire then es
    else
      var rest := Remove(es, i);
      InsertAt(rest, InsertPos(rest, i + 1, es[i].expire), es[i])
  }

  /** How many timers tick() takes off the front. */
  function DueCount<T>(es: seq<Entry<T>>, now: int): (n: nat)
    ensures n <= |es|
    ensures forall k :: 0 <= k < n ==> es[k].expire <= now
    ensures n < |es| ==> now < es[n].expire
  {
    if es == [] || now < es[0].expire then 0
    else
      assert forall k :: 1 <= k < |es| ==> es[k] == es[1..][k-1];
      1 + DueCount(es[1..], now)
  }

  function Due<T>(es: seq<Entry<T>>, now: int): seq<Entry<T>> { es[..DueCount(es, now)] }

  function Rest<T>(es: seq<Entry<T>>, now: int): seq<Entry<T>> { es[DueCount(es, now)..] }

  // ---------- one operation ----------

  lemma {:induction false} InsertPosMeans<T>(es: seq<Entry<T>>, k: nat, expire: int)
    requires k <= |es|
    ensures var p := InsertPos(es, k, expire);
      && (forall m :: k <= m < p ==> es[m].expire <= expire)
      && (p < |es| ==> expire < es[p].expire)
    decreases |es| - k
  {
    if k < |es| && es[k].expire <= expire {
      InsertPosMeans(es, k + 1, expire);
    }
  }

  /** A timer is put behind everything that expires no later and before everything that expires
      later, so the list stays sorted and equal expiries stay in the order they came. */
  lemma AddMeans<T>(es: seq<Entry<T>>, e: Entry<T>) returns (p: nat)
    requires Sorted(es)
    ensures p <= |es| && Add(es, e) == InsertAt(es, p, e)
    ensures forall m :: 0 <= m < p ==> es[m].expire <= e.expire
    ensures forall m :: p <= m < |es| ==> e.expire < es[m].expire
    ensures Sorted(Add(es, e)) && multiset(Add(es, e)) == multiset(es) + multiset{e}
  {
    p := AddPlace(es, e);
    assert Sorted(InsertAt(es, p, e)) by {
      InsertSorted(es, p, e);
    }
    InsertMultiset(es, p, e);
  }

  /** On any list, sorted or not: p is the place before the first entry from the k-th on that expires
      later than x. */
  ghost predicate FirstLater<T>(es: seq<Entry<T>>, k: nat, x: int, p: nat) {
    && k <= p <= |es|
    && (forall m :: k <= m < p ==> es[m].expire <= x)
    && (p < |es| ==> x < es[p].expire)
  }

  lemma FirstLaterFound<T>(es: seq<Entry<T>>, k: nat, x: int, p: nat)
    requires FirstLater(es, k, x, p)
    ensures InsertPos(es, k, x) == p
  {
    InsertPosMeans(es, k, x);
    var q := InsertPos(es, k, x);
    assert !(q < p) && !(p < q);
  }

  /** Whatever the order of the list, a new timer goes before the first that expires later. */
  lemma AddExactly<T>(es: seq<Entry<T>>, e: Entry<T>, p: nat)
    requires FirstLater(es, 0, e.expire, p)
    ensures Add(es, e) == es[..p] + [e] + es[p..]
  {
    if es != [] && p > 0 {
      FirstLaterFound(es, 1, e.expire, p);
    }
  }

  /** And whatever the order of the list, an adjusted timer stays where it is if it is the last or
      expires before the head; any other goes behind its successor and from there before the first
      that expires later. */
  lemma AdjustPlace<T>(es: seq<Entry<T>>, i: nat, p: nat)
    requires i < |es|
    ensures i == |es| - 1 || es[i].expire < es[0].expire ==> Adjust(es, i) == es
    ensures i < |es| - 1 && es[0].expire <= es[i].expire && FirstLater(es, i + 2, es[i].expire, p) ==>
      Adjust(es, i) == es[..i] + es[i+1..p] + [es[i]] + es[p..]
  {
    if i < |es| - 1 && es[0].expire <= es[i].expire && FirstLater(es, i + 2, es[i].expire, p) {
      var rest := Remove(es, i);
      assert forall m :: i < m < |es| ==> rest[m-1] == es[m];
      FirstLaterFound(rest, i + 1, es[i].expire, p - 1);
      assert rest[..p-1] == es[..i] + es[i+1..p] && rest[p-1..] == es[p..];
    }
  }

  lemma AddPlace<T>(es: seq<Entry<T>>, e: Entry<T>) returns (p: nat)
    requires Sorted(es)
    ensures p <= |es| && Add(es, e) == InsertAt(es, p, e)
    ensures forall m :: 0 <= m < p ==> es[m].expire <= e.expire
    ensures forall m :: p <= m < |es| ==> e.expire < es[m].expire
  {
    if es == [] || e.expire < es[0].expire {
      p := 0;
      assert Add(es, e) == InsertAt(es, 0, e);
    } else {
      p := InsertPos(es, 1, e.expire);
      InsertPosMeans(es, 1, e.expire);
    }
  }

  lemma InsertSorted<T>(es: seq<Entry<T>>, p: nat, e: Entry<T>)
    requires Sorted(es) && p <= |es|
    requires forall m :: 0 <= m < p ==> es[m].expire <= e.expire
    requires forall m :: p <= m < |es| ==> e.expire < es[m].expire
    ensures Sorted(InsertAt(es, p, e))
  {
  }

  lemma InsertMultiset<T>(es: seq<Entry<T>>, p: nat, e: Entry<T>)
    requires p <= |es|
    ensures multiset(InsertAt(es, p, e)) == multiset(es) + multiset{e}
  {
    assert es == es[..p] + es[p..];
  }

  lemma RemoveMultiset<T>(es: seq<Entry<T>>, i: nat)
    requires i < |es|
    ensures multiset(Remove(es, i)) + multiset{es[i]} == multiset(es)
  {
    assert es == es[..i] + [es[i]] + es[i+1..];
  }

  /** Deleting keeps the order of the others. */
  lemma RemoveMeans<T>(es: seq<Entry<T>>, i: nat)
    requires i < |es| && Sorted(es)
    ensures Sorted(Remove(es, i)) && multiset(Remove(es, i)) + multiset{es[i]} == multiset(es)
  {
    RemoveMultiset(es, i);
  }

  /** Whether the i-th timer of a sorted list may be given the expiry x: the last one if that
      leaves it behind the one before, another one if it is at least its successor's. */
  predicate Adjustable<T>(es: seq<Entry<T>>, i: nat, x: int)
    requires i < |es|
  {
    if i == |es| - 1 then i == 0 || es[i-1].expire <= x else es[i+1].expire <= x
  }

  /** adjust_timer loses and makes up nothing, whatever the new expiry. */
  lemma AdjustMultiset<T>(es: seq<Entry<T>>, i: nat)
    requires i < |es|
    ensures multiset(Adjust(es, i)) == multiset(es)
  {
    if i != |es| - 1 && es[i].expire >= es[0].expire {
      var rest := Remove(es, i);
      RemoveMultiset(es, i);
      InsertMultiset(rest, InsertPos(rest, i + 1, es[i].expire), es[i]);
    }
  }

  lemma {:induction false} SkipSmaller<T>(es: seq<Entry<T>>, k: nat, j: nat, expire: int)
    requires k <= j <= |es| && forall m :: k <= m < j ==> es[m].expire <= expire
    ensures InsertPos(es, k, expire) == InsertPos(es, j, expire)
    decreases j - k
  {
    if k < j {
      SkipSmaller(es, k + 1, j, expire);
    }
  }

  /** With an admissible expiry, adjusting is deleting the timer and adding it anew. */
  lemma AdjustIsReadd<T>(es: seq<Entry<T>>, i: nat, e: Entry<T>)
    requires Sorted(es) && i < |es| && Adjustable(es, i, e.expire)
    ensures Adjust(es[i := e], i) == Add(Remove(es, i), e)
  {
    var fs := es[i := e];
    var rest := Remove(es, i);
    assert Remove(fs, i) == rest;
    if i == |es| - 1 {
      if i > 0 {
        SkipSmaller(rest, 1, |rest|, e.expire);
        assert InsertAt(rest, |rest|, e) == fs;
      }
    } else {
      assert i > 0 ==> rest[0] == es[0];
      assert forall m :: 0 <= m < i + 1 ==> rest[m].expire <= e.expire;
      SkipSmaller(rest, 1, i + 1, e.expire);
    }
  }

  /** adjust_timer does what it is for - the timer ends up where adding it anew would put it - if
      and only if the new expiry is admissible; and exactly then the list stays sorted. */
  lemma AdjustExactly<T>(es: seq<Entry<T>>, i: nat, e: Entry<T>)
    requires Sorted(es) && i < |es|
    ensures Adjust(es[i := e], i) == Add(Remove(es, i), e) <==> Adjustable(es, i, e.expire)
    ensures Sorted(Adjust(es[i := e], i)) <==> Adjustable(es, i, e.expire)
  {
    hide Sorted, Adjust, Add, Remove;
    RemoveMeans(es, i);
    var p := AddMeans(Remove(es, i), e);
    if Adjustable(es, i, e.expire) {
      AdjustIsReadd(es, i, e);
    } else {
      AdjustSpoils(es, i, e);
    }
  }

  lemma AdjustSpoils<T>(es: seq<Entry<T>>, i: nat, e: Entry<T>)
    requires Sorted(es) && i < |es| && !Adjustable(es, i, e.expire)
    ensures !Sorted(Adjust(es[i := e], i))
  {
    hide Sorted, InsertPos;
    var fs := es[i := e];
    if i == |es| - 1 || e.expire < fs[0].expire {
      assert Adjust(fs, i) == fs;
      if i == |es| - 1 {
        OutOfOrder(fs, i - 1, i);
      } else {
        OutOfOrder(fs, 0, i);
      }
    } else {
      var rest := Remove(fs, i);
      var q := InsertPos(rest, i + 1, e.expire);
      assert rest[i] == es[i+1];
      OutOfOrder(InsertAt(rest, q, e), i, q);
    }
  }

  lemma OutOfOrder<T>(es: seq<Entry<T>>, i: nat, j: nat)
    requires i < j < |es| && es[i].expire > es[j].expire
    ensures !Sorted(es)
  {
  }

  /** Timers that expire at 1 and 10; the first is moved to 5 and lands behind the second. */
  lemma AdjustWitness()
    ensures var es := [Entry(0, 1), Entry(1, 10)];
      Adjust(es[0 := Entry(0, 5)], 0) == [Entry(1, 10), Entry(0, 5)]
  {
    var fs := [Entry(0, 5), Entry(1, 10)];
    assert [Entry(0, 1), Entry(1, 10)][0 := Entry(0, 5)] == fs;
    assert Remove(fs, 0) == [Entry(1, 10)];
  }

  /** On a sorted list tick() fires exactly the timers whose time has come, in ascending order,
      and leaves the others in theirs. */
  lemma TickMeans<T>(es: seq<Entry<T>>, now: int)
    requires Sorted(es)
    ensures Due(es, now) + Rest(es, now) == es && Sorted(Due(es, now)) && Sorted(Rest(es, now))
    ensures forall k :: 0 <= k < |Due(es, now)| ==> Due(es, now)[k].expire <= now
    ensures forall k :: 0 <= k < |Rest(es, now)| ==> now < Rest(es, now)[k].expire
  {
    hide DueCount, Sorted;
    var n := DueCount(es, now);
    SortedSlice(es, 0, n);
    SortedSlice(es, n, |es|);
    assert es[..n] == es[0..n] && es[n..|es|] == es[n..];
    forall k | 0 <= k < |es| - n
      ensures now < es[n..][k].expire
    {
      SortedAt(es, n, n + k);
    }
  }

  lemma SortedSlice<T>(es: seq<Entry<T>>, a: nat, b: nat)
    requires Sorted(es) && a <= b <= |es|
    ensures Sorted(es[a..b])
  {
  }

  lemma SortedAt<T>(es: seq<Entry<T>>, i: nat, j: nat)
    requires Sorted(es) && i <= j < |es|
    ensures es[i].expire <= es[j].expire
  {
  }

  // ---------- what a timer is does not matter ----------

  /** The same list with other names for the timers: nodes, tags, or pairs of the two. */
  function Relabel<T, U>(es: seq<Entry<T>>, f: T -> U): (fs: seq<Entry<U>>)
    ensures |fs| == |es|
    ensures forall k :: 0 <= k < |es| ==> fs[k] == Entry(f(es[k].timer), es[k].expire)
  {
    seq(|es|, k requires 0 <= k < |es| => Entry(f(es[k].timer), es[k].expire))
  }

  lemma {:induction false} InsertPosBlind<T, U>(es: seq<Entry<T>>, fs: seq<Entry<U>>, k: nat, x: int)
    requires k <= |es| == |fs| && forall m :: 0 <= m < |es| ==> es[m].expire == fs[m].expire
    ensures InsertPos(es, k, x) == InsertPos(fs, k, x)
    decreases |es| - k
  {
    if k < |es| && es[k].expire <= x {
      InsertPosBlind(es, fs, k + 1, x);
    }
  }

  lemma {:induction false} DueCountBlind<T, U>(es: seq<Entry<T>>, fs: seq<Entry<U>>, now: int)
    requires |es| == |fs| && forall m :: 0 <= m < |es| ==> es[m].expire == fs[m].expire
    ensures DueCount(es, now) == DueCount(fs, now)
  {
    if es != [] && es[0].expire <= now {
      DueCountBlind(es[1..], fs[1..], now);
    }
  }

  lemma InsertRelabels<T, U>(es: seq<Entry<T>>, f: T -> U, p: nat, e: Entry<T>)
    requires p <= |es|
    ensures Relabel(InsertAt(es, p, e), f) == InsertAt(Relabel(es, f), p, Entry(f(e.timer), e.expire))
  {
  }

  lemma AddRelabels<T, U>(es: seq<Entry<T>>, f: T -> U, e: Entry<T>)
    ensures Relabel(Add(es, e), f) == Add(Relabel(es, f), Entry(f(e.timer), e.expire))
  {
    hide InsertAt, InsertPos, Relabel;
    var fs, g := Relabel(es, f), Entry(f(e.timer), e.expire);
    if es == [] || e.expire < es[0].expire {
      InsertRelabels(es, f, 0, e);
      FrontIsInsert(es, e);
      FrontIsInsert(fs, g);
    } else {
      InsertPosBlind(es, fs, 1, e.expire);
      InsertRelabels(es, f, InsertPos(es, 1, e.expire), e);
    }
  }

  lemma FrontIsInsert<T>(es: seq<Entry<T>>, e: Entry<T>)
    requires es == [] || e.expire < es[0].expire
    ensures Add(es, e) == InsertAt(es, 0, e)
  {
  }

  lemma RemoveRelabels<T, U>(es: seq<Entry<T>>, f: T -> U, i: nat)
    requires i < |es|
    ensures Relabel(Remove(es, i), f) == Remove(Relabel(es, f), i)
  {
  }

  lemma AdjustRelabels<T, U>(es: seq<Entry<T>>, f: T -> U, i: nat)
    requires i < |es|
    ensures Relabel(Adjust(es, i), f) == Adjust(Relabel(es, f), i)
  {
    hide InsertAt, InsertPos, Relabel, Remove;
    if i < |es| - 1 && es[0].expire <= es[i].expire {
      var rest := Remove(es, i);
      RemoveRelabels(es, f, i);
      RemoveLength(es, i);
      RemoveLength(Relabel(es, f), i);
      InsertPosBlind(rest, Relabel(rest, f), i + 1, es[i].expire);
      InsertRelabels(rest, f, InsertPos(rest, i + 1, es[i].expire), es[i]);
    }
  }

  lemma RemoveLength<T>(es: seq<Entry<T>>, i: nat)
    requires i < |es|
    ensures |Remove(es, i)| == |es| - 1
  {
  }

  /** The operations look at nothing but expiries, so what a run does to names it does to nodes:
      each operation on the relabelled list is the relabelled operation. */
  lemma OperationsRelabel<T, U>(es: seq<Entry<T>>, f: T -> U, e: Entry<T>, i: nat, now: int)
    ensures Relabel(Add(es, e), f) == Add(Relabel(es, f), Entry(f(e.timer), e.expire))
    ensures i < |es| ==> Relabel(Remove(es, i), f) == Remove(Relabel(es, f), i)
    ensures i < |es| ==>
      Relabel(Adjust(es[i := e], i), f) == Adjust(Relabel(es, f)[i := Entry(f(e.timer), e.expire)], i)
    ensures Relabel(Due(es, now), f) == Due(Relabel(es, f), now)
    ensures Relabel(Rest(es, now), f) == Rest(Relabel(es, f), now)
  {
    hide Add, Adjust, Remove, DueCount, Relabel;
    AddRelabels(es, f, e);
    if i < |es| {
      RemoveRelabels(es, f, i);
      AdjustRelabels(es[i := e], f, i);
      assert Relabel(es[i := e], f) == Relabel(es, f)[i := Entry(f(e.timer), e.expire)];
    }
    DueRelabels(es, f, now);
  }

  lemma DueRelabels<T, U>(es: seq<Entry<T>>, f: T -> U, now: int)
    ensures Relabel(Due(es, now), f) == Due(Relabel(es, f), now)
    ensures Relabel(Rest(es, now), f) == Rest(Relabel(es, f), now)
  {
    hide DueCount, Relabel;
    DueCountBlind(es, Relabel(es, f), now);
    var n := DueCount(es, now);
    assert Relabel(es[..n], f) == Relabel(es, f)[..n];
    assert Relabel(es[n..], f) == Relabel(es, f)[n..];
  }

  // ---------- runs ----------

  /** A timer in a run: its name, and the number of the operation that last placed it. */
  datatype Tag = Tag(id: nat, stamp: nat)

  datatype Op = AddOp(id: nat, expire: int) | AdjustOp(id: nat, expire: int) | DelOp(id: nat) | TickOp(now: int)

  /** A callback: which timer, and the time tick() saw. */
  datatype Firing = Firing(tag: Tag, expire: int, now: int)

  /** The list, the number of operations so far, and the callbacks so far. */
  datatype State = State(list: seq<Entry<Tag>>, clock: nat, log: seq<Firing>)

  function IndexOf(es: seq<Entry<Tag>>, id: nat): (i: nat)
    ensures i <= |es|
    ensures i < |es| ==> es[i].timer.id == id
    ensures i == |es| ==> forall k :: 0 <= k < |es| ==> es[k].timer.id != id
  {
    if es == [] || es[0].timer.id == id then 0
    else
      var r := IndexOf(es[1..], id);
      assert forall k :: 1 <= k < |es| ==> es[k] == es[1..][k-1];
      1 + r
  }

  /** What the callers keep to: a timer is added once, and adjusted or deleted while it is in the
      list. */
  predicate Permitted(s: State, op: Op) {
    match op
    case AddOp(id, _) => IndexOf(s.list, id) == |s.list|
    case AdjustOp(id, _) => IndexOf(s.list, id) < |s.list|
    case DelOp(id) => IndexOf(s.list, id) < |s.list|
    case TickOp(_) => true
  }

  /** What keeps the list in order: a new expiry is admissible, too. */
  predicate Allowed(s: State, op: Op) {
    Permitted(s, op) && (op.AdjustOp? ==> Adjustable(s.list, IndexOf(s.list, op.id), op.expire))
  }

  function Fire(es: seq<Entry<Tag>>, now: int): (fs: seq<Firing>)
    ensures |fs| == |es|
  {
    seq(|es|, k requires 0 <= k < |es| => Firing(es[k].timer, es[k].expire, now))
  }

  function Next(s: State, op: Op): State
    requires Permitted(s, op)
  {
    var t := s.(clock := s.clock + 1);
    match op
    case AddOp(id, x) => t.(list := Add(s.list, Entry(Tag(id, s.clock), x)))
    case AdjustOp(id, x) =>
      var i := IndexOf(s.list, id);
      t.(list := Adjust(s.list[i := Entry(Tag(id, s.clock), x)], i))
    case DelOp(id) => t.(list := Remove(s.list, IndexOf(s.list, id)))
    case TickOp(now) => t.(list := Rest(s.list, now), log := s.log + Fire(Due(s.list, now), now))
  }

  ghost predicate AllPermitted(s: State, ops: seq<Op>)
    decreases |ops|
  {
    ops != [] ==> Permitted(s, ops[0]) && AllPermitted(Next(s, ops[0]), ops[1..])
  }

  ghost function Run(s: State, ops: seq<Op>): State
    requires AllPermitted(s, ops)
    decreases |ops|
  {
    if ops == [] then s else Run(Next(s, ops[0]), ops[1..])
  }

  ghost predicate AllAdjustable(s: State, ops: seq<Op>)
    requires AllPermitted(s, ops)
    decreases |ops|
  {
    ops != [] ==> Allowed(s, ops[0]) && AllAdjustable(Next(s, ops[0]), ops[1..])
  }

  ghost predicate AllAllowed(s: State, ops: seq<Op>) {
    AllPermitted(s, ops) && AllAdjustable(s, ops)
  }

  const EMPTY: State := State([], 0, [])

  // ---------- the reference: a stable priority queue ----------

  /** Each pending timer with its expiry and the number of the operation that placed it. */
  type Queue = map<nat, (int, nat)>

  function NextQueue(q: Queue, clock: nat, op: Op): Queue {
    match op
    case AddOp(id, x) => q[id := (x, clock)]
    case AdjustOp(id, x) => q[id := (x, clock)]
    case DelOp(id) => q - {id}
    case TickOp(now) => map id | id in q && now < q[id].0 :: q[id]
  }

  ghost function RunQueue(q: Queue, clock: nat, ops: seq<Op>): Queue
    decreases |ops|
  {
    if ops == [] then q else RunQueue(NextQueue(q, clock, ops[0]), clock + 1, ops[1..])
  }

  /** Earlier in the queue: a smaller expiry, or the same and placed before. */
  predicate Before(a: Entry<Tag>, b: Entry<Tag>) {
    a.expire < b.expire || (a.expire == b.expire && a.timer.stamp < b.timer.stamp)
  }

  ghost predicate Ordered(es: seq<Entry<Tag>>) {
    forall i, j :: 0 <= i < j < |es| ==> Before(es[i], es[j]) && es[i].timer.id != es[j].timer.id
  }

  ghost predicate Queued(es: seq<Entry<Tag>>, q: Queue, clock: nat) {
    forall e :: e in es ==>
      e.timer.stamp < clock && e.timer.id in q && q[e.timer.id] == (e.expire, e.timer.stamp)
  }

  ghost predicate Covers(es: seq<Entry<Tag>>, q: Queue) {
    forall id :: id in q ==> IndexOf(es, id) < |es|
  }

  /** The list is the queue in order. */
  ghost predicate Lists(es: seq<Entry<Tag>>, q: Queue, clock: nat) {
    Ordered(es) && Queued(es, q, clock) && Covers(es, q)
  }

  /** There is one list for a queue: the order leaves no choice. */
  lemma {:induction false} ListIsUnique(es: seq<Entry<Tag>>, fs: seq<Entry<Tag>>, q: Queue, clock: nat)
    requires Lists(es, q, clock) && Lists(fs, q, clock)
    ensures es == fs
    decreases |es|
  {
    hide Lists;
    if es == [] || fs == [] {
      EmptyOnly(es, q, clock);
      EmptyOnly(fs, q, clock);
    } else {
      FirstIsFirst(es, fs, q, clock);
      var r := q - {es[0].timer.id};
      TailLists(es, q, clock);
      TailLists(fs, q, clock);
      ListIsUnique(es[1..], fs[1..], r, clock);
      assert es == [es[0]] + es[1..] && fs == [fs[0]] + fs[1..];
    }
  }

  lemma EmptyOnly(es: seq<Entry<Tag>>, q: Queue, clock: nat)
    requires Lists(es, q, clock)
    ensures es == [] <==> q == map[]
  {
    if es != [] {
      assert es[0] in es;
    }
  }

  /** The first of either list is in the other, where nothing comes before it. */
  lemma FirstIsFirst(es: seq<Entry<Tag>>, fs: seq<Entry<Tag>>, q: Queue, clock: nat)
    requires Lists(es, q, clock) && Lists(fs, q, clock) && es != [] && fs != []
    ensures es[0] == fs[0]
  {
    hide IndexOf;
    assert es[0] in es && fs[0] in fs;
    var a := IndexOf(fs, es[0].timer.id);
    assert fs[a] in fs && fs[a] == es[0];
    var b := IndexOf(es, fs[0].timer.id);
    assert es[b] in es && es[b] == fs[0];
    assert !(0 < a) || !(0 < b);
  }

  lemma TailLists(es: seq<Entry<Tag>>, q: Queue, clock: nat)
    requires Lists(es, q, clock) && es != []
    ensures Lists(es[1..], q - {es[0].timer.id}, clock)
  {
    hide Lists;
    assert Remove(es, 0) == es[1..];
    RemoveLists(es, q, clock, 0);
  }

  lemma IndexFound(es: seq<Entry<Tag>>, k: nat)
    requires k < |es|
    ensures IndexOf(es, es[k].timer.id) < |es|
  {
  }

  lemma ListsSorted(es: seq<Entry<Tag>>, q: Queue, clock: nat)
    requires Lists(es, q, clock)
    ensures Sorted(es)
  {
  }

  lemma InsertOrdered(es: seq<Entry<Tag>>, p: nat, e: Entry<Tag>)
    requires Ordered(es) && p <= |es|
    requires forall f :: f in es ==> f.timer.id != e.timer.id && f.timer.stamp < e.timer.stamp
    requires forall m :: 0 <= m < p ==> es[m].expire <= e.expire
    requires forall m :: p <= m < |es| ==> e.expire < es[m].expire
    ensures Ordered(InsertAt(es, p, e))
  {
    forall m | 0 <= m < |es|
      ensures es[m].timer.id != e.timer.id && (if m < p then Before(es[m], e) else Before(e, es[m]))
    {
      assert es[m] in es;
    }
  }

  lemma InsertCovers(es: seq<Entry<Tag>>, p: nat, e: Entry<Tag>, q: Queue, x: (int, nat))
    requires Covers(es, q) && p <= |es|
    ensures Covers(InsertAt(es, p, e), q[e.timer.id := x])
  {
    hide IndexOf, Before;
    var fs := InsertAt(es, p, e);
    forall id | id in q[e.timer.id := x]
      ensures IndexOf(fs, id) < |fs|
    {
      if id == e.timer.id {
        IndexFound(fs, p);
      } else {
        var k := IndexOf(es, id);
        IndexFound(fs, if k < p then k else k + 1);
      }
    }
  }

  lemma InsertLists(es: seq<Entry<Tag>>, q: Queue, clock: nat, p: nat, e: Entry<Tag>)
    requires Lists(es, q, clock) && p <= |es| && e.timer.stamp == clock && e.timer.id !in q
    requires forall m :: 0 <= m < p ==> es[m].expire <= e.expire
    requires forall m :: p <= m < |es| ==> e.expire < es[m].expire
    ensures Lists(InsertAt(es, p, e), q[e.timer.id := (e.expire, clock)], clock + 1)
  {
    hide Ordered, Covers, IndexOf, Before;
    assert forall f :: f in InsertAt(es, p, e) <==> f in es || f == e by {
      assert es == es[..p] + es[p..];
    }
    InsertOrdered(es, p, e);
    InsertCovers(es, p, e, q, (e.expire, clock));
  }

  lemma RemoveOrdered(es: seq<Entry<Tag>>, i: nat)
    requires Ordered(es) && i < |es|
    ensures Ordered(Remove(es, i))
    ensures forall e :: e in Remove(es, i) ==> e in es && e.timer.id != es[i].timer.id
  {
    hide Before;
  }

  lemma RemoveCovers(es: seq<Entry<Tag>>, i: nat, q: Queue)
    requires Covers(es, q) && i < |es|
    ensures Covers(Remove(es, i), q - {es[i].timer.id})
  {
    hide IndexOf;
    var fs := Remove(es, i);
    forall id | id in q && id != es[i].timer.id
      ensures IndexOf(fs, id) < |fs|
    {
      var k := IndexOf(es, id);
      IndexFound(fs, if k < i then k else k - 1);
    }
  }

  lemma RemoveLists(es: seq<Entry<Tag>>, q: Queue, clock: nat, i: nat)
    requires Lists(es, q, clock) && i < |es|
    ensures Lists(Remove(es, i), q - {es[i].timer.id}, clock)
  {
    hide Ordered, Covers, IndexOf, Remove;
    RemoveOrdered(es, i);
    RemoveCovers(es, i, q);
  }

  lemma {:induction false} DueOfLists(es: seq<Entry<Tag>>, q: Queue, clock: nat, now: int)
    requires Lists(es, q, clock)
    ensures Lists(Rest(es, now), NextQueue(q, clock, TickOp(now)), clock)
    decreases |es|
  {
    hide Lists, Rest, NextQueue, DueCount;
    if es != [] && es[0].expire <= now {
      var u := q - {es[0].timer.id};
      TailLists(es, q, clock);
      DueOfLists(es[1..], u, clock, now);
      RestTail(es, now);
      DueQueue(es, q, clock, now);
    } else {
      NothingDue(es, q, clock, now);
    }
  }

  lemma DueQueue(es: seq<Entry<Tag>>, q: Queue, clock: nat, now: int)
    requires Lists(es, q, clock) && es != [] && es[0].expire <= now
    ensures NextQueue(q, clock, TickOp(now)) == NextQueue(q - {es[0].timer.id}, clock, TickOp(now))
  {
    hide Ordered, Covers;
    assert es[0] in es;
  }

  lemma RestTail<T>(es: seq<Entry<T>>, now: int)
    requires es != [] && es[0].expire <= now
    ensures Rest(es, now) == Rest(es[1..], now)
  {
    assert DueCount(es, now) == 1 + DueCount(es[1..], now);
  }

  lemma NothingDue(es: seq<Entry<Tag>>, q: Queue, clock: nat, now: int)
    requires Lists(es, q, clock) && (es == [] || now < es[0].expire)
    ensures Rest(es, now) == es && NextQueue(q, clock, TickOp(now)) == q
  {
    forall id | id in q
      ensures now < q[id].0
    {
      var k := IndexOf(es, id);
      assert es[k].timer.id == id;
      assert es[0] == es[k] || Before(es[0], es[k]);
    }
  }

  lemma ListsLater(es: seq<Entry<Tag>>, q: Queue, clock: nat)
    requires Lists(es, q, clock)
    ensures Lists(es, q, clock + 1)
  {
    hide IndexOf;
  }

  lemma NotListed(es: seq<Entry<Tag>>, q: Queue, clock: nat, id: nat)
    requires Lists(es, q, clock) && IndexOf(es, id) == |es|
    ensures id !in q
  {
  }

  lemma AddLists(es: seq<Entry<Tag>>, q: Queue, clock: nat, id: nat, x: int)
    requires Lists(es, q, clock) && id !in q
    ensures Lists(Add(es, Entry(Tag(id, clock), x)), q[id := (x, clock)], clock + 1)
  {
    hide Lists, Sorted, Add, InsertAt;
    var e := Entry(Tag(id, clock), x);
    ListsSorted(es, q, clock);
    var p := AddPlace(es, e);
    InsertLists(es, q, clock, p, e);
  }

  lemma AdjustLists(es: seq<Entry<Tag>>, q: Queue, clock: nat, i: nat, x: int)
    requires Lists(es, q, clock) && i < |es| && Adjustable(es, i, x)
    ensures var e := Entry(Tag(es[i].timer.id, clock), x);
      Lists(Adjust(es[i := e], i), q[es[i].timer.id := (x, clock)], clock + 1)
  {
    hide Lists, Sorted, Add, Adjust, InsertAt, Remove, Adjustable;
    var id := es[i].timer.id;
    var r := q - {id};
    ListsSorted(es, q, clock);
    AdjustIsReadd(es, i, Entry(Tag(id, clock), x));
    RemoveLists(es, q, clock, i);
    AddLists(Remove(es, i), r, clock, id, x);
    assert r[id := (x, clock)] == q[id := (x, clock)];
  }

  lemma NextLists(s: State, q: Queue, op: Op)
    requires Lists(s.list, q, s.clock) && Allowed(s, op)
    ensures Lists(Next(s, op).list, NextQueue(q, s.clock, op), s.clock + 1)
  {
    hide Lists, Sorted, Add, Adjust, Remove, Adjustable, Rest;
    match op
    case AddOp(id, x) =>
      NotListed(s.list, q, s.clock, id);
      AddLists(s.list, q, s.clock, id, x);
    case AdjustOp(id, x) =>
      AdjustLists(s.list, q, s.clock, IndexOf(s.list, id), x);
    case DelOp(id) =>
      RemoveLists(s.list, q, s.clock, IndexOf(s.list, id));
      ListsLater(Remove(s.list, IndexOf(s.list, id)), q - {id}, s.clock);
    case TickOp(now) =>
      DueOfLists(s.list, q, s.clock, now);
      ListsLater(Rest(s.list, now), NextQueue(q, s.clock, op), s.clock);
  }

  /** The timer list refines a stable priority queue: after every run of allowed operations the
      list is the queue in ascending order of expiry, equal expiries in the order in which the
      timers were placed. */
  lemma {:induction false} EveryRunLists(s: State, q: Queue, ops: seq<Op>)
    requires Lists(s.list, q, s.clock) && AllAllowed(s, ops)
    ensures var t := Run(s, ops);
      Lists(t.list, RunQueue(q, s.clock, ops), t.clock) && Sorted(t.list) && t.clock == s.clock + |ops|
    decreases |ops|
  {
    hide Lists, Sorted, Next, NextQueue, Permitted;
    if ops == [] {
      ListsSorted(s.list, q, s.clock);
    } else {
      NextLists(s, q, ops[0]);
      NextClock(s, ops[0]);
      EveryRunLists(Next(s, ops[0]), NextQueue(q, s.clock, ops[0]), ops[1..]);
    }
  }

  // ---------- when callbacks run ----------

  /** No timer has fired early, none twice, and none that has fired is still in the list: a timer
      placed by one operation is told apart from others by that operation's number. */
  ghost predicate FiredOnce(s: State) {
    && (forall i :: 0 <= i < |s.log| ==> s.log[i].expire <= s.log[i].now && s.log[i].tag.stamp < s.clock)
    && (forall i, j :: 0 <= i < j < |s.log| ==> s.log[i].tag.stamp != s.log[j].tag.stamp)
    && (forall i, k :: 0 <= i < |s.log| && 0 <= k < |s.list| ==> s.log[i].tag.stamp != s.list[k].timer.stamp)
    && (forall k :: 0 <= k < |s.list| ==> s.list[k].timer.stamp < s.clock)
    && (forall j, k :: 0 <= j < k < |s.list| ==> s.list[j].timer.stamp != s.list[k].timer.stamp)
  }

  lemma TickFiresOnce(s: State, now: int)
    requires FiredOnce(s)
    ensures FiredOnce(Next(s, TickOp(now)))
  {
    hide DueCount;
    var n := DueCount(s.list, now);
    var t := Next(s, TickOp(now));
    var m := |s.log|;
    forall i | 0 <= i < |t.log|
      ensures t.log[i].expire <= t.log[i].now
      ensures t.log[i].tag.stamp == if i < m then s.log[i].tag.stamp else s.list[i - m].timer.stamp
    {
    }
    assert forall k :: 0 <= k < |t.list| ==> t.list[k] == s.list[n + k];
    StampsOnce(s, t, n);
  }

  lemma StampsOnce(s: State, t: State, n: nat)
    requires FiredOnce(s) && n <= |s.list|
    requires t.clock == s.clock + 1 && |t.log| == |s.log| + n && |t.list| == |s.list| - n
    requires forall i :: 0 <= i < |t.log| ==> t.log[i].expire <= t.log[i].now
    requires forall i :: 0 <= i < |t.log| ==>
      t.log[i].tag.stamp == if i < |s.log| then s.log[i].tag.stamp else s.list[i - |s.log|].timer.stamp
    requires forall k :: 0 <= k < |t.list| ==> t.list[k] == s.list[n + k]
    ensures FiredOnce(t)
  {
  }

  lemma PlaceFiresOnce(s: State, t: State, p: nat, e: Entry<Tag>)
    requires FiredOnce(s) && p <= |s.list| && e.timer.stamp == s.clock
    requires t == State(InsertAt(s.list, p, e), s.clock + 1, s.log)
    ensures FiredOnce(t)
  {
    assert t.list[p] == e;
    assert forall k :: 0 <= k < p ==> t.list[k] == s.list[k];
    assert forall k :: p < k < |t.list| ==> t.list[k] == s.list[k-1];
  }

  lemma DropFiresOnce(s: State, i: nat)
    requires FiredOnce(s) && i < |s.list|
    ensures FiredOnce(s.(list := Remove(s.list, i)))
  {
    var fs := Remove(s.list, i);
    assert forall k :: 0 <= k < i ==> fs[k] == s.list[k];
    assert forall k :: i <= k < |fs| ==> fs[k] == s.list[k+1];
  }

  /** Whatever the order of the list, adding and adjusting put one timer at one place. */
  lemma AddInserts<T>(es: seq<Entry<T>>, e: Entry<T>) returns (p: nat)
    ensures p <= |es| && Add(es, e) == InsertAt(es, p, e)
  {
    p := if es == [] || e.expire < es[0].expire then 0 else InsertPos(es, 1, e.expire);
  }

  lemma AdjustInserts<T>(es: seq<Entry<T>>, i: nat, e: Entry<T>) returns (p: nat)
    requires i < |es|
    ensures p <= |Remove(es, i)| && Adjust(es[i := e], i) == InsertAt(Remove(es, i), p, e)
  {
    hide InsertPos;
    var fs, rest := es[i := e], Remove(es, i);
    assert Remove(fs, i) == rest;
    if i == |es| - 1 || fs[i].expire < fs[0].expire {
      p := i;
      assert InsertAt(rest, i, e) == fs;
    } else {
      p := InsertPos(rest, i + 1, e.expire);
    }
  }

  lemma AddFiresOnce(s: State, e: Entry<Tag>)
    requires FiredOnce(s) && e.timer.stamp == s.clock
    ensures FiredOnce(State(Add(s.list, e), s.clock + 1, s.log))
  {
    hide FiredOnce, Add, InsertAt;
    var p := AddInserts(s.list, e);
    PlaceFiresOnce(s, State(Add(s.list, e), s.clock + 1, s.log), p, e);
  }

  lemma AdjustFiresOnce(s: State, i: nat, x: int)
    requires FiredOnce(s) && i < |s.list|
    ensures var e := Entry(Tag(s.list[i].timer.id, s.clock), x);
      FiredOnce(State(Adjust(s.list[i := e], i), s.clock + 1, s.log))
  {
    hide FiredOnce, Adjust, Remove, InsertAt;
    var e := Entry(Tag(s.list[i].timer.id, s.clock), x);
    var p := AdjustInserts(s.list, i, e);
    DropFiresOnce(s, i);
    PlaceFiresOnce(s.(list := Remove(s.list, i)), State(Adjust(s.list[i := e], i), s.clock + 1, s.log), p, e);
  }

  lemma FiredLater(s: State)
    requires FiredOnce(s)
    ensures FiredOnce(s.(clock := s.clock + 1))
  {
  }

  lemma NextFiresOnce(s: State, op: Op)
    requires FiredOnce(s) && Permitted(s, op)
    ensures FiredOnce(Next(s, op))
  {
    hide FiredOnce, Add, Adjust, Remove, Rest;
    match op
    case AddOp(id, x) =>
      AddFiresOnce(s, Entry(Tag(id, s.clock), x));
    case AdjustOp(id, x) =>
      AdjustFiresOnce(s, IndexOf(s.list, id), x);
    case DelOp(id) =>
      DropFiresOnce(s, IndexOf(s.list, id));
      FiredLater(s.(list := Remove(s.list, IndexOf(s.list, id))));
    case TickOp(now) =>
      TickFiresOnce(s, now);
  }

  /** Over every run, whatever the new expiries, and whether the list is in order or not. */
  lemma {:induction false} EveryRunFiresOnce(s: State, ops: seq<Op>)
    requires FiredOnce(s) && AllPermitted(s, ops)
    ensures FiredOnce(Run(s, ops))
    decreases |ops|
  {
    hide FiredOnce, Next, Permitted;
    if ops != [] {
      NextFiresOnce(s, ops[0]);
      EveryRunFiresOnce(Next(s, ops[0]), ops[1..]);
    }
  }

  lemma NextClock(s: State, op: Op)
    requires Permitted(s, op)
    ensures Next(s, op).clock == s.clock + 1
  {
  }

  // ---------- no timer gets lost ----------

  function Names(es: seq<Entry<Tag>>): seq<nat> {
    seq(|es|, k requires 0 <= k < |es| => es[k].timer.id)
  }

  function FiredNames(fs: seq<Firing>): seq<nat> {
    seq(|fs|, k requires 0 <= k < |fs| => fs[k].tag.id)
  }

  function AddedBy(op: Op): multiset<nat> { if op.AddOp? then multiset{op.id} else multiset{} }

  function DeletedBy(op: Op): multiset<nat> { if op.DelOp? then multiset{op.id} else multiset{} }

  function Added(ops: seq<Op>): multiset<nat> {
    if ops == [] then multiset{} else AddedBy(ops[0]) + Added(ops[1..])
  }

  function Deleted(ops: seq<Op>): multiset<nat> {
    if ops == [] then multiset{} else DeletedBy(ops[0]) + Deleted(ops[1..])
  }

  /** The timers there are or were: listed, or fired. */
  function Known(s: State): multiset<nat> {
    multiset(Names(s.list)) + multiset(FiredNames(s.log))
  }

  lemma InsertNames(es: seq<Entry<Tag>>, p: nat, e: Entry<Tag>)
    requires p <= |es|
    ensures multiset(Names(InsertAt(es, p, e))) == multiset(Names(es)) + multiset{e.timer.id}
  {
    var ns := Names(es);
    assert Names(InsertAt(es, p, e)) == ns[..p] + [e.timer.id] + ns[p..];
    assert ns == ns[..p] + ns[p..];
  }

  lemma RemoveNames(es: seq<Entry<Tag>>, i: nat)
    requires i < |es|
    ensures multiset(Names(Remove(es, i))) + multiset{es[i].timer.id} == multiset(Names(es))
  {
    var ns := Names(es);
    assert Names(Remove(es, i)) == ns[..i] + ns[i+1..];
    assert ns == ns[..i] + [ns[i]] + ns[i+1..];
  }

  lemma TickNames(s: State, now: int)
    ensures Known(Next(s, TickOp(now))) == Known(s)
  {
    hide DueCount;
    var t, n := Next(s, TickOp(now)), DueCount(s.list, now);
    var ns := Names(s.list);
    assert Names(t.list) == ns[n..];
    assert FiredNames(t.log) == FiredNames(s.log) + ns[..n];
    assert ns == ns[..n] + ns[n..];
  }

  lemma NextAccounts(s: State, op: Op)
    requires Permitted(s, op)
    ensures Known(Next(s, op)) + DeletedBy(op) == Known(s) + AddedBy(op)
  {
    hide Add, Adjust, Remove, InsertAt, Names, FiredNames, Rest, Due;
    match op
    case AddOp(id, x) =>
      var e := Entry(Tag(id, s.clock), x);
      var p := AddInserts(s.list, e);
      InsertNames(s.list, p, e);
    case AdjustOp(id, x) =>
      var e := Entry(Tag(id, s.clock), x);
      var i := IndexOf(s.list, id);
      var p := AdjustInserts(s.list, i, e);
      RemoveNames(s.list, i);
      InsertNames(Remove(s.list, i), p, e);
    case DelOp(id) =>
      RemoveNames(s.list, IndexOf(s.list, id));
    case TickOp(now) =>
      TickNames(s, now);
  }

  /** Over every run, whatever the new expiries, every timer that was added is listed, has fired or
      was deleted, and nothing else is. */
  lemma {:induction false} EveryRunAccounts(s: State, ops: seq<Op>)
    requires AllPermitted(s, ops)
    ensures Known(Run(s, ops)) + Deleted(ops) == Known(s) + Added(ops)
    decreases |ops|
  {
    hide Next, Permitted, Known, AddedBy, DeletedBy;
    if ops != [] {
      var t := Next(s, ops[0]);
      NextAccounts(s, ops[0]);
      EveryRunAccounts(t, ops[1..]);
      Carry(Known(Run(t, ops[1..])), DeletedBy(ops[0]), Deleted(ops[1..]), Known(t), Known(s),
            AddedBy(ops[0]), Added(ops[1..]));
    }
  }

  lemma Carry(z: multiset<nat>, d: multiset<nat>, ds: multiset<nat>, y: multiset<nat>, x: multiset<nat>,
              a: multiset<nat>, b: multiset<nat>)
    requires z + ds == y + b && y + d == x + a
    ensures z + (d + ds) == x + (a + b)
  {
    assert z + (d + ds) == (z + ds) + d;
    assert (y + b) + d == (y + d) + b;
    assert (x + a) + b == x + (a + b);
  }

  // ---------- when the list stays in order ----------

  ghost predicate AlwaysSorted(s: State, ops: seq<Op>)
    requires AllPermitted(s, ops)
    decreases |ops|
  {
    Sorted(s.list) && (ops != [] ==> AlwaysSorted(Next(s, ops[0]), ops[1..]))
  }

  lemma NextSorted(s: State, op: Op)
    requires Sorted(s.list) && Permitted(s, op)
    ensures Sorted(Next(s, op).list) <==> Allowed(s, op)
  {
    hide Sorted, Add, Adjust, Remove, Rest, Due, Adjustable;
    match op
    case AddOp(id, x) => var _ := AddMeans(s.list, Entry(Tag(id, s.clock), x));
    case AdjustOp(id, x) => AdjustExactly(s.list, IndexOf(s.list, id), Entry(Tag(id, s.clock), x));
    case DelOp(id) => RemoveMeans(s.list, IndexOf(s.list, id));
    case TickOp(now) => TickMeans(s.list, now);
  }

  /** Over a run the list stays in order if and only if every new expiry is admissible when it is
      given. */
  lemma {:induction false} SortedExactly(s: State, ops: seq<Op>)
    requires Sorted(s.list) && AllPermitted(s, ops)
    ensures AlwaysSorted(s, ops) <==> AllAdjustable(s, ops)
    decreases |ops|
  {
    hide Sorted, Next, Permitted, Allowed;
    if ops != [] {
      NextSorted(s, ops[0]);
      if Allowed(s, ops[0]) {
        SortedExactly(Next(s, ops[0]), ops[1..]);
      }
    }
  }

  lemma EmptyStart()
    ensures Lists(EMPTY.list, map[], 0) && FiredOnce(EMPTY)
  {
  }

  /** So for every run from the empty list: nothing has fired early or twice, and every timer is
      accounted for; and if the new expiries are admissible, the list is the queue in order. */
  lemma EveryRunFromEmpty(ops: seq<Op>)
    requires AllPermitted(EMPTY, ops)
    ensures var t := Run(EMPTY, ops);
      && FiredOnce(t)
      && Known(t) + Deleted(ops) == Added(ops)
      && (AllAllowed(EMPTY, ops) ==>
            Lists(t.list, RunQueue(map[], 0, ops), t.clock) && Sorted(t.list) && t.clock == |ops|)
  {
    hide Lists, FiredOnce, AllPermitted, AllAllowed, Run, RunQueue, Sorted, Deleted, Added;
    EmptyStart();
    EveryRunFiresOnce(EMPTY, ops);
    EveryRunAccounts(EMPTY, ops);
    assert Known(EMPTY) + Added(ops) == Added(ops);
    if AllAllowed(EMPTY, ops) {
      EveryRunLists(EMPTY, map[], ops);
    }
  }

  /** Operations that leave the timer `id` with expiry `x` alone: none of them adjusts or deletes
      it, and no tick sees a time that has reached x. */
  ghost predicate Spares(ops: seq<Op>, id: nat, x: int) {
    forall k :: 0 <= k < |ops| ==>
      match ops[k]
      case AddOp(i, _) => i != id
      case AdjustOp(i, _) => i != id
      case DelOp(i) => i != id
      case TickOp(now) => now < x
  }

  lemma {:induction false} SparedStays(q: Queue, clock: nat, ops: seq<Op>, id: nat)
    requires id in q && Spares(ops, id, q[id].0)
    ensures var r := RunQueue(q, clock, ops); id in r && r[id] == q[id]
    decreases |ops|
  {
    if ops != [] {
      var r := NextQueue(q, clock, ops[0]);
      assert id in r && r[id] == q[id];
      SparedStays(r, clock + 1, ops[1..], id);
    }
  }

  /** A timer that is neither deleted nor postponed is still in the list as long as no tick has
      reached its expiry, has not fired, and fires at the first tick that has. */
  lemma FiresAtFirstDueTick(s: State, q: Queue, ops: seq<Op>, id: nat, now: int)
    requires Lists(s.list, q, s.clock) && FiredOnce(s) && AllAllowed(s, ops)
    requires id in q && Spares(ops, id, q[id].0) && q[id].0 <= now
    ensures var t := Run(s, ops);
      && (forall i :: 0 <= i < |t.log| ==> t.log[i].tag.stamp != q[id].1)
      && Firing(Tag(id, q[id].1), q[id].0, now) in Next(t, TickOp(now)).log
  {
    hide Lists, FiredOnce, Run, RunQueue, Spares, Sorted;
    EveryRunLists(s, q, ops);
    EveryRunFiresOnce(s, ops);
    SparedStays(q, s.clock, ops, id);
    PendingFires(Run(s, ops), RunQueue(q, s.clock, ops), id, now);
  }

  lemma PendingFires(t: State, r: Queue, id: nat, now: int)
    requires Lists(t.list, r, t.clock) && FiredOnce(t) && id in r && r[id].0 <= now
    ensures forall i :: 0 <= i < |t.log| ==> t.log[i].tag.stamp != r[id].1
    ensures Firing(Tag(id, r[id].1), r[id].0, now) in Next(t, TickOp(now)).log
  {
    hide Ordered, IndexOf, Sorted, DueCount, Before;
    var k := IndexOf(t.list, id);
    assert t.list[k] in t.list;
    assert t.list[k] == Entry(Tag(id, r[id].1), r[id].0);
    ListsSorted(t.list, r, t.clock);
    var n := DueCount(t.list, now);
    assert k < n by {
      if n <= k { SortedAt(t.list, n, k); }
    }
    var u := Next(t, TickOp(now));
    assert u.log[|t.log| + k] == Fire(Due(t.list, now), now)[k];
  }

  /** On any list, in order or not: entry k fires if and only if it and all before it are due. */
  lemma {:induction false} DueExactly<T>(es: seq<Entry<T>>, now: int, k: nat)
    requires k < |es|
    ensures k < DueCount(es, now) <==> forall m :: 0 <= m <= k ==> es[m].expire <= now
  {
  }

  /** After any run, whatever the new expiries: a listed timer fires at the next tick if and only if
      it and all that stand before it are due. */
  lemma FiresExactly(s: State, ops: seq<Op>, k: nat, now: int)
    requires FiredOnce(s) && AllPermitted(s, ops) && k < |Run(s, ops).list|
    ensures var t := Run(s, ops);
      Firing(t.list[k].timer, t.list[k].expire, now) in Next(t, TickOp(now)).log <==>
        forall m :: 0 <= m <= k ==> t.list[m].expire <= now
  {
    hide FiredOnce, AllPermitted, Run, DueCount;
    var t := Run(s, ops);
    EveryRunFiresOnce(s, ops);
    DueExactly(t.list, now, k);
    InLogExactly(t, k, now);
  }

  /** Firings are told apart by their stamps. */
  lemma InLogExactly(t: State, k: nat, now: int)
    requires FiredOnce(t) && k < |t.list|
    ensures Firing(t.list[k].timer, t.list[k].expire, now) in Next(t, TickOp(now)).log <==> k < DueCount(t.list, now)
  {
    hide DueCount;
    var n, f := DueCount(t.list, now), Firing(t.list[k].timer, t.list[k].expire, now);
    var log := Next(t, TickOp(now)).log;
    assert forall j :: 0 <= j < n ==> log[|t.log| + j] == Firing(t.list[j].timer, t.list[j].expire, now);
    if f in log {
      var i :| 0 <= i < |log| && log[i] == f;
      assert i >= |t.log| by {
        NotInOldLog(t, i, k);
      }
      var j := i - |t.log|;
      assert log[|t.log| + j].tag.stamp == t.list[k].timer.stamp;
      assert j == k;
    }
  }

  lemma NotInOldLog(t: State, i: nat, k: nat)
    requires FiredOnce(t) && k < |t.list|
    ensures i < |t.log| ==> t.log[i].tag != t.list[k].timer
  {
  }
}
