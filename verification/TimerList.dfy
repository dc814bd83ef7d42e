/** The sorted timer list as it stands in memory: doubly linked nodes, relinked in place. Each
    method does to the sequence of timers what TimerSchedule says. */
module TimerList {

  import S = TimerSchedule

  /** `client` stands for user_data: which connection the timer is for. */
  class Timer {
    const client: nat
    var expire: int
    var prev: Timer?
    var next: Timer?

    constructor (client: nat, expire: int)
      ensures this.client == client && this.expire == expire && prev == null && next == null
    {
      this.client := client;
      this.expire, prev, next := expire, null, null;
    }
  }

  ghost function Entries(ns: seq<Timer>): (es: seq<S.Entry<Timer>>)
    reads ns
    ensures |es| == |ns|
    ensures forall k :: 0 <= k < |ns| ==> es[k] == S.Entry(ns[k], ns[k].expire)
  {
    if ns == [] then [] else [S.Entry(ns[0], ns[0].expire)] + Entries(ns[1..])
  }

  ghost function Prevs(ns: seq<Timer>): (ps: seq<Timer?>)
    reads ns
    ensures |ps| == |ns|
    ensures forall k :: 0 <= k < |ns| ==> ps[k] == ns[k].prev
  {
    if ns == [] then [] else [ns[0].prev] + Prevs(ns[1..])
  }

  ghost function Nexts(ns: seq<Timer>): (xs: seq<Timer?>)
    reads ns
    ensures |xs| == |ns|
    ensures forall k :: 0 <= k < |ns| ==> xs[k] == ns[k].next
  {
    if ns == [] then [] else [ns[0].next] + Nexts(ns[1..])
  }

  /** The nodes are distinct and the links run along the sequence and back. */
  ghost predicate Linking(ns: seq<Timer>, ps: seq<Timer?>, xs: seq<Timer?>) {
    && |ps| == |ns| == |xs|
    && (forall i, j :: 0 <= i < j < |ns| ==> ns[i] != ns[j])
    && (forall k :: 0 <= k < |ns| ==> ps[k] == if k == 0 then null else ns[k-1])
    && (forall k :: 0 <= k < |ns| ==> xs[k] == if k == |ns| - 1 then null else ns[k+1])
  }

  ghost predicate Chain(ns: seq<Timer>)
    reads ns
  {
    Linking(ns, Prevs(ns), Nexts(ns))
  }

  lemma LinksAt(ns: seq<Timer>, k: nat)
    requires Chain(ns) && k < |ns|
    ensures ns[k].prev == (if k == 0 then null else ns[k-1])
    ensures ns[k].next == (if k == |ns| - 1 then null else ns[k+1])
    ensures k > 0 ==> ns[k] != ns[0]
    ensures k < |ns| - 1 ==> ns[k] != ns[|ns|-1]
  {
  }

  function Spliced(ns: seq<Timer>, p: nat, timer: Timer): seq<Timer>
    requires p <= |ns|
  {
    ns[..p] + [timer] + ns[p..]
  }

  function Without(ns: seq<Timer>, i: nat): seq<Timer>
    requires i < |ns|
  {
    ns[..i] + ns[i+1..]
  }

  lemma LinkingAt(ns: seq<Timer>, ps: seq<Timer?>, xs: seq<Timer?>, i: nat, j: nat)
    requires Linking(ns, ps, xs) && i < |ns| && j < |ns|
    ensures ps[i] == (if i == 0 then null else ns[i-1]) && xs[i] == (if i == |ns| - 1 then null else ns[i+1])
    ensures ps[j] == (if j == 0 then null else ns[j-1]) && xs[j] == (if j == |ns| - 1 then null else ns[j+1])
    ensures |ps| == |ns| == |xs| && (i != j ==> ns[i] != ns[j])
  {
  }

  lemma ChainIs(ns: seq<Timer>)
    requires forall i, j :: 0 <= i < j < |ns| ==> ns[i] != ns[j]
    requires forall k :: 0 <= k < |ns| ==>
      ns[k].prev == (if k == 0 then null else ns[k-1]) && ns[k].next == (if k == |ns| - 1 then null else ns[k+1])
    ensures Chain(ns)
  {
    hide Prevs, Nexts;
  }

  /** Relinking a node and its two neighbours is what makes a chain of the longer sequence; ps
      and xs are the links from before. */
  lemma ChainSpliced(ns: seq<Timer>, ps: seq<Timer?>, xs: seq<Timer?>, p: nat, timer: Timer)
    requires p <= |ns| && Linking(ns, ps, xs) && timer !in ns
    requires forall k :: 0 <= k < |ns| ==> ns[k].prev == if p < |ns| && ns[k] == ns[p] then timer else ps[k]
    requires forall k :: 0 <= k < |ns| ==> ns[k].next == if p > 0 && ns[k] == ns[p-1] then timer else xs[k]
    requires timer.prev == if p > 0 then ns[p-1] else null
    requires timer.next == if p < |ns| then ns[p] else null
    ensures Chain(Spliced(ns, p, timer))
  {
    hide Linking, Prevs, Nexts;
    var fs := Spliced(ns, p, timer);
    forall i, j | 0 <= i < j < |fs|
      ensures fs[i] != fs[j]
    {
      if i != p && j != p {
        LinkingAt(ns, ps, xs, if i < p then i else i - 1, if j < p then j else j - 1);
      }
    }
    forall k | 0 <= k < |fs|
      ensures fs[k].prev == (if k == 0 then null else fs[k-1])
      ensures fs[k].next == (if k == |fs| - 1 then null else fs[k+1])
    {
      if k != p {
        var m := if k < p then k else k - 1;
        assert fs[k] == ns[m];
        LinkingAt(ns, ps, xs, m, if p < |ns| then p else m);
        LinkingAt(ns, ps, xs, m, if p > 0 then p - 1 else m);
      }
    }
    ChainIs(fs);
  }

  lemma ChainWithout(ns: seq<Timer>, ps: seq<Timer?>, xs: seq<Timer?>, i: nat)
    requires i < |ns| && Linking(ns, ps, xs)
    requires forall k :: 0 <= k < |ns| && ns[k] != ns[i] ==>
      ns[k].prev == if i < |ns| - 1 && ns[k] == ns[i+1] then ps[i] else ps[k]
    requires forall k :: 0 <= k < |ns| && ns[k] != ns[i] ==>
      ns[k].next == if i > 0 && ns[k] == ns[i-1] then xs[i] else xs[k]
    ensures Chain(Without(ns, i)) && ns[i] !in Without(ns, i)
  {
    hide Linking, Prevs, Nexts;
    var fs := Without(ns, i);
    forall a, b | 0 <= a < b < |fs|
      ensures fs[a] != fs[b]
    {
      LinkingAt(ns, ps, xs, if a < i then a else a + 1, if b < i then b else b + 1);
    }
    forall k | 0 <= k < |fs|
      ensures fs[k] != ns[i]
      ensures fs[k].prev == (if k == 0 then null else fs[k-1])
      ensures fs[k].next == (if k == |fs| - 1 then null else fs[k+1])
    {
      var m := if k < i then k else k + 1;
      assert fs[k] == ns[m];
      LinkingAt(ns, ps, xs, m, i);
      LinkingAt(ns, ps, xs, m, if i < |ns| - 1 then i + 1 else m);
      LinkingAt(ns, ps, xs, m, if i > 0 then i - 1 else m);
    }
    ChainIs(fs);
  }

  lemma EntriesSpliced(ns: seq<Timer>, was: seq<S.Entry<Timer>>, p: nat, timer: Timer)
    requires p <= |ns| == |was| && forall k :: 0 <= k < |ns| ==> was[k] == S.Entry(ns[k], ns[k].expire)
    ensures Entries(Spliced(ns, p, timer)) == S.InsertAt(was, p, S.Entry(timer, timer.expire))
  {
    hide Entries;
    var fs := Spliced(ns, p, timer);
    var es := S.InsertAt(was, p, S.Entry(timer, timer.expire));
    forall k | 0 <= k < |fs|
      ensures Entries(fs)[k] == es[k]
    {
      if k != p {
        var m := if k < p then k else k - 1;
        assert fs[k] == ns[m] && es[k] == was[m];
      }
    }
    assert |Entries(fs)| == |es|;
  }

  lemma EntriesWithout(ns: seq<Timer>, was: seq<S.Entry<Timer>>, i: nat)
    requires i < |ns| == |was| && forall k :: 0 <= k < |ns| ==> was[k] == S.Entry(ns[k], ns[k].expire)
    ensures Entries(Without(ns, i)) == S.Remove(was, i)
  {
    hide Entries;
    var fs := Without(ns, i);
    var es := S.Remove(was, i);
    forall k | 0 <= k < |fs|
      ensures Entries(fs)[k] == es[k]
    {
      var m := if k < i then k else k + 1;
      assert fs[k] == ns[m] && es[k] == was[m];
    }
    assert |Entries(fs)| == |es|;
  }

  lemma InsertsHere<T>(es: seq<S.Entry<T>>, k: nat, x: int)
    requires k == |es| || (k < |es| && x < es[k].expire)
    ensures S.InsertPos(es, k, x) == k
  {
  }

  lemma InsertsBeyond<T>(es: seq<S.Entry<T>>, k: nat, x: int)
    requires k < |es| && es[k].expire <= x
    ensures S.InsertPos(es, k, x) == S.InsertPos(es, k + 1, x)
  {
  }

  lemma DueStep<T>(es: seq<S.Entry<T>>, now: int)
    requires es != [] && es[0].expire <= now
    ensures S.Due(es, now) == [es[0]] + S.Due(es[1..], now) && S.Rest(es, now) == S.Rest(es[1..], now)
  {
  }

  lemma DueStop<T>(es: seq<S.Entry<T>>, now: int)
    requires es == [] || now < es[0].expire
    ensures S.Due(es, now) == [] && S.Rest(es, now) == es
  {
  }

  lemma AdjustUnfolds<T>(es: seq<S.Entry<T>>, i: nat)
    requires i < |es|
    ensures i == |es| - 1 || es[i].expire < es[0].expire ==> S.Adjust(es, i) == es
    ensures i < |es| - 1 && es[0].expire <= es[i].expire ==>
      S.Adjust(es, i) == S.InsertAt(S.Remove(es, i), S.InsertPos(S.Remove(es, i), i + 1, es[i].expire), es[i])
  {
  }

  lemma WithoutFront(ns: seq<Timer>)
    requires ns != []
    ensures Without(ns, 0) == ns[1..]
  {
  }

  lemma RemoveFront<T>(es: seq<S.Entry<T>>)
    requires es != []
    ensures S.Remove(es, 0) == es[1..]
  {
  }

  class SortTimerList {
    var head: Timer?
    var tail: Timer?
    ghost var nodes: seq<Timer>

    /** tail counts only while there is a head: tick() does not reset it. */
    ghost predicate Linked()
      reads this, nodes
    {
      && Chain(nodes)
      && (head == null <==> nodes == [])
      && (nodes != [] ==> head == nodes[0] && tail == nodes[|nodes|-1])
    }

    ghost function View(): seq<S.Entry<Timer>>
      reads this, nodes
    {
      Entries(nodes)
    }

    ghost function At(timer: Timer): (i: nat)
      requires timer in nodes
      reads this
      ensures i < |nodes| && nodes[i] == timer
    {
      var i :| 0 <= i < |nodes| && nodes[i] == timer; i
    }

    constructor ()
      ensures Linked() && View() == []
    {
      head, tail, nodes := null, null, [];
    }

    method AddTimer(timer: Timer?)
      requires Linked()
      requires timer != null ==> timer !in nodes && timer.prev == null && timer.next == null
      modifies this, nodes, timer
      ensures Linked()
      ensures timer == null ==> View() == old(View())
      ensures timer != null ==> timer.expire == old(timer.expire)
      ensures timer != null ==> View() == S.Add(old(View()), S.Entry(timer, timer.expire))
    {
      hide Linking, Prevs, Nexts, Entries, S.InsertPos, S.InsertAt;
      if timer == null { return; }
      ghost var was, ps, xs := nodes, Prevs(nodes), Nexts(nodes);
      if head == null {
        head, tail := timer, timer;
        nodes := Spliced(was, 0, timer);
        ChainSpliced(was, ps, xs, 0, timer);
        EntriesSpliced(was, old(View()), 0, timer);
        S.FrontIsInsert(old(View()), S.Entry(timer, timer.expire));
        return;
      }
      if timer.expire < head.expire {
        timer.next := head;
        head.prev := timer;
        head := timer;
        nodes := Spliced(was, 0, timer);
        ChainSpliced(was, ps, xs, 0, timer);
        EntriesSpliced(was, old(View()), 0, timer);
        S.FrontIsInsert(old(View()), S.Entry(timer, timer.expire));
        return;
      }
      AddAfter(timer, head, 0);
    }

    /** The private add_timer: looks for the place behind lstHead, the node number `from`. */
    method AddAfter(timer: Timer, lstHead: Timer, ghost from: nat)
      requires Linked() && timer !in nodes && from < |nodes| && lstHead == nodes[from]
      modifies this, nodes, timer
      ensures Linked() && timer.expire == old(timer.expire)
      ensures var p := S.InsertPos(old(View()), from + 1, timer.expire);
        View() == S.InsertAt(old(View()), p, S.Entry(timer, timer.expire))
    {
      hide Linking, Prevs, Nexts, Entries, S.InsertAt, S.InsertPos;
      var prev := lstHead;
      var tmp := prev.next;
      ghost var k := from;
      ghost var was, es := nodes, View();
      ghost var p := S.InsertPos(es, from + 1, timer.expire);
      LinksAt(was, k);
      while tmp != null
        invariant from <= k < |was| && prev == was[k]
        invariant tmp == if k == |was| - 1 then null else was[k+1]
        invariant p == S.InsertPos(es, k + 1, timer.expire)
        invariant unchanged(this) && unchanged(was) && unchanged(timer)
        decreases |was| - k
      {
        if timer.expire < tmp.expire {
          InsertsHere(es, k + 1, timer.expire);
          LinkBetween(prev, timer, tmp, p);
          break;
        }
        InsertsBeyond(es, k + 1, timer.expire);
        prev := tmp;
        tmp := tmp.next;
        k := k + 1;
        LinksAt(was, k);
      }
      if tmp == null {
        InsertsHere(es, k + 1, timer.expire);
        LinkLast(prev, timer);
      }
    }

    method LinkBetween(prev: Timer, timer: Timer, tmp: Timer, ghost p: nat)
      requires Linked() && timer !in nodes && 0 < p < |nodes| && prev == nodes[p-1] && tmp == nodes[p]
      modifies this, nodes, timer
      ensures Linked() && timer.expire == old(timer.expire)
      ensures View() == S.InsertAt(old(View()), p, S.Entry(timer, timer.expire))
    {
      hide Linking, Prevs, Nexts, Entries, S.InsertAt;
      ghost var was, ps, xs := nodes, Prevs(nodes), Nexts(nodes);
      prev.next := timer;
      timer.next := tmp;
      tmp.prev := timer;
      timer.prev := prev;
      nodes := Spliced(was, p, timer);
      ChainSpliced(was, ps, xs, p, timer);
      EntriesSpliced(was, old(View()), p, timer);
    }

    method LinkLast(prev: Timer, timer: Timer)
      requires Linked() && timer !in nodes && nodes != [] && prev == nodes[|nodes|-1]
      modifies this, nodes, timer
      ensures Linked() && timer.expire == old(timer.expire)
      ensures View() == S.InsertAt(old(View()), |old(nodes)|, S.Entry(timer, timer.expire))
    {
      hide Linking, Prevs, Nexts, Entries, S.InsertAt;
      ghost var was, ps, xs := nodes, Prevs(nodes), Nexts(nodes);
      prev.next := timer;
      timer.prev := prev;
      timer.next := null;
      tail := timer;
      nodes := Spliced(was, |was|, timer);
      ChainSpliced(was, ps, xs, |was|, timer);
      EntriesSpliced(was, old(View()), |was|, timer);
    }

    /** The caller has given the timer its new expiry. */
    method AdjustTimer(timer: Timer?)
      requires Linked() && (timer != null ==> timer in nodes)
      modifies this, nodes
      ensures Linked()
      ensures View() == if timer == null then old(View()) else S.Adjust(old(View()), old(At(timer)))
    {
      hide Chain, Entries, S.Adjust, S.InsertAt, S.InsertPos, S.Remove;
      if timer == null { return; }
      ghost var i := At(timer);
      AdjustUnfolds(View(), i);
      LinksAt(nodes, i);
      var tmp := timer.next;
      if tmp == null || timer.expire < head.expire { return; }
      if timer == head {
        RemoveFront(View());
        DropHead();
        timer.next := null;
        AddAfter(timer, head, i);
      } else {
        DropInner(timer, i);
        AddAfter(timer, timer.next, i);
      }
    }

    /** A node between two others is unlinked; its own links stay as they are. */
    method DropInner(timer: Timer, ghost i: nat)
      requires Linked() && 0 < i < |nodes| - 1 && nodes[i] == timer
      modifies this, nodes
      ensures Linked() && nodes == Without(old(nodes), i) && View() == S.Remove(old(View()), i)
      ensures timer !in nodes && timer.expire == old(timer.expire) && timer.next == old(timer.next)
    {
      hide Linking, Prevs, Nexts, Entries, S.Remove;
      ghost var was, ps, xs := nodes, Prevs(nodes), Nexts(nodes);
      LinksAt(was, i);
      timer.prev.next := timer.next;
      timer.next.prev := timer.prev;
      nodes := Without(was, i);
      ChainWithout(was, ps, xs, i);
      EntriesWithout(was, old(View()), i);
    }

    method DelTimer(timer: Timer?)
      requires Linked() && (timer != null ==> timer in nodes)
      modifies this, nodes
      ensures Linked()
      ensures View() == if timer == null then old(View()) else S.Remove(old(View()), old(At(timer)))
      ensures timer != null ==> timer !in nodes
    {
      hide Linking, Prevs, Nexts, Entries;
      if timer == null { return; }
      ghost var i := At(timer);
      ghost var was, ps, xs := nodes, Prevs(nodes), Nexts(nodes);
      LinksAt(was, i);
      if timer == head && timer == tail {
        head := null;
        tail := null;
      } else if timer == head {
        head := head.next;
        head.prev := null;
      } else if timer == tail {
        tail := tail.prev;
        tail.next := null;
      } else {
        timer.prev.next := timer.next;
        timer.next.prev := timer.prev;
      }
      nodes := Without(was, i);
      ChainWithout(was, ps, xs, i);
      EntriesWithout(was, old(View()), i);
    }

    /** What the callbacks are called for, in order. */
    method Tick(cur: int) returns (fired: seq<S.Entry<Timer>>)
      requires Linked()
      modifies this, nodes
      ensures Linked()
      ensures fired == S.Due(old(View()), cur)
      ensures View() == S.Rest(old(View()), cur)
    {
      hide Linking, Prevs, Nexts, Entries, S.Due, S.Rest;
      fired := [];
      if head == null {
        DueStop(View(), cur);
        return;
      }
      var tmp := head;
      ghost var k: nat := 0;
      while tmp != null
        invariant Linked() && tmp == head
        invariant k <= |old(nodes)| && nodes == old(nodes)[k..]
        invariant fired + S.Due(View(), cur) == S.Due(old(View()), cur)
        invariant S.Rest(View(), cur) == S.Rest(old(View()), cur)
        decreases |nodes|
      {
        if cur < tmp.expire { break; }
        DueStep(View(), cur);
        fired := fired + [S.Entry(tmp, tmp.expire)];
        DropHead();
        k := k + 1;
        tmp := head;
      }
      DueStop(View(), cur);
    }

    /** The end of tick's loop. */
    method DropHead()
      requires Linked() && head != null
      modifies this, nodes
      ensures Linked() && nodes == old(nodes)[1..] && View() == old(View())[1..]
      ensures old(head) !in nodes && old(head).expire == old(head.expire)
    {
      hide Linking, Prevs, Nexts, Entries, Without, S.Remove;
      ghost var was, ps, xs := nodes, Prevs(nodes), Nexts(nodes);
      LinksAt(was, 0);
      head := head.next;
      if head != null {
        assert head == was[1];
        head.prev := null;
      }
      ChainWithout(was, ps, xs, 0);
      EntriesWithout(was, old(View()), 0);
      RemoveFront(old(View()));
      WithoutFront(was);
      nodes := was[1..];
    }
  }
}
