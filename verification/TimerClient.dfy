/** The caller of the timer list: one timer for each connection, found through the connection. Every
    run of its calls on the linked nodes is the run of TimerSchedule. */
module TimerClient {

  import S = TimerSchedule
  import L = TimerList

  function ClientOf(t: L.Timer): nat { t.client }

  function IdOf(g: S.Tag): nat { g.id }

  /** Every timer of the list is the one on record for its connection. */
  ghost predicate OnRecord(es: seq<S.Entry<L.Timer>>, timers: map<nat, L.Timer>) {
    forall e :: e in es ==> e.timer.client in timers && timers[e.timer.client] == e.timer
  }

  ghost predicate SameNames(es: seq<S.Entry<L.Timer>>, gs: seq<S.Entry<S.Tag>>) {
    S.Relabel(es, ClientOf) == S.Relabel(gs, IdOf)
  }

  lemma NamesAt(es: seq<S.Entry<L.Timer>>, gs: seq<S.Entry<S.Tag>>, k: nat)
    requires SameNames(es, gs) && (k < |es| || k < |gs|)
    ensures k < |es| == |gs| && es[k].timer.client == gs[k].timer.id && es[k].expire == gs[k].expire
  {
    assert |S.Relabel(es, ClientOf)| == |es| && |S.Relabel(gs, IdOf)| == |gs|;
    assert S.Relabel(es, ClientOf)[k] == S.Relabel(gs, IdOf)[k];
  }

  lemma AddNames(es: seq<S.Entry<L.Timer>>, gs: seq<S.Entry<S.Tag>>, e: S.Entry<L.Timer>, g: S.Entry<S.Tag>)
    requires SameNames(es, gs) && e.timer.client == g.timer.id && e.expire == g.expire
    ensures SameNames(S.Add(es, e), S.Add(gs, g))
  {
    hide S.Add, S.Relabel;
    S.AddRelabels(es, ClientOf, e);
    S.AddRelabels(gs, IdOf, g);
  }

  lemma AdjustNames(es: seq<S.Entry<L.Timer>>, gs: seq<S.Entry<S.Tag>>, i: nat)
    requires SameNames(es, gs) && i < |es| && i < |gs|
    ensures SameNames(S.Adjust(es, i), S.Adjust(gs, i))
  {
    hide S.Adjust, S.Relabel;
    S.AdjustRelabels(es, ClientOf, i);
    S.AdjustRelabels(gs, IdOf, i);
  }

  lemma RemoveNames(es: seq<S.Entry<L.Timer>>, gs: seq<S.Entry<S.Tag>>, i: nat)
    requires SameNames(es, gs) && i < |es| && i < |gs|
    ensures SameNames(S.Remove(es, i), S.Remove(gs, i))
  {
    hide S.Remove, S.Relabel;
    S.RemoveRelabels(es, ClientOf, i);
    S.RemoveRelabels(gs, IdOf, i);
  }

  lemma TickNames(es: seq<S.Entry<L.Timer>>, gs: seq<S.Entry<S.Tag>>, now: int)
    requires SameNames(es, gs)
    ensures SameNames(S.Due(es, now), S.Due(gs, now)) && SameNames(S.Rest(es, now), S.Rest(gs, now))
  {
    hide S.Due, S.Rest, S.Relabel;
    S.DueRelabels(es, ClientOf, now);
    S.DueRelabels(gs, IdOf, now);
  }

  lemma SortedNames(es: seq<S.Entry<L.Timer>>, gs: seq<S.Entry<S.Tag>>)
    requires SameNames(es, gs) && S.Sorted(gs)
    ensures S.Sorted(es)
  {
    hide SameNames;
    forall i, j | 0 <= i < j < |es|
      ensures es[i].expire <= es[j].expire
    {
      NamesAt(es, gs, i);
      NamesAt(es, gs, j);
    }
  }

  lemma AddOnRecord(es: seq<S.Entry<L.Timer>>, timers: map<nat, L.Timer>, gs: seq<S.Entry<S.Tag>>, e: S.Entry<L.Timer>)
    requires OnRecord(es, timers) && SameNames(es, gs) && S.IndexOf(gs, e.timer.client) == |gs|
    ensures OnRecord(S.Add(es, e), timers[e.timer.client := e.timer])
  {
    hide SameNames, S.InsertPos, S.IndexOf;
    forall k | 0 <= k < |es|
      ensures es[k].timer.client != e.timer.client
    {
      NamesAt(es, gs, k);
    }
  }

  lemma RemoveOnRecord(es: seq<S.Entry<L.Timer>>, timers: map<nat, L.Timer>, i: nat)
    requires OnRecord(es, timers) && i < |es|
    ensures OnRecord(S.Remove(es, i), timers)
  {
  }

  lemma AdjustOnRecord(es: seq<S.Entry<L.Timer>>, timers: map<nat, L.Timer>, i: nat)
    requires OnRecord(es, timers) && i < |es|
    ensures OnRecord(S.Adjust(es, i), timers)
  {
    hide S.Adjust;
    S.AdjustMultiset(es, i);
    forall e | e in S.Adjust(es, i)
      ensures e in es
    {
      assert e in multiset(S.Adjust(es, i));
    }
  }

  /** The timer on record for a pending connection is where its name is. */
  lemma RecordAt(es: seq<S.Entry<L.Timer>>, timers: map<nat, L.Timer>, gs: seq<S.Entry<S.Tag>>, id: nat)
    requires OnRecord(es, timers) && SameNames(es, gs) && S.IndexOf(gs, id) < |gs|
    ensures var i := S.IndexOf(gs, id); i < |es| == |gs| && id in timers && es[i].timer == timers[id]
  {
    hide SameNames;
    NamesAt(es, gs, S.IndexOf(gs, id));
  }

  lemma NodesOnRecord(ns: seq<L.Timer>, timers: map<nat, L.Timer>)
    requires OnRecord(L.Entries(ns), timers)
    ensures forall n :: n in ns ==> n in timers.Values
  {
    hide L.Entries;
    forall n | n in ns
      ensures n in timers.Values
    {
      var k :| 0 <= k < |ns| && ns[k] == n;
      assert L.Entries(ns)[k] in L.Entries(ns);
    }
  }

  /** A callback as its connection sees it: when the timer was due, and when it was called. */
  datatype Call = Call(client: nat, expire: int, now: int)

  function CallsOf(log: seq<S.Firing>): seq<Call> {
    seq(|log|, k requires 0 <= k < |log| => Call(log[k].tag.id, log[k].expire, log[k].now))
  }

  function NodeCalls(fired: seq<S.Entry<L.Timer>>, now: int): seq<Call> {
    seq(|fired|, k requires 0 <= k < |fired| => Call(fired[k].timer.client, fired[k].expire, now))
  }

  lemma SameCalls(fired: seq<S.Entry<L.Timer>>, due: seq<S.Entry<S.Tag>>, now: int)
    requires SameNames(fired, due)
    ensures NodeCalls(fired, now) == CallsOf(S.Fire(due, now))
  {
    hide SameNames;
    SameLength(fired, due);
    forall k | 0 <= k < |fired|
      ensures NodeCalls(fired, now)[k] == CallsOf(S.Fire(due, now))[k]
    {
      NamesAt(fired, due, k);
    }
  }

  lemma SameLength(es: seq<S.Entry<L.Timer>>, gs: seq<S.Entry<S.Tag>>)
    requires SameNames(es, gs)
    ensures |es| == |gs|
  {
    assert |S.Relabel(es, ClientOf)| == |es| && |S.Relabel(gs, IdOf)| == |gs|;
  }

  lemma CallsAdd(a: seq<S.Firing>, b: seq<S.Firing>)
    ensures CallsOf(a + b) == CallsOf(a) + CallsOf(b)
  {
  }

  class Client {
    const list: L.SortTimerList
    var timers: map<nat, L.Timer>
    ghost var state: S.State

    ghost predicate Valid()
      reads this, list, list.nodes
    {
      list.Linked() && SameNames(list.View(), state.list) && OnRecord(list.View(), timers)
    }

    constructor ()
      ensures Valid() && fresh(list) && timers == map[] && state == S.EMPTY
    {
      list := new L.SortTimerList();
      timers, state := map[], S.EMPTY;
    }

    /** A new connection. */
    method Add(id: nat, expire: int)
      requires Valid() && S.Permitted(state, S.AddOp(id, expire))
      modifies this, list, timers.Values
      ensures Valid() && state == S.Next(old(state), S.AddOp(id, expire))
      ensures fresh(timers.Values - old(timers.Values))
    {
      hide S.Add, S.IndexOf, SameNames, OnRecord, L.Entries, L.Chain;
      ghost var es, gs := list.View(), state.list;
      NodesOnRecord(list.nodes, timers);
      var t := new L.Timer(id, expire);
      list.AddTimer(t);
      AddNames(es, gs, S.Entry(t, expire), S.Entry(S.Tag(id, state.clock), expire));
      AddOnRecord(es, timers, gs, S.Entry(t, expire));
      timers := timers[id := t];
      state := S.Next(state, S.AddOp(id, expire));
    }

    /** Traffic on a connection: its timer gets a new expiry. */
    method Postpone(id: nat, expire: int)
      requires Valid() && S.Permitted(state, S.AdjustOp(id, expire))
      modifies this, list, timers.Values
      ensures Valid() && state == S.Next(old(state), S.AdjustOp(id, expire))
      ensures timers == old(timers)
    {
      hide S.Adjust, S.IndexOf, SameNames, OnRecord, L.Entries, L.Chain, L.Linking, L.Prevs, L.Nexts;
      ghost var es, gs, i := list.View(), state.list, S.IndexOf(state.list, id);
      NodesOnRecord(list.nodes, timers);
      RecordAt(es, timers, gs, id);
      var t := timers[id];
      ghost var ps, xs := L.Prevs(list.nodes), L.Nexts(list.nodes);
      assert L.Linking(list.nodes, ps, xs) by {
        ChainLinks(list.nodes);
      }
      t.expire := expire;
      NodeMoved(list.nodes, es, ps, xs, i, expire);
      AtIs(list, i);
      SetExpire(es, gs, timers, i, expire, state.clock);
      list.AdjustTimer(t);
      AdjustNames(es[i := S.Entry(t, expire)], gs[i := S.Entry(S.Tag(id, state.clock), expire)], i);
      AdjustOnRecord(es[i := S.Entry(t, expire)], timers, i);
      state := S.Next(state, S.AdjustOp(id, expire));
    }

    /** A connection is closed. */
    method Delete(id: nat)
      requires Valid() && S.Permitted(state, S.DelOp(id))
      modifies this, list, timers.Values
      ensures Valid() && state == S.Next(old(state), S.DelOp(id))
      ensures timers == old(timers)
    {
      hide S.Remove, S.IndexOf, SameNames, OnRecord, L.Entries, L.Chain;
      ghost var es, gs, i := list.View(), state.list, S.IndexOf(state.list, id);
      NodesOnRecord(list.nodes, timers);
      RecordAt(es, timers, gs, id);
      AtIs(list, i);
      list.DelTimer(timers[id]);
      RemoveNames(es, gs, i);
      RemoveOnRecord(es, timers, i);
      state := S.Next(state, S.DelOp(id));
    }

    /** The alarm: the callbacks are for the connections the schedule says, in its order. */
    method Tick(now: int) returns (fired: seq<S.Entry<L.Timer>>)
      requires Valid()
      modifies this, list, timers.Values
      ensures Valid() && state == S.Next(old(state), S.TickOp(now))
      ensures SameNames(fired, S.Due(old(state).list, now))
      ensures timers == old(timers)
    {
      hide S.Due, S.Rest, SameNames, OnRecord, L.Entries, L.Chain;
      ghost var es, gs := list.View(), state.list;
      NodesOnRecord(list.nodes, timers);
      fired := list.Tick(now);
      TickNames(es, gs, now);
      RestOnRecord(es, timers, now);
      state := S.Next(state, S.TickOp(now));
    }

    /** Any of these; the callbacks it makes. */
    method Do(op: S.Op) returns (calls: seq<Call>)
      requires Valid() && S.Permitted(state, op)
      modifies this, list, timers.Values
      ensures Valid() && state == S.Next(old(state), op)
      ensures CallsOf(state.log) == CallsOf(old(state).log) + calls
      ensures fresh(timers.Values - old(timers.Values))
    {
      hide S.Add, S.Adjust, S.Remove, S.Due, S.Rest, SameNames;
      calls := [];
      match op {
        case AddOp(id, x) => Add(id, x);
        case AdjustOp(id, x) => Postpone(id, x);
        case DelOp(id) => Delete(id);
        case TickOp(now) =>
          var fired := Tick(now);
          calls := NodeCalls(fired, now);
          SameCalls(fired, S.Due(old(state).list, now), now);
          CallsAdd(old(state).log, S.Fire(S.Due(old(state).list, now), now));
      }
    }
  }

  /** Any run of calls on a new list, whatever the new expiries: the nodes stay linked, what they show
      is the schedule's list under the connections' names, and the callbacks are the schedule's; and
      what they show is in order if the new expiries are admissible. */
  method Run(ops: seq<S.Op>) returns (c: Client, calls: seq<Call>)
    requires S.AllPermitted(S.EMPTY, ops)
    ensures c.Valid() && c.state == S.Run(S.EMPTY, ops)
    ensures SameNames(c.list.View(), S.Run(S.EMPTY, ops).list)
    ensures calls == CallsOf(S.Run(S.EMPTY, ops).log)
    ensures S.AllAllowed(S.EMPTY, ops) ==> S.Sorted(c.list.View())
  {
    hide S.Lists, S.FiredOnce, SameNames, OnRecord, S.Next, S.Permitted, CallsOf, S.Known, S.AllAdjustable;
    c := new Client();
    calls := [];
    NoCalls();
    var i := 0;
    while i < |ops|
      invariant 0 <= i <= |ops|
      invariant c.Valid() && S.AllPermitted(c.state, ops[i..])
      invariant S.Run(c.state, ops[i..]) == S.Run(S.EMPTY, ops)
      invariant calls == CallsOf(c.state.log)
      invariant fresh(c) && fresh(c.list) && fresh(c.timers.Values)
    {
      assert ops[i..][1..] == ops[i+1..];
      var more := c.Do(ops[i]);
      calls := calls + more;
      i := i + 1;
    }
    S.EveryRunFromEmpty(ops);
    if S.AllAllowed(S.EMPTY, ops) {
      SortedNames(c.list.View(), c.state.list);
    }
  }

  lemma NoCalls()
    ensures CallsOf([]) == []
  {
  }

  lemma RestOnRecord(es: seq<S.Entry<L.Timer>>, timers: map<nat, L.Timer>, now: int)
    requires OnRecord(es, timers)
    ensures OnRecord(S.Rest(es, now), timers)
  {
    hide S.DueCount;
  }

  lemma ChainLinks(ns: seq<L.Timer>)
    requires L.Chain(ns)
    ensures L.Linking(ns, L.Prevs(ns), L.Nexts(ns))
  {
  }

  /** Nodes are distinct, so a node is at one place. */
  lemma AtIs(list: L.SortTimerList, i: nat)
    requires list.Linked() && i < |list.nodes|
    ensures list.At(list.nodes[i]) == i
  {
  }

  lemma SetExpire(es: seq<S.Entry<L.Timer>>, gs: seq<S.Entry<S.Tag>>, timers: map<nat, L.Timer>,
                  i: nat, x: int, clock: nat)
    requires SameNames(es, gs) && OnRecord(es, timers) && i < |es| && i < |gs|
    ensures SameNames(es[i := S.Entry(es[i].timer, x)], gs[i := S.Entry(S.Tag(gs[i].timer.id, clock), x)])
    ensures OnRecord(es[i := S.Entry(es[i].timer, x)], timers)
  {
    var es2, gs2 := es[i := S.Entry(es[i].timer, x)], gs[i := S.Entry(S.Tag(gs[i].timer.id, clock), x)];
    NamesAt(es, gs, i);
    forall k | 0 <= k < |es|
      ensures S.Relabel(es2, ClientOf)[k] == S.Relabel(gs2, IdOf)[k]
    {
      NamesAt(es, gs, k);
    }
    assert es[i] in es;
  }

  /** A new expiry for the i-th node: the links are as they were, and the list shows it. */
  lemma NodeMoved(ns: seq<L.Timer>, es: seq<S.Entry<L.Timer>>, ps: seq<L.Timer?>, xs: seq<L.Timer?>, i: nat, x: int)
    requires L.Linking(ns, ps, xs) && i < |ns| == |es| && ns[i].expire == x
    requires forall k :: 0 <= k < |ns| ==>
      es[k].timer == ns[k] && ns[k].prev == ps[k] && ns[k].next == xs[k]
    requires forall k :: 0 <= k < |ns| && ns[k] != ns[i] ==> es[k].expire == ns[k].expire
    ensures L.Chain(ns) && L.Entries(ns) == es[i := S.Entry(ns[i], x)]
  {
    hide L.Entries, L.Prevs, L.Nexts;
    assert L.Prevs(ns) == ps && L.Nexts(ns) == xs;
  }
}
