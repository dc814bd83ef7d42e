/** The send loop write(): the header buffer and the file go out through writev, over as many
    calls as the socket needs. */
module Sender {

  /** Where a byte handed to writev comes from: an offset into m_write_buf or from m_file_address. */
  datatype Loc = Header(i: int) | File(i: int)

  /** The fields write() works on, and the bytes the kernel has taken so far. `headLen` is
      m_write_idx; bases are offsets. */
  datatype Send = Send(
    headLen: nat, fileLen: nat,
    base0: int, len0: nat, base1: int, len1: nat,
    toSend: int, have: nat, sent: seq<Loc>)

  function Range(base: int, n: nat, header: bool): (r: seq<Loc>)
    ensures |r| == n
  {
    seq(n, k requires 0 <= k < n => if header then Header(base + k) else File(base + k))
  }

  /** The bytes m_iv stands for. */
  function Pending(s: Send): (r: seq<Loc>)
    ensures |r| == s.len0 + s.len1
  {
    Range(s.base0, s.len0, true) + Range(s.base1, s.len1, false)
  }

  /** The response: header, then file. */
  function Message(s: Send): (r: seq<Loc>)
    ensures |r| == s.headLen + s.fileLen
  {
    Range(0, s.headLen, true) + Range(0, s.fileLen, false)
  }

  /** What process_write sets up for a file. */
  function Start(headLen: nat, fileLen: nat): Send {
    Send(headLen, fileLen, 0, headLen, 0, fileLen, headLen + fileLen, 0, [])
  }

  /** What it sets up for an error page: bytes_to_send is left at what init() gave it. */
  function StartPage(headLen: nat): Send {
    Send(headLen, 0, 0, headLen, 0, 0, 0, 0, [])
  }

  datatype Status = Idle | Waiting | Finished | Failed

  datatype Ending = Again | Error

  /** writev takes n bytes. */
  function Take(s: Send, n: nat): Send
    requires n <= s.len0 + s.len1
  {
    s.(sent := s.sent + Pending(s)[..n], have := s.have + n, toSend := s.toSend - n)
  }

  /** EAGAIN: m_iv is advanced. `newadd` is have - headLen if this call has sent anything, else 0. */
  function Advance(s: Send, newadd: int): Send
    requires s.have >= s.len0 ==> s.toSend >= 0
  {
    if s.have >= s.len0 then s.(len0 := 0, base1 := newadd, len1 := s.toSend)
    else s.(base0 := s.have, len0 := s.len0 - s.have)
  }

  /** The kernel's answers are possible: each writev takes at least one byte and at most what it
      is offered. `ns` are the counts taken in one call before it fails. */
  ghost predicate Possible(s: Send, ns: seq<nat>)
    decreases |ns|
  {
    ns != [] ==>
      && 1 <= ns[0] <= s.len0 + s.len1
      && (Take(s, ns[0]).toSend > 0 ==> Possible(Take(s, ns[0]), ns[1..]))
  }

  /** There is something to send; a count that is negative, as an int may be, with the header still
      to go. */
  predicate Sending(s: Send) { s.toSend > 0 || (s.toSend < 0 && s.have < s.len0) }

  function Loop(s: Send, ns: seq<nat>, end: Ending, newadd: int): (Send, Status)
    requires Sending(s) && Possible(s, ns)
    decreases |ns|
  {
    if ns == [] then
      if end.Again? then (Advance(s, newadd), Waiting) else (s, Failed)
    else
      var t := Take(s, ns[0]);
      if t.toSend <= 0 then (t, Finished) else Loop(t, ns[1..], end, t.have - s.headLen)
  }

  /** One call of write(). */
  function Call(s: Send, ns: seq<nat>, end: Ending): (Send, Status)
    requires (s.toSend == 0 || Sending(s)) && Possible(s, ns)
  {
    if s.toSend == 0 then (s, Idle) else Loop(s, ns, end, 0)
  }

  // ---------- the object ----------

  class FileSender {
    const headLen: nat
    const fileLen: nat
    var base0: int
    var len0: nat
    var base1: int
    var len1: nat
    var bytesToSend: int
    var bytesHaveSent: nat
    ghost var sent: seq<Loc>

    ghost function State(): Send
      reads this
    {
      Send(headLen, fileLen, base0, len0, base1, len1, bytesToSend, bytesHaveSent, sent)
    }

    constructor (head: nat, file: nat)
      ensures State() == Start(head, file)
    {
      headLen, fileLen := head, file;
      base0, len0, base1, len1 := 0, head, 0, file;
      bytesToSend, bytesHaveSent, sent := head + file, 0, [];
    }

    /** `answers` are the results of the successful calls of writev, `end` how the next one fails. The
        connection stays open unless the call has failed, or has finished without keep-alive. */
    method Write(answers: seq<nat>, end: Ending, linger: bool) returns (status: Status, open: bool)
      requires (bytesToSend == 0 || Sending(State())) && Possible(State(), answers)
      modifies this
      ensures (State(), status) == Call(old(State()), answers, end)
      ensures open <==> !status.Failed? && (status.Finished? ==> linger)
    {
      var newadd := 0;
      if bytesToSend == 0 {
        return Idle, true;
      }
      var i := 0;
      assert answers[0..] == answers;
      while true
        invariant 0 <= i <= |answers| && Sending(State()) && Possible(State(), answers[i..])
        invariant Loop(State(), answers[i..], end, newadd) == Loop(old(State()), answers, end, 0)
        decreases |answers| - i
      {
        if i == |answers| {
          if end.Again? {
            if bytesHaveSent >= len0 {
              len0, base1, len1 := 0, newadd, bytesToSend;
            } else {
              base0, len0 := bytesHaveSent, len0 - bytesHaveSent;
            }
            return Waiting, true;
          }
          return Failed, false;
        }
        var temp := answers[i];
        assert answers[i..][1..] == answers[i + 1..];
        sent := sent + Pending(State())[..temp];
        bytesHaveSent := bytesHaveSent + temp;
        newadd := bytesHaveSent - headLen;
        bytesToSend := bytesToSend - temp;
        i := i + 1;
        if bytesToSend <= 0 {
          return Finished, linger;
        }
      }
    }
  }

  // ---------- when the response goes out right ----------

  /** The bytes taken are the first bytes of the response. */
  ghost predicate Prefix(s: Send) {
    s.have <= s.headLen + s.fileLen && s.sent == Message(s)[..s.have]
  }

  /** ... and m_iv stands for exactly the rest. */
  ghost predicate Exact(s: Send) {
    Prefix(s) && Pending(s) == Message(s)[s.have..]
  }

  /** Nothing is lost from the count: in every run, sent and remaining add up. */
  ghost predicate Counted(s: Send) {
    s.have + s.toSend == s.headLen + s.fileLen && |s.sent| == s.have
  }

  /** The condition on a call that started with `have` bytes sent, took `n` more and then met
      EAGAIN: either nothing had been sent before, or the header is now out and the call made
      progress, or exactly the header had been sent. */
  predicate Resumable(s: Send, n: nat) {
    || s.have == 0
    || (n > 0 && s.have + n >= s.headLen)
    || (n == 0 && s.have == s.headLen)
  }

  lemma StartExact(headLen: nat, fileLen: nat)
    ensures Exact(Start(headLen, fileLen)) && Counted(Start(headLen, fileLen))
  {
  }

  /** Exactness in terms of the fields. */
  ghost predicate Aligned(s: Send) {
    && s.len0 == (if s.have <= s.headLen then s.headLen - s.have else 0)
    && (s.len0 > 0 ==> s.base0 == s.have)
    && s.len0 + s.len1 == s.headLen + s.fileLen - s.have
    && (s.len1 > 0 ==> s.base1 == if s.have <= s.headLen then 0 else s.have - s.headLen)
  }

  lemma AlignedIsExact(s: Send)
    requires s.have <= s.headLen + s.fileLen
    ensures Aligned(s) <==> Pending(s) == Message(s)[s.have..]
  {
    var p, m := Pending(s), Message(s)[s.have..];
    if Aligned(s) {
      assert p == m;
    }
    if p == m {
      var h := if s.have <= s.headLen then s.headLen - s.have else 0;
      assert |p| == |m|;
      if h > 0 {
        assert m[h - 1].Header? && p[h - 1] == m[h - 1];
      }
      if s.len0 > 0 {
        assert p[s.len0 - 1].Header? && m[s.len0 - 1] == p[s.len0 - 1];
        assert p[0] == m[0];
      }
      if s.len1 > 0 {
        assert p[s.len0] == m[s.len0];
      }
    }
  }

  /** One call that resumes from an exact state, sends at most once and is cut short: the state
      it leaves is exact if and only if the call was resumable. */
  lemma ResumeExactly(s: Send, n: nat)
    requires Exact(s) && Counted(s) && n < s.toSend
    ensures var t := Advance(Take(s, n), if n > 0 then s.have + n - s.headLen else 0);
      && Prefix(t) && Counted(t) && (Exact(t) <==> Resumable(s, n))
  {
    AlignedIsExact(s);
    var t := Advance(Take(s, n), if n > 0 then s.have + n - s.headLen else 0);
    assert t.sent == Message(s)[..t.have] by {
      assert Message(s)[..s.have] + Message(s)[s.have..][..n] == Message(s)[..s.have + n];
    }
    AlignedIsExact(t);
  }

  // ---------- whole runs ----------

  /** Calls of write() one after the other, each given by the counts its writevs took before
      EAGAIN, until one of them finishes. */
  ghost predicate PossibleRun(s: Send, calls: seq<seq<nat>>)
    decreases |calls|
  {
    calls != [] ==>
      && s.toSend > 0 && Possible(s, calls[0])
      && var (t, status) := Call(s, calls[0], Again);
         (status.Waiting? ==> PossibleRun(t, calls[1..]))
  }

  ghost function Run(s: Send, calls: seq<seq<nat>>): (Send, Status)
    requires PossibleRun(s, calls)
    decreases |calls|
  {
    if calls == [] then (s, Waiting)
    else
      var (t, status) := Call(s, calls[0], Again);
      if status.Waiting? then Run(t, calls[1..]) else (t, status)
  }

  /** The calls that do no harm: at most one writev before EAGAIN unless the first one finishes,
      and a call that is cut short is resumable. */
  predicate GoodCall(s: Send, ns: seq<nat>) {
    if ns == [] then Resumable(s, 0)
    else ns[0] >= s.toSend || (|ns| == 1 && Resumable(s, ns[0]))
  }

  ghost predicate Good(s: Send, calls: seq<seq<nat>>)
    requires PossibleRun(s, calls)
    decreases |calls|
  {
    calls != [] ==>
      && GoodCall(s, calls[0])
      && var (t, status) := Call(s, calls[0], Again);
         (status.Waiting? ==> Good(t, calls[1..]))
  }

  /** The response has arrived whole; or what has arrived is its beginning and the rest stands
      ready in m_iv. */
  ghost predicate Delivered(t: Send, status: Status) {
    if status.Finished? then t.sent == Message(t) else Exact(t)
  }

  /** In every run, whatever the kernel answers, sent and remaining bytes add up to the response. */
  lemma {:induction false} LoopCounts(s: Send, ns: seq<nat>, end: Ending, newadd: int)
    requires s.toSend > 0 && Possible(s, ns) && Counted(s)
    ensures var (t, status) := Loop(s, ns, end, newadd);
      && Counted(t) && (t.headLen, t.fileLen) == (s.headLen, s.fileLen) && s.sent <= t.sent
      && (status.Finished? <==> t.toSend <= 0) && !status.Idle?
    decreases |ns|
  {
    if ns != [] {
      var t := Take(s, ns[0]);
      if t.toSend > 0 {
        LoopCounts(t, ns[1..], end, t.have - s.headLen);
      }
    }
  }

  /** A call in the good form: exact again, or all of the response. */
  lemma GoodCallDelivers(s: Send, ns: seq<nat>)
    requires Exact(s) && Counted(s) && s.toSend > 0 && Possible(s, ns) && GoodCall(s, ns)
    ensures var (t, status) := Call(s, ns, Again);
      Delivered(t, status) && Counted(t) && (status.Waiting? || status.Finished?)
  {
    LoopCounts(s, ns, Again, 0);
    if ns == [] || ns[0] < s.toSend {
      CutShort(s, ns);
      ResumeExactly(s, if ns == [] then 0 else ns[0]);
    } else {
      assert |Pending(s)| == s.toSend;
      assert Message(s)[..s.have] + Message(s)[s.have..] == Message(s);
    }
  }

  /** Bytes have arrived that are not the response's: that cannot be undone. */
  ghost predicate Wrong(s: Send) { !(s.sent <= Message(s)) }

  /** m_iv stands for something else than the rest, in one of the two ways it can: part of the
      header is missing before the file, or the file starts over. */
  ghost predicate Stuck(s: Send) {
    && s.sent <= Message(s) && s.len1 > 0
    && if s.have < s.headLen then s.len0 < s.headLen - s.have && (s.len0 > 0 ==> s.base0 == s.have)
       else s.have > s.headLen && s.len0 == 0 && s.base1 != s.have - s.headLen
  }

  /** A writev whose bytes are not the next ones of the response. */
  lemma TakeWrong(s: Send, n: nat, k: nat)
    requires Counted(s) && k < n <= s.len0 + s.len1
    requires s.have + k < |Message(s)| && Pending(s)[k] != Message(s)[s.have + k]
    ensures Wrong(Take(s, n))
  {
    var t := Take(s, n);
    assert t.sent[s.have + k] == Pending(s)[k];
  }

  lemma PrefixOfPrefix<T>(a: seq<T>, b: seq<T>, c: seq<T>)
    requires a <= b
    ensures b <= c ==> a <= c
  {
  }

  lemma WrongStays(s: Send, ns: seq<nat>, newadd: int)
    requires s.toSend > 0 && Possible(s, ns) && Counted(s) && Wrong(s)
    ensures Wrong(Loop(s, ns, Again, newadd).0)
  {
    LoopCounts(s, ns, Again, newadd);
    var t := Loop(s, ns, Again, newadd).0;
    PrefixOfPrefix(s.sent, t.sent, Message(s));
  }

  /** A call from its first writev on. */
  lemma CallTakes(s: Send, ns: seq<nat>)
    requires s.toSend > 0 && ns != [] && Possible(s, ns)
    ensures ns[0] <= s.len0 + s.len1
    ensures var t := Take(s, ns[0]);
      && (t.toSend <= 0 ==> Call(s, ns, Again) == (t, Finished))
      && (t.toSend > 0 ==>
            && Possible(t, ns[1..])
            && Call(s, ns, Again) == Loop(t, ns[1..], Again, s.have + ns[0] - s.headLen))
  {
    hide Pending, Advance;
  }

  lemma LoopEnds(s: Send, newadd: int)
    requires s.toSend > 0
    ensures Possible(s, []) && Loop(s, [], Again, newadd) == (Advance(s, newadd), Waiting)
  {
    hide Advance;
  }

  lemma CallEmpty(s: Send)
    requires s.toSend > 0
    ensures Possible(s, []) && Call(s, [], Again) == (Advance(s, 0), Waiting) && Take(s, 0) == s
  {
    hide Advance, Pending;
  }

  lemma TakeCounts(s: Send, n: nat)
    requires n <= s.len0 + s.len1
    ensures Take(s, n).toSend == s.toSend - n
  {
  }

  /** A call cut short after at most one writev. */
  lemma CutShort(s: Send, ns: seq<nat>)
    requires s.toSend > 0 && Possible(s, ns) && |ns| <= 1 && (ns != [] ==> ns[0] < s.toSend)
    ensures var n := if ns == [] then 0 else ns[0];
      Call(s, ns, Again) == (Advance(Take(s, n), if n > 0 then s.have + n - s.headLen else 0), Waiting)
  {
    hide Advance, Take, Loop, Call;
    if ns == [] {
      CallEmpty(s);
    } else {
      assert ns[1..] == [];
      TakeCounts(s, ns[0]);
      CallTakes(s, ns);
      LoopEnds(Take(s, ns[0]), s.have + ns[0] - s.headLen);
    }
  }

  /** A second writev in a call repeats what the first one sent. */
  lemma SecondTakeWrong(s: Send, n: nat, ns: seq<nat>)
    requires Counted(s) && 1 <= n <= s.len0 + s.len1 && s.toSend > n && ns != []
    requires Possible(Take(s, n), ns) && Pending(s)[0] == Message(s)[s.have]
    ensures Wrong(Loop(Take(s, n), ns, Again, s.have + n - s.headLen).0)
  {
    var t := Take(s, n);
    assert Pending(t) == Pending(s);
    TakeWrong(t, ns[0], 0);
    var u := Take(t, ns[0]);
    if u.toSend > 0 {
      WrongStays(u, ns[1..], u.have - s.headLen);
    }
  }

  lemma SecondCallWrong(s: Send, ns: seq<nat>)
    requires Counted(s) && s.toSend > 0 && Possible(s, ns) && |ns| > 1 && s.toSend > ns[0]
    requires Pending(s) != [] && s.have < |Message(s)| && Pending(s)[0] == Message(s)[s.have]
    ensures Wrong(Call(s, ns, Again).0)
  {
    hide Wrong, Pending, Message, Loop, Call, Take;
    TakeCounts(s, ns[0]);
    CallTakes(s, ns);
    SecondTakeWrong(s, ns[0], ns[1..]);
  }

  /** From a stuck state no call gets the response out. */
  lemma StuckStays(s: Send, ns: seq<nat>)
    requires Counted(s) && s.toSend > 0 && Possible(s, ns) && Stuck(s)
    ensures var (t, status) := Call(s, ns, Again); Wrong(t) || (status.Waiting? && Stuck(t))
  {
    hide Loop;
    if ns != [] {
      var n := ns[0];
      var t := Take(s, n);
      if s.have > s.headLen {
        TakeWrong(s, n, 0);
        WrongAfter(s, ns);
      } else if n > s.len0 {
        TakeWrong(s, n, s.len0);
        WrongAfter(s, ns);
      } else if |ns| > 1 {
        SecondCallWrong(s, ns);
      } else {
        CutShort(s, ns);
        assert t.sent <= Message(t) by {
          assert Pending(s)[..n] == Message(s)[s.have..s.have + n];
          assert t.sent == Message(s)[..s.have + n];
        }
      }
    } else {
      CutShort(s, ns);
    }
  }

  lemma WrongAfter(s: Send, ns: seq<nat>)
    requires Counted(s) && s.toSend > 0 && ns != [] && Possible(s, ns) && Wrong(Take(s, ns[0]))
    ensures Wrong(Call(s, ns, Again).0)
  {
    hide Wrong, Pending, Message, Loop, Call;
    var t := Take(s, ns[0]);
    CallTakes(s, ns);
    if t.toSend > 0 {
      TakeCounted(s, ns[0]);
      WrongStays(t, ns[1..], s.have + ns[0] - s.headLen);
    }
  }

  lemma TakeCounted(s: Send, n: nat)
    requires Counted(s) && n <= s.len0 + s.len1
    ensures Counted(Take(s, n))
  {
  }

  lemma BadCallBreaks(s: Send, ns: seq<nat>)
    requires Exact(s) && Counted(s) && s.toSend > 0 && s.fileLen > 0 && Possible(s, ns) && !GoodCall(s, ns)
    ensures var (t, status) := Call(s, ns, Again); Wrong(t) || (status.Waiting? && Stuck(t))
  {
    hide Loop;
    assert Aligned(s) by {
      AlignedIsExact(s);
    }
    if |ns| <= 1 {
      var n := if ns == [] then 0 else ns[0];
      CutShort(s, ns);
      assert Prefix(Call(s, ns, Again).0) by {
        ResumeExactly(s, n);
      }
    } else {
      assert Pending(s)[0] == Message(s)[s.have..][0];
      SecondCallWrong(s, ns);
    }
  }

  lemma {:induction false} BrokenRun(s: Send, calls: seq<seq<nat>>)
    requires Counted(s) && PossibleRun(s, calls) && s.fileLen > 0 && s.toSend > 0
    requires Wrong(s) || Stuck(s)
    ensures var (t, status) := Run(s, calls); !Delivered(t, status)
    decreases |calls|
  {
    if calls == [] {
      if Stuck(s) {
        AlignedIsExact(s);
      }
    } else {
      LoopCounts(s, calls[0], Again, 0);
      if Wrong(s) {
        WrongStays(s, calls[0], 0);
      } else {
        StuckStays(s, calls[0]);
      }
      var (t, status) := Call(s, calls[0], Again);
      if status.Waiting? {
        BrokenRun(t, calls[1..]);
      }
    }
  }

  /** The send theorem. Over every run, with whatever counts the kernel answers, the client gets
      the header and the file byte for byte - a prefix of them while the run is going on, with
      the rest ready to be sent, and all of them when it finishes - if and only if every call
      was good: no second writev after a short one, and every cut-short call resumable. */
  lemma {:induction false} SentExactly(s: Send, calls: seq<seq<nat>>)
    requires Exact(s) && Counted(s) && s.fileLen > 0 && s.toSend > 0 && PossibleRun(s, calls)
    ensures var (t, status) := Run(s, calls);
      && Counted(t)
      && (Delivered(t, status) <==> Good(s, calls))
    decreases |calls|
  {
    if calls != [] {
      LoopCounts(s, calls[0], Again, 0);
      var (t, status) := Call(s, calls[0], Again);
      if GoodCall(s, calls[0]) {
        GoodCallDelivers(s, calls[0]);
        if status.Waiting? {
          SentExactly(t, calls[1..]);
        }
      } else {
        BadCallBreaks(s, calls[0]);
        if status.Waiting? {
          BrokenRun(t, calls[1..]);
          RunCounts(t, calls[1..]);
        }
      }
    }
  }

  lemma {:induction false} RunCounts(s: Send, calls: seq<seq<nat>>)
    requires Counted(s) && PossibleRun(s, calls)
    ensures var t := Run(s, calls).0; Counted(t) && Message(t) == Message(s)
    decreases |calls|
  {
    if calls != [] {
      LoopCounts(s, calls[0], Again, 0);
      var (t, status) := Call(s, calls[0], Again);
      if status.Waiting? {
        RunCounts(t, calls[1..]);
      }
    }
  }

  /** Each condition is needed. A header of two bytes and a file of two: a second writev in one
      call; EAGAIN within the header for the second time; EAGAIN before any progress, with part
      of the file sent. */
  lemma BadRuns(calls: seq<seq<nat>>)
    requires calls in {[[1, 1]], [[1], []], [[3], []]}
    ensures PossibleRun(Start(2, 2), calls) && Run(Start(2, 2), calls).1 == Waiting
    ensures !Exact(Run(Start(2, 2), calls).0)
  {
    var s := Start(2, 2);
    StartExact(2, 2);
    if calls == [[1, 1]] {
      assert Possible(Take(Take(s, 1), 1), []);
      assert [1, 1][1..] == [1] && [1][1..] == [];
      assert Possible(s, [1, 1]);
      assert Call(s, [1, 1], Again).1.Waiting? by {
        assert Loop(s, [1, 1], Again, 0) == Loop(Take(s, 1), [1], Again, -1);
      }
      assert calls[1..] == [];
    } else {
      var n: nat := if calls == [[1], []] then 1 else 3;
      assert [n][1..] == [];
      assert Possible(s, [n]);
      CutShort(s, [n]);
      var t := Call(s, [n], Again).0;
      assert Possible(t, []);
      CutShort(t, []);
      var rest: seq<seq<nat>> := [[]];
      assert calls[0] == [n] && calls[1..] == rest && rest[1..] == [];
      assert PossibleRun(t, rest) && Run(t, rest).1 == Waiting;
      assert !Good(t, rest);
    }
    SentExactly(s, calls);
  }

  // ---------- how a call ends ----------

  /** The bytes taken in a call, up to the one that finishes it. */
  function Taken(ns: seq<nat>, toSend: int): nat {
    if ns == [] then 0
    else if ns[0] >= toSend then ns[0]
    else ns[0] + Taken(ns[1..], toSend - ns[0])
  }

  /** m_iv is as it was: writev does not move it. */
  predicate SamePlace(s: Send, t: Send) {
    (t.headLen, t.fileLen, t.base0, t.len0, t.base1, t.len1) == (s.headLen, s.fileLen, s.base0, s.len0, s.base1, s.len1)
  }

  predicate SameCounts(s: Send, t: Send, n: nat) {
    t.have == s.have + n && t.toSend == s.toSend - n && |t.sent| == |s.sent| + n && s.sent <= t.sent
  }

  /** A call that has something to send finishes when the count comes to zero or below; otherwise it
      waits if writev failed with EAGAIN, and fails on any other error, with m_iv where it was. In
      every case the counts have moved by what was taken. */
  lemma {:induction false} EndsExactly(s: Send, ns: seq<nat>, end: Ending, newadd: int)
    requires Sending(s) && Possible(s, ns)
    ensures var (t, status) := Loop(s, ns, end, newadd);
      && SameCounts(s, t, Taken(ns, s.toSend))
      && (status.Finished? <==> ns != [] && t.toSend <= 0)
      && (status.Waiting? <==> !status.Finished? && end.Again?)
      && (status.Failed? <==> !status.Finished? && end.Error?)
      && (!status.Waiting? ==> SamePlace(s, t))
    decreases |ns|
  {
    if ns != [] {
      TakeMoves(s, ns[0]);
      var t := Take(s, ns[0]);
      if t.toSend > 0 {
        EndsExactly(t, ns[1..], end, t.have - s.headLen);
        PrefixOfPrefix(s.sent, t.sent, Loop(t, ns[1..], end, t.have - s.headLen).0.sent);
      }
    }
  }

  lemma TakeMoves(s: Send, n: nat)
    requires n <= s.len0 + s.len1
    ensures SameCounts(s, Take(s, n), n) && SamePlace(s, Take(s, n))
  {
  }

  /** A run that ends with another error than EAGAIN, or finishes: nothing more is sent after that,
      m_iv is left where the last call found it, and the counts say how much has gone out; and if the
      calls before were good and the last one took at most once, that is the beginning of the
      response. */
  lemma FailedRun(s: Send, calls: seq<seq<nat>>, ns: seq<nat>)
    requires Exact(s) && Counted(s) && s.fileLen > 0 && s.toSend > 0 && PossibleRun(s, calls)
    requires var (t, status) := Run(s, calls); status.Waiting? && t.toSend > 0 && Possible(t, ns)
    ensures var t := Run(s, calls).0;
      var (u, last) := Call(t, ns, Error);
      && (last.Failed? || last.Finished?) && SamePlace(t, u) && t.sent <= u.sent && Counted(u)
      && (last.Failed? <==> u.have < s.headLen + s.fileLen)
      && (last.Failed? && Good(s, calls) && |ns| <= 1 ==> u.sent <= Message(s))
  {
    hide Loop, Good, Message, Pending, Run;
    var (t, status) := Run(s, calls);
    SentExactly(s, calls);
    RunCounts(s, calls);
    RunSame(s, calls);
    EndsExactly(t, ns, Error, 0);
    if Good(s, calls) && |ns| <= 1 && Call(t, ns, Error).1.Failed? {
      OneMore(t, ns);
    }
  }

  lemma {:induction false} RunSame(s: Send, calls: seq<seq<nat>>)
    requires Counted(s) && PossibleRun(s, calls)
    ensures var t := Run(s, calls).0; t.headLen == s.headLen && t.fileLen == s.fileLen
    decreases |calls|
  {
    if calls != [] {
      LoopCounts(s, calls[0], Again, 0);
      var (t, status) := Call(s, calls[0], Again);
      if status.Waiting? {
        RunSame(t, calls[1..]);
      }
    }
  }

  /** From an exact state the bytes of one writev are the next ones. */
  lemma OneMore(t: Send, ns: seq<nat>)
    requires Exact(t) && Counted(t) && t.toSend > 0 && Possible(t, ns) && |ns| <= 1 && Call(t, ns, Error).1.Failed?
    ensures Call(t, ns, Error).0.sent <= Message(t)
  {
    if ns != [] {
      var u := Take(t, ns[0]);
      assert ns[1..] == [] && u.toSend > 0;
      var m := Message(t);
      assert u.sent == m[..t.have] + m[t.have..][..ns[0]];
      assert m[..t.have] + m[t.have..][..ns[0]] == m[..t.have + ns[0]];
      assert Call(t, ns, Error) == Loop(u, ns[1..], Error, u.have - t.headLen);
    }
  }

  /** Where m_iv is after EAGAIN: behind the header, at what this call has sent of the file (at its
      beginning, if the call has sent nothing), with everything left to send; within the header, at all
      that has been sent, that much shorter once more. */
  lemma {:induction false} WaitsExactly(s: Send, ns: seq<nat>)
    requires Sending(s) && Possible(s, ns) && Call(s, ns, Again).1.Waiting?
    ensures var t := Call(s, ns, Again).0;
      if t.have >= s.len0 then
        && t.base0 == s.base0 && t.len0 == 0 && t.len1 == t.toSend
        && t.base1 == (if ns == [] then 0 else t.have - s.headLen)
      else
        t.base0 == t.have && t.len0 == s.len0 - t.have && t.base1 == s.base1 && t.len1 == s.len1
  {
    LoopWaits(s, ns, 0);
  }

  lemma {:induction false} LoopWaits(s: Send, ns: seq<nat>, newadd: int)
    requires Sending(s) && Possible(s, ns) && Loop(s, ns, Again, newadd).1.Waiting?
    ensures var t := Loop(s, ns, Again, newadd).0;
      if t.have >= s.len0 then
        && t.base0 == s.base0 && t.len0 == 0 && t.len1 == t.toSend
        && t.base1 == (if ns == [] then newadd else t.have - s.headLen)
      else
        t.base0 == t.have && t.len0 == s.len0 - t.have && t.base1 == s.base1 && t.len1 == s.len1
    decreases |ns|
  {
    if ns != [] {
      TakeMoves(s, ns[0]);
      var t := Take(s, ns[0]);
      LoopWaits(t, ns[1..], t.have - s.headLen);
      if ns[1..] == [] {
        assert Loop(t, [], Again, t.have - s.headLen).0.have == t.have;
      }
    }
  }
}
