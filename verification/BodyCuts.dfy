/** A stream whose body has exactly the announced length: which ways of cutting it are answered. */
module BodyCuts {
  import opened CStrings
  import opened HttpParser
  import opened ParserInvariant
  import opened ChunkInvariance
  import opened RequestRoundTrip

  /** The body of `w` is there, has exactly the announced length, which is positive, and does not
      fill the buffer. */
  predicate BodyExact(w: Conn)
    requires w.Bounded()
  {
    && BodyOf(w).Some?
    && var b := BodyOf(w).value;
       0 < b.ctl.contentLength && b.readIdx == b.ctl.contentLength + b.ctl.checkedIdx < READ_BUFFER_SIZE
  }

  /** The body of a stream does not depend on where the stream is cut, as long as no call has scanned
      a part of it. */
  lemma BodyStays(s: Conn, d1: seq<char>, d2: seq<char>)
    requires Inv(s) && Ready(s) && Fits(s, |d1| + |d2|) && WholeBody(Receive(s, d1))
    requires ProcessRead(Receive(s, d1)).code.NoRequest?
    ensures var r := ProcessRead(Receive(s, d1)).conn;
      && Inv(r) && Ready(r) && r.readIdx == s.readIdx + |d1|
      && BodyOf(Receive(r, d2)) == BodyOf(Receive(s, d1 + d2))
  {
    hide HeaderPhase, BodyPhase, BodySettled;
    var s1 := Receive(s, d1);
    ReceiveTwice(s, d1, d2);
    ReceiveInv(s, d1);
    OneCut(s, d1, d2);
    if s1.ctl.state.CheckContent? {
      BodyPhaseExtends(s1, d2);
    } else {
      HeaderPhaseExtends(s1, d2);
      HeaderPhaseInv(s1);
      if HeaderPhase(s1).BodyAt? {
        BodyPhaseExtends(HeaderPhase(s1).conn, d2);
      }
    }
  }

  /** A body in sight is the body of the stream, with fewer bytes. */
  lemma BodyPrefix(s: Conn, d: seq<char>)
    requires Inv(s) && Ready(s) && Fits(s, |d|) && BodyOf(s).Some?
    ensures Inv(BodyOf(s).value) && FreshBody(BodyOf(s).value) && BodyOf(s).value.readIdx == s.readIdx
    ensures BodyOf(Receive(s, d)) == Some(Receive(BodyOf(s).value, d))
  {
    hide HeaderPhase;
    if !s.ctl.state.CheckContent? {
      HeaderPhaseInv(s);
      HeaderPhaseExtends(s, d);
    }
  }

  /** Once part of a body has been scanned, the body is not complete when all of it is there. */
  lemma {:induction false} NeverAnswered(s: Conn, ds: seq<seq<char>>)
    requires Inv(s) && s.ctl.state.CheckContent? && ds != [] && Fits(s, |Flatten(ds)|)
    requires s.ctl.contentLength <= READ_BUFFER_SIZE
    requires s.readIdx + |Flatten(ds)| < s.ctl.contentLength + s.ctl.checkedIdx
    ensures Feed(s, ds).code.NoRequest?
    decreases |ds|
  {
    hide BodyPhase;
    var s1 := Receive(s, ds[0]);
    ReceiveInv(s, ds[0]);
    Unanswered(s1);
    ProcessReadInv(s1);
    if |ds| > 1 {
      NeverAnswered(ProcessRead(s1).conn, ds[1..]);
    }
  }

  /** A call on a body that is not complete waits, and asks for no less than before; for more, if the
      scan moved. */
  lemma Unanswered(b: Conn)
    requires b.Bounded() && b.ctl.state.CheckContent? && !BodyComplete(b) && b.ctl.contentLength <= READ_BUFFER_SIZE
    ensures var r := ProcessRead(b);
      && r.code.NoRequest? && r.conn.ctl.state.CheckContent? && r.conn.readIdx == b.readIdx
      && r.conn.ctl.contentLength == b.ctl.contentLength
      && b.ctl.checkedIdx <= NextLine(b).0.ctl.checkedIdx <= r.conn.ctl.checkedIdx
  {
    hide ParseLine;
    var b1 := b.(ctl := b.ctl.(startLine := b.ctl.checkedIdx));
    ScanKeepsWaiting(b1);
    assert NextLine(b1).0.ctl.checkedIdx == NextLine(b).0.ctl.checkedIdx;
  }

  /** Where a call scans a part of the body. */
  lemma ScannedAway(s: Conn)
    requires Inv(s) && Ready(s) && !WholeBody(s) && BodyOf(s).value.ctl.contentLength <= READ_BUFFER_SIZE
    ensures var b, r := BodyOf(s).value, ProcessRead(s);
      && r.code.NoRequest? && Inv(r.conn) && r.conn.ctl.state.CheckContent? && r.conn.readIdx == s.readIdx
      && r.conn.ctl.contentLength == b.ctl.contentLength && b.ctl.checkedIdx < r.conn.ctl.checkedIdx
  {
    hide HeaderPhase, BodyPhase, ScanStops;
    ProcessReadInv(s);
    if !s.ctl.state.CheckContent? {
      HeaderPhaseInv(s);
    }
    var b := BodyOf(s).value;
    ScanStopsExactly(b);
    Unanswered(b);
  }

  /** For every way of cutting a stream with an exact body: it is answered if and only if the body
      bytes are first seen all in one call, at every call. */
  lemma {:induction false} AnsweredExactly(s: Conn, ds: seq<seq<char>>)
    requires Inv(s) && Ready(s) && ds != [] && Fits(s, |Flatten(ds)|)
    requires BodyExact(Receive(s, Flatten(ds)))
    ensures Feed(s, ds).code.GetRequest? <==> BodiesWhole(s, ds)
    decreases |ds|
  {
    hide ProcessRead, BodyOf, BodySettled;
    var s1, d := Receive(s, ds[0]), Flatten(ds[1..]);
    ReceiveTwice(s, ds[0], d);
    ReceiveInv(s, ds[0]);
    if BodiesWhole(s, ds) {
      AnyCut(s, ds);
      ReceiveInv(s, Flatten(ds));
      ExactAnswered(Receive(s, Flatten(ds)));
    } else if !WholeBody(s1) {
      BodyPrefix(s1, d);
      ScannedAway(s1);
      if |ds| > 1 {
        NeverAnswered(ProcessRead(s1).conn, ds[1..]);
      }
    } else {
      BodyStays(s, ds[0], d);
      AnsweredExactly(ProcessRead(s1).conn, ds[1..]);
    }
  }

  lemma ExactAnswered(w: Conn)
    requires Inv(w) && Ready(w) && BodyExact(w)
    ensures ProcessRead(w).code.GetRequest?
  {
    hide HeaderPhase;
    assert BodyComplete(BodyOf(w).value);
  }

  // ---------- the condition on the cut ----------

  /** No arrival ends strictly between lo and hi, when `n` bytes have come before. */
  predicate NoneEndsWithin(n: nat, ds: seq<seq<char>>, lo: nat, hi: nat)
    decreases |ds|
  {
    ds != [] ==> !(lo < n + |ds[0]| < hi) && NoneEndsWithin(n + |ds[0]|, ds[1..], lo, hi)
  }

  lemma {:induction false} NoneEndsBeyond(n: nat, ds: seq<seq<char>>, lo: nat, hi: nat)
    requires hi <= n
    ensures NoneEndsWithin(n, ds, lo, hi)
    decreases |ds|
  {
    if ds != [] {
      NoneEndsBeyond(n + |ds[0]|, ds[1..], lo, hi);
    }
  }

  lemma {:induction false} LineBeyond(b1: seq<char>, b2: seq<char>, i: nat, n1: nat, n2: nat)
    requires i <= n1 <= n2 <= |b2| && Agree(b1, b2, n1)
    requires !ParseLine(b1, i, n1).status.LineOk? && ParseLine(b2, i, n2).status.LineOk?
    requires forall k :: 0 <= k < i ==> !IsBreak(b2[k])
    ensures n1 < ParseLine(b2, i, n2).idx
    decreases n1 - i
  {
    if i < n1 && !IsBreak(b1[i]) {
      LineBeyond(b1, b2, i + 1, n1, n2);
    } else {
      ParseLineInv(b2, i, n2);
    }
  }

  /** A head that is not whole ends in what comes later. */
  lemma {:induction false} HeadEndsLater(s: Conn, d: seq<char>)
    requires Inv(s) && !s.ctl.state.CheckContent? && Fits(s, |d|)
    requires HeaderPhase(s).Stopped? && HeaderPhase(Receive(s, d)).BodyAt?
    ensures s.readIdx < HeaderPhase(Receive(s, d)).conn.ctl.checkedIdx
    decreases s.readIdx - s.ctl.checkedIdx
  {
    hide LineStep, ParseLine;
    var w := Receive(s, d);
    NextLineExtends(s, d);
    NextLineInv(s);
    var (s1, line) := NextLine(s);
    if line.LineOk? {
      LineStepExtends(s1, d);
      LineStepWritesInLine(s1);
      var r := LineStep(s1);
      if r.code.NoRequest? && !r.conn.ctl.state.CheckContent? {
        HeadEndsLater(r.conn, d);
      }
    } else {
      ReceiveAgrees(s, d);
      ReceiveInv(s, d);
      LineBeyond(s.buf, w.buf, s.ctl.checkedIdx, s.readIdx, w.readIdx);
    }
  }

  /** Where the body of `w` begins, and where it ends. */
  function BodyFrom(w: Conn): nat
    requires w.Bounded() && BodyOf(w).Some?
  {
    BodyOf(w).value.ctl.checkedIdx
  }

  /** What an arrival may not do, for a body that does not begin with a break: end inside it. */
  lemma WholeUnlessInside(s: Conn, d: seq<char>)
    requires Inv(s) && Ready(s) && Fits(s, |d|) && BodyExact(Receive(s, d))
    requires var w := Receive(s, d); !IsBreak(BodyOf(w).value.buf[BodyFrom(w)])
    ensures WholeBody(s) <==> !(BodyFrom(Receive(s, d)) < s.readIdx < s.readIdx + |d|)
  {
    hide HeaderPhase;
    var w := Receive(s, d);
    if BodyOf(s).Some? {
      BodyPrefix(s, d);
      var b := BodyOf(s).value;
      ReceiveAgrees(b, d);
    } else {
      HeadEndsLater(s, d);
    }
  }

  lemma {:induction false} WholeExactly(s: Conn, ds: seq<seq<char>>)
    requires Inv(s) && Ready(s) && ds != [] && Fits(s, |Flatten(ds)|)
    requires var w := Receive(s, Flatten(ds)); BodyExact(w) && !IsBreak(BodyOf(w).value.buf[BodyFrom(w)])
    ensures var w := Receive(s, Flatten(ds));
      BodiesWhole(s, ds) <==> NoneEndsWithin(s.readIdx, ds, BodyFrom(w), w.readIdx)
    decreases |ds|
  {
    hide ProcessRead, BodyOf, WholeBody;
    var s1, d := Receive(s, ds[0]), Flatten(ds[1..]);
    ReceiveTwice(s, ds[0], d);
    ReceiveInv(s, ds[0]);
    WholeUnlessInside(s1, d);
    if WholeBody(s1) {
      if !ProcessRead(s1).code.NoRequest? {
        AnsweredLate(s1, d);
        NoneEndsBeyond(s1.readIdx, ds[1..], BodyFrom(Receive(s1, d)), s1.readIdx + |d|);
      } else if |ds| > 1 {
        BodyStays(s, ds[0], d);
        WholeExactly(ProcessRead(s1).conn, ds[1..]);
      }
    }
  }

  /** An answer on a stream with an exact body does not come before all of it is there. */
  lemma AnsweredLate(s: Conn, d: seq<char>)
    requires Inv(s) && Ready(s) && Fits(s, |d|) && BodyExact(Receive(s, d)) && WholeBody(s)
    requires !ProcessRead(s).code.NoRequest?
    ensures d == []
  {
    hide HeaderPhase, ParseLine;
    if BodyOf(s).Some? {
      BodyPrefix(s, d);
      var b := BodyOf(s).value;
      if !BodyComplete(b) {
        Unanswered(b);
      }
    } else {
      HeaderPhaseExtends(s, d);
    }
  }

  /** However a stream with an exact body is cut, if the body does not begin with a break: it is
      answered if and only if no arrival ends inside the body. */
  lemma AnsweredUnlessCut(s: Conn, ds: seq<seq<char>>)
    requires Inv(s) && Ready(s) && ds != [] && Fits(s, |Flatten(ds)|)
    requires var w := Receive(s, Flatten(ds)); BodyExact(w) && !IsBreak(BodyOf(w).value.buf[BodyFrom(w)])
    ensures var w := Receive(s, Flatten(ds));
      Feed(s, ds).code.GetRequest? <==> NoneEndsWithin(s.readIdx, ds, BodyFrom(w), w.readIdx)
  {
    AnsweredExactly(s, ds);
    WholeExactly(s, ds);
  }

  /** What a client prints has an exact body. */
  lemma PrintedExact(buf: seq<char>, r: Request)
    requires |buf| == READ_BUFFER_SIZE && Printable(r) && r.body != []
    ensures var w := Receive(Initial(buf), Print(r));
      && Inv(Initial(buf)) && Inv(w) && BodyExact(w) && BodyFrom(w) == |Print(r)| - |r.body|
      && BodyOf(w).value.buf[BodyFrom(w)] == r.body[0]
  {
    hide HeaderPhase, FindPath, PathOf;
    var w := Receive(Initial(buf), Print(r));
    InitialInv(buf);
    ReceiveInv(Initial(buf), Print(r));
    var c, url, host := HeadRead(w, r, r.body);
    assert c.buf[c.ctl.checkedIdx + 0] == r.body[0];
  }

  /** Every printed request with a body, in whatever arrivals: it is answered if and only if its body
      is first seen all in one call; and if the body does not begin with a break, if and only if no
      arrival ends inside the body. */
  lemma PrintedAnsweredExactly(buf: seq<char>, r: Request, ds: seq<seq<char>>)
    requires |buf| == READ_BUFFER_SIZE && Printable(r) && r.body != [] && ds != [] && Flatten(ds) == Print(r)
    ensures Feed(Initial(buf), ds).code.GetRequest? <==> BodiesWhole(Initial(buf), ds)
    ensures !IsBreak(r.body[0]) ==>
      (Feed(Initial(buf), ds).code.GetRequest? <==>
        NoneEndsWithin(0, ds, |Print(r)| - |r.body|, |Print(r)|))
  {
    hide Print, Printable, BodiesWhole, Feed, BodyExact, BodyFrom, BodyOf;
    PrintedExact(buf, r);
    PrintFits(r);
    AnsweredExactly(Initial(buf), ds);
    if !IsBreak(r.body[0]) {
      AnsweredUnlessCut(Initial(buf), ds);
    }
  }

  lemma PrintFits(r: Request)
    requires Printable(r)
    ensures |Print(r)| < READ_BUFFER_SIZE
  {
  }
}
