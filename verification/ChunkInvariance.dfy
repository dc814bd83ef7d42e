/** Parsing a stream in pieces against parsing it at once. */
module ChunkInvariance {
  import opened CStrings
  import opened HttpParser
  import opened ParserInvariant

  predicate Fits(s: Conn, n: nat) { s.readIdx + n <= READ_BUFFER_SIZE }

  lemma ReceiveTwice(s: Conn, d1: seq<char>, d2: seq<char>)
    requires s.Bounded() && Fits(s, |d1| + |d2|)
    ensures Receive(Receive(s, d1), d2) == Receive(s, d1 + d2)
  {
    assert Receive(Receive(s, d1), d2).buf == Receive(s, d1 + d2).buf;
  }

  // ---------- one line ----------

  ghost predicate Agree(b1: seq<char>, b2: seq<char>, n: nat) {
    n <= |b1| == |b2| && forall k :: 0 <= k < n ==> b1[k] == b2[k]
  }

  lemma ParseLineSkips(b: seq<char>, i: nat, n: nat)
    requires i < n <= |b| && !IsBreak(b[i])
    ensures ParseLine(b, i, n) == ParseLine(b, i + 1, n)
  {
  }

  /** Where the scan stops at once. */
  lemma ParseLineStops(b1: seq<char>, b2: seq<char>, i: nat, n1: nat, n2: nat)
    requires i <= n1 <= n2 <= |b2| && Agree(b1, b2, n1) && (i == n1 || IsBreak(b1[i]))
    ensures var l1, l2 := ParseLine(b1, i, n1), ParseLine(b2, i, n2);
      && (if l1.status.LineOk? then l2.status.LineOk? && l2.idx == l1.idx else l1.idx == i)
      && (l1.status.LineBad? ==> l2 == Line(LineBad, b2, l1.idx))
  {
  }

  lemma {:induction false} ParseLineExtends(b1: seq<char>, b2: seq<char>, i: nat, n1: nat, n2: nat)
    requires i <= n1 <= n2 <= |b2| && Agree(b1, b2, n1)
    ensures var l1, l2 := ParseLine(b1, i, n1), ParseLine(b2, i, n2);
      if l1.status.LineOk? then l2.status.LineOk? && l2.idx == l1.idx
      else l2 == ParseLine(b2, l1.idx, n2)
    ensures var l1 := ParseLine(b1, i, n1);
      l1.status.LineBad? ==> ParseLine(b2, i, n2) == Line(LineBad, b2, l1.idx)
    decreases n1 - i
  {
    hide ParseLine;
    if i < n1 && !IsBreak(b1[i]) {
      ParseLineSkips(b1, i, n1);
      ParseLineSkips(b2, i, n2);
      ParseLineExtends(b1, b2, i + 1, n1, n2);
    } else {
      ParseLineStops(b1, b2, i, n1, n2);
    }
  }

  lemma ReceiveAgrees(s: Conn, d: seq<char>)
    requires s.Bounded() && Fits(s, |d|)
    ensures Agree(s.buf, Receive(s, d).buf, s.readIdx)
  {
  }

  /** A write among the bytes already received can be done before or after receiving more. */
  lemma ReceiveCommutes(s: Conn, d: seq<char>, k: nat, c: char)
    requires s.Bounded() && Fits(s, |d|) && k < s.readIdx
    ensures Receive(s, d).buf[k := c] == Receive(s.(buf := s.buf[k := c]), d).buf
  {
  }

  /** More input leaves a complete line as it was, and an incomplete or ill-formed one is
      looked at again from where parse_line stopped. */
  lemma NextLineExtends(s: Conn, d: seq<char>)
    requires s.Bounded() && Fits(s, |d|)
    ensures var (s1, line) := NextLine(s);
      if line.LineOk? then NextLine(Receive(s, d)) == (Receive(s1, d), LineOk)
      else NextLine(Receive(s, d)) == NextLine(Receive(s1, d))
  {
    hide ParseLine;
    var r := Receive(s, d);
    ReceiveAgrees(s, d);
    ParseLineExtends(s.buf, r.buf, s.ctl.checkedIdx, s.readIdx, r.readIdx);
    var l := ParseLine(s.buf, s.ctl.checkedIdx, s.readIdx);
    if l.status.LineOk? {
      ReceiveCommutes(s, d, l.idx - 2, NUL);
      ReceiveCommutes(s.(buf := s.buf[l.idx-2 := NUL]), d, l.idx - 1, NUL);
    }
  }

  /** A bad line stays bad: in the request line and the header fields no further input
      gets the parser past it, and process_read goes on answering NO_REQUEST. */
  lemma BadLineIsForever(s: Conn, d: seq<char>)
    requires s.Bounded() && Fits(s, |d|) && !s.ctl.state.CheckContent?
    requires NextLine(s).1.LineBad?
    ensures ProcessRead(Receive(s, d)) == Step(Receive(NextLine(s).0, d), NoRequest)
    ensures NextLine(Receive(NextLine(s).0, d)) == (Receive(NextLine(s).0, d), LineBad)
  {
    var r := Receive(s, d);
    ReceiveAgrees(s, d);
    ParseLineExtends(s.buf, r.buf, s.ctl.checkedIdx, s.readIdx, r.readIdx);
  }

  // ---------- the request line and the header fields ----------

  lemma EditedExtends(s: Conn, d: seq<char>, text: nat, p: RequestLine)
    requires s.Bounded() && Fits(s, |d|) && text <= s.readIdx
    requires p.home ==> p.url.Some?
    requires forall k, c :: s.readIdx - text <= k ==> EditedByte(p, k, c) == c
    ensures Edited(Receive(s, d).buf, text, p) == Receive(s.(buf := Edited(s.buf, text, p)), d).buf
  {
    var e, w := Edited(Receive(s, d).buf, text, p), Receive(s.(buf := Edited(s.buf, text, p)), d).buf;
    forall k | 0 <= k < |e|
      ensures e[k] == w[k]
    {
      if k < s.readIdx {
        assert Receive(s, d).buf[k] == s.buf[k];
      } else if k < s.readIdx + |d| {
        assert Receive(s, d).buf[k] == d[k - s.readIdx] == w[k];
      } else {
        assert Receive(s, d).buf[k] == s.buf[k];
      }
    }
  }

  lemma TextExtends(s: Conn, d: seq<char>, text: nat, e: nat)
    requires s.Bounded() && Fits(s, |d|)
    requires text <= e < s.readIdx && s.buf[e] == NUL
    ensures CStr(Receive(s, d).buf, text) == CStr(s.buf, text)
    ensures text + |CStr(s.buf, text)| <= e
  {
    CStrFrame(s.buf, Receive(s, d).buf, text, e);
  }

  lemma RequestLineExtends(s: Conn, d: seq<char>, text: nat)
    requires s.Bounded() && Fits(s, |d|) && text <= s.readIdx
    requires CStr(Receive(s, d).buf, text) == CStr(s.buf, text)
    requires text + |CStr(s.buf, text)| + 2 <= s.readIdx
    ensures RequestLineStep(Receive(s, d), text)
         == Step(Receive(RequestLineStep(s, text).conn, d), RequestLineStep(s, text).code)
  {
    var t := CStr(s.buf, text);
    var p := ParseRequestLine(t);
    forall k, c | s.readIdx - text <= k
      ensures EditedByte(p, k, c) == c
    {
      EditsStayInLine(t, k, c);
    }
    EditedExtends(s, d, text, p);
  }

  lemma LineStepExtends(s: Conn, d: seq<char>)
    requires AtLine(s) && Fits(s, |d|)
    ensures LineStep(Receive(s, d)) == Step(Receive(LineStep(s).conn, d), LineStep(s).code)
  {
    var s1 := s.(ctl := s.ctl.(startLine := s.ctl.checkedIdx));
    TextExtends(s1, d, s.ctl.startLine, s.ctl.checkedIdx - 2);
    if s.ctl.state.CheckRequestLine? {
      RequestLineExtends(s1, d, s.ctl.startLine);
    } else {
      HeaderExtends(s1, d, s.ctl.startLine);
    }
  }

  lemma HeaderExtends(s: Conn, d: seq<char>, text: nat)
    requires s.Bounded() && Fits(s, |d|) && text <= s.readIdx
    requires CStr(Receive(s, d).buf, text) == CStr(s.buf, text)
    ensures HeaderStep(Receive(s, d), text)
         == Step(Receive(HeaderStep(s, text).conn, d), HeaderStep(s, text).code)
  {
  }

  lemma {:induction false} HeaderPhaseExtends(s: Conn, d: seq<char>)
    requires Inv(s) && !s.ctl.state.CheckContent? && Fits(s, |d|)
    ensures match HeaderPhase(s)
      case BodyAt(t) => HeaderPhase(Receive(s, d)) == BodyAt(Receive(t, d))
      case Stopped(t, code) =>
        HeaderPhase(Receive(s, d)) ==
          if code.NoRequest? then HeaderPhase(Receive(t, d)) else Stopped(Receive(t, d), code)
    decreases s.readIdx - s.ctl.checkedIdx
  {
    NextLineExtends(s, d);
    NextLineInv(s);
    var (s1, line) := NextLine(s);
    if line.LineOk? {
      LineStepExtends(s1, d);
      LineStepWritesInLine(s1);
      var r := LineStep(s1);
      if r.code.NoRequest? && !r.conn.ctl.state.CheckContent? {
        HeaderPhaseExtends(r.conn, d);
      }
    }
  }

  // ---------- the body ----------

  /** The state in which the body is first looked at. */
  predicate FreshBody(b: Conn) {
    b.ctl.state.CheckContent? && b.ctl.startLine == b.ctl.checkedIdx
  }

  /** Where no call has begun scanning a partial body. */
  predicate Ready(s: Conn) { s.ctl.state.CheckContent? ==> FreshBody(s) }

  predicate BodyComplete(b: Conn) { b.readIdx >= b.ctl.contentLength + b.ctl.checkedIdx }

  /** None of the body has arrived, or it begins with a byte at which parse_line stops. */
  predicate ScanStops(b: Conn)
    requires b.Bounded()
  {
    || b.ctl.checkedIdx == b.readIdx
    || b.buf[b.ctl.checkedIdx] == LF
    || (b.buf[b.ctl.checkedIdx] == CR && (b.ctl.checkedIdx + 1 == b.readIdx || b.buf[b.ctl.checkedIdx+1] != LF))
  }

  /** parse_line leaves the body alone in exactly those cases. */
  lemma ScanStopsExactly(b: Conn)
    requires Inv(b)
    ensures ScanStops(b) <==> NextLine(b).0 == b
    ensures !ScanStops(b) <==> b.ctl.checkedIdx < NextLine(b).0.ctl.checkedIdx
  {
  }

  /** The body bytes that this call can see are all of the body, or parse_line does not move
      over them. (The middle case only overflows an int.) */
  predicate BodySettled(b: Conn)
    requires b.Bounded()
  {
    BodyComplete(b) || b.ctl.contentLength + b.ctl.checkedIdx > INT_MAX || ScanStops(b)
  }

  /** The state in which the body is first looked at in a call, if it is. */
  function BodyOf(s: Conn): (b: Option<Conn>)
    requires s.Bounded()
    ensures b.Some? ==> b.value.Bounded() && b.value.ctl.state.CheckContent?
  {
    if s.ctl.state.CheckContent? then Some(s)
    else if HeaderPhase(s).BodyAt? then Some(HeaderPhase(s).conn)
    else None
  }

  /** The condition on an arrival, for the state in which it is parsed. */
  predicate WholeBody(s: Conn)
    requires s.Bounded()
  {
    BodyOf(s).Some? ==> BodySettled(BodyOf(s).value)
  }

  /** `r` followed by bytes nobody parses: they are stored, and the NUL that ends the body stays. */
  function Trailing(r: Step, d: seq<char>): Conn
    requires Fits(r.conn, |d|) && r.conn.Bounded()
  {
    var t := Receive(r.conn, d);
    if r.code.GetRequest? && t.ctl.state.CheckContent? && t.ctl.body.Some?
       && 0 <= t.ctl.body.value + t.ctl.contentLength < |t.buf|
    then t.(buf := t.buf[t.ctl.body.value + t.ctl.contentLength := NUL])
    else t
  }

  lemma BodyPhaseExtends(b: Conn, d: seq<char>)
    requires Inv(b) && FreshBody(b) && BodySettled(b) && Fits(b, |d|)
    ensures var r, w := BodyPhase(b, LineOk), BodyPhase(Receive(b, d), LineOk);
      if r.code.NoRequest? then r.conn == b else w == Step(Trailing(r, d), r.code)
  {
    hide BodyPhase, ContentStep, BodySettled;
    BodyOnce(b);
    if ContentStep(b, b.ctl.startLine).code.NoRequest? {
      BodyWaits(b);
    } else {
      ContentExtends(b, d);
      BodyOnce(Receive(b, d));
    }
  }

  /** A look at the body that settles the matter. */
  lemma BodyOnce(b: Conn)
    requires b.Bounded() && FreshBody(b)
    ensures var c := ContentStep(b, b.ctl.startLine);
      !c.code.NoRequest? ==> BodyPhase(b, LineOk) == c
  {
    hide ParseLine;
    assert b.(ctl := b.ctl.(startLine := b.ctl.checkedIdx)) == b;
  }

  lemma BodyWaits(b: Conn)
    requires Inv(b) && FreshBody(b) && BodySettled(b) && ContentStep(b, b.ctl.startLine).code.NoRequest?
    ensures BodyPhase(b, LineOk) == Step(b, NoRequest)
  {
    hide ParseLine, ScanStops;
    assert b.(ctl := b.ctl.(startLine := b.ctl.checkedIdx)) == b;
    ScanStopsExactly(b);
    assert !NextLine(b).1.LineOk?;
    assert BodyPhase(b, LineOk) == BodyPhase(b, LineOpen);
  }

  lemma ContentExtends(b: Conn, d: seq<char>)
    requires b.Bounded() && FreshBody(b) && Fits(b, |d|) && !ContentStep(b, b.ctl.startLine).code.NoRequest?
    ensures var c := ContentStep(b, b.ctl.startLine);
      ContentStep(Receive(b, d), b.ctl.startLine) == Step(Trailing(c, d), c.code)
  {
    if ContentStep(b, b.ctl.startLine).code.GetRequest? {
      SealExtends(b, d, b.ctl.startLine + b.ctl.contentLength);
    }
  }

  lemma SealExtends(b: Conn, d: seq<char>, end: nat)
    requires b.Bounded() && Fits(b, |d|) && end < |b.buf|
    ensures Receive(b, d).buf[end := NUL] == Receive(b.(buf := b.buf[end := NUL]), d).buf[end := NUL]
  {
  }

  /** One cut. Parsing `d1` and then `d2` is parsing `d1 + d2`. */
  lemma OneCut(s: Conn, d1: seq<char>, d2: seq<char>)
    requires Inv(s) && Ready(s) && Fits(s, |d1| + |d2|)
    requires WholeBody(Receive(s, d1))
    ensures var r := ProcessRead(Receive(s, d1));
      && Inv(r.conn) && Fits(r.conn, |d2|)
      && (r.code.NoRequest? ==>
            Ready(r.conn) && ProcessRead(Receive(s, d1 + d2)) == ProcessRead(Receive(r.conn, d2)))
      && (!r.code.NoRequest? ==>
            ProcessRead(Receive(s, d1 + d2)) == Step(Trailing(r, d2), r.code))
  {
    var s1 := Receive(s, d1);
    ReceiveTwice(s, d1, d2);
    ReceiveInv(s, d1);
    ProcessReadInv(s1);
    if s1.ctl.state.CheckContent? {
      BodyPhaseExtends(s1, d2);
    } else {
      HeaderPhaseExtends(s1, d2);
      HeaderPhaseInv(s1);
      var h := HeaderPhase(s1);
      if h.BodyAt? {
        BodyPhaseExtends(h.conn, d2);
      } else if !h.code.NoRequest? {
        HeaderResult(s1);
      }
    }
  }

  /** Outside the body, process_read ends with its state not CHECK_STATE_CONTENT. */
  lemma {:induction false} HeaderResult(s: Conn)
    requires s.Bounded() && !s.ctl.state.CheckContent?
    ensures HeaderPhase(s).Stopped? ==> !HeaderPhase(s).conn.ctl.state.CheckContent?
    decreases s.readIdx - s.ctl.checkedIdx
  {
    var (s1, line) := NextLine(s);
    if line.LineOk? {
      var r := LineStep(s1);
      if r.code.NoRequest? && !r.conn.ctl.state.CheckContent? {
        HeaderResult(r.conn);
      }
    }
  }

  // ---------- any number of pieces ----------

  function Flatten(ds: seq<seq<char>>): seq<char> {
    if ds == [] then [] else ds[0] + Flatten(ds[1..])
  }

  /** What the server does with a sequence of arrivals: parse after each, until the answer is
      no longer NO_REQUEST. `rest` are the arrivals that come after that. */
  datatype Fed = Fed(conn: Conn, code: HttpCode, rest: seq<seq<char>>)

  function Feed(s: Conn, ds: seq<seq<char>>): (f: Fed)
    requires s.Bounded() && ds != [] && Fits(s, |Flatten(ds)|)
    ensures f.conn.Bounded() && Fits(f.conn, |Flatten(f.rest)|)
    decreases |ds|
  {
    var r := ProcessRead(Receive(s, ds[0]));
    if r.code.NoRequest? && |ds| > 1 then Feed(r.conn, ds[1..]) else Fed(r.conn, r.code, ds[1..])
  }

  /** The body bytes are first seen all in one call, at every call of the run. */
  predicate BodiesWhole(s: Conn, ds: seq<seq<char>>)
    requires s.Bounded() && ds != [] && Fits(s, |Flatten(ds)|)
    decreases |ds|
  {
    var s1 := Receive(s, ds[0]);
    WholeBody(s1) &&
    (ProcessRead(s1).code.NoRequest? && |ds| > 1 ==> BodiesWhole(ProcessRead(s1).conn, ds[1..]))
  }

  /** Chunk invariance: however the stream is cut, the answer and the whole state of the parser
      - indices, fields, buffer - are those of parsing it in a single call. When the answer
      comes before the last arrival, the later bytes only lie behind it unread. */
  lemma {:induction false} AnyCut(s: Conn, ds: seq<seq<char>>)
    requires Inv(s) && Ready(s) && ds != [] && Fits(s, |Flatten(ds)|)
    requires BodiesWhole(s, ds)
    ensures var f := Feed(s, ds);
      && ProcessRead(Receive(s, Flatten(ds))) == Step(Trailing(Step(f.conn, f.code), Flatten(f.rest)), f.code)
      && (f.code.NoRequest? ==> f.rest == [])
    decreases |ds|
  {
    hide ProcessRead, WholeBody, Ready;
    OneCut(s, ds[0], Flatten(ds[1..]));
    var r := ProcessRead(Receive(s, ds[0]));
    if r.code.NoRequest? {
      if |ds| > 1 {
        AnyCut(r.conn, ds[1..]);
      } else {
        assert Receive(r.conn, []) == r.conn by { assert Receive(r.conn, []).buf == r.conn.buf; }
        assert ds[0] + [] == ds[0];
      }
    }
  }

  /** In particular two ways of cutting the same stream give the same answer, the same parsed
      fields and, with the unread bytes behind them, the same buffer. */
  lemma CutsAgree(s: Conn, ds: seq<seq<char>>, es: seq<seq<char>>)
    requires Inv(s) && Ready(s) && ds != [] && es != []
    requires Flatten(ds) == Flatten(es) && Fits(s, |Flatten(ds)|)
    requires BodiesWhole(s, ds) && BodiesWhole(s, es)
    ensures var f, g := Feed(s, ds), Feed(s, es);
      && f.code == g.code && f.conn.ctl == g.conn.ctl
      && Trailing(Step(f.conn, f.code), Flatten(f.rest)) == Trailing(Step(g.conn, g.code), Flatten(g.rest))
  {
    AnyCut(s, ds);
    AnyCut(s, es);
  }

  /** A stream in which no body begins may be cut anywhere. */
  lemma {:induction false} BodilessAnyCut(s: Conn, ds: seq<seq<char>>)
    requires Inv(s) && !s.ctl.state.CheckContent? && ds != [] && Fits(s, |Flatten(ds)|)
    requires HeaderPhase(Receive(s, Flatten(ds))).Stopped?
    ensures BodiesWhole(s, ds)
    decreases |ds|
  {
    hide HeaderPhase;
    var s1, d := Receive(s, ds[0]), Flatten(ds[1..]);
    ReceiveTwice(s, ds[0], d);
    ReceiveInv(s, ds[0]);
    HeaderPhaseExtends(s1, d);
    ProcessReadInv(s1);
    var h := HeaderPhase(s1);
    if h.Stopped? && h.code.NoRequest? && |ds| > 1 {
      BodilessAnyCut(h.conn, ds[1..]);
    }
  }

  // ---------- a body that arrives in parts ----------

  /** Once parse_line has run over part of a body, that part is asked for a second time. */
  lemma {:induction false} ScanKeepsWaiting(b: Conn)
    requires b.Bounded() && b.ctl.state.CheckContent? && !BodyComplete(b)
    requires b.ctl.contentLength <= READ_BUFFER_SIZE
    ensures BodyPhase(b, LineOpen).code.NoRequest?
    ensures var t := BodyPhase(b, LineOpen).conn;
      t.ctl.contentLength == b.ctl.contentLength && t.ctl.checkedIdx >= NextLine(b).0.ctl.checkedIdx
      && b.ctl.startLine <= t.ctl.startLine
    decreases b.readIdx - b.ctl.checkedIdx
  {
    var (s1, status) := NextLine(b);
    if status.LineOk? {
      ScanKeepsWaiting(s1.(ctl := s1.ctl.(startLine := s1.ctl.checkedIdx)));
    }
  }

  /** Exactly what a split body costs. The first call sees a part of the body and scans `m`
      bytes of it; the second call is satisfied only by `m` bytes more than the body has.
      So a body of exactly the announced length is answered as in one call if and only if
      parse_line stopped at once, and otherwise the server keeps waiting for input. */
  lemma SplitBodyExactly(b: Conn, d: seq<char>)
    requires Inv(b) && FreshBody(b) && Fits(b, |d|)
    requires !BodyComplete(b)
    requires b.readIdx + |d| >= b.ctl.contentLength + b.ctl.checkedIdx
    requires b.ctl.contentLength + b.ctl.checkedIdx < READ_BUFFER_SIZE
    ensures var first := ProcessRead(b);
      var m := first.conn.ctl.checkedIdx - b.ctl.checkedIdx;
      && first.code.NoRequest?
      && ProcessRead(Receive(b, d)).code.GetRequest?
      && (ProcessRead(Receive(first.conn, d)).code.NoRequest? <==>
            b.readIdx + |d| < b.ctl.contentLength + b.ctl.checkedIdx + m)
      && (m == 0 <==> ScanStops(b))
    ensures b.readIdx + |d| == b.ctl.contentLength + b.ctl.checkedIdx ==>
      (ProcessRead(Receive(ProcessRead(b).conn, d)).code == ProcessRead(Receive(b, d)).code <==> ScanStops(b))
  {
    hide ParseLine, ScanStops;
    ScanKeepsWaiting(b);
    ScanStopsExactly(b);
    BodyPhaseInv(b, LineOk);
    var first := ProcessRead(b).conn;
    var s2 := Receive(first, d);
    if ScanStops(b) {
      assert first == b;
    } else {
      assert first.ctl.checkedIdx > b.ctl.checkedIdx;
    }
    if !BodyComplete(s2) {
      ScanKeepsWaiting(s2.(ctl := s2.ctl.(startLine := s2.ctl.checkedIdx)));
    }
  }
}
