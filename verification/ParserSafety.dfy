/** Exactly when the parser reads through a null pointer, overflows an int or writes where it should
    not: conditions on the state in which a call is made, and on the stream. */
module ParserSafety {
  import opened CStrings
  import opened HttpParser
  import opened ParserInvariant
  import opened ChunkInvariance
  import opened RequestRoundTrip
  import opened Grammar

  // ---------- the head ----------

  /** The next line is whole, is the request line, and is bare. */
  ghost predicate BareLineNext(s: Conn)
    requires s.Bounded()
  {
    s.ctl.state.CheckRequestLine? && NextLine(s).1.LineOk? && Bare(CStr(NextLine(s).0.buf, s.ctl.startLine))
  }

  lemma {:induction false} FieldsNeverFault(s: Conn)
    requires s.Bounded() && s.ctl.state.CheckHeader?
    ensures HeaderPhase(s).Stopped? ==> !HeaderPhase(s).code.Fault?
    decreases s.readIdx - s.ctl.checkedIdx
  {
    hide ParseField, ParseLine, CStr;
    var (s1, line) := NextLine(s);
    if line.LineOk? {
      var r := LineStep(s1);
      if r.code.NoRequest? && !r.conn.ctl.state.CheckContent? {
        FieldsNeverFault(r.conn);
      }
    }
  }

  /** In the head nothing else faults. */
  lemma HeadFaultsExactly(s: Conn)
    requires s.Bounded() && !s.ctl.state.CheckContent?
    ensures (HeaderPhase(s).Stopped? && HeaderPhase(s).code.Fault?) <==> BareLineNext(s)
  {
    hide ParseLine, ParseRequestLine, Bare, Accepted, CStr, Edited;
    if s.ctl.state.CheckHeader? {
      FieldsNeverFault(s);
    } else if NextLine(s).1.LineOk? {
      RequestLineExactly(CStr(NextLine(s).0.buf, s.ctl.startLine));
      var r := LineStep(NextLine(s).0);
      if r.code.NoRequest? {
        FieldsNeverFault(r.conn);
      }
    }
  }

  // ---------- the body ----------

  /** Where the last whole line ends that parse_line finds from `i` on. */
  function LinesEnd(buf: seq<char>, i: nat, n: nat): (e: nat)
    requires i <= n <= |buf|
    ensures i <= e <= n
    decreases n - i
  {
    var l := ParseLine(buf, i, n);
    if l.status.LineOk? then LinesEnd(l.buf, l.idx, n) else i
  }

  /** The announced length, counted from there, is beyond int. */
  predicate LengthOverflows(b: Conn)
    requires b.Bounded()
  {
    b.ctl.contentLength + LinesEnd(b.buf, b.ctl.checkedIdx, b.readIdx) > INT_MAX
  }

  /** text[m_content_length] is not in m_read_buf: in front of it, or, when the body ends with the
      buffer, right behind it. */
  predicate NulOutside(b: Conn) {
    if b.ctl.contentLength < 0 then b.ctl.startLine + b.ctl.contentLength < 0
    else BodyComplete(b) && b.ctl.startLine + b.ctl.contentLength == READ_BUFFER_SIZE
  }

  /** One look at the body. A negative length counts as complete at once, and the NUL lands that far
      in front of the body, among lines handled before. */
  lemma ContentExactly(b: Conn)
    requires b.Bounded()
    ensures var r := ContentStep(b, b.ctl.startLine);
      var end := b.ctl.startLine + b.ctl.contentLength;
      && (r.code.Fault? <==> b.ctl.contentLength + b.ctl.checkedIdx > INT_MAX || NulOutside(b))
      && (r.code.GetRequest? <==> BodyComplete(b) && !NulOutside(b))
      && (b.ctl.contentLength < 0 ==> BodyComplete(b))
      && (r.code.GetRequest? ==>
            && 0 <= end < READ_BUFFER_SIZE && r.conn.buf == b.buf[end := NUL]
            && r.conn.ctl == b.ctl.(body := Some(b.ctl.startLine))
            && (b.ctl.startLine <= end <= b.readIdx <==> 0 <= b.ctl.contentLength))
  {
  }

  lemma {:induction false} ScanFaults(b: Conn)
    requires b.Bounded() && b.ctl.state.CheckContent? && !BodyComplete(b)
    requires b.ctl.contentLength + b.ctl.checkedIdx <= INT_MAX
    ensures BodyPhase(b, LineOpen).code.Fault? <==> LengthOverflows(b)
    ensures !BodyPhase(b, LineOpen).code.Fault? ==> BodyPhase(b, LineOpen).code.NoRequest?
    decreases b.readIdx - b.ctl.checkedIdx
  {
    hide ParseLine;
    var (s1, line) := NextLine(b);
    if line.LineOk? && s1.ctl.contentLength + s1.ctl.checkedIdx <= INT_MAX {
      ScanFaults(s1.(ctl := s1.ctl.(startLine := s1.ctl.checkedIdx)));
    }
  }

  lemma BodyFaultsExactly(b: Conn)
    requires b.Bounded() && b.ctl.state.CheckContent?
    ensures BodyPhase(b, LineOk).code.Fault? <==> LengthOverflows(b) || NulOutside(b)
    ensures BodyPhase(b, LineOk).code.GetRequest? <==> BodyComplete(b) && !NulOutside(b)
    ensures BodyPhase(b, LineOk).code.GetRequest? ==>
      BodyPhase(b, LineOk) == ContentStep(b.(ctl := b.ctl.(startLine := b.ctl.checkedIdx)), b.ctl.startLine)
  {
    hide ParseLine;
    var b1 := b.(ctl := b.ctl.(startLine := b.ctl.checkedIdx));
    if !BodyComplete(b) && b.ctl.contentLength + b.ctl.checkedIdx <= INT_MAX {
      ScanFaults(b1);
    }
  }

  // ---------- one call ----------

  ghost predicate CallFaults(s: Conn)
    requires s.Bounded()
  {
    || (!s.ctl.state.CheckContent? && BareLineNext(s))
    || (BodyOf(s).Some? && (LengthOverflows(BodyOf(s).value) || NulOutside(BodyOf(s).value)))
  }

  /** A call of process_read leaves the language's guarantees in exactly three cases: a bare request
      line, a length that overflows, a NUL that falls outside the buffer. */
  lemma CallFaultsExactly(s: Conn)
    requires s.Bounded()
    ensures ProcessRead(s).code.Fault? <==> CallFaults(s)
  {
    hide BareLineNext, LengthOverflows, NulOutside, HeaderPhase, BodyPhase;
    if !s.ctl.state.CheckContent? {
      HeadFaultsExactly(s);
    }
    if BodyOf(s).Some? {
      BodyFaultsExactly(BodyOf(s).value);
    }
  }

  // ---------- where a call writes ----------

  /** Only bytes from `lo` on and before `hi` differ. */
  ghost predicate ChangedWithin(b1: seq<char>, b2: seq<char>, lo: nat, hi: nat) {
    |b1| == |b2| && forall k :: 0 <= k < |b1| && !(lo <= k < hi) ==> b1[k] == b2[k]
  }

  lemma LineWrites(s: Conn)
    requires Inv(s)
    ensures ChangedWithin(s.buf, NextLine(s).0.buf, s.ctl.startLine, NextLine(s).0.ctl.checkedIdx)
  {
    hide ParseLine;
    ParseLineInv(s.buf, s.ctl.checkedIdx, s.readIdx);
  }

  lemma {:induction false} HeadWrites(s: Conn)
    requires Inv(s) && !s.ctl.state.CheckContent?
    ensures var h := HeaderPhase(s).conn;
      s.ctl.startLine <= h.ctl.startLine && ChangedWithin(s.buf, h.buf, s.ctl.startLine, h.ctl.checkedIdx)
    decreases s.readIdx - s.ctl.checkedIdx
  {
    hide NextLine, LineStep, Inv;
    InvBounded(s);
    LineWrites(s);
    NextLineInv(s);
    var (s1, line) := NextLine(s);
    if line.LineOk? {
      LineStepWritesInLine(s1);
      LineStepWithin(s1);
      var r := LineStep(s1);
      if r.code.NoRequest? && !r.conn.ctl.state.CheckContent? {
        HeadWrites(r.conn);
      }
    }
  }

  lemma LineStepWithin(s: Conn)
    requires AtLine(s)
    ensures ChangedWithin(s.buf, LineStep(s).conn.buf, s.ctl.startLine, s.ctl.checkedIdx)
  {
    hide LineStep;
    LineStepWritesInLine(s);
    var b := LineStep(s).conn.buf;
    forall k | 0 <= k < |b| && !(s.ctl.startLine <= k < s.ctl.checkedIdx)
      ensures b[k] == s.buf[k]
    {
      if k < s.ctl.startLine {
        assert b[..s.ctl.startLine][k] == s.buf[..s.ctl.startLine][k];
      } else {
        assert b[s.ctl.checkedIdx..][k - s.ctl.checkedIdx] == s.buf[s.ctl.checkedIdx..][k - s.ctl.checkedIdx];
      }
    }
  }

  /** A body that is not answered is scanned, line by line, and nothing else is written. */
  lemma {:induction false} ScanWrites(b: Conn)
    requires Inv(b) && b.ctl.state.CheckContent? && !BodyComplete(b)
    ensures var t := BodyPhase(b, LineOpen);
      ChangedWithin(b.buf, t.conn.buf, b.ctl.startLine, t.conn.ctl.checkedIdx)
    decreases b.readIdx - b.ctl.checkedIdx
  {
    hide NextLine, Inv;
    InvBounded(b);
    LineWrites(b);
    NextLineInv(b);
    InvBounded(NextLine(b).0);
    var (s1, line) := NextLine(b);
    NextLineKeeps(b);
    if line.LineOk? && s1.ctl.contentLength + s1.ctl.checkedIdx <= INT_MAX {
      var s2 := s1.(ctl := s1.ctl.(startLine := s1.ctl.checkedIdx));
      InvStart(s1);
      ScanWrites(s2);
      assert BodyPhase(b, LineOpen) == BodyPhase(s2, LineOpen);
    }
  }

  lemma InvBounded(s: Conn)
    requires Inv(s)
    ensures s.Bounded()
  {
  }

  lemma InvStart(s: Conn)
    requires Inv(s)
    ensures Inv(s.(ctl := s.ctl.(startLine := s.ctl.checkedIdx)))
  {
  }

  lemma NextLineKeeps(s: Conn)
    requires s.Bounded()
    ensures NextLine(s).0.ctl == s.ctl.(checkedIdx := NextLine(s).0.ctl.checkedIdx)
  {
  }

  /** A body was announced and is taken as received. */
  predicate TookBody(r: Step) { r.code.GetRequest? && r.conn.ctl.state.CheckContent? }

  /** No fault; every write is in the lines the call has gone through, but for the NUL that ends a
      body; and that NUL is behind what was received of this body, inside the buffer. */
  ghost predicate SafeCall(s: Conn)
    requires s.Bounded()
  {
    var r := ProcessRead(s);
    && !r.code.Fault?
    && (!TookBody(r) ==> ChangedWithin(s.buf, r.conn.buf, s.ctl.startLine, r.conn.ctl.checkedIdx))
    && (TookBody(r) ==>
          && r.conn.ctl.body.Some? && s.ctl.startLine <= r.conn.ctl.body.value
          && var end := r.conn.ctl.body.value + r.conn.ctl.contentLength;
          && r.conn.ctl.body.value <= end <= r.conn.readIdx && end < |r.conn.buf| && r.conn.buf[end] == NUL
          && exists b :: ChangedWithin(s.buf, b, s.ctl.startLine, r.conn.ctl.checkedIdx) && r.conn.buf == b[end := NUL])
  }

  /** What the caller can check before the call. */
  ghost predicate Admissible(s: Conn)
    requires s.Bounded()
  {
    !CallFaults(s) && (BodyOf(s).Some? ==> BodyOf(s).value.ctl.contentLength >= 0)
  }

  /** One call of process_read is safe if and only if its state is admissible: no bare request line
      comes next, and the length of a body it looks at is not negative, does not overflow and does
      not end with the buffer. */
  lemma CallSafeExactly(s: Conn)
    requires Inv(s)
    ensures SafeCall(s) <==> Admissible(s)
  {
    hide CallFaults, HeaderPhase, BodyPhase, Inv;
    InvBounded(s);
    CallFaultsExactly(s);
    if BodyOf(s).Some? {
      HeadBefore(s);
      var b := BodyOf(s).value;
      BodyCall(b);
      if TookBody(ProcessRead(s)) {
        var end := b.ctl.startLine + b.ctl.contentLength;
        assert ProcessRead(s).conn.buf == b.buf[end := NUL];
      }
    } else {
      HeadWrites(s);
      HeaderResult(s);
    }
  }

  lemma HeadBefore(s: Conn)
    requires Inv(s) && BodyOf(s).Some?
    ensures var b := BodyOf(s).value;
      && Inv(b) && s.ctl.startLine <= b.ctl.startLine && b.readIdx == s.readIdx
      && ChangedWithin(s.buf, b.buf, s.ctl.startLine, b.ctl.checkedIdx)
      && ProcessRead(s) == BodyPhase(b, LineOk)
  {
    hide HeaderPhase, BodyPhase;
    if !s.ctl.state.CheckContent? {
      HeadWrites(s);
      HeaderPhaseInv(s);
    }
  }

  /** The body part of a call. */
  lemma BodyCall(b: Conn)
    requires Inv(b) && b.ctl.state.CheckContent?
    ensures var r := BodyPhase(b, LineOk);
      && r.conn.ctl.contentLength == b.ctl.contentLength
      && (r.code.Fault? || r.code.GetRequest? || r.code.NoRequest?)
      && (r.code.NoRequest? ==> ChangedWithin(b.buf, r.conn.buf, b.ctl.startLine, r.conn.ctl.checkedIdx))
      && (b.ctl.contentLength < 0 ==> r.code.Fault? || r.code.GetRequest?)
      && (r.code.GetRequest? ==>
            var end := b.ctl.startLine + b.ctl.contentLength;
            && BodyComplete(b) && 0 <= end < |b.buf| && r.conn.buf == b.buf[end := NUL]
            && r.conn.ctl == b.ctl.(startLine := b.ctl.checkedIdx, body := Some(b.ctl.startLine)))
  {
    hide LengthOverflows, NulOutside, NextLine, Inv;
    InvBounded(b);
    BodyFaultsExactly(b);
    var b1 := b.(ctl := b.ctl.(startLine := b.ctl.checkedIdx));
    InvStart(b);
    if !BodyComplete(b) && b.ctl.contentLength + b.ctl.checkedIdx <= INT_MAX {
      ScanFaults(b1);
      ScanWrites(b1);
      ScanKeepsLength(b1);
      assert BodyPhase(b, LineOk) == BodyPhase(b1, LineOpen);
    }
  }

  lemma {:induction false} ScanKeepsLength(b: Conn)
    requires b.Bounded() && b.ctl.state.CheckContent? && !BodyComplete(b)
    ensures BodyPhase(b, LineOpen).conn.ctl.contentLength == b.ctl.contentLength
    decreases b.readIdx - b.ctl.checkedIdx
  {
    hide ParseLine;
    var (s1, line) := NextLine(b);
    if line.LineOk? && s1.ctl.contentLength + s1.ctl.checkedIdx <= INT_MAX {
      ScanKeepsLength(s1.(ctl := s1.ctl.(startLine := s1.ctl.checkedIdx)));
    }
  }

  // ---------- every call of a run ----------

  /** Every call that the server makes on these arrivals is safe; */
  ghost predicate AllSafe(s: Conn, ds: seq<seq<char>>)
    requires s.Bounded() && ds != [] && Fits(s, |Flatten(ds)|)
    decreases |ds|
  {
    var s1 := Receive(s, ds[0]);
    SafeCall(s1) && (ProcessRead(s1).code.NoRequest? && |ds| > 1 ==> AllSafe(ProcessRead(s1).conn, ds[1..]))
  }

  /** is made in an admissible state. */
  ghost predicate AllAdmissible(s: Conn, ds: seq<seq<char>>)
    requires s.Bounded() && ds != [] && Fits(s, |Flatten(ds)|)
    decreases |ds|
  {
    var s1 := Receive(s, ds[0]);
    Admissible(s1) && (ProcessRead(s1).code.NoRequest? && |ds| > 1 ==> AllAdmissible(ProcessRead(s1).conn, ds[1..]))
  }

  /** A run is safe from end to end if and only if each of its calls is made in an admissible state;
      and then the server's answer is none of the C language's making. */
  lemma {:induction false} RunSafeExactly(s: Conn, ds: seq<seq<char>>)
    requires Inv(s) && ds != [] && Fits(s, |Flatten(ds)|)
    ensures AllSafe(s, ds) <==> AllAdmissible(s, ds)
    ensures AllSafe(s, ds) ==> !Feed(s, ds).code.Fault?
    decreases |ds|
  {
    hide SafeCall, Admissible, ProcessRead;
    var s1 := Receive(s, ds[0]);
    ReceiveInv(s, ds[0]);
    CallSafeExactly(s1);
    ProcessReadInv(s1);
    SafeNoFault(s1);
    if ProcessRead(s1).code.NoRequest? && |ds| > 1 {
      RunSafeExactly(ProcessRead(s1).conn, ds[1..]);
    }
  }

  lemma SafeNoFault(s: Conn)
    requires s.Bounded()
    ensures SafeCall(s) ==> !ProcessRead(s).code.Fault?
  {
  }

  // ---------- a stream, however it is cut ----------

  /** What a stream's head has to be: no bare request line, no negative length. */
  ghost predicate HeadSane(s: Conn)
    requires s.Bounded() && !s.ctl.state.CheckContent?
  {
    !BareLineNext(s) && (HeaderPhase(s).BodyAt? ==> HeaderPhase(s).conn.ctl.contentLength >= 0)
  }

  lemma HeadSaneMeans(s: Conn)
    requires s.Bounded() && !s.ctl.state.CheckContent?
    ensures HeadSane(s) <==> match HeaderPhase(s)
                              case Stopped(_, code) => !code.Fault?
                              case BodyAt(b) => b.ctl.contentLength >= 0
  {
    hide BareLineNext, HeaderPhase;
    HeadFaultsExactly(s);
  }

  predicate LengthInRange(s: Conn)
    requires s.Bounded() && !s.ctl.state.CheckContent?
  {
    match HeaderPhase(s)
    case Stopped(_, _) => true
    case BodyAt(b) => b.ctl.contentLength + READ_BUFFER_SIZE <= INT_MAX
  }

  /** In the body, as long as the buffer is not filled to its last byte. */
  lemma {:induction false} BodySafe(s: Conn, ds: seq<seq<char>>)
    requires Inv(s) && s.ctl.state.CheckContent? && ds != [] && s.readIdx + |Flatten(ds)| < READ_BUFFER_SIZE
    requires 0 <= s.ctl.contentLength && s.ctl.contentLength + READ_BUFFER_SIZE <= INT_MAX
    ensures AllAdmissible(s, ds)
    decreases |ds|
  {
    hide ProcessRead, BodyPhase, ParseLine;
    var s1 := Receive(s, ds[0]);
    ReceiveInv(s, ds[0]);
    ProcessReadInv(s1);
    BodyCall(s1);
    BodyStays(s1);
    if ProcessRead(s1).code.NoRequest? && |ds| > 1 {
      BodySafe(ProcessRead(s1).conn, ds[1..]);
    }
  }

  lemma BodyStays(s: Conn)
    requires s.Bounded() && s.ctl.state.CheckContent?
    ensures ProcessRead(s) == BodyPhase(s, LineOk) && ProcessRead(s).conn.ctl.state.CheckContent?
    ensures ProcessRead(s).conn.readIdx == s.readIdx
  {
  }

  /** A length in range neither overflows nor ends with a buffer that is not full. */
  lemma InRangeIsSafe(b: Conn)
    requires b.Bounded() && b.readIdx < READ_BUFFER_SIZE
    requires 0 <= b.ctl.contentLength && b.ctl.contentLength + READ_BUFFER_SIZE <= INT_MAX
    ensures !LengthOverflows(b) && !NulOutside(b)
  {
    hide LinesEnd;
  }

  lemma HeadAdmissible(s: Conn)
    requires s.Bounded() && !s.ctl.state.CheckContent? && s.readIdx < READ_BUFFER_SIZE && LengthInRange(s)
    ensures Admissible(s) <==> HeadSane(s)
  {
    hide HeaderPhase, LengthOverflows, NulOutside, BareLineNext;
    HeadFaultsExactly(s);
    if HeaderPhase(s).BodyAt? && HeaderPhase(s).conn.ctl.contentLength >= 0 {
      InRangeIsSafe(HeaderPhase(s).conn);
    }
  }

  /** However a stream is cut that does not fill the buffer and whose announced length does not come
      near the end of int, every call is safe if and only if the stream's head is sane: the request
      line is not bare, and the length is not negative. */
  lemma {:induction false} EveryCutSafeExactly(s: Conn, ds: seq<seq<char>>)
    requires Inv(s) && !s.ctl.state.CheckContent? && ds != [] && s.readIdx + |Flatten(ds)| < READ_BUFFER_SIZE
    requires LengthInRange(Receive(s, Flatten(ds)))
    ensures AllSafe(s, ds) <==> HeadSane(Receive(s, Flatten(ds)))
    decreases |ds|
  {
    hide SafeCall, Admissible, HeadSane, HeaderPhase, BodyPhase, Inv;
    InvBounded(s);
    var s1, d := Receive(s, ds[0]), Flatten(ds[1..]);
    ReceiveInv(s, ds[0]);
    ReceiveTwice(s, ds[0], d);
    HeaderPhaseExtends(s1, d);
    HeadAdmissible(s1);
    HeadSaneMeans(s1);
    HeadSaneMeans(Receive(s1, d));
    CallSafeExactly(s1);
    ProcessReadInv(s1);
    var h := HeaderPhase(s1);
    if h.BodyAt? {
      HeaderPhaseInv(s1);
      BodyCall(h.conn);
      if ProcessRead(s1).code.NoRequest? && |ds| > 1 {
        BodySafe(ProcessRead(s1).conn, ds[1..]);
        RunSafeExactly(ProcessRead(s1).conn, ds[1..]);
      }
    } else if h.code.NoRequest? {
      if |ds| > 1 {
        HeadSaneMeans(Receive(h.conn, d));
        EveryCutSafeExactly(h.conn, ds[1..]);
      } else {
        ReceiveNothing(s1);
      }
    }
  }

  lemma ReceiveNothing(s: Conn)
    requires s.Bounded()
    ensures Receive(s, []) == s
  {
    assert Receive(s, []).buf == s.buf;
  }

  /** A new connection: any stream that leaves room in the buffer, in any arrivals. */
  lemma NewConnectionSafeExactly(buf: seq<char>, ds: seq<seq<char>>)
    requires |buf| == READ_BUFFER_SIZE && ds != [] && |Flatten(ds)| < READ_BUFFER_SIZE
    requires LengthInRange(Receive(Initial(buf), Flatten(ds)))
    ensures AllSafe(Initial(buf), ds) <==> HeadSane(Receive(Initial(buf), Flatten(ds)))
    ensures HeadSane(Receive(Initial(buf), Flatten(ds))) ==> !Feed(Initial(buf), ds).code.Fault?
  {
    hide AllSafe, HeadSane, LengthInRange, Feed;
    InitialInv(buf);
    EveryCutSafeExactly(Initial(buf), ds);
    RunSafeExactly(Initial(buf), ds);
  }

  // ---------- two requests ----------

  const BARE_LINE: string := "GET http://a HTTP/1.1"

  lemma BareLineParts()
    ensures IsText(BARE_LINE) && Bare(BARE_LINE)
  {
    hide IsBare, InThree, IsText;
    BareLineText();
    HostOnly();
    assert IsBareRequest(BARE_LINE, 3, 4, 12, 13, GET);
  }

  lemma BareLineText()
    ensures IsText(BARE_LINE) && InThree(BARE_LINE, 3, 4, 12, 13, GET) && BARE_LINE[4..12] == "http://a"
  {
    hide IsBare;
    assert BARE_LINE[..3] == "GET";
  }

  lemma HostOnly()
    ensures IsBare("http://a")
  {
  }

  /** GET http://a HTTP/1.1 */
  lemma BareHostWitness(buf: seq<char>)
    requires |buf| == READ_BUFFER_SIZE
    ensures ProcessRead(Receive(Initial(buf), BARE_LINE + CRLF)).code.Fault?
  {
    hide ParseRequestLine, Bare, IsText, NextLine, HeaderPhase;
    var s := Receive(Initial(buf), BARE_LINE + CRLF);
    InitialInv(buf);
    ReceiveInv(Initial(buf), BARE_LINE + CRLF);
    BareLineParts();
    assert BARE_LINE + CRLF + [] == BARE_LINE + CRLF;
    assert Holds(s.buf, 0, BARE_LINE + CRLF);
    LineFound(s, BARE_LINE, []);
    CallFaultsExactly(s);
  }

  const SHORT_LINE: string := "GET /2 HTTP/1.1"
  const MINUS_LINE: string := "Content-length: -5"

  lemma ShortLineParts()
    ensures IsText(SHORT_LINE) && IsRequestLine(SHORT_LINE, 3, 4, 6, 7)
  {
    hide IsRequestLine, EqualsAt, VerbOf, FindPath;
    NameIsVerb(GET);
    VersionIsText();
    ShortTarget();
    ThreeParts(Name(GET), "/2", "HTTP/1.1");
    assert Name(GET) + " " + "/2" + " " + "HTTP/1.1" == SHORT_LINE;
  }

  lemma ShortTarget()
    ensures FindPath("/2") == Path(0)
  {
  }

  lemma MinusFive()
    ensures Atol("-5") == -5
  {
    var t := "-5";
    assert SpaceSpan(t) == 0 && t[0..] == t && t[1..] == "5";
    assert DigitSpan("5") == 1 && "5"[..1] == "5" && "5"[..0] == [];
    assert NatValue("5") == 5;
  }

  lemma MinusLineField()
    ensures IsText(MINUS_LINE) && ParseField(MINUS_LINE) == Length(-5)
  {
    hide Atol, MatchesAt, SkipBlanks;
    var t := MINUS_LINE;
    assert t[16..] == "-5";
    assert SkipBlanks(t, 15) == 16 by {
      SkipBlanksIs(t, 15, 16);
    }
    MinusLineName();
    MinusFive();
  }

  lemma MinusLineName()
    ensures MatchesAt(MINUS_LINE, 0, "Content-length:") && !MatchesAt(MINUS_LINE, 0, "Connection:")
  {
    var t := MINUS_LINE;
    assert forall n :: 0 <= n < 15 ==> t[0 + n] == "Content-length:"[n];
    assert Lower(t[0 + 3]) != Lower("Connection:"[3]);
  }

  function MinusRequest(): string { SHORT_LINE + CRLF + (MINUS_LINE + CRLF + ([] + CRLF + [])) }

  /** A request that announces a body of length -5 is answered, and the NUL that should end the body
      replaces the last digit of that very header field. */
  lemma NegativeLengthWitness(buf: seq<char>)
    requires |buf| == READ_BUFFER_SIZE
    ensures var d := MinusRequest();
      var r := ProcessRead(Receive(Initial(buf), d));
      && |d| == 39 && d[34] == '5'
      && r.code.GetRequest? && r.conn.ctl.body == Some(39) && r.conn.buf[34] == NUL
      && !SafeCall(Receive(Initial(buf), d))
  {
    hide ParseField, NextLine, IsRequestLine, PathOf, FindPath, VerbOf, BodyPhase, SafeCall, CallFaults;
    var d := MinusRequest();
    var s := Receive(Initial(buf), d);
    InitialInv(buf);
    ReceiveInv(Initial(buf), d);
    assert Holds(s.buf, 0, d);
    ShortLineParts();
    MinusLineField();
    var rest := MINUS_LINE + CRLF + ([] + CRLF + []);
    var c1 := RequestLineStored(s, SHORT_LINE, rest, 3, 4, 6, 7);
    var c2 := FieldRead(c1, MINUS_LINE, [] + CRLF + []);
    var c3 := BlankRead(c2, []);
    BodyFaultsExactly(c3);
    BodyCall(c3);
    CallSafeExactly(s);
  }
}
