/** What every call of process_read keeps, and where the parser writes. */
module ParserInvariant {
  import opened CStrings
  import opened HttpParser

  predicate IsBreak(c: char) { c == CR || c == LF }

  /** The indices are ordered and no line break is left before m_checked_idx. */
  ghost predicate Inv(s: Conn) {
    && s.Bounded()
    && forall k :: 0 <= k < s.ctl.checkedIdx ==> !IsBreak(s.buf[k])
  }

  lemma InitialInv(buf: seq<char>)
    requires |buf| == READ_BUFFER_SIZE
    ensures Inv(Initial(buf))
  {
  }

  lemma ReceiveInv(s: Conn, d: seq<char>)
    requires Inv(s) && s.readIdx + |d| <= READ_BUFFER_SIZE
    ensures Inv(Receive(s, d))
  {
  }

  /** parse_line passes over no break, so the branch that looks back for a CR never runs and
      a line found reaches back to where it was looked for. */
  lemma {:induction false} ParseLineInv(buf: seq<char>, i: nat, n: nat)
    requires i <= n <= |buf|
    requires forall k :: 0 <= k < i ==> !IsBreak(buf[k])
    ensures var l := ParseLine(buf, i, n);
      && (forall k :: 0 <= k < l.idx ==> !IsBreak(l.buf[k]))
      && (l.status.LineOk? ==>
            i + 2 <= l.idx && buf[l.idx-2] == CR && buf[l.idx-1] == LF)
    decreases n - i
  {
    if i < n && !IsBreak(buf[i]) {
      ParseLineInv(buf, i + 1, n);
    }
  }

  /** Expanding "/" to "/judge.html" writes eleven bytes behind the '/'. The blank, the version
      and the two NULs that end the line leave room for them, and for no more exactly when a
      single blank stands before the version. */
  lemma HomePageFits(t: string)
    requires ParseRequestLine(t).home
    ensures var w := ParseRequestLine(t).url.value + 1;
      && w < |t| && IsBlank(t[w])
      && w + 11 <= |t| + 2
      && (w + 11 == |t| + 2 <==> w + 1 < |t| && !IsBlank(t[w+1]))
  {
    var i := BlankFrom(t, 0);
    var j := BlankFrom(t, SkipBlanks(t, i + 1));
    BlankFromMeans(t, SkipBlanks(t, i + 1));
    assert EqualsAt(t, SkipBlanks(t, j + 1), "HTTP/1.1");
    SkipBlanksMeans(t, j + 1);
  }

  /** The bytes the request-line parser changes all lie inside the line and its two NULs. */
  lemma EditsStayInLine(t: string, k: int, c: char)
    ensures var b := EditedByte(ParseRequestLine(t), k, c);
      && (b != c ==> 0 <= k < |t| + 2)
      && (IsBreak(b) ==> b == c)
  {
    if ParseRequestLine(t).home {
      HomePageFits(t);
    }
  }

  lemma RequestLineKeeps(s: Conn, e: nat, text: nat)
    requires Inv(s) && text <= e && e + 2 <= s.ctl.checkedIdx && s.buf[e] == NUL
    ensures var b := RequestLineStep(s, text).conn.buf;
      && |b| == |s.buf|
      && (forall k :: 0 <= k < |b| && !(text <= k < s.ctl.checkedIdx) ==> b[k] == s.buf[k])
      && (forall k :: 0 <= k < s.ctl.checkedIdx ==> !IsBreak(b[k]))
  {
    hide ParseRequestLine, CEnd;
    var t := CStr(s.buf, text);
    CStrFrame(s.buf, s.buf, text, e);
    assert text + |t| + 2 <= s.ctl.checkedIdx;
    forall k | 0 <= k < |s.buf|
      ensures var c := EditedByte(ParseRequestLine(t), k - text, s.buf[k]);
        && (c != s.buf[k] ==> text <= k < s.ctl.checkedIdx)
        && (IsBreak(c) ==> c == s.buf[k])
    {
      EditsStayInLine(t, k - text, s.buf[k]);
    }
  }

  /** A line just delimited: its two NULs end it. */
  ghost predicate AtLine(s: Conn) {
    && Inv(s) && !s.ctl.state.CheckContent?
    && s.ctl.startLine + 2 <= s.ctl.checkedIdx
    && s.buf[s.ctl.checkedIdx-2] == NUL && s.buf[s.ctl.checkedIdx-1] == NUL
  }

  lemma NextLineInv(s: Conn)
    requires Inv(s)
    ensures var (s1, line) := NextLine(s);
      Inv(s1) && (line.LineOk? && !s.ctl.state.CheckContent? ==> AtLine(s1))
  {
    ParseLineInv(s.buf, s.ctl.checkedIdx, s.readIdx);
  }

  /** Handling a line writes nothing outside it: every byte the client sent beyond
      m_checked_idx, and every line before this one, is as it was. */
  lemma LineStepWritesInLine(s: Conn)
    requires AtLine(s)
    ensures var b := LineStep(s).conn.buf;
      && |b| == |s.buf|
      && b[..s.ctl.startLine] == s.buf[..s.ctl.startLine]
      && b[s.ctl.checkedIdx..] == s.buf[s.ctl.checkedIdx..]
    ensures Inv(LineStep(s).conn)
  {
    var s1 := s.(ctl := s.ctl.(startLine := s.ctl.checkedIdx));
    if s.ctl.state.CheckRequestLine? {
      RequestLineKeeps(s1, s.ctl.checkedIdx - 2, s.ctl.startLine);
      var b := RequestLineStep(s1, s.ctl.startLine).conn.buf;
      assert b[..s.ctl.startLine] == s.buf[..s.ctl.startLine];
      assert b[s.ctl.checkedIdx..] == s.buf[s.ctl.checkedIdx..];
    } else {
      assert HeaderStep(s1, s.ctl.startLine).conn.buf == s.buf;
    }
  }

  lemma {:induction false} HeaderPhaseInv(s: Conn)
    requires Inv(s) && !s.ctl.state.CheckContent?
    ensures Inv(HeaderPhase(s).conn)
    decreases s.readIdx - s.ctl.checkedIdx
  {
    var (s1, line) := NextLine(s);
    NextLineInv(s);
    if line.LineOk? {
      LineStepWritesInLine(s1);
      var r := LineStep(s1);
      if r.code.NoRequest? && !r.conn.ctl.state.CheckContent? {
        HeaderPhaseInv(r.conn);
      }
    }
  }

  lemma {:induction false} BodyPhaseInv(s: Conn, line: LineStatus)
    requires Inv(s) && s.ctl.state.CheckContent?
    ensures Inv(BodyPhase(s, line).conn)
    decreases s.readIdx - s.ctl.checkedIdx, line.LineOk?
  {
    if line.LineOk? {
      var r := ContentStep(s.(ctl := s.ctl.(startLine := s.ctl.checkedIdx)), s.ctl.startLine);
      if r.code.NoRequest? {
        BodyPhaseInv(r.conn, LineOpen);
      }
    } else {
      NextLineInv(s);
      var (s1, status) := NextLine(s);
      if status.LineOk? {
        BodyPhaseInv(s1, LineOk);
      }
    }
  }

  /** The invariant of the parser: every call keeps it, from every state that has it. */
  lemma ProcessReadInv(s: Conn)
    requires Inv(s)
    ensures Inv(ProcessRead(s).conn)
  {
    if s.ctl.state.CheckContent? {
      BodyPhaseInv(s, LineOk);
    } else {
      HeaderPhaseInv(s);
      if HeaderPhase(s).BodyAt? {
        BodyPhaseInv(HeaderPhase(s).conn, LineOk);
      }
    }
  }

  /** The calls made on a connection: each arrival is stored and then parsed. */
  ghost function Calls(s: Conn, arrivals: seq<seq<char>>): (r: Conn)
    requires s.Bounded()
    ensures r.Bounded()
    decreases |arrivals|
  {
    if arrivals == [] then s
    else if s.readIdx + |arrivals[0]| > READ_BUFFER_SIZE then s
    else Calls(ProcessRead(Receive(s, arrivals[0])).conn, arrivals[1..])
  }

  /** In every state a connection can get into, the indices are in order, no CR or LF is left
      behind m_checked_idx, and so parse_line's look-back branch is not taken. */
  lemma {:induction false} EveryRunKeepsInv(s: Conn, arrivals: seq<seq<char>>)
    requires Inv(s)
    ensures Inv(Calls(s, arrivals))
    ensures var r := Calls(s, arrivals); r.ctl.checkedIdx > 0 ==> r.buf[r.ctl.checkedIdx-1] != CR
    decreases |arrivals|
  {
    if arrivals != [] && s.readIdx + |arrivals[0]| <= READ_BUFFER_SIZE {
      ReceiveInv(s, arrivals[0]);
      ProcessReadInv(Receive(s, arrivals[0]));
      EveryRunKeepsInv(ProcessRead(Receive(s, arrivals[0])).conn, arrivals[1..]);
    }
  }
}
