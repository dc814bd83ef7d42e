/** What the parser accepts, and that it reads back what a client prints. */
module RequestRoundTrip {
  import opened CStrings
  import opened HttpParser
  import opened ParserInvariant
  import opened ChunkInvariance

  // ---------- the request line ----------

  ghost predicate NoBlanks(t: string, lo: nat, hi: nat) {
    hi <= |t| && forall k :: lo <= k < hi ==> !IsBlank(t[k])
  }

  ghost predicate AllBlanks(t: string, lo: nat, hi: nat) {
    hi <= |t| && forall k :: lo <= k < hi ==> IsBlank(t[k])
  }

  /** Method t[..i], target t[u..j] and version t[v..], set apart by one or more blanks or tabs. */
  ghost predicate InParts(t: string, i: nat, u: nat, j: nat, v: nat) {
    && i < u < j < v <= |t|
    && NoBlanks(t, 0, i) && AllBlanks(t, i, u) && NoBlanks(t, u, j) && AllBlanks(t, j, v)
    && VerbOf(t[..i]).Some? && EqualsAt(t, v, "HTTP/1.1")
  }

  /** The form of section 3.1.1 of RFC 7230 as the server takes it: three parts, and a path in the
      target. */
  ghost predicate IsRequestLine(t: string, i: nat, u: nat, j: nat, v: nat) {
    InParts(t, i, u, j, v) && FindPath(t[u..j]).Path?
  }

  lemma {:induction false} BlankFromIs(t: string, k: nat, r: nat)
    requires k <= r <= |t| && NoBlanks(t, k, r) && (r < |t| ==> IsBlank(t[r]))
    ensures BlankFrom(t, k) == r
    decreases r - k
  {
    if k < r {
      BlankFromIs(t, k + 1, r);
    }
  }

  lemma {:induction false} SkipBlanksIs(t: string, k: nat, r: nat)
    requires k <= r <= |t| && AllBlanks(t, k, r) && (r < |t| ==> !IsBlank(t[r]))
    ensures SkipBlanks(t, k) == r
    decreases r - k
  {
    if k < r {
      SkipBlanksIs(t, k + 1, r);
    }
  }

  /** A line in three parts is parsed into them. */
  lemma PartsRead(t: string, i: nat, u: nat, j: nat, v: nat)
    requires InParts(t, i, u, j, v)
    ensures ParseRequestLine(t) == TakeTarget(VerbOf(t[..i]).value, i, u, j, FindPath(t[u..j]))
  {
    hide FindPath, VerbOf, TakeTarget;
    assert !IsBlank(t[v]) by {
      assert Lower(t[v+0]) == Lower("HTTP/1.1"[0]);
    }
    assert BlankFrom(t, 0) == i by {
      BlankFromIs(t, 0, i);
    }
    assert SkipBlanks(t, i + 1) == u by {
      SkipBlanksIs(t, i + 1, u);
    }
    assert BlankFrom(t, u) == j by {
      BlankFromIs(t, u, j);
    }
    assert SkipBlanks(t, j + 1) == v by {
      SkipBlanksIs(t, j + 1, v);
    }
  }

  lemma RequestLineRead(t: string, i: nat, u: nat, j: nat, v: nat)
    requires IsRequestLine(t, i, u, j, v)
    ensures ParseRequestLine(t) == RequestLine(
      NoRequest, VerbOf(t[..i]), Some(i), Some(j), Some(u + FindPath(t[u..j]).off),
      u + FindPath(t[u..j]).off + 1 == j)
  {
    hide FindPath, ParseRequestLine, VerbOf;
    PartsRead(t, i, u, j, v);
  }

  lemma CutOnce(t: string)
    requires ParseRequestLine(t).code.NoRequest? || ParseRequestLine(t).code.Fault?
    ensures var i := BlankFrom(t, 0);
      i < |t| && VerbOf(t[..i]).Some? && ParseRequestLine(t) == SplitTarget(t, VerbOf(t[..i]).value, i)
  {
    hide BlankFrom, VerbOf, SplitTarget;
  }

  /** What gets as far as the target has been cut twice and has the right method and version. */
  lemma CutTwice(t: string)
    requires ParseRequestLine(t).code.NoRequest? || ParseRequestLine(t).code.Fault?
    ensures var i := BlankFrom(t, 0);
      i < |t| && VerbOf(t[..i]).Some? && var u := SkipBlanks(t, i + 1);
      var j := BlankFrom(t, u);
      j < |t| && EqualsAt(t, SkipBlanks(t, j + 1), "HTTP/1.1") && !FindPath(t[u..j]).NotPath?
  {
    hide EqualsAt, FindPath, BlankFrom, SkipBlanks, VerbOf, ParseRequestLine;
    CutOnce(t);
  }

  lemma TargetNotEmpty(u: string)
    requires !FindPath(u).NotPath?
    ensures u != []
  {
  }

  lemma PartsFound(t: string)
    requires ParseRequestLine(t).code.NoRequest? || ParseRequestLine(t).code.Fault?
    ensures var i := BlankFrom(t, 0);
      i < |t| && var u := SkipBlanks(t, i + 1);
      var j := BlankFrom(t, u);
      j < |t| && InParts(t, i, u, j, SkipBlanks(t, j + 1))
  {
    hide EqualsAt, FindPath, BlankFrom, SkipBlanks, VerbOf, ParseRequestLine;
    CutTwice(t);
    var i := BlankFrom(t, 0);
    assert NoBlanks(t, 0, i) && IsBlank(t[i]) by {
      BlankFromMeans(t, 0);
    }
    var u := SkipBlanks(t, i + 1);
    assert AllBlanks(t, i, u) by {
      SkipBlanksMeans(t, i + 1);
    }
    var j := BlankFrom(t, u);
    assert NoBlanks(t, u, j) && IsBlank(t[j]) by {
      BlankFromMeans(t, u);
    }
    assert AllBlanks(t, j, SkipBlanks(t, j + 1)) by {
      SkipBlanksMeans(t, j + 1);
    }
    assert u < j by {
      TargetNotEmpty(t[u..j]);
    }
  }

  // ---------- reading line after line ----------

  ghost predicate Holds(buf: seq<char>, at: nat, d: seq<char>) {
    at + |d| <= |buf| && forall k :: 0 <= k < |d| ==> buf[at + k] == d[k]
  }

  /** No line break and no NUL: what a line of the request may hold. */
  ghost predicate IsText(t: string) {
    forall k :: 0 <= k < |t| ==> !IsBreak(t[k]) && t[k] != NUL
  }

  /** The next bytes are the line `l`, and `rest` ends what has been received. */
  ghost predicate LineNext(s: Conn, l: string, rest: seq<char>) {
    && Inv(s) && s.ctl.startLine == s.ctl.checkedIdx && !s.ctl.state.CheckContent? && IsText(l)
    && s.readIdx == s.ctl.checkedIdx + |l| + 2 + |rest|
    && Holds(s.buf, s.ctl.checkedIdx, l + CRLF + rest)
  }

  lemma HoldsParts(buf: seq<char>, at: nat, l: string, rest: seq<char>)
    requires Holds(buf, at, l + CRLF + rest)
    ensures Holds(buf, at, l) && Holds(buf, at + |l| + 2, rest)
    ensures buf[at + |l|] == CR && buf[at + |l| + 1] == LF
  {
    var d := l + CRLF + rest;
    assert forall k :: 0 <= k < |l| ==> buf[at + k] == d[k] == l[k];
    assert buf[at + |l|] == d[|l|] && buf[at + (|l| + 1)] == d[|l| + 1];
    forall k | 0 <= k < |rest|
      ensures buf[at + |l| + 2 + k] == rest[k]
    {
      assert buf[at + (|l| + 2 + k)] == d[|l| + 2 + k];
    }
  }

  lemma {:induction false} ScanText(buf: seq<char>, i: nat, at: nat, n: nat)
    requires i <= at && at + 2 <= n <= |buf|
    requires forall k :: i <= k < at ==> !IsBreak(buf[k])
    requires buf[at] == CR && buf[at + 1] == LF
    ensures ParseLine(buf, i, n) == Line(LineOk, buf[at := NUL][at + 1 := NUL], at + 2)
    decreases at - i
  {
    if i < at {
      ScanText(buf, i + 1, at, n);
    }
  }

  lemma LineFound(s: Conn, l: string, rest: seq<char>)
    requires LineNext(s, l, rest)
    ensures var (s1, line) := NextLine(s);
      && line.LineOk? && AtLine(s1) && CStr(s1.buf, s1.ctl.startLine) == l
      && s1.ctl == s.ctl.(checkedIdx := s.ctl.checkedIdx + |l| + 2)
      && Holds(s1.buf, s1.ctl.checkedIdx, rest)
      && s1.buf[..s.ctl.checkedIdx] == s.buf[..s.ctl.checkedIdx]
  {
    var at := s.ctl.checkedIdx;
    HoldsParts(s.buf, at, l, rest);
    forall k | at <= k < at + |l| ensures !IsBreak(s.buf[k]) {
      assert s.buf[at + (k - at)] == l[k - at];
    }
    ScanText(s.buf, at, at + |l|, s.readIdx);
    NextLineInv(s);
    var b := NextLine(s).0.buf;
    assert b == s.buf[at + |l| := NUL][at + |l| + 1 := NUL];
    StrIs(b, at, l, 0);
  }

  lemma {:induction false} StrIs(buf: seq<char>, at: nat, t: string, lo: nat)
    requires at + |t| < |buf| && buf[at + |t|] == NUL && lo <= |t|
    requires forall k :: 0 <= k < |t| ==> buf[at + k] == t[k] && t[k] != NUL
    ensures CEnd(buf, at + lo) == at + |t| && CStr(buf, at + lo) == t[lo..]
    decreases |t| - lo
  {
    if lo < |t| {
      assert buf[at + lo] == t[lo];
      StrIs(buf, at, t, lo + 1);
    }
    assert buf[at + lo..at + |t|] == t[lo..];
  }

  /** The line `l` has been handled: the phase goes on from `t`, with `rest` next. */
  ghost predicate LineDone(s: Conn, t: Conn, l: string, rest: seq<char>)
    requires s.Bounded() && !s.ctl.state.CheckContent?
  {
    && Inv(t) && t.readIdx == s.readIdx && t.ctl.state.CheckHeader?
    && HeaderPhase(s) == HeaderPhase(t)
    && t.ctl.startLine == t.ctl.checkedIdx == s.ctl.checkedIdx + |l| + 2
    && Holds(t.buf, t.ctl.checkedIdx, rest)
  }

  /** The line `l` was a header field; it stays a C string, and what was before it is as it was. */
  ghost predicate FieldDone(s: Conn, t: Conn, l: string, rest: seq<char>)
    requires s.Bounded() && !s.ctl.state.CheckContent?
  {
    var at, end := s.ctl.checkedIdx, s.ctl.checkedIdx + |l| + 2;
    && LineDone(s, t, l, rest)
    && t.buf[..at] == s.buf[..at] && Holds(t.buf, at, l + [NUL])
    && t.ctl == FieldControl(s.ctl.(startLine := end, checkedIdx := end), at, ParseField(l))
  }

  /** A header field that is not the blank line: the phase goes on behind it with the field's
      effect. */
  lemma FieldRead(s: Conn, l: string, rest: seq<char>) returns (t: Conn)
    requires LineNext(s, l, rest) && s.ctl.state.CheckHeader? && l != []
    ensures FieldDone(s, t, l, rest)
  {
    hide HeaderPhase, NextLine, FieldControl, CEnd, CStr;
    LineFound(s, l, rest);
    var s1 := NextLine(s).0;
    LineStepWritesInLine(s1);
    HeaderOnly(s1, l);
    t := LineStep(s1).conn;
    PhaseStep(s);
    StrHeld(t.buf, s.ctl.checkedIdx, l);
  }

  lemma StrHeld(buf: seq<char>, at: nat, l: string)
    requires at <= |buf| && CStr(buf, at) == l && at + |l| < |buf|
    ensures Holds(buf, at, l + [NUL])
  {
    CEndMeans(buf, at);
    assert forall k :: 0 <= k < |l| ==> buf[at + k] == CStr(buf, at)[k];
  }

  /** A header field leaves the buffer alone. */
  lemma HeaderOnly(s1: Conn, l: string)
    requires AtLine(s1) && s1.ctl.state.CheckHeader? && CStr(s1.buf, s1.ctl.startLine) == l && l != []
    ensures var r := LineStep(s1);
      && r.code.NoRequest? && r.conn.ctl.state.CheckHeader? && r.conn.buf == s1.buf
      && r.conn.ctl == FieldControl(s1.ctl.(startLine := s1.ctl.checkedIdx), s1.ctl.startLine, ParseField(l))
  {
    hide CEnd, CStr;
  }

  lemma PhaseStep(s: Conn)
    requires s.Bounded() && !s.ctl.state.CheckContent? && NextLine(s).1.LineOk?
    requires var r := LineStep(NextLine(s).0); r.code.NoRequest? && !r.conn.ctl.state.CheckContent?
    ensures HeaderPhase(s) == HeaderPhase(LineStep(NextLine(s).0).conn)
  {
    hide NextLine, LineStep;
  }

  /** The blank line has been handled: the head ends in `t`. */
  ghost predicate BlankDone(s: Conn, t: Conn, rest: seq<char>)
    requires s.Bounded() && !s.ctl.state.CheckContent?
  {
    var end, more := s.ctl.checkedIdx + 2, s.ctl.contentLength != 0;
    && Inv(t) && t.readIdx == s.readIdx
    && HeaderPhase(s) == (if more then BodyAt(t) else Stopped(t, GetRequest))
    && Holds(t.buf, t.ctl.checkedIdx, rest) && t.ctl.checkedIdx + |rest| == t.readIdx
    && t.ctl == s.ctl.(startLine := end, checkedIdx := end, state := if more then CheckContent else CheckHeader)
  }

  /** The blank line ends the fields. */
  lemma BlankRead(s: Conn, rest: seq<char>) returns (t: Conn)
    requires LineNext(s, [], rest) && s.ctl.state.CheckHeader?
    ensures BlankDone(s, t, rest) && t.buf[..s.ctl.checkedIdx] == s.buf[..s.ctl.checkedIdx]
  {
    LineFound(s, [], rest);
    var s1 := NextLine(s).0;
    LineStepWritesInLine(s1);
    t := LineStep(s1).conn;
  }

  /** What the server looks up: the path of the target, "/" standing for the home page. */
  function PathOf(target: string): string
    requires FindPath(target).Path?
  {
    var p := target[FindPath(target).off..];
    if |p| == 1 then "/" + HOME_PAGE else p
  }

  /** What the request line sets: the method, and m_url at the path; the other fields stay. */
  ghost predicate TargetDone(s: Conn, c: Conn, verb: Option<Method>, path: string) {
    && c.ctl.url.Some? && c.ctl.url.value + |path| < c.ctl.checkedIdx
    && Holds(c.buf, c.ctl.url.value, path + [NUL])
    && verb == Some(c.ctl.verb) && c.ctl.cgi == (s.ctl.cgi || c.ctl.verb.POST?)
    && c.ctl.contentLength == s.ctl.contentLength && c.ctl.linger == s.ctl.linger
    && c.ctl.host == s.ctl.host && c.ctl.body == s.ctl.body
  }

  /** The request line: m_url is left at the path, where it stays a C string. */
  lemma RequestLineStored(s: Conn, t: string, rest: seq<char>, i: nat, u: nat, j: nat, v: nat) returns (c: Conn)
    requires LineNext(s, t, rest) && s.ctl.state.CheckRequestLine? && IsRequestLine(t, i, u, j, v)
    ensures LineDone(s, c, t, rest) && TargetDone(s, c, VerbOf(t[..i]), PathOf(t[u..j]))
  {
    hide FindPath, VerbOf, PathOf, ParseRequestLine, NextLine, CEnd, EqualsAt;
    LineFound(s, t, rest);
    RequestLineRead(t, i, u, j, v);
    var s1 := NextLine(s).0;
    LineStepWritesInLine(s1);
    c := LineStep(s1).conn;
    var text := s.ctl.checkedIdx;
    assert c.buf[s1.ctl.checkedIdx..] == s1.buf[s1.ctl.checkedIdx..];
    forall k | 0 <= k < |rest|
      ensures c.buf[c.ctl.checkedIdx + k] == rest[k]
    {
      assert c.buf[s1.ctl.checkedIdx..][k] == s1.buf[s1.ctl.checkedIdx..][k];
    }
    PathStored(s1.buf, text, t, i, u, j, v);
  }

  lemma PathStored(buf: seq<char>, text: nat, t: string, i: nat, u: nat, j: nat, v: nat)
    requires IsRequestLine(t, i, u, j, v)
    requires text + |t| + 2 <= |buf| && CStr(buf, text) == t
    ensures var off := u + FindPath(t[u..j]).off;
      var path := PathOf(t[u..j]);
      && off + |path| < |t| + 2
      && Holds(Edited(buf, text, ParseRequestLine(t)), text + off, path + [NUL])
  {
    hide FindPath, ParseRequestLine, Edited, VerbOf, Holds, CStr;
    var f := FindPath(t[u..j]);
    RequestLineRead(t, i, u, j, v);
    PathEdited(buf, text, t, ParseRequestLine(t), i, j, u + f.off);
    assert t[u..j][f.off..] == t[u + f.off..j];
  }

  lemma PathEdited(buf: seq<char>, text: nat, t: string, p: RequestLine, i: nat, j: nat, off: nat)
    requires i < off < j < |t| && text + |t| + 2 <= |buf| && CStr(buf, text) == t
    requires p == ParseRequestLine(t)
    requires p.cut1 == Some(i) && p.cut2 == Some(j) && p.url == Some(off) && p.home == (off + 1 == j)
    requires t[off] == '/'
    ensures var path := if off + 1 == j then "/" + HOME_PAGE else t[off..j];
      off + |path| < |t| + 2 && Holds(Edited(buf, text, p), text + off, path + [NUL])
  {
    hide ParseRequestLine, CEnd;
    assert p.home ==> off + 12 <= |t| + 2 by {
      if p.home {
        HomePageFits(t);
      }
    }
    var e := Edited(buf, text, p);
    var path := if off + 1 == j then "/" + HOME_PAGE else t[off..j];
    forall k | 0 <= k < |path| + 1
      ensures e[text + off + k] == (path + [NUL])[k]
    {
      assert e[text + off + k] == EditedByte(p, off + k, buf[text + (off + k)]);
      if k < j - off {
        assert buf[text + (off + k)] == CStr(buf, text)[off + k];
      }
    }
  }

  // ---------- print and parse ----------

  datatype Request = Request(verb: Method, target: string, keepAlive: bool, host: string, body: seq<char>)

  function Name(m: Method): string {
    match m
    case GET => "GET"
    case POST => "POST"
  }

  function TargetLine(r: Request): string {
    Name(r.verb) + " " + r.target + " HTTP/1.1"
  }

  function ConnectionLine(r: Request): string {
    "Connection: " + (if r.keepAlive then "keep-alive" else "close")
  }

  function LengthLine(r: Request): string {
    "Content-length: " + Decimal(|r.body|)
  }

  function HostLine(r: Request): string {
    "Host: " + r.host
  }

  /** The head of the request as a client writes it, and then `d`. */
  function PrintHead(r: Request, d: seq<char>): seq<char> {
    TargetLine(r) + CRLF + (ConnectionLine(r) + CRLF + (LengthLine(r) + CRLF +
    (HostLine(r) + CRLF + ([] + CRLF + d))))
  }

  /** The request as a client writes it. */
  function Print(r: Request): seq<char> {
    PrintHead(r, r.body)
  }

  ghost predicate Printable(r: Request) {
    && IsText(r.target) && NoBlanks(r.target, 0, |r.target|) && FindPath(r.target).Path?
    && IsText(r.host) && (r.host != [] ==> !IsBlank(r.host[0]))
    && |Print(r)| < READ_BUFFER_SIZE
  }

  lemma TargetLineForm(r: Request)
    requires Printable(r)
    ensures var n := |Name(r.verb)|;
      var t := TargetLine(r);
      && IsText(t) && IsRequestLine(t, n, n + 1, n + 1 + |r.target|, n + 2 + |r.target|)
      && t[n + 1..n + 1 + |r.target|] == r.target && VerbOf(t[..n]) == Some(r.verb)
  {
    hide FindPath, IsRequestLine, IsText, VerbOf, EqualsAt;
    NameIsVerb(r.verb);
    VersionIsText();
    ThreeParts(Name(r.verb), r.target, "HTTP/1.1");
    assert Name(r.verb) + " " + r.target + " " + "HTTP/1.1" == TargetLine(r);
  }

  lemma NameIsVerb(m: Method)
    ensures VerbOf(Name(m)) == Some(m) && IsText(Name(m)) && NoBlanks(Name(m), 0, |Name(m)|)
  {
  }

  lemma VersionIsText()
    ensures IsText("HTTP/1.1") && EqualsAt("HTTP/1.1", 0, "HTTP/1.1")
  {
  }

  /** A line made of three parts. */
  lemma ThreeParts(m: string, target: string, version: string)
    requires IsText(m) && NoBlanks(m, 0, |m|) && VerbOf(m).Some?
    requires IsText(target) && NoBlanks(target, 0, |target|) && FindPath(target).Path?
    requires IsText(version) && EqualsAt(version, 0, "HTTP/1.1")
    ensures var t := m + " " + target + " " + version;
      var u := |m| + 1;
      var j := u + |target|;
      && IsText(t) && t[u..j] == target && t[..|m|] == m && IsRequestLine(t, |m|, u, j, j + 1)
  {
    var t := m + " " + target + " " + version;
    var u := |m| + 1;
    var j := u + |target|;
    assert t[u..j] == target && t[..|m|] == m;
    assert forall k :: u <= k < j ==> t[k] == target[k - u];
    assert t[|m|] == ' ' && t[j] == ' ';
    assert forall k :: 0 <= k < 8 ==> t[j + 1 + k] == version[k];
  }

  lemma FieldLines(r: Request)
    requires Printable(r)
    ensures IsText(ConnectionLine(r)) && ParseField(ConnectionLine(r)) == Connection(r.keepAlive)
    ensures IsText(LengthLine(r)) && ParseField(LengthLine(r)) == Length(|r.body|)
    ensures IsText(HostLine(r)) && ParseField(HostLine(r)) == Host(6)
    ensures ConnectionLine(r) != [] && LengthLine(r) != [] && |HostLine(r)| == 6 + |r.host|
    ensures HostLine(r)[6..] == r.host
  {
    ConnectionField(r);
    LengthField(r);
    HostField(r);
  }

  lemma ConnectionField(r: Request)
    ensures IsText(ConnectionLine(r)) && ParseField(ConnectionLine(r)) == Connection(r.keepAlive)
  {
    var t := ConnectionLine(r);
    var v := if r.keepAlive then "keep-alive" else "close";
    assert forall n :: 0 <= n < 11 ==> t[0 + n] == "Connection:"[n];
    assert t[11] == ' ' && t[12] == v[0];
    SkipBlanksIs(t, 11, 12);
    if r.keepAlive {
      assert forall n :: 0 <= n < 10 ==> t[12 + n] == "keep-alive"[n];
    } else {
      assert |t| == 17;
    }
  }

  lemma LengthField(r: Request)
    requires |r.body| <= READ_BUFFER_SIZE
    ensures IsText(LengthLine(r)) && ParseField(LengthLine(r)) == Length(|r.body|)
  {
    LengthFieldIs(LengthLine(r), Decimal(|r.body|));
    AtolDecimal(|r.body|);
  }

  lemma LengthFieldIs(t: string, v: string)
    requires t == "Content-length: " + v && v != [] && forall k :: 0 <= k < |v| ==> IsDigit(v[k])
    ensures IsText(t) && ParseField(t) == Length(ToInt(Atol(v)))
  {
    assert t[16..] == v;
    assert forall k :: 16 <= k < |t| ==> IsDigit(t[k]) by {
      assert forall k :: 16 <= k < |t| ==> t[k] == v[k - 16];
    }
    hide Atol;
    assert t[15] == ' ' && t[16] == v[0];
    assert SkipBlanks(t, 15) == 16 by {
      SkipBlanksIs(t, 15, 16);
    }
    assert MatchesAt(t, 0, "Content-length:") by {
      assert forall n :: 0 <= n < 15 ==> t[0 + n] == "Content-length:"[n];
    }
    assert !MatchesAt(t, 0, "Connection:") by {
      assert Lower(t[0 + 3]) != Lower("Connection:"[3]);
    }
  }

  lemma HostField(r: Request)
    requires IsText(r.host) && (r.host != [] ==> !IsBlank(r.host[0]))
    ensures IsText(HostLine(r)) && ParseField(HostLine(r)) == Host(6)
  {
    var t := HostLine(r);
    assert forall n :: 0 <= n < 5 ==> t[0 + n] == "Host:"[n];
    assert MatchesAt(t, 0, "Host:");
    assert Lower(t[0 + 0]) != Lower("Connection:"[0]) && Lower(t[0 + 0]) != Lower("Content-length:"[0]);
    assert !MatchesAt(t, 0, "Connection:") && !MatchesAt(t, 0, "Content-length:");
    assert t[5] == ' ' && (|t| > 6 ==> t[6] == r.host[0]);
    SkipBlanksIs(t, 5, 6);
  }

  /** The strings the parsed fields point at. */
  ghost predicate Reads(s: Conn, pointer: Option<nat>, t: string) {
    pointer.Some? && pointer.value <= |s.buf| && CStr(s.buf, pointer.value) == t
  }

  lemma HoldsKept(b1: seq<char>, b2: seq<char>, n: nat, at: nat, d: seq<char>)
    requires Holds(b1, at, d) && at + |d| <= n <= |b1| && n <= |b2| && b1[..n] == b2[..n]
    ensures Holds(b2, at, d)
  {
    forall k | 0 <= k < |d| ensures b2[at + k] == d[k] {
      assert b1[..n][at + k] == b2[..n][at + k];
    }
  }

  lemma HeldIsRead(buf: seq<char>, at: nat, t: string)
    requires Holds(buf, at, t + [NUL]) && NUL !in t
    ensures CStr(buf, at) == t
  {
    assert forall k :: 0 <= k < |t| ==> buf[at + k] == (t + [NUL])[k] == t[k] && t[k] != NUL;
    assert buf[at + |t|] == (t + [NUL])[|t|];
    StrIs(buf, at, t, 0);
    assert t[0..] == t;
  }

  ghost predicate KeptDone(s: Conn, t: Conn, l: string, next: string, rest: seq<char>, f: Field, at: nat, d: seq<char>)
    requires s.Bounded() && !s.ctl.state.CheckContent?
  {
    var end := s.ctl.checkedIdx + |l| + 2;
    && LineNext(t, next, rest) && t.ctl.state.CheckHeader? && t.readIdx == s.readIdx
    && HeaderPhase(s) == HeaderPhase(t)
    && Holds(t.buf, at, d) && Holds(t.buf, s.ctl.checkedIdx, l + [NUL])
    && t.ctl == FieldControl(s.ctl.(startLine := end, checkedIdx := end), s.ctl.checkedIdx, f)
  }

  /** A field read, with the line `next` behind it, while `d` at `at` stands for what was stored
      before. */
  lemma FieldReadKeeping(s: Conn, l: string, next: string, rest: seq<char>, f: Field, at: nat, d: seq<char>)
    returns (t: Conn)
    requires LineNext(s, l, next + CRLF + rest) && s.ctl.state.CheckHeader? && l != [] && IsText(next)
    requires ParseField(l) == f
    requires Holds(s.buf, at, d) && at + |d| <= s.ctl.checkedIdx
    ensures KeptDone(s, t, l, next, rest, f, at, d)
  {
    hide HeaderPhase, ParseField, IsText;
    t := FieldRead(s, l, next + CRLF + rest);
    HoldsKept(s.buf, t.buf, s.ctl.checkedIdx, at, d);
  }

  lemma HoldsTail(buf: seq<char>, at: nat, l: string, off: nat)
    requires Holds(buf, at, l + [NUL]) && off <= |l|
    ensures Holds(buf, at + off, l[off..] + [NUL])
  {
    forall k | 0 <= k < |l| - off + 1 ensures buf[at + off + k] == (l[off..] + [NUL])[k] {
      assert buf[at + (off + k)] == (l + [NUL])[off + k];
    }
  }

  lemma FieldEffects(c: Control, text: nat, keepAlive: bool, length: int, off: nat)
    ensures FieldControl(c, text, Connection(keepAlive)) == c.(linger := c.linger || keepAlive)
    ensures FieldControl(c, text, Length(length)) == c.(contentLength := length)
    ensures FieldControl(c, text, Host(off)) == c.(host := Some(text + off))
  {
  }

  ghost predicate FieldsDone(s: Conn, c: Conn, l3: string, rest: seq<char>, keepAlive: bool, length: int, off: nat,
                             at: nat, d: seq<char>, at3: nat)
    requires s.Bounded() && !s.ctl.state.CheckContent?
  {
    var end := at3 + |l3| + 2;
    && LineNext(c, [], rest) && c.ctl.state.CheckHeader? && c.readIdx == s.readIdx
    && HeaderPhase(s) == HeaderPhase(c)
    && at + |d| <= at3 && Holds(c.buf, at, d) && Holds(c.buf, at3, l3 + [NUL])
    && c.ctl == s.ctl.(startLine := end, checkedIdx := end, linger := s.ctl.linger || keepAlive,
                       contentLength := length, host := Some(at3 + off))
  }

  /** The three fields, for any lines that are parsed like that. */
  lemma FieldsRead(s: Conn, l1: string, l2: string, l3: string, rest: seq<char>,
                   keepAlive: bool, length: int, off: nat, at: nat, d: seq<char>)
    returns (c: Conn, at3: nat)
    requires LineNext(s, l1, l2 + CRLF + (l3 + CRLF + ([] + CRLF + rest))) && s.ctl.state.CheckHeader?
    requires IsText([]) && IsText(l2) && IsText(l3) && l1 != [] && l2 != [] && l3 != []
    requires ParseField(l1) == Connection(keepAlive) && ParseField(l2) == Length(length)
    requires ParseField(l3) == Host(off)
    requires Holds(s.buf, at, d) && at + |d| <= s.ctl.checkedIdx
    ensures FieldsDone(s, c, l3, rest, keepAlive, length, off, at, d, at3)
  {
    hide Inv, LineNext, HeaderPhase, Holds, FieldControl, ParseField, IsText;
    var r3 := [] + CRLF + rest;
    var c1 := FieldReadKeeping(s, l1, l2, l3 + CRLF + r3, Connection(keepAlive), at, d);
    var x := s.ctl.(startLine := c1.ctl.startLine, checkedIdx := c1.ctl.checkedIdx);
    var end1 := s.ctl.checkedIdx + |l1| + 2;
    FieldEffects(s.ctl.(startLine := end1, checkedIdx := end1), s.ctl.checkedIdx, keepAlive, length, off);
    var c2 := FieldReadKeeping(c1, l2, l3, r3, Length(length), at, d);
    var end2 := end1 + |l2| + 2;
    FieldEffects(c1.ctl.(startLine := end2, checkedIdx := end2), end1, keepAlive, length, off);
    c := FieldReadKeeping(c2, l3, [], rest, Host(off), at, d);
    var end3 := end2 + |l3| + 2;
    FieldEffects(c2.ctl.(startLine := end3, checkedIdx := end3), end2, keepAlive, length, off);
    at3 := end2;
  }

  /** The end of the head: what the host field stored is the host, and the blank line follows. */
  lemma HeadEnd(s: Conn, l: string, at0: nat, off: nat, rest: seq<char>, at: nat, d: seq<char>) returns (c: Conn)
    requires LineNext(s, [], rest) && s.ctl.state.CheckHeader?
    requires Holds(s.buf, at, d) && at + |d| <= s.ctl.checkedIdx
    requires Holds(s.buf, at0, l + [NUL]) && at0 + |l| + 2 == s.ctl.checkedIdx && off <= |l|
    ensures BlankDone(s, c, rest) && Holds(c.buf, at, d) && Holds(c.buf, at0 + off, l[off..] + [NUL])
  {
    HoldsTail(s.buf, at0, l, off);
    c := BlankRead(s, rest);
    HoldsKept(s.buf, c.buf, s.ctl.checkedIdx, at, d);
    HoldsKept(s.buf, c.buf, s.ctl.checkedIdx, at0 + off, l[off..] + [NUL]);
  }

  lemma PrintedNext(s: Conn, r: Request, d: seq<char>)
    requires Inv(s) && s.ctl == Initial(s.buf).ctl && s.readIdx == |PrintHead(r, d)|
    requires Holds(s.buf, 0, PrintHead(r, d)) && Printable(r)
    ensures var r3 := HostLine(r) + CRLF + ([] + CRLF + d);
      && LineNext(s, TargetLine(r), ConnectionLine(r) + CRLF + (LengthLine(r) + CRLF + r3))
      && s.ctl.state.CheckRequestLine?
      && !s.ctl.cgi && !s.ctl.linger && s.ctl.body == None && IsText([]) && FindPath(r.target).Path?
  {
    TargetLineForm(r);
    assert s.ctl.checkedIdx == 0;
  }

  /** A line has been handled, and the line `next` comes now. */
  ghost predicate NextDone(s: Conn, c: Conn, next: string, rest: seq<char>)
    requires s.Bounded() && !s.ctl.state.CheckContent?
  {
    && LineNext(c, next, rest) && c.ctl.state.CheckHeader? && c.readIdx == s.readIdx
    && HeaderPhase(s) == HeaderPhase(c)
  }

  /** The request line, with the line `next` behind it. */
  lemma TargetRead(s: Conn, r: Request, next: string, rest: seq<char>) returns (c: Conn, url: nat)
    requires LineNext(s, TargetLine(r), next + CRLF + rest) && s.ctl.state.CheckRequestLine?
    requires Printable(r) && IsText(next)
    ensures NextDone(s, c, next, rest) && TargetDone(s, c, Some(r.verb), PathOf(r.target)) && c.ctl.url == Some(url)
  {
    hide HeaderPhase, FindPath, VerbOf, IsRequestLine, PathOf, TargetLine, NextLine, Holds, IsText, Inv;
    var n := |Name(r.verb)|;
    var t := TargetLine(r);
    TargetLineForm(r);
    c := RequestLineStored(s, t, next + CRLF + rest, n, n + 1, n + 1 + |r.target|, n + 2 + |r.target|);
    url := c.ctl.url.value;
  }

  /** The head of `r` has been read, with `d` behind it. */
  ghost predicate HeadDone(s: Conn, c: Conn, r: Request, d: seq<char>)
    requires s.Bounded() && !s.ctl.state.CheckContent?
  {
    && Inv(c) && c.readIdx == s.readIdx
    && HeaderPhase(s) == (if r.body != [] then BodyAt(c) else Stopped(c, GetRequest))
    && Holds(c.buf, c.ctl.checkedIdx, d) && c.ctl.checkedIdx + |d| == c.readIdx
    && c.ctl.startLine == c.ctl.checkedIdx && (r.body != [] ==> c.ctl.state.CheckContent?)
  }

  /** What the head of `r` leaves in the fields, and where they point. */
  ghost predicate HeadReads(c: Conn, r: Request, url: nat, host: nat)
    requires FindPath(r.target).Path?
  {
    && c.ctl.verb == r.verb && c.ctl.cgi == r.verb.POST?
    && c.ctl.linger == r.keepAlive && c.ctl.contentLength == |r.body| && c.ctl.body == None
    && c.ctl.url == Some(url) && c.ctl.host == Some(host)
    && url + |PathOf(r.target)| < c.ctl.checkedIdx && Holds(c.buf, url, PathOf(r.target) + [NUL])
    && host + |r.host| < c.ctl.checkedIdx && Holds(c.buf, host, r.host + [NUL])
  }

  /** Up to the blank line, `d` being what has arrived of the body. */
  lemma HeadRead(s: Conn, r: Request, d: seq<char>) returns (c: Conn, url: nat, host: nat)
    requires Inv(s) && s.ctl == Initial(s.buf).ctl && s.readIdx == |PrintHead(r, d)|
    requires Holds(s.buf, 0, PrintHead(r, d)) && Printable(r)
    ensures HeadDone(s, c, r, d) && HeadReads(c, r, url, host)
  {
    hide Inv, LineNext, HeaderPhase, Holds, IsText, PathOf, FindPath, ParseField;
    var l1, l2, l3 := ConnectionLine(r), LengthLine(r), HostLine(r);
    PrintedNext(s, r, d);
    FieldLines(r);
    var path := PathOf(r.target) + [NUL];
    var c0, c3, at3;
    c0, url := TargetRead(s, r, l1, l2 + CRLF + (l3 + CRLF + ([] + CRLF + d)));
    c3, at3 := FieldsRead(c0, l1, l2, l3, d, r.keepAlive, |r.body|, 6, url, path);
    c := HeadEnd(c3, l3, at3, 6, d, url, path);
    host := at3 + 6;
  }

  /** Parsing what a client printed gives back the method, the path, the keep-alive flag, the
      host, the length and the body, NUL-terminated where it was received. */
  lemma ParsePrinted(buf: seq<char>, r: Request)
    requires |buf| == READ_BUFFER_SIZE && Printable(r)
    ensures var p := ProcessRead(Receive(Initial(buf), Print(r)));
      && p.code == GetRequest
      && p.conn.ctl.verb == r.verb && p.conn.ctl.cgi == r.verb.POST?
      && p.conn.ctl.linger == r.keepAlive && p.conn.ctl.contentLength == |r.body|
      && Reads(p.conn, p.conn.ctl.url, PathOf(r.target)) && Reads(p.conn, p.conn.ctl.host, r.host)
      && if r.body == [] then p.conn.ctl.body == None
         else p.conn.ctl.body.Some? && Holds(p.conn.buf, p.conn.ctl.body.value, r.body + [NUL])
  {
    hide PathOf, HeaderPhase, ContentStep, NextLine, FindPath, CStr;
    var s := Receive(Initial(buf), Print(r));
    assert Inv(s) by {
      InitialInv(buf);
      ReceiveInv(Initial(buf), Print(r));
    }
    var c, url, host := HeadRead(s, r, r.body);
    var f := ProcessRead(s).conn;
    if r.body != [] {
      BodyRead(c, r.body);
    }
    assert f.buf[..c.ctl.checkedIdx] == c.buf[..c.ctl.checkedIdx];
    HeadStays(c, f, r, url, host);
  }

  /** What the fields point at is still there when only bytes behind the head have changed. */
  lemma HeadStays(c: Conn, f: Conn, r: Request, url: nat, host: nat)
    requires Printable(r) && HeadReads(c, r, url, host)
    requires c.ctl.checkedIdx <= |c.buf| == |f.buf| && f.buf[..c.ctl.checkedIdx] == c.buf[..c.ctl.checkedIdx]
    requires f.ctl.url == c.ctl.url && f.ctl.host == c.ctl.host
    ensures Reads(f, f.ctl.url, PathOf(r.target)) && Reads(f, f.ctl.host, r.host)
  {
    hide PathOf, FindPath, CStr, Holds, Print;
    HoldsKept(c.buf, f.buf, c.ctl.checkedIdx, url, PathOf(r.target) + [NUL]);
    HoldsKept(c.buf, f.buf, c.ctl.checkedIdx, host, r.host + [NUL]);
    PathHasNoNul(r.target);
    HeldIsRead(f.buf, url, PathOf(r.target));
    HeldIsRead(f.buf, host, r.host);
  }

  /** The body, when all of it is there. */
  lemma BodyRead(c: Conn, d: seq<char>)
    requires c.Bounded() && c.ctl.state.CheckContent? && c.ctl.startLine == c.ctl.checkedIdx
    requires c.ctl.contentLength == |d| && c.ctl.checkedIdx + |d| == c.readIdx < READ_BUFFER_SIZE
    requires Holds(c.buf, c.ctl.checkedIdx, d)
    ensures BodyPhase(c, LineOk)
         == Step(c.(buf := c.buf[c.readIdx := NUL], ctl := c.ctl.(body := Some(c.ctl.checkedIdx))), GetRequest)
    ensures Holds(c.buf[c.readIdx := NUL], c.ctl.checkedIdx, d + [NUL])
  {
  }

  lemma PathHasNoNul(target: string)
    requires IsText(target) && FindPath(target).Path?
    ensures NUL !in PathOf(target)
  {
    var p := target[FindPath(target).off..];
    assert forall k :: 0 <= k < |p| ==> p[k] == target[FindPath(target).off + k];
  }

  /** The first call, when only `d` has arrived of the body. */
  lemma FirstPartRead(buf: seq<char>, r: Request, d: seq<char>) returns (c: Conn)
    requires |buf| == READ_BUFFER_SIZE && Printable(r) && d != [] && |d| < |r.body| && !IsBreak(d[0])
    requires |PrintHead(r, d)| <= READ_BUFFER_SIZE
    ensures Inv(c) && FreshBody(c) && !ScanStops(c) && c.ctl.contentLength == |r.body|
    ensures ProcessRead(Receive(Initial(buf), PrintHead(r, d))) == ProcessRead(c)
    ensures c.readIdx == c.ctl.checkedIdx + |d| == |PrintHead(r, d)|
  {
    var s := Receive(Initial(buf), PrintHead(r, d));
    assert Inv(s) by {
      InitialInv(buf);
      ReceiveInv(Initial(buf), PrintHead(r, d));
    }
    var url, host;
    c, url, host := HeadRead(s, r, d);
    assert c.buf[c.ctl.checkedIdx + 0] == d[0];
  }

  /** A body that arrives in two parts. The first call has seen `d`, the second sees the rest, and
      the request is complete; yet unless the body begins with a line break the server goes on
      waiting, although the same bytes in one call are a request. */
  lemma SplitPrintedBody(buf: seq<char>, r: Request, d: seq<char>, e: seq<char>)
    requires |buf| == READ_BUFFER_SIZE && Printable(r)
    requires r.body == d + e && d != [] && e != [] && !IsBreak(d[0])
    ensures PrintHead(r, d) + e == Print(r)
    ensures ProcessRead(Receive(Initial(buf), Print(r))).code == GetRequest
    ensures var first := ProcessRead(Receive(Initial(buf), PrintHead(r, d)));
      && first.code == NoRequest && Fits(first.conn, |e|)
      && ProcessRead(Receive(first.conn, e)).code == NoRequest
  {
    assert PrintHead(r, d) + e == Print(r);
    assert |Print(r)| < READ_BUFFER_SIZE;
    hide Printable, Print, PrintHead, ProcessRead, Inv, Initial, Receive, ScanStops, NextLine;
    ParsePrinted(buf, r);
    var c := FirstPartRead(buf, r, d);
    SplitBodyExactly(c, e);
  }

  /** One such request: POST /2 with the body "user=ab", cut after its first byte. */
  lemma SplitBodyWitness(buf: seq<char>)
    requires |buf| == READ_BUFFER_SIZE
    ensures var r := Request(POST, "/2", true, "", "user=ab");
      var first := ProcessRead(Receive(Initial(buf), PrintHead(r, "u")));
      && ProcessRead(Receive(Initial(buf), Print(r))).code == GetRequest
      && first.code == NoRequest && Fits(first.conn, 6)
      && ProcessRead(Receive(first.conn, "ser=ab")).code == NoRequest
  {
    var r := Request(POST, "/2", true, "", "user=ab");
    assert r.target[0] == '/';
    assert |r.body| == 7 && |Decimal(7)| == 1;
    assert r.body == "u" + "ser=ab";
    SplitPrintedBody(buf, r, "u", "ser=ab");
  }
}
