/** The request parser of http_conn as functions on its state.

    A line of the request is parsed as the C string that starts at m_start_line; what the
    parser writes into the line is a pointwise edit of the buffer. HttpConn.dfy holds the
    class whose methods work in place and are proved equal to these functions. */
module HttpParser {
  import opened CStrings

  const READ_BUFFER_SIZE: nat := 2048

  datatype CheckState = CheckRequestLine | CheckHeader | CheckContent
  datatype LineStatus = LineOk | LineBad | LineOpen
  datatype Method = GET | POST

  /** The result codes of the source. `GetRequest` stands where process_read goes on to
      do_request. `Fault` is not one of them: from there on the C program reads through a
      null pointer, writes outside m_read_buf or overflows an int. */
  datatype HttpCode = NoRequest | GetRequest | BadRequest | InternalError | Fault

  /** The parser's fields other than the buffer. Pointers into m_read_buf are offsets. */
  datatype Control = Control(
    checkedIdx: nat, startLine: nat, state: CheckState, verb: Method, cgi: bool,
    url: Option<nat>, host: Option<nat>, contentLength: int, linger: bool, body: Option<nat>)

  datatype Conn = Conn(buf: seq<char>, readIdx: nat, ctl: Control)
  {
    predicate Bounded() {
      && |buf| == READ_BUFFER_SIZE
      && ctl.startLine <= ctl.checkedIdx <= readIdx <= READ_BUFFER_SIZE
    }
  }

  datatype Step = Step(conn: Conn, code: HttpCode)

  /** The buffer with `d` written at offset `n`. */
  function Stored(buf: seq<char>, n: nat, d: seq<char>): (b: seq<char>)
    requires n + |d| <= |buf|
    ensures |b| == |buf|
  {
    seq(|buf|, k requires 0 <= k < |buf| => if n <= k < n + |d| then d[k-n] else buf[k])
  }

  /** recv: new bytes are stored behind the ones already there. */
  function Receive(s: Conn, d: seq<char>): Conn
    requires s.readIdx + |d| <= |s.buf|
  {
    s.(buf := Stored(s.buf, s.readIdx, d), readIdx := s.readIdx + |d|)
  }

  // ---------- parse_line ----------

  datatype Line = Line(status: LineStatus, buf: seq<char>, idx: nat)

  function ParseLine(buf: seq<char>, i: nat, n: nat): (l: Line)
    requires i <= n <= |buf|
    ensures |l.buf| == |buf| && i <= l.idx <= n
    ensures l.status.LineOk? ==> i < l.idx && l.idx >= 2
    ensures l.buf == if l.status.LineOk? then buf[l.idx-2 := NUL][l.idx-1 := NUL] else buf
    decreases n - i
  {
    if i == n then Line(LineOpen, buf, i)
    else if buf[i] == CR then
      if i + 1 == n then Line(LineOpen, buf, i)
      else if buf[i+1] == LF then Line(LineOk, buf[i := NUL][i+1 := NUL], i + 2)
      else Line(LineBad, buf, i)
    else if buf[i] == LF then
      if i > 1 && buf[i-1] == CR then Line(LineOk, buf[i-1 := NUL][i := NUL], i + 1)
      else Line(LineBad, buf, i)
    else ParseLine(buf, i + 1, n)
  }

  // ---------- parse_request_line ----------

  const HOME_PAGE: string := "judge.html"

  /** What becomes of the request target after the scheme tests. */
  datatype Target =
    | Path(off: nat)      // m_url points at a '/'
    | NotPath(off: nat)   // m_url points at something else
    | NoPath              // m_url is NULL
    | NullRead            // NULL is handed to strncasecmp

  function SkipHttps(u: string, off: nat): (r: Target)
    requires off <= |u|
    ensures r.Path? ==> r.off < |u| && u[r.off] == '/'
    ensures r.NotPath? ==> r.off <= |u|
  {
    if MatchesAt(u, off, "https://") then
      match IndexFrom(u, off + 8, '/')
      case None => NoPath
      case Some(k) => Path(k)
    else if off < |u| && u[off] == '/' then Path(off)
    else NotPath(off)
  }

  function FindPath(u: string): (r: Target)
    ensures r.Path? ==> r.off < |u| && u[r.off] == '/'
    ensures r.NotPath? ==> r.off <= |u|
  {
    if MatchesAt(u, 0, "http://") then
      match IndexFrom(u, 7, '/')
      case None => NullRead
      case Some(k) => SkipHttps(u, k)
    else SkipHttps(u, 0)
  }

  /** The outcome of parsing a request line: offsets are within the line. */
  datatype RequestLine = RequestLine(
    code: HttpCode,
    verb: Option<Method>,   // m_method, when it is set
    cut1: Option<nat>,      // the blanks replaced by NUL
    cut2: Option<nat>,
    url: Option<nat>,       // where m_url is left
    home: bool)             // "judge.html" is appended to the one-byte target

  function VerbOf(m: string): Option<Method> {
    if EqualsAt(m, 0, "GET") then Some(GET)
    else if EqualsAt(m, 0, "POST") then Some(POST)
    else None
  }

  function ParseRequestLine(t: string): (r: RequestLine)
    ensures r.cut1 == if BlankFrom(t, 0) < |t| then Some(BlankFrom(t, 0)) else None
    ensures r.cut2.Some? ==> r.cut2.value < |t|
    ensures r.home ==> r.cut2.Some? && r.url.Some? && r.url.value < |t|
  {
    var i := BlankFrom(t, 0);
    if i == |t| then RequestLine(BadRequest, None, None, None, None, false) else SplitMethod(t, i)
  }

  /** The request line cut at its first blank t[i]. */
  function SplitMethod(t: string, i: nat): (r: RequestLine)
    requires i < |t|
    ensures r.cut1 == Some(i) && (r.cut2.Some? ==> r.cut2.value < |t|)
    ensures r.home ==> r.cut2.Some? && r.url.Some? && r.url.value < |t|
  {
    match VerbOf(t[..i])
    case None => RequestLine(BadRequest, None, Some(i), None, Some(i + 1), false)
    case Some(verb) => SplitTarget(t, verb, i)
  }

  /** The request line from the first blank t[i] on. */
  function SplitTarget(t: string, verb: Method, i: nat): (r: RequestLine)
    requires i < |t|
    ensures r.cut1 == Some(i) && r.verb == Some(verb) && (r.cut2.Some? ==> r.cut2.value < |t|)
    ensures r.home ==> r.cut2.Some? && r.url.Some? && r.url.value < |t|
  {
    var u := SkipBlanks(t, i + 1);
    var j := BlankFrom(t, u);
    if j == |t| then RequestLine(BadRequest, Some(verb), Some(i), None, Some(u), false)
    else ParseVersion(t, verb, i, u, j)
  }

  /** The request line from the second blank on: the target is t[u..j]. */
  function ParseVersion(t: string, verb: Method, i: nat, u: nat, j: nat): (r: RequestLine)
    requires i < u <= j < |t|
    ensures r.cut1 == Some(i) && r.cut2 == Some(j) && r.verb == Some(verb)
    ensures r.home ==> r.url.Some? && r.url.value + 1 == j
  {
    if !EqualsAt(t, SkipBlanks(t, j + 1), "HTTP/1.1") then
      RequestLine(BadRequest, Some(verb), Some(i), Some(j), Some(u), false)
    else TakeTarget(verb, i, u, j, FindPath(t[u..j]))
  }

  function TakeTarget(verb: Method, i: nat, u: nat, j: nat, target: Target): (r: RequestLine)
    ensures r.cut1 == Some(i) && r.cut2 == Some(j) && r.verb == Some(verb)
    ensures r.home ==> r.url.Some? && r.url.value + 1 == j
  {
    match target
    case NullRead => RequestLine(Fault, Some(verb), Some(i), Some(j), None, false)
    case NoPath => RequestLine(BadRequest, Some(verb), Some(i), Some(j), None, false)
    case NotPath(off) => RequestLine(BadRequest, Some(verb), Some(i), Some(j), Some(u + off), false)
    case Path(off) => RequestLine(NoRequest, Some(verb), Some(i), Some(j), Some(u + off), u + off + 1 == j)
  }

  /** The byte at offset `k` of the line after the parser's writes, `c` before them. */
  function EditedByte(r: RequestLine, k: int, c: char): char
    requires r.home ==> r.url.Some?
  {
    if r.home && r.url.value + 1 <= k <= r.url.value + 11 then
      if k == r.url.value + 11 then NUL else HOME_PAGE[k - r.url.value - 1]
    else if (r.cut1.Some? && k == r.cut1.value) || (r.cut2.Some? && k == r.cut2.value) then NUL
    else c
  }

  function Edited(buf: seq<char>, text: nat, r: RequestLine): (b: seq<char>)
    requires r.home ==> r.url.Some?
    ensures |b| == |buf|
  {
    seq(|buf|, k requires 0 <= k < |buf| => EditedByte(r, k - text, buf[k]))
  }

  /** The fields set by parse_request_line. */
  function RequestLineControl(c: Control, code: HttpCode, verb: Option<Method>, url: Option<nat>): Control {
    c.(verb := if verb.Some? then verb.value else c.verb,
       cgi := c.cgi || verb == Some(POST),
       url := url,
       state := if code.NoRequest? then CheckHeader else c.state)
  }

  function Shift(o: Option<nat>, text: nat): Option<nat> {
    match o
    case None => None
    case Some(off) => Some(text + off)
  }

  function RequestLineStep(s: Conn, text: nat): (r: Step)
    requires text <= |s.buf|
  {
    var p := ParseRequestLine(CStr(s.buf, text));
    Step(s.(buf := Edited(s.buf, text, p),
            ctl := RequestLineControl(s.ctl, p.code, p.verb, Shift(p.url, text))),
         p.code)
  }

  // ---------- parse_headers ----------

  datatype Field =
    | Blank
    | Connection(keepAlive: bool)
    | Length(value: int)
    | Host(off: nat)
    | Other

  function ParseField(t: string): Field {
    if t == [] then Blank
    else if MatchesAt(t, 0, "Connection:") then
      Connection(EqualsAt(t, SkipBlanks(t, 11), "keep-alive"))
    else if MatchesAt(t, 0, "Content-length:") then
      Length(ToInt(Atol(t[SkipBlanks(t, 15)..])))
    else if MatchesAt(t, 0, "Host:") then Host(SkipBlanks(t, 5))
    else Other
  }

  function FieldControl(c: Control, text: nat, f: Field): Control {
    match f
    case Blank => if c.contentLength != 0 then c.(state := CheckContent) else c
    case Connection(keepAlive) => c.(linger := c.linger || keepAlive)
    case Length(v) => c.(contentLength := v)
    case Host(off) => c.(host := Some(text + off))
    case Other => c
  }

  function HeaderStep(s: Conn, text: nat): Step
    requires text <= |s.buf|
  {
    var f := ParseField(CStr(s.buf, text));
    Step(s.(ctl := FieldControl(s.ctl, text, f)),
         if f.Blank? && s.ctl.contentLength == 0 then GetRequest else NoRequest)
  }

  // ---------- parse_content ----------

  function ContentStep(s: Conn, text: nat): Step {
    if s.ctl.contentLength + s.ctl.checkedIdx > INT_MAX then Step(s, Fault)
    else if s.readIdx >= s.ctl.contentLength + s.ctl.checkedIdx then
      var end := text + s.ctl.contentLength;
      if 0 <= end < |s.buf| then
        Step(s.(buf := s.buf[end := NUL], ctl := s.ctl.(body := Some(text))), GetRequest)
      else Step(s, Fault)
    else Step(s, NoRequest)
  }

  // ---------- process_read ----------

  /** One turn of parse_line from the state's own indices. */
  function NextLine(s: Conn): (r: (Conn, LineStatus))
    requires s.Bounded()
    ensures r.0.Bounded() && r.0.ctl.startLine == s.ctl.startLine && r.0.ctl.state == s.ctl.state
    ensures r.0.readIdx == s.readIdx && s.ctl.checkedIdx <= r.0.ctl.checkedIdx
    ensures r.1.LineOk? ==> s.ctl.checkedIdx < r.0.ctl.checkedIdx
  {
    var l := ParseLine(s.buf, s.ctl.checkedIdx, s.readIdx);
    (s.(buf := l.buf, ctl := s.ctl.(checkedIdx := l.idx)), l.status)
  }

  /** How the request line and the header fields end. */
  datatype Headers =
    | Stopped(conn: Conn, code: HttpCode)   // process_read returns
    | BodyAt(conn: Conn)                    // the blank line was read and a body is announced

  /** The line just delimited is handed to the parser of the current state. */
  function LineStep(s: Conn): (r: Step)
    requires s.Bounded() && !s.ctl.state.CheckContent?
    ensures r.conn.Bounded() && r.conn.ctl.startLine == r.conn.ctl.checkedIdx
    ensures r.conn.readIdx == s.readIdx && r.conn.ctl.checkedIdx == s.ctl.checkedIdx
  {
    var s1 := s.(ctl := s.ctl.(startLine := s.ctl.checkedIdx));
    if s.ctl.state.CheckRequestLine? then RequestLineStep(s1, s.ctl.startLine) else HeaderStep(s1, s.ctl.startLine)
  }

  function HeaderPhase(s: Conn): (r: Headers)
    requires s.Bounded() && !s.ctl.state.CheckContent?
    ensures r.conn.Bounded() && r.conn.readIdx == s.readIdx && s.ctl.checkedIdx <= r.conn.ctl.checkedIdx
    ensures r.BodyAt? ==> r.conn.ctl.state.CheckContent? && r.conn.ctl.startLine == r.conn.ctl.checkedIdx
    ensures r.Stopped? && r.code.NoRequest? ==> !r.conn.ctl.state.CheckContent?
    decreases s.readIdx - s.ctl.checkedIdx
  {
    var (s1, line) := NextLine(s);
    if !line.LineOk? then Stopped(s1, NoRequest) else
    var r := LineStep(s1);
    if !r.code.NoRequest? then Stopped(r.conn, r.code)
    else if r.conn.ctl.state.CheckContent? then BodyAt(r.conn)
    else HeaderPhase(r.conn)
  }

  /** The loop once the state is CHECK_STATE_CONTENT. After a short body line_status is
      LINE_OPEN, so the loop condition scans the body for a line. */
  function BodyPhase(s: Conn, line: LineStatus): (r: Step)
    requires s.Bounded() && s.ctl.state.CheckContent?
    ensures r.conn.Bounded() && r.conn.readIdx == s.readIdx && s.ctl.checkedIdx <= r.conn.ctl.checkedIdx
    ensures r.conn.ctl.state.CheckContent?
    decreases s.readIdx - s.ctl.checkedIdx, line.LineOk?
  {
    if line.LineOk? then
      var r := ContentStep(s.(ctl := s.ctl.(startLine := s.ctl.checkedIdx)), s.ctl.startLine);
      if r.code.NoRequest? then BodyPhase(r.conn, LineOpen) else r
    else
      var (s1, status) := NextLine(s);
      if status.LineOk? then BodyPhase(s1, LineOk) else Step(s1, NoRequest)
  }

  function AfterHeaders(h: Headers): Step
    requires h.conn.Bounded() && (h.BodyAt? ==> h.conn.ctl.state.CheckContent?)
  {
    match h
    case Stopped(t, code) => Step(t, code)
    case BodyAt(t) => BodyPhase(t, LineOk)
  }

  function ProcessRead(s: Conn): (r: Step)
    requires s.Bounded()
    ensures r.conn.Bounded() && r.conn.readIdx == s.readIdx && s.ctl.checkedIdx <= r.conn.ctl.checkedIdx
  {
    if s.ctl.state.CheckContent? then BodyPhase(s, LineOk) else AfterHeaders(HeaderPhase(s))
  }

  /** The state init() leaves, over whatever the buffer held. */
  function Initial(buf: seq<char>): Conn {
    Conn(buf, 0, Control(0, 0, CheckRequestLine, GET, false, None, None, 0, false, None))
  }
}
