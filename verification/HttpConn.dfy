/** The connection object: the parser working in place on its read buffer. Each method is
    proved equal to the function of the same name in HttpParser. */
module HttpConnection {
  import opened CStrings
  import P = HttpParser
  import opened ParserInvariant

  /** strpbrk(buf + i, " \t"). */
  function StrPbrk(buf: seq<char>, i: nat): (r: Option<nat>)
    requires i <= |buf|
    ensures r.Some? ==> i <= r.value < |buf|
    decreases |buf| - i
  {
    if i == |buf| || buf[i] == NUL then None
    else if IsBlank(buf[i]) then Some(i)
    else StrPbrk(buf, i + 1)
  }

  /** strspn(buf + i, " \t"). */
  function StrSpn(buf: seq<char>, i: nat): (r: nat)
    requires i <= |buf|
    ensures i + r <= |buf|
    decreases |buf| - i
  {
    if i == |buf| || !IsBlank(buf[i]) then 0 else 1 + StrSpn(buf, i + 1)
  }

  /** strchr(buf + i, c), for c other than NUL. */
  function StrChr(buf: seq<char>, i: nat, c: char): (r: Option<nat>)
    requires i <= |buf|
    ensures r.Some? ==> i <= r.value < |buf| && buf[r.value] == c
    decreases |buf| - i
  {
    if i == |buf| || buf[i] == NUL then None
    else if buf[i] == c then Some(i)
    else StrChr(buf, i + 1, c)
  }

  /** With the line `t` at offset `text`: the C string at text + lo is t[lo..hi]. */
  ghost predicate Piece(buf: seq<char>, text: nat, t: string, lo: nat, hi: nat)
    decreases hi - lo
  {
    && lo <= hi <= |t| && text + hi < |buf|
    && if lo == hi then buf[text + lo] == NUL
       else buf[text + lo] == t[lo] && t[lo] != NUL && Piece(buf, text, t, lo + 1, hi)
  }

  lemma {:induction false} PieceIsStr(buf: seq<char>, text: nat, t: string, lo: nat, hi: nat)
    requires Piece(buf, text, t, lo, hi)
    ensures CEnd(buf, text + lo) == text + hi && CStr(buf, text + lo) == t[lo..hi]
    decreases hi - lo
  {
    if lo < hi {
      assert buf[text + lo] == t[lo];
      PieceIsStr(buf, text, t, lo + 1, hi);
      assert t[lo..hi] == [t[lo]] + t[lo+1..hi];
      assert buf[text+lo..text+hi] == [t[lo]] + buf[text+(lo+1)..text+hi];
    }
  }

  /** Library calls on a piece, in terms of the line. */
  lemma {:induction false} PieceCalls(buf: seq<char>, text: nat, t: string, lo: nat)
    requires Piece(buf, text, t, lo, |t|)
    ensures StrPbrk(buf, text + lo)
         == if BlankFrom(t, lo) == |t| then None else Some(text + BlankFrom(t, lo))
    ensures text + lo + StrSpn(buf, text + lo) == text + SkipBlanks(t, lo)
    decreases |t| - lo
  {
    if lo < |t| {
      assert buf[text + lo] == t[lo];
      PieceCalls(buf, text, t, lo + 1);
    }
  }

  lemma {:induction false} LineIsPiece(buf: seq<char>, text: nat, lo: nat)
    requires text <= |buf| && CEnd(buf, text) < |buf| && lo <= |CStr(buf, text)|
    requires CEnd(buf, text + lo) == CEnd(buf, text)
    ensures Piece(buf, text, CStr(buf, text), lo, |CStr(buf, text)|)
    decreases |CStr(buf, text)| - lo
  {
    if lo < |CStr(buf, text)| {
      LineIsPiece(buf, text, lo + 1);
    }
  }

  lemma WholeIsPiece(buf: seq<char>, text: nat, t: string)
    requires text <= |buf| && t == CStr(buf, text) && text + |t| < |buf|
    ensures Piece(buf, text, t, 0, |t|)
  {
    LineIsPiece(buf, text, 0);
  }

  lemma {:induction false} PieceTail(b: seq<char>, text: nat, t: string, lo: nat, lo2: nat, hi: nat)
    requires Piece(b, text, t, lo, hi) && lo <= lo2 <= hi
    ensures Piece(b, text, t, lo2, hi)
    decreases lo2 - lo
  {
    if lo < lo2 {
      PieceTail(b, text, t, lo + 1, lo2, hi);
    }
  }

  /** A NUL written at t[j] makes two pieces of one. */
  lemma {:induction false} PieceCut(b: seq<char>, text: nat, t: string, lo: nat, j: nat)
    requires Piece(b, text, t, lo, |t|) && lo <= j < |t|
    ensures text + j < |b|
    ensures Piece(b[text + j := NUL], text, t, lo, j)
    ensures Piece(b[text + j := NUL], text, t, j + 1, |t|)
    decreases j - lo
  {
    if lo < j {
      PieceCut(b, text, t, lo + 1, j);
    } else {
      PieceBeyond(b, text, t, j + 1, j);
    }
  }

  lemma {:induction false} PieceBeyond(b: seq<char>, text: nat, t: string, lo: nat, j: nat)
    requires Piece(b, text, t, lo, |t|) && j < lo && text + j < |b|
    ensures Piece(b[text + j := NUL], text, t, lo, |t|)
    decreases |t| - lo
  {
    if lo < |t| {
      PieceBeyond(b, text, t, lo + 1, j);
    }
  }

  lemma PieceCompares(buf: seq<char>, text: nat, t: string, lo: nat, p: string)
    requires Piece(buf, text, t, lo, |t|)
    ensures EqualsAt(CStr(buf, text + lo), 0, p) <==> EqualsAt(t, lo, p)
    ensures EqualsAt(t, lo, p) ==> |t| == lo + |p|
  {
    PieceIsStr(buf, text, t, lo, |t|);
    var v := t[lo..|t|];
    if |v| == |p| {
      assert forall n :: 0 <= n < |p| ==> v[n] == t[lo + n];
    }
  }

  lemma PieceMatches(buf: seq<char>, text: nat, t: string, lo: nat, hi: nat, base: nat, p: string)
    requires Piece(buf, text, t, lo, hi) && base <= lo
    ensures MatchesAt(CStr(buf, text + lo), 0, p) <==> MatchesAt(t[base..hi], lo - base, p)
  {
    PieceIsStr(buf, text, t, lo, hi);
    var v, w := t[lo..hi], t[base..hi];
    if |p| <= |v| {
      forall n | 0 <= n < |p|
        ensures v[n] == w[lo - base + n]
      {
      }
    }
  }

  lemma {:induction false} PieceFinds(buf: seq<char>, text: nat, t: string, lo: nat, hi: nat, base: nat, c: char)
    requires Piece(buf, text, t, lo, hi) && base <= lo && c != NUL
    ensures StrChr(buf, text + lo, c) == match IndexFrom(t[base..hi], lo - base, c)
                                         case None => None
                                         case Some(k) => Some(text + base + k)
    decreases hi - lo
  {
    if lo < hi {
      assert t[base..hi][lo - base] == t[lo] == buf[text + lo];
      PieceFinds(buf, text, t, lo + 1, hi, base, c);
    }
  }

  lemma PieceAt(buf: seq<char>, text: nat, t: string, lo: nat, hi: nat, k: nat)
    requires Piece(buf, text, t, lo, hi) && lo <= k <= hi
    ensures hi <= |t| && text + k < |buf| && buf[text + k] == if k < hi then t[k] else NUL
  {
    PieceTail(buf, text, t, lo, k, hi);
  }

  /** Where m_url points after the scheme tests. */
  function UrlOf(f: P.Target, at: nat): Option<nat> {
    match f
    case Path(off) => Some(at + off)
    case NotPath(off) => Some(at + off)
    case NoPath => None
    case NullRead => None
  }

  lemma MatchFits(t: string, k: nat, p: string)
    requires MatchesAt(t, k, p)
    ensures k + |p| <= |t|
  {
  }

  lemma TargetByte(w: string)
    ensures P.FindPath(w).Path? ==> P.FindPath(w).off < |w| && w[P.FindPath(w).off] == '/'
    ensures P.FindPath(w).NotPath? ==>
      P.FindPath(w).off <= |w| && (P.FindPath(w).off < |w| ==> w[P.FindPath(w).off] != '/')
  {
  }

  /** The buffer once "judge.html" has been appended, where it is. */
  function Expanded(b: seq<char>, text: nat, p: P.RequestLine): seq<char>
  {
    if p.home && p.url.Some? && text + p.url.value + 12 <= |b| then
      P.Stored(b, text + p.url.value + 1, P.HOME_PAGE + [NUL])
    else b
  }

  /** The buffer once the second NUL and "judge.html" have been written, where they are. */
  function Written(b: seq<char>, text: nat, p: P.RequestLine): seq<char> {
    if p.cut2.Some? && text + p.cut2.value < |b| then Expanded(b[text + p.cut2.value := NUL], text, p) else b
  }

  lemma NotExpanded(b: seq<char>, text: nat, p: P.RequestLine)
    requires !p.home
    ensures Expanded(b, text, p) == b
  {
  }

  lemma NotWritten(b: seq<char>, text: nat, p: P.RequestLine)
    requires p.cut2.None?
    ensures Written(b, text, p) == b
  {
  }

  lemma NoEdits(buf: seq<char>, text: nat, p: P.RequestLine)
    requires !p.home && p.cut1.None? && p.cut2.None?
    ensures P.Edited(buf, text, p) == buf
  {
  }

  /** The parser's writes, one after the other, are the edits of the line. */
  lemma EditedInSteps(buf: seq<char>, text: nat, p: P.RequestLine, i: nat)
    requires p.cut1 == Some(i) && text + i < |buf|
    requires p.cut2.Some? ==> text + p.cut2.value < |buf|
    requires p.home ==> p.cut2.Some? && p.url.Some? && text + p.url.value + 12 <= |buf|
    ensures P.Edited(buf, text, p) == Written(buf[text + i := NUL], text, p)
  {
    assert |P.HOME_PAGE| == 10;
  }

  lemma LineEdits(buf: seq<char>, text: nat, t: string)
    requires text + |t| + 2 <= |buf| && BlankFrom(t, 0) < |t|
    ensures P.Edited(buf, text, P.ParseRequestLine(t))
         == Written(buf[text + BlankFrom(t, 0) := NUL], text, P.ParseRequestLine(t))
  {
    hide P.ParseRequestLine, P.Edited, Written;
    var p := P.ParseRequestLine(t);
    assert p.home ==> p.url.value + 12 <= |t| + 2 by {
      if p.home {
        HomePageFits(t);
      }
    }
    EditedInSteps(buf, text, p, BlankFrom(t, 0));
  }

  lemma LineUnfolds(t: string)
    ensures var i := BlankFrom(t, 0);
      P.ParseRequestLine(t) ==
        if i == |t| then P.RequestLine(P.BadRequest, None, None, None, None, false) else P.SplitMethod(t, i)
  {
  }

  lemma TargetUnfolds(t: string, m: P.Method, i: nat)
    requires i < |t|
    ensures var u := SkipBlanks(t, i + 1);
      var j := BlankFrom(t, u);
      P.SplitTarget(t, m, i) ==
        if j == |t| then P.RequestLine(P.BadRequest, Some(m), Some(i), None, Some(u), false)
        else P.ParseVersion(t, m, i, u, j)
  {
  }

  lemma WrittenIs(b: seq<char>, text: nat, p: P.RequestLine, j: nat)
    requires p.cut2 == Some(j) && text + j < |b|
    ensures Written(b, text, p) == Expanded(b[text + j := NUL], text, p)
  {
  }

  /** What the loop of process_read has still to do, as a function of the state and
      line_status at the head of the loop. */
  ghost function Remaining(s: P.Conn, status: P.LineStatus): P.Step
    requires s.Bounded() && (!s.ctl.state.CheckContent? ==> status.LineOk?)
  {
    if s.ctl.state.CheckContent? then P.BodyPhase(s, status) else P.AfterHeaders(P.HeaderPhase(s))
  }

  lemma AtStart(s: P.Conn)
    requires s.Bounded()
    ensures Remaining(s, P.LineOk) == P.ProcessRead(s)
  {
  }

  /** The switch of process_read, once the line at m_start_line is delimited. */
  ghost function Handled(s: P.Conn): P.Step
    requires s.Bounded()
  {
    if s.ctl.state.CheckContent? then
      P.ContentStep(s.(ctl := s.ctl.(startLine := s.ctl.checkedIdx)), s.ctl.startLine)
    else P.LineStep(s)
  }

  /** One turn of the loop. */
  lemma {:induction false} Turn(s: P.Conn, status: P.LineStatus)
    requires s.Bounded() && (!s.ctl.state.CheckContent? ==> status.LineOk?)
    ensures
      var (s1, line) := if s.ctl.state.CheckContent? && status.LineOk? then (s, P.LineOk) else P.NextLine(s);
      var next := if s.ctl.state.CheckContent? then P.LineOpen else P.LineOk;
      if !line.LineOk? then Remaining(s, status) == P.Step(s1, P.NoRequest)
      else
        var r := Handled(s1);
        && r.conn.Bounded() && (r.conn.ctl.state.CheckContent? || next.LineOk?)
        && Remaining(s, status) == if r.code.NoRequest? then Remaining(r.conn, next) else r
    decreases !status.LineOk?
  {
    if s.ctl.state.CheckContent? && !status.LineOk? && P.NextLine(s).1.LineOk? {
      Turn(P.NextLine(s).0, P.LineOk);
    }
  }

  lemma LineFits(s: P.Conn)
    requires AtLine(s)
    ensures s.ctl.startLine < |s.buf| && s.ctl.startLine + |CStr(s.buf, s.ctl.startLine)| + 2 <= |s.buf|
  {
    CStrFrame(s.buf, s.buf, s.ctl.startLine, s.ctl.checkedIdx - 2);
  }

  lemma HandledInv(s: P.Conn)
    requires Inv(s) && (!s.ctl.state.CheckContent? ==> AtLine(s))
    ensures var r := Handled(s);
      && Inv(r.conn) && r.conn.Bounded() && r.conn.readIdx == s.readIdx
      && r.conn.ctl.checkedIdx == s.ctl.checkedIdx
      && (s.ctl.state.CheckContent? ==> r.conn.ctl.state.CheckContent?)
  {
    if !s.ctl.state.CheckContent? {
      LineStepWritesInLine(s);
    }
  }

  class HttpConn {
    const readBuf: array<char>
    var readIdx: nat
    var checkedIdx: nat
    var startLine: nat
    var checkState: P.CheckState
    var verb: P.Method
    var cgi: bool
    var url: Option<nat>
    var host: Option<nat>
    var contentLength: int
    var linger: bool
    var body: Option<nat>

    ghost function Ctl(): P.Control
      reads this
    {
      P.Control(checkedIdx, startLine, checkState, verb, cgi, url, host, contentLength, linger, body)
    }

    ghost function State(): P.Conn
      reads this, readBuf
    {
      P.Conn(readBuf[..], readIdx, Ctl())
    }

    /** init() */
    constructor ()
      ensures fresh(readBuf) && readBuf.Length == P.READ_BUFFER_SIZE
      ensures State() == P.Initial(readBuf[..]) && Inv(State())
    {
      readBuf := new char[P.READ_BUFFER_SIZE];
      readIdx, checkedIdx, startLine := 0, 0, 0;
      checkState, verb, cgi := P.CheckRequestLine, P.GET, false;
      url, host, body := None, None, None;
      contentLength, linger := 0, false;
    }

    /** The bytes one recv stores. */
    method Receive(d: seq<char>)
      requires Inv(State()) && readIdx + |d| <= P.READ_BUFFER_SIZE
      modifies this`readIdx, readBuf
      ensures State() == P.Receive(old(State()), d) && Inv(State())
    {
      ReceiveInv(State(), d);
      forall k | 0 <= k < |d| {
        readBuf[readIdx + k] := d[k];
      }
      assert readBuf[..] == P.Stored(old(readBuf[..]), readIdx, d);
      readIdx := readIdx + |d|;
    }

    /** m_read_buf[i] = c */
    method Put(i: nat, c: char)
      requires i < readBuf.Length
      modifies readBuf
      ensures readBuf[..] == old(readBuf[..])[i := c]
    {
      readBuf[i] := c;
    }

    method ParseLine() returns (status: P.LineStatus)
      requires Inv(State())
      modifies this`checkedIdx, readBuf
      ensures (State(), status) == P.NextLine(old(State()))
    {
      while checkedIdx < readIdx
        invariant checkedIdx <= readIdx && readBuf[..] == old(readBuf[..])
        invariant P.ParseLine(old(readBuf[..]), old(checkedIdx), readIdx)
               == P.ParseLine(old(readBuf[..]), checkedIdx, readIdx)
      {
        var temp := readBuf[checkedIdx];
        if temp == CR {
          if checkedIdx + 1 == readIdx {
            return P.LineOpen;
          } else if readBuf[checkedIdx + 1] == LF {
            readBuf[checkedIdx] := NUL;
            readBuf[checkedIdx + 1] := NUL;
            checkedIdx := checkedIdx + 2;
            assert readBuf[..] == old(readBuf[..])[checkedIdx - 2 := NUL][checkedIdx - 1 := NUL];
            return P.LineOk;
          }
          return P.LineBad;
        } else if temp == LF {
          if checkedIdx > 1 && readBuf[checkedIdx - 1] == CR {
            readBuf[checkedIdx - 1] := NUL;
            readBuf[checkedIdx] := NUL;
            checkedIdx := checkedIdx + 1;
            assert readBuf[..] == old(readBuf[..])[checkedIdx - 2 := NUL][checkedIdx - 1 := NUL];
            return P.LineOk;
          }
          return P.LineBad;
        }
        checkedIdx := checkedIdx + 1;
      }
      return P.LineOpen;
    }

    /** strcat */
    method StrCat(dst: nat, src: string)
      requires dst <= readBuf.Length && CEnd(readBuf[..], dst) + |src| < readBuf.Length
      modifies readBuf
      ensures readBuf[..] == P.Stored(old(readBuf[..]), CEnd(old(readBuf[..]), dst), src + [NUL])
    {
      var end := CEnd(readBuf[..], dst);
      for k := 0 to |src|
        invariant forall m :: 0 <= m < readBuf.Length ==>
          readBuf[m] == if end <= m < end + k then src[m - end] else old(readBuf[m])
      {
        readBuf[end + k] := src[k];
      }
      readBuf[end + |src|] := NUL;
    }

    method ParseRequestLine(text: nat) returns (code: P.HttpCode)
      requires text <= readBuf.Length && text + |CStr(readBuf[..], text)| + 2 <= readBuf.Length
      modifies this`url, this`verb, this`cgi, this`checkState, readBuf
      ensures P.Step(State(), code) == P.RequestLineStep(old(State()), text)
    {
      ghost var s := State();
      var target, method_;
      code, target, method_ := SplitRequestLine(text, CStr(readBuf[..], text));
      assert P.RequestLineStep(s, text)
          == P.Step(P.Conn(readBuf[..], readIdx, P.RequestLineControl(s.ctl, code, method_, target)), code);
      url := target;
      if method_.Some? {
        verb := method_.value;
        cgi := cgi || verb.POST?;
      }
      if code.NoRequest? {
        checkState := P.CheckHeader;
      }
    }

    /** The body of parse_request_line, on the line `t`; m_url and the method are returned. */
    method SplitRequestLine(text: nat, ghost t: string)
      returns (code: P.HttpCode, target: Option<nat>, method_: Option<P.Method>)
      requires text <= readBuf.Length && text + |t| + 2 <= readBuf.Length && t == CStr(readBuf[..], text)
      modifies readBuf
      ensures var p := P.ParseRequestLine(t);
        && code == p.code && method_ == p.verb && readBuf[..] == P.Edited(old(readBuf[..]), text, p)
        && target == P.Shift(p.url, text)
    {
      hide P.ParseRequestLine, P.SplitMethod, P.Edited, Written, Piece, CStr;
      ghost var p := P.ParseRequestLine(t);
      ghost var buf0 := readBuf[..];
      LineUnfolds(t);
      ghost var i := BlankFrom(t, 0);
      WholeIsPiece(buf0, text, t);
      var blank := StrPbrk(readBuf[..], text);
      assert blank == if i == |t| then None else Some(text + i) by {
        PieceCalls(buf0, text, t, 0);
      }
      if blank.None? {
        NoEdits(buf0, text, p);
        return P.BadRequest, None, None;
      }
      Put(blank.value, NUL);
      ghost var buf1 := readBuf[..];
      assert CStr(buf1, text) == t[..i] && Piece(buf1, text, t, i + 1, |t|) by {
        PieceCut(buf0, text, t, 0, i);
        PieceIsStr(buf1, text, t, 0, i);
        assert t[0..i] == t[..i];
      }
      assert P.Edited(buf0, text, p) == Written(buf1, text, p) by {
        LineEdits(buf0, text, t);
      }
      code, target, method_ := SplitMethod(text, blank.value + 1, t, i);
    }

    /** parse_request_line from the method on: the string at `text` is now t[..i]. */
    method SplitMethod(text: nat, first: nat, ghost t: string, ghost i: nat)
      returns (code: P.HttpCode, target: Option<nat>, method_: Option<P.Method>)
      requires i < |t| && text + |t| + 2 <= readBuf.Length && first == text + i + 1
      requires CStr(readBuf[..], text) == t[..i] && Piece(readBuf[..], text, t, i + 1, |t|)
      modifies readBuf
      ensures var p := P.SplitMethod(t, i);
        && code == p.code && method_ == p.verb && readBuf[..] == Written(old(readBuf[..]), text, p)
        && target == P.Shift(p.url, text)
    {
      ghost var p := P.SplitMethod(t, i);
      method_ := ReadMethod(text);
      if method_.None? {
        NotWritten(readBuf[..], text, p);
        return P.BadRequest, Some(first), None;
      }
      code, target := SplitTarget(first, method_.value, text, t, i);
    }

    /** The method named by the C string at `text`. */
    method ReadMethod(text: nat) returns (m: Option<P.Method>)
      requires text <= readBuf.Length
      ensures m == P.VerbOf(CStr(readBuf[..], text))
    {
      var name := CStr(readBuf[..], text);
      if EqualsAt(name, 0, "GET") {
        return Some(P.GET);
      } else if EqualsAt(name, 0, "POST") {
        return Some(P.POST);
      }
      return None;
    }

    /** Whether the version behind the blank at t[j] is the one supported. */
    method IsHttp11(blank: nat, ghost text: nat, ghost t: string, ghost j: nat) returns (ok: bool)
      requires j < |t| && blank == text + j && Piece(readBuf[..], text, t, j + 1, |t|)
      ensures ok <==> EqualsAt(t, SkipBlanks(t, j + 1), "HTTP/1.1")
      ensures ok ==> j + 9 <= |t|
    {
      ghost var v := SkipBlanks(t, j + 1);
      PieceCalls(readBuf[..], text, t, j + 1);
      PieceTail(readBuf[..], text, t, j + 1, v, |t|);
      PieceCompares(readBuf[..], text, t, v, "HTTP/1.1");
      var version := blank + 1 + StrSpn(readBuf[..], blank + 1);
      assert version == text + v;
      ok := EqualsAt(CStr(readBuf[..], version), 0, "HTTP/1.1");
    }

    /** parse_request_line from where m_url is past the first blank, t[i]. */
    method SplitTarget(first: nat, ghost m: P.Method, ghost text: nat, ghost t: string, ghost i: nat)
      returns (code: P.HttpCode, target: Option<nat>)
      requires i < |t| && text + |t| + 2 <= readBuf.Length && first == text + i + 1
      requires Piece(readBuf[..], text, t, i + 1, |t|)
      modifies readBuf
      ensures var p := P.SplitTarget(t, m, i);
        && code == p.code
        && readBuf[..] == Written(old(readBuf[..]), text, p)
        && target == P.Shift(p.url, text)
    {
      hide P.SplitTarget, P.ParseVersion, Written, Expanded, Piece, CStr;
      ghost var p := P.SplitTarget(t, m, i);
      ghost var buf1 := readBuf[..];
      TargetUnfolds(t, m, i);
      ghost var u := SkipBlanks(t, i + 1);
      ghost var j := BlankFrom(t, u);
      var at := first + StrSpn(readBuf[..], first);
      assert at == text + u by {
        PieceCalls(buf1, text, t, i + 1);
      }
      assert Piece(buf1, text, t, u, |t|) by {
        PieceTail(buf1, text, t, i + 1, u, |t|);
      }
      var blank := StrPbrk(readBuf[..], at);
      assert blank == if j == |t| then None else Some(text + j) by {
        PieceCalls(buf1, text, t, u);
      }
      if blank.None? {
        NotWritten(buf1, text, p);
        return P.BadRequest, Some(at);
      }
      code, target := ParseVersion(at, blank.value, m, text, t, i, u, j);
      WrittenIs(buf1, text, p, j);
    }

    /** parse_request_line from the blank behind the target on. */
    method ParseVersion(at: nat, blank: nat, ghost m: P.Method, ghost text: nat, ghost t: string,
                        ghost i: nat, ghost u: nat, ghost j: nat)
      returns (code: P.HttpCode, target: Option<nat>)
      requires i < u <= j < |t| && text + |t| + 2 <= readBuf.Length
      requires at == text + u && blank == text + j && Piece(readBuf[..], text, t, u, |t|)
      modifies readBuf
      ensures var p := P.ParseVersion(t, m, i, u, j);
        && code == p.code && readBuf[..] == Expanded(old(readBuf[..])[text + j := NUL], text, p)
        && target == P.Shift(p.url, text)
    {
      ghost var p := P.ParseVersion(t, m, i, u, j);
      ghost var v := SkipBlanks(t, j + 1);
      assert p == if !EqualsAt(t, v, "HTTP/1.1") then
                    P.RequestLine(P.BadRequest, Some(m), Some(i), Some(j), Some(u), false)
                  else P.TakeTarget(m, i, u, j, P.FindPath(t[u..j]));
      Put(blank, NUL);
      ghost var buf2 := readBuf[..];
      PieceCut(old(readBuf[..]), text, t, u, j);
      PieceIsStr(buf2, text, t, u, j);
      var ok := IsHttp11(blank, text, t, j);
      if !ok {
        NotExpanded(buf2, text, p);
        return P.BadRequest, Some(at);
      }
      var url, nullRead := SkipSchemes(at, text, t, u, j);
      if nullRead {
        NotExpanded(buf2, text, p);
        return P.Fault, None;
      }
      code, target := TakeTarget(url, at, m, text, t, i, u, j);
    }

    /** The two scheme tests: m_url is moved behind scheme and host, or becomes null; nullRead when a
        null pointer is handed to the second test. */
    method SkipSchemes(at: nat, ghost text: nat, ghost t: string, ghost u: nat, ghost j: nat)
      returns (url: Option<nat>, nullRead: bool)
      requires at == text + u && u <= j && Piece(readBuf[..], text, t, u, j)
      ensures j <= |t| && var f := P.FindPath(t[u..j]);
        (nullRead <==> f.NullRead?) && (!nullRead ==> url == UrlOf(f, at))
    {
      hide Piece, MatchesAt, CStr;
      PieceAt(readBuf[..], text, t, u, j, u);
      ghost var w := t[u..j];
      url, nullRead := Some(at), false;
      PieceMatches(readBuf[..], text, t, u, j, u, "http://");
      if MatchesAt(CStr(readBuf[..], at), 0, "http://") {
        MatchFits(w, 0, "http://");
        PieceTail(readBuf[..], text, t, u, u + 7, j);
        PieceFinds(readBuf[..], text, t, u + 7, j, u, '/');
        url := StrChr(readBuf[..], at + 7, '/');
      }
      if url.None? {
        return None, true;
      }
      ghost var k := url.value - at;
      PieceTail(readBuf[..], text, t, u, u + k, j);
      PieceMatches(readBuf[..], text, t, u + k, j, u, "https://");
      if MatchesAt(CStr(readBuf[..], url.value), 0, "https://") {
        MatchFits(w, k, "https://");
        PieceTail(readBuf[..], text, t, u + k, u + k + 8, j);
        PieceFinds(readBuf[..], text, t, u + k + 8, j, u, '/');
        url := StrChr(readBuf[..], url.value + 8, '/');
      }
    }

    /** The end of parse_request_line: m_url has to be at a '/', and "/" becomes "/judge.html". */
    method TakeTarget(url: Option<nat>, at: nat, ghost m: P.Method, ghost text: nat, ghost t: string,
                      ghost i: nat, ghost u: nat, ghost j: nat)
      returns (code: P.HttpCode, target: Option<nat>)
      requires at == text + u && u <= j < |t| && text + |t| < readBuf.Length
      requires Piece(readBuf[..], text, t, u, j) && text + j + 11 <= readBuf.Length
      requires !P.FindPath(t[u..j]).NullRead? && url == UrlOf(P.FindPath(t[u..j]), at)
      modifies readBuf
      ensures var p := P.TakeTarget(m, i, u, j, P.FindPath(t[u..j]));
        && code == p.code && readBuf[..] == Expanded(old(readBuf[..]), text, p)
        && target == P.Shift(p.url, text)
    {
      hide Piece, CStr, P.Stored, P.FindPath;
      TargetByte(t[u..j]);
      if url.Some? {
        PieceAt(readBuf[..], text, t, u, j, url.value - text);
      }
      if url.None? || readBuf[url.value] != '/' {
        return P.BadRequest, url;
      }
      ghost var off := url.value - at;
      PieceTail(readBuf[..], text, t, u, u + off, j);
      PieceIsStr(readBuf[..], text, t, u + off, j);
      if |CStr(readBuf[..], url.value)| == 1 {
        StrCat(url.value, P.HOME_PAGE);
      }
      return P.NoRequest, url;
    }

    method ParseHeaders(text: nat) returns (code: P.HttpCode)
      requires text < readBuf.Length
      modifies this`checkState, this`linger, this`contentLength, this`host
      ensures P.Step(State(), code) == P.HeaderStep(old(State()), text)
    {
      hide SkipBlanks, EqualsAt, Atol, ToInt;
      var line := CStr(readBuf[..], text);
      assert readBuf[text] == NUL <==> line == [];
      if readBuf[text] == NUL {
        if contentLength != 0 {
          checkState := P.CheckContent;
          return P.NoRequest;
        }
        return P.GetRequest;
      } else if MatchesAt(line, 0, "Connection:") {
        var v := SkipBlanks(line, 11);
        if EqualsAt(line, v, "keep-alive") {
          linger := true;
        }
      } else if MatchesAt(line, 0, "Content-length:") {
        var v := SkipBlanks(line, 15);
        contentLength := ToInt(Atol(line[v..]));
      } else if MatchesAt(line, 0, "Host:") {
        host := Some(text + SkipBlanks(line, 5));
      }
      return P.NoRequest;
    }

    method ParseContent(text: nat) returns (code: P.HttpCode)
      modifies this`body, readBuf
      ensures P.Step(State(), code) == P.ContentStep(old(State()), text)
    {
      if contentLength + checkedIdx > INT_MAX {
        return P.Fault;
      }
      if readIdx >= contentLength + checkedIdx {
        if text + contentLength < 0 || text + contentLength >= readBuf.Length {
          return P.Fault;
        }
        Put(text + contentLength, NUL);
        body := Some(text);
        return P.GetRequest;
      }
      return P.NoRequest;
    }

    /** The body of the loop of process_read: the text at m_start_line goes to the parser of
        the current state. */
    method Handle() returns (code: P.HttpCode)
      requires Inv(State()) && (!checkState.CheckContent? ==> AtLine(State()))
      modifies this, readBuf
      ensures P.Step(State(), code) == Handled(old(State()))
    {
      ghost var s := State();
      var text := startLine;
      startLine := checkedIdx;
      match checkState {
        case CheckRequestLine =>
          assert text + |CStr(readBuf[..], text)| + 2 <= readBuf.Length by {
            LineFits(s);
          }
          code := ParseRequestLine(text);
        case CheckHeader =>
          assert text < readBuf.Length by {
            LineFits(s);
          }
          code := ParseHeaders(text);
        case CheckContent =>
          code := ParseContent(text);
      }
    }

    method ProcessRead() returns (code: P.HttpCode)
      requires Inv(State())
      modifies this, readBuf
      ensures P.Step(State(), code) == P.ProcessRead(old(State())) && Inv(State())
    {
      hide Remaining, Handled, P.ProcessRead;
      AtStart(State());
      ProcessReadInv(State());
      var status := P.LineOk;
      while true
        invariant Inv(State()) && State().Bounded() && (!checkState.CheckContent? ==> status.LineOk?)
        invariant Remaining(State(), status) == P.ProcessRead(old(State()))
        decreases readIdx - checkedIdx, checkState.CheckContent? && status.LineOk?
      {
        ghost var s, st := State(), status;
        if !(checkState.CheckContent? && status.LineOk?) {
          NextLineInv(s);
          status := ParseLine();
          if !status.LineOk? {
            assert P.Step(State(), P.NoRequest) == Remaining(s, st) by {
              Turn(s, st);
            }
            return P.NoRequest;
          }
        }
        ghost var s1 := State();
        var inBody := checkState.CheckContent?;
        var ret := Handle();
        HandledInv(s1);
        if inBody {
          status := P.LineOpen;
        }
        assert if ret.NoRequest? then Remaining(State(), status) == Remaining(s, st)
               else P.Step(State(), ret) == Remaining(s, st) by {
          Turn(s, st);
        }
        if !ret.NoRequest? {
          return ret;
        }
      }
    }
  }
}
