/** The header fields of a request: any fields, in any number and order. */
module HeaderFields {
  import opened CStrings
  import opened HttpParser
  import opened ParserInvariant
  import opened ChunkInvariance
  import opened RequestRoundTrip
  import opened Grammar

  // ---------- one field ----------

  /** The value behind the first n bytes of a field starts at k: blanks are skipped. */
  predicate ValueFrom(l: string, n: nat, k: nat) {
    && n <= k <= |l| && (forall m :: n <= m < k ==> l[m] == ' ' || l[m] == '\t')
    && (k < |l| ==> l[k] != ' ' && l[k] != '\t')
  }

  predicate IsConnection(l: string) { Spelled(l, 0, "connection:") }

  predicate IsLength(l: string) { Spelled(l, 0, "content-length:") }

  predicate IsHost(l: string) { Spelled(l, 0, "host:") }

  ghost predicate IsKeepAlive(l: string) {
    IsConnection(l) && exists k: nat :: ValueFrom(l, 11, k) && |l| == k + 10 && Spelled(l, k, "keep-alive")
  }

  /** The number announced, as an int. */
  ghost predicate LengthIs(l: string, v: int) {
    IsLength(l) && exists k: nat :: ValueFrom(l, 15, k) && v == ToInt(Atol(l[k..]))
  }

  ghost predicate HostAt(l: string, k: nat) {
    IsHost(l) && ValueFrom(l, 5, k)
  }

  lemma ValueFound(l: string, n: nat, k: nat)
    requires n <= |l|
    ensures ValueFrom(l, n, k) <==> k == SkipBlanks(l, n)
  {
    SkipBlanksMeans(l, n);
    if ValueFrom(l, n, k) {
      SkipBlanksIs(l, n, k);
    }
  }

  lemma NamesDiffer(l: string)
    ensures IsConnection(l) ==> |l| >= 11 && !IsLength(l) && !IsHost(l)
    ensures IsLength(l) ==> |l| >= 15 && !IsHost(l)
    ensures IsHost(l) ==> |l| >= 5
  {
    var a, b, c := "connection:", "content-length:", "host:";
    if IsConnection(l) {
      assert Letter(l[0 + 0], a[0]) && Letter(l[0 + 3], a[3]);
      assert !Letter(l[0 + 3], b[3]) && !Letter(l[0 + 0], c[0]);
    }
    if IsLength(l) {
      assert Letter(l[0 + 0], b[0]);
      assert !Letter(l[0 + 0], c[0]);
    }
  }

  lemma NamesMatch(l: string)
    ensures MatchesAt(l, 0, "Connection:") <==> IsConnection(l)
    ensures MatchesAt(l, 0, "Content-length:") <==> IsLength(l)
    ensures MatchesAt(l, 0, "Host:") <==> IsHost(l)
  {
    hide MatchesAt, Spelled;
    MatchesExactly(l, 0, "Connection:", "connection:");
    MatchesExactly(l, 0, "Content-length:", "content-length:");
    MatchesExactly(l, 0, "Host:", "host:");
  }

  lemma KeepAliveIs(l: string)
    requires IsConnection(l)
    ensures 11 <= |l| && (EqualsAt(l, SkipBlanks(l, 11), "keep-alive") <==> IsKeepAlive(l))
  {
    hide Spelled, SkipBlanks, MatchesAt;
    NamesDiffer(l);
    var k := SkipBlanks(l, 11);
    ValueFound(l, 11, k);
    MatchesExactly(l, k, "keep-alive", "keep-alive");
    if m: nat :| ValueFrom(l, 11, m) && |l| == m + 10 && Spelled(l, m, "keep-alive") {
      ValueFound(l, 11, m);
    }
  }

  /** What the parser sees in a line that is not empty. */
  lemma FieldExactly(l: string)
    requires l != []
    ensures IsConnection(l) ==> ParseField(l) == Connection(IsKeepAlive(l))
    ensures IsLength(l) ==> ParseField(l).Length? && LengthIs(l, ParseField(l).value)
    ensures IsHost(l) ==> ParseField(l).Host? && HostAt(l, ParseField(l).off)
    ensures !IsConnection(l) && !IsLength(l) && !IsHost(l) ==> ParseField(l) == Other
  {
    hide MatchesAt, EqualsAt, Spelled, SkipBlanks, Atol, ToInt;
    NamesMatch(l);
    NamesDiffer(l);
    if IsConnection(l) {
      KeepAliveIs(l);
    } else if IsLength(l) {
      ValueFound(l, 15, SkipBlanks(l, 15));
    } else if IsHost(l) {
      ValueFound(l, 5, SkipBlanks(l, 5));
    }
  }

  /** A line announces one length and names one host. */
  lemma LengthIsOne(l: string, v: int, w: int)
    requires LengthIs(l, v) && LengthIs(l, w)
    ensures v == w
  {
    hide Spelled, Atol, ToInt;
    NamesDiffer(l);
    var k: nat :| ValueFrom(l, 15, k) && v == ToInt(Atol(l[k..]));
    var m: nat :| ValueFrom(l, 15, m) && w == ToInt(Atol(l[m..]));
    ValueFound(l, 15, k);
    ValueFound(l, 15, m);
  }

  lemma HostAtOne(l: string, k: nat, m: nat)
    requires HostAt(l, k) && HostAt(l, m)
    ensures k == m
  {
    hide Spelled;
    NamesDiffer(l);
    ValueFound(l, 5, k);
    ValueFound(l, 5, m);
  }

  // ---------- fields in a row ----------

  /** The fields as they stand in the request. */
  function Text(ls: seq<string>): string {
    if ls == [] then [] else ls[0] + "\r\n" + Text(ls[1..])
  }

  /** No line break and no NUL, and not empty. */
  predicate Fields(ls: seq<string>) {
    forall i :: 0 <= i < |ls| ==>
      ls[i] != [] && forall k :: 0 <= k < |ls[i]| ==> ls[i][k] != '\r' && ls[i][k] != '\n' && ls[i][k] != '\0'
  }

  ghost predicate SomeKeepAlive(ls: seq<string>) {
    exists i :: 0 <= i < |ls| && IsKeepAlive(ls[i])
  }

  ghost predicate NoneIs(ls: seq<string>, kind: string -> bool) {
    forall i :: 0 <= i < |ls| ==> !kind(ls[i])
  }

  /** The i-th field is of that kind, and none behind it is. */
  ghost predicate LastOf(ls: seq<string>, kind: string -> bool, i: nat) {
    i < |ls| && kind(ls[i]) && NoneIs(ls[i+1..], kind)
  }

  /** `v` is announced by the last Content-length field; by none, it is `none`. */
  ghost predicate LastLength(ls: seq<string>, none: int, v: int) {
    && (NoneIs(ls, IsLength) ==> v == none)
    && (forall i: nat :: LastOf(ls, IsLength, i) ==> LengthIs(ls[i], v))
  }

  /** The value of the last Host field stands at `h`, when the fields begin at `at`. */
  ghost predicate LastHost(ls: seq<string>, at: nat, none: Option<nat>, h: Option<nat>) {
    && (NoneIs(ls, IsHost) ==> h == none)
    && (forall i: nat :: LastOf(ls, IsHost, i) ==> h.Some? && HostStands(ls, at, i, h.value))
  }

  ghost predicate HostStands(ls: seq<string>, at: nat, i: nat, h: nat)
    requires i < |ls|
  {
    exists k: nat :: HostAt(ls[i], k) && h == at + |Text(ls[..i])| + k
  }

  /** What the fields tell the server, and nothing else. */
  ghost predicate Told(ls: seq<string>, at: nat, c: Control, d: Control) {
    && (d.linger <==> c.linger || SomeKeepAlive(ls))
    && LastLength(ls, c.contentLength, d.contentLength)
    && LastHost(ls, at, c.host, d.host)
    && d.verb == c.verb && d.cgi == c.cgi && d.url == c.url && d.body == c.body
  }

  lemma KeepFirst(ls: seq<string>)
    requires ls != []
    ensures SomeKeepAlive(ls) <==> IsKeepAlive(ls[0]) || SomeKeepAlive(ls[1..])
  {
    hide IsKeepAlive;
    if i :| 0 <= i < |ls| && IsKeepAlive(ls[i]) {
      assert i > 0 ==> ls[1..][i - 1] == ls[i];
    }
    if i :| 0 <= i < |ls| - 1 && IsKeepAlive(ls[1..][i]) {
      assert ls[i + 1] == ls[1..][i];
    }
  }

  lemma TextFirst(ls: seq<string>, i: nat)
    requires 0 < i <= |ls|
    ensures |Text(ls[..i])| == |ls[0]| + 2 + |Text(ls[1..][..i - 1])|
  {
    assert ls[..i][0] == ls[0] && ls[..i][1..] == ls[1..][..i - 1];
  }

  lemma NoneFirst(ls: seq<string>, kind: string -> bool)
    requires ls != []
    ensures NoneIs(ls, kind) <==> !kind(ls[0]) && NoneIs(ls[1..], kind)
  {
    var rest := ls[1..];
    assert forall m :: 0 < m < |ls| ==> ls[m] == rest[m - 1];
    assert forall m :: 0 <= m < |rest| ==> rest[m] == ls[m + 1];
  }

  lemma LastFirst(ls: seq<string>, kind: string -> bool, i: nat)
    requires ls != [] && LastOf(ls, kind, i)
    ensures i == 0 ==> kind(ls[0]) && NoneIs(ls[1..], kind)
    ensures i > 0 ==> LastOf(ls[1..], kind, i - 1) && ls[1..][i - 1] == ls[i]
  {
    hide NoneIs;
    if i > 0 {
      assert ls[1..][i..] == ls[i + 1..];
    }
  }

  lemma LengthFirst(ls: seq<string>, none: int, v: int)
    requires ls != []
    requires IsLength(ls[0]) ==> exists w :: LengthIs(ls[0], w) && LastLength(ls[1..], w, v)
    requires !IsLength(ls[0]) ==> LastLength(ls[1..], none, v)
    ensures LastLength(ls, none, v)
  {
    hide LengthIs, IsLength, NoneIs, LastOf;
    NoneFirst(ls, IsLength);
    forall i: nat | LastOf(ls, IsLength, i)
      ensures i < |ls| && LengthIs(ls[i], v)
    {
      InRange(ls, IsLength, i);
      LastFirst(ls, IsLength, i);
    }
  }

  lemma InRange(ls: seq<string>, kind: string -> bool, i: nat)
    requires LastOf(ls, kind, i)
    ensures i < |ls|
  {
  }

  lemma HostFirst(ls: seq<string>, at: nat, none: Option<nat>, h: Option<nat>)
    requires ls != []
    requires IsHost(ls[0]) ==>
      exists k: nat :: HostAt(ls[0], k) && LastHost(ls[1..], at + |ls[0]| + 2, Some(at + k), h)
    requires !IsHost(ls[0]) ==> LastHost(ls[1..], at + |ls[0]| + 2, none, h)
    ensures LastHost(ls, at, none, h)
  {
    hide HostAt, IsHost, NoneIs, LastOf, Text, HostStands;
    NoneFirst(ls, IsHost);
    forall i: nat | LastOf(ls, IsHost, i)
      ensures i < |ls| && h.Some? && HostStands(ls, at, i, h.value)
    {
      InRange(ls, IsHost, i);
      LastFirst(ls, IsHost, i);
      if i > 0 {
        HostShift(ls, at, i, h.value);
      } else {
        var k: nat :| HostAt(ls[0], k) && LastHost(ls[1..], at + |ls[0]| + 2, Some(at + k), h);
        HostHere(ls, at, k);
      }
    }
  }

  lemma HostShift(ls: seq<string>, at: nat, i: nat, h: nat)
    requires 0 < i < |ls| && HostStands(ls[1..], at + |ls[0]| + 2, i - 1, h)
    ensures HostStands(ls, at, i, h)
  {
    hide HostAt, Text;
    TextFirst(ls, i);
    assert ls[1..][i - 1] == ls[i];
  }

  lemma HostHere(ls: seq<string>, at: nat, k: nat)
    requires ls != [] && HostAt(ls[0], k)
    ensures HostStands(ls, at, 0, at + k)
  {
    hide HostAt;
    TextEmpty();
    assert ls[..0] == [];
  }

  lemma TextEmpty()
    ensures Text([]) == []
  {
  }

  // ---------- the parser on fields in a row ----------

  /** The next bytes are the fields, and then `rest`. */
  ghost predicate FieldsNext(s: Conn, ls: seq<string>, rest: seq<char>) {
    && Inv(s) && s.ctl.startLine == s.ctl.checkedIdx && s.ctl.state.CheckHeader? && Fields(ls)
    && s.readIdx == s.ctl.checkedIdx + |Text(ls)| + |rest|
    && Holds(s.buf, s.ctl.checkedIdx, Text(ls) + rest)
  }

  /** The phase goes on behind them, in `t`; each of them still stands where it was, as a C string. */
  ghost predicate FieldsPassed(s: Conn, t: Conn, ls: seq<string>, rest: seq<char>)
    requires s.Bounded() && !s.ctl.state.CheckContent?
  {
    && Inv(t) && t.ctl.state.CheckHeader? && t.readIdx == s.readIdx
    && HeaderPhase(s) == HeaderPhase(t)
    && t.ctl.startLine == t.ctl.checkedIdx == s.ctl.checkedIdx + |Text(ls)|
    && Holds(t.buf, t.ctl.checkedIdx, rest)
    && t.buf[..s.ctl.checkedIdx] == s.buf[..s.ctl.checkedIdx]
    && Told(ls, s.ctl.checkedIdx, s.ctl, t.ctl)
    && StandIn(t.buf, s.ctl.checkedIdx, ls)
  }

  ghost predicate StandIn(buf: seq<char>, at: nat, ls: seq<string>) {
    forall i :: 0 <= i < |ls| ==> Holds(buf, at + |Text(ls[..i])|, ls[i] + [NUL])
  }

  lemma ToldFirst(ls: seq<string>, at: nat, c: Control, c1: Control, d: Control)
    requires ls != [] && ls[0] != []
    requires var end := at + |ls[0]| + 2;
      c1 == FieldControl(c.(startLine := end, checkedIdx := end), at, ParseField(ls[0])) && Told(ls[1..], end, c1, d)
    ensures Told(ls, at, c, d)
  {
    hide ParseField, SomeKeepAlive, LastLength, LastHost, LengthIs, HostAt, IsConnection, IsLength, IsHost;
    FieldExactly(ls[0]);
    NamesDiffer(ls[0]);
    KeepFirst(ls);
    KeepsConnection(ls[0]);
    LengthFirst(ls, c.contentLength, d.contentLength);
    HostFirst(ls, at, c.host, d.host);
  }

  lemma KeepsConnection(l: string)
    ensures IsKeepAlive(l) ==> IsConnection(l)
  {
  }

  lemma StandFirst(buf: seq<char>, at: nat, ls: seq<string>)
    requires ls != [] && Holds(buf, at, ls[0] + [NUL]) && StandIn(buf, at + |ls[0]| + 2, ls[1..])
    ensures StandIn(buf, at, ls)
  {
    hide Holds, Text;
    forall i | 0 <= i < |ls|
      ensures Holds(buf, at + |Text(ls[..i])|, ls[i] + [NUL])
    {
      if i > 0 {
        TextFirst(ls, i);
        assert ls[1..][i - 1] == ls[i];
      } else {
        TextEmpty();
        assert ls[..0] == [];
      }
    }
  }

  lemma FieldFirst(s: Conn, ls: seq<string>, rest: seq<char>)
    requires FieldsNext(s, ls, rest) && ls != []
    ensures LineNext(s, ls[0], Text(ls[1..]) + rest) && ls[0] != [] && Fields(ls[1..])
    ensures |Text(ls)| == |ls[0]| + 2 + |Text(ls[1..])|
  {
    assert Text(ls) + rest == ls[0] + CRLF + (Text(ls[1..]) + rest);
    assert CRLF == "\r\n";
  }

  lemma {:induction false} FieldsPass(s: Conn, ls: seq<string>, rest: seq<char>) returns (t: Conn)
    requires FieldsNext(s, ls, rest)
    ensures FieldsPassed(s, t, ls, rest)
    decreases |ls|
  {
    hide Inv, HeaderPhase, Holds, Told, StandIn, Text, Fields, FieldControl, ParseField;
    if ls == [] {
      t := s;
      NoFields(s, rest);
    } else {
      FieldFirst(s, ls, rest);
      var t1 := FieldRead(s, ls[0], Text(ls[1..]) + rest);
      t := FieldsPass(t1, ls[1..], rest);
      Passed(s, t1, t, ls, rest);
    }
  }

  lemma NoFields(s: Conn, rest: seq<char>)
    requires FieldsNext(s, [], rest)
    ensures FieldsPassed(s, s, [], rest)
  {
    hide HeaderPhase;
    assert Text([]) + rest == rest;
  }

  lemma Passed(s: Conn, t1: Conn, t: Conn, ls: seq<string>, rest: seq<char>)
    requires FieldsNext(s, ls, rest) && ls != [] && ls[0] != [] && |Text(ls)| == |ls[0]| + 2 + |Text(ls[1..])|
    requires FieldDone(s, t1, ls[0], Text(ls[1..]) + rest) && FieldsPassed(t1, t, ls[1..], rest)
    ensures FieldsPassed(s, t, ls, rest)
  {
    hide HeaderPhase, Holds, Told, StandIn, Text, Fields, FieldControl, ParseField;
    var at, n := s.ctl.checkedIdx, t1.ctl.checkedIdx;
    HoldsKept(t1.buf, t.buf, n, at, ls[0] + [NUL]);
    StandFirst(t.buf, at, ls);
    ToldFirst(ls, at, s.ctl, t1.ctl, t.ctl);
    assert t.buf[..at] == s.buf[..at] by {
      assert t.buf[..at] == t.buf[..n][..at] && t1.buf[..at] == t1.buf[..n][..at];
    }
  }

  // ---------- the whole head ----------

  /** A request line, fields, the blank line, and what follows. */
  function Stream(t: string, ls: seq<string>, rest: seq<char>): seq<char> {
    t + "\r\n" + (Text(ls) + "\r\n" + rest)
  }

  /** The path that is looked up: "/" stands for the home page. */
  function Looked(path: string): string { if |path| == 1 then "/judge.html" else path }

  /** What the server knows when it has read the head, up to `c`: from the request line the method and
      the path, from the fields what they tell, and nothing else. */
  ghost predicate HeadKnown(c: Conn, t: string, ls: seq<string>, path: string, verb: Method) {
    && c.ctl.verb == verb && (c.ctl.cgi <==> verb == POST)
    && c.ctl.url.Some? && Holds(c.buf, c.ctl.url.value, Looked(path) + "\0")
    && (c.ctl.linger <==> SomeKeepAlive(ls))
    && LastLength(ls, 0, c.ctl.contentLength)
    && LastHost(ls, |t| + 2, None, c.ctl.host) && StandIn(c.buf, |t| + 2, ls)
    && c.ctl.body == None
  }

  /** The head ends in `c`, with `rest` behind it: a body is looked for if and only if a length other
      than zero was announced. */
  ghost predicate HeadEnds(s: Conn, c: Conn, rest: seq<char>)
    requires s.Bounded() && !s.ctl.state.CheckContent?
  {
    && Inv(c) && c.readIdx == s.readIdx
    && HeaderPhase(s) == (if c.ctl.contentLength != 0 then BodyAt(c) else Stopped(c, GetRequest))
    && c.ctl.startLine == c.ctl.checkedIdx == s.readIdx - |rest| && Holds(c.buf, c.ctl.checkedIdx, rest)
  }

  lemma RequestIs(t: string, i: nat, u: nat, j: nat, v: nat, k: nat, verb: Method)
    requires IsRequest(t, i, u, j, v, k, verb)
    ensures IsRequestLine(t, i, u, j, v) && VerbOf(t[..i]) == Some(verb)
    ensures u + k < j <= |t| && PathOf(t[u..j]) == Looked(t[u + k..j])
  {
    hide InThree, InParts, VerbOf, IsPathAt, FindPath;
    InThreeExactly(t, i, u, j, v, verb);
    PartsInRange(t, i, u, j, v);
    PathExactly(t[u..j], k);
    TargetSlash(t[u..j]);
    assert t[u..j][k..] == t[u + k..j];
    assert "/" + HOME_PAGE == "/judge.html";
  }

  lemma TargetSlash(u: string)
    requires FindPath(u).Path?
    ensures FindPath(u).off < |u|
  {
  }

  /** For every request line in the grammar and all fields, in whatever number and order. */
  lemma HeadExactly(buf: seq<char>, t: string, ls: seq<string>, rest: seq<char>,
                    i: nat, u: nat, j: nat, v: nat, k: nat, verb: Method) returns (c: Conn)
    requires |buf| == READ_BUFFER_SIZE && |Stream(t, ls, rest)| <= READ_BUFFER_SIZE
    requires Fields([t]) && Fields(ls) && IsRequest(t, i, u, j, v, k, verb) && u + k < j <= |t|
    ensures HeadEnds(Receive(Initial(buf), Stream(t, ls, rest)), c, rest)
    ensures HeadKnown(c, t, ls, t[u + k..j], verb)
  {
    hide Inv, HeaderPhase, Holds, LastLength, LastHost, SomeKeepAlive, StandIn, IsRequest, IsRequestLine, VerbOf,
      PathOf, Fields, Text;
    var s := Receive(Initial(buf), Stream(t, ls, rest));
    Arrived(buf, t, ls, rest);
    RequestIs(t, i, u, j, v, k, verb);
    var fs := Text(ls) + "\r\n" + rest;
    var c0 := RequestLineStored(s, t, fs, i, u, j, v);
    FieldsBegin(s, c0, t, ls, rest);
    var c1 := FieldsPass(c0, ls, CRLF + rest);
    BlankBegins(c0, c1, ls, rest);
    c := BlankRead(c1, rest);
    HeadKept(s, c0, c1, c, t, ls, rest, verb, Looked(t[u + k..j]));
  }

  lemma Arrived(buf: seq<char>, t: string, ls: seq<string>, rest: seq<char>)
    requires |buf| == READ_BUFFER_SIZE && |Stream(t, ls, rest)| <= READ_BUFFER_SIZE && Fields([t])
    ensures var s := Receive(Initial(buf), Stream(t, ls, rest));
      && LineNext(s, t, Text(ls) + "\r\n" + rest) && s.ctl == Initial(buf).ctl && s.readIdx == |Stream(t, ls, rest)|
  {
    hide Text;
    InitialInv(buf);
    ReceiveInv(Initial(buf), Stream(t, ls, rest));
    assert [t][0] == t && CRLF == "\r\n";
  }

  lemma FieldsBegin(s: Conn, c0: Conn, t: string, ls: seq<string>, rest: seq<char>)
    requires s.Bounded() && !s.ctl.state.CheckContent? && s.ctl.checkedIdx == 0
    requires s.readIdx == |Stream(t, ls, rest)| && Fields(ls)
    requires LineDone(s, c0, t, Text(ls) + "\r\n" + rest)
    ensures FieldsNext(c0, ls, CRLF + rest)
  {
    hide HeaderPhase, Inv, Text, Fields;
    assert Text(ls) + (CRLF + rest) == Text(ls) + "\r\n" + rest;
  }

  lemma BlankBegins(c0: Conn, c1: Conn, ls: seq<string>, rest: seq<char>)
    requires FieldsNext(c0, ls, CRLF + rest) && FieldsPassed(c0, c1, ls, CRLF + rest)
    ensures LineNext(c1, [], rest)
  {
    hide HeaderPhase, Inv, Text, Fields, Told, StandIn;
    assert [] + CRLF + rest == CRLF + rest;
  }

  lemma HeadKept(s: Conn, c0: Conn, c1: Conn, c: Conn, t: string, ls: seq<string>, rest: seq<char>,
                 verb: Method, path: string)
    requires s.Bounded() && !s.ctl.state.CheckContent? && s.ctl == Initial(s.buf).ctl
    requires s.readIdx == |Stream(t, ls, rest)|
    requires LineDone(s, c0, t, Text(ls) + "\r\n" + rest) && TargetDone(s, c0, Some(verb), path)
    requires FieldsNext(c0, ls, CRLF + rest) && FieldsPassed(c0, c1, ls, CRLF + rest)
    requires BlankDone(c1, c, rest) && c.buf[..c1.ctl.checkedIdx] == c1.buf[..c1.ctl.checkedIdx]
    ensures HeadEnds(s, c, rest)
    ensures c.ctl.verb == verb && (c.ctl.cgi <==> verb == POST)
    ensures c.ctl.url.Some? && Holds(c.buf, c.ctl.url.value, path + "\0")
    ensures c.ctl.linger <==> SomeKeepAlive(ls)
    ensures LastLength(ls, 0, c.ctl.contentLength) && LastHost(ls, |t| + 2, None, c.ctl.host)
    ensures StandIn(c.buf, |t| + 2, ls) && c.ctl.body == None
  {
    hide HeaderPhase, Text, Fields, Holds, StandIn, LastLength, LastHost, SomeKeepAlive;
    var n0, n1 := c0.ctl.checkedIdx, c1.ctl.checkedIdx;
    assert [NUL] == "\0";
    HoldsKept(c0.buf, c1.buf, n0, c0.ctl.url.value, path + [NUL]);
    HoldsKept(c1.buf, c.buf, n1, c0.ctl.url.value, path + [NUL]);
    StandKept(c1.buf, c.buf, n0, n1, ls);
  }

  lemma StandKept(b1: seq<char>, b2: seq<char>, at: nat, n: nat, ls: seq<string>)
    requires StandIn(b1, at, ls) && at + |Text(ls)| <= n <= |b1| && n <= |b2| && b1[..n] == b2[..n]
    ensures StandIn(b2, at, ls)
  {
    hide Holds, Text;
    forall i | 0 <= i < |ls|
      ensures Holds(b2, at + |Text(ls[..i])|, ls[i] + [NUL])
    {
      TextPart(ls, i);
      HoldsKept(b1, b2, n, at + |Text(ls[..i])|, ls[i] + [NUL]);
    }
  }

  lemma {:induction false} TextPart(ls: seq<string>, i: nat)
    requires i < |ls|
    ensures |Text(ls[..i])| + |ls[i]| + 2 <= |Text(ls)|
  {
    if i > 0 {
      TextPart(ls[1..], i - 1);
      TextFirst(ls, i);
    } else {
      assert ls[..0] == [];
    }
  }
}
