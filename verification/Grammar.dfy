/** What a line, a request line and a number are, said letter by letter and apart from the functions
    of the parser; and that the parser takes exactly these. */
module Grammar {
  import opened CStrings
  import opened HttpParser
  import opened ParserInvariant
  import opened ChunkInvariance
  import opened RequestRoundTrip

  // ---------- letters ----------

  /** `c` is `low`, or the capital of it. */
  predicate Letter(c: char, low: char) {
    c == low || ('a' <= low <= 'z' && c == (low as int - 32) as char)
  }

  /** At t[k] stands `low`, a text without capitals, in letters of either case. */
  predicate Spelled(t: string, k: nat, low: string) {
    k + |low| <= |t| && forall n :: 0 <= n < |low| ==> Letter(t[k + n], low[n])
  }

  predicate NoCapitals(low: string) {
    forall n :: 0 <= n < |low| ==> !('A' <= low[n] <= 'Z')
  }

  /** strncasecmp compares like that. */
  lemma MatchesExactly(t: string, k: nat, p: string, low: string)
    requires |p| == |low| && NoCapitals(low) && forall n :: 0 <= n < |p| ==> Letter(p[n], low[n])
    ensures MatchesAt(t, k, p) <==> Spelled(t, k, low)
  {
    forall n | 0 <= n < |p|
      ensures Lower(p[n]) == low[n]
      ensures k + n < |t| ==> (Lower(t[k + n]) == low[n] <==> Letter(t[k + n], low[n]))
    {
    }
  }

  predicate Word(t: string, lo: nat, hi: nat) {
    lo < hi <= |t| && forall k :: lo <= k < hi ==> t[k] != ' ' && t[k] != '\t'
  }

  predicate Gap(t: string, lo: nat, hi: nat) {
    lo < hi <= |t| && forall k :: lo <= k < hi ==> t[k] == ' ' || t[k] == '\t'
  }

  // ---------- the request line ----------

  predicate IsMethod(m: string, verb: Method) {
    match verb
    case GET =>
      && |m| == 3
      && (m[0] == 'G' || m[0] == 'g') && (m[1] == 'E' || m[1] == 'e') && (m[2] == 'T' || m[2] == 't')
    case POST =>
      && |m| == 4
      && (m[0] == 'P' || m[0] == 'p') && (m[1] == 'O' || m[1] == 'o')
      && (m[2] == 'S' || m[2] == 's') && (m[3] == 'T' || m[3] == 't')
  }

  /** Those two are the methods the server knows. */
  lemma VerbExactly(m: string, verb: Method)
    ensures VerbOf(m) == Some(verb) <==> IsMethod(m, verb)
  {
    MatchesExactly(m, 0, "GET", "get");
    MatchesExactly(m, 0, "POST", "post");
    ThreeLetters(m);
    FourLetters(m);
  }

  lemma ThreeLetters(m: string)
    ensures |m| == 3 ==> (Spelled(m, 0, "get") <==> IsMethod(m, GET))
  {
    var low := "get";
    if |m| == 3 && Spelled(m, 0, low) {
      assert Letter(m[0 + 0], low[0]) && Letter(m[0 + 1], low[1]) && Letter(m[0 + 2], low[2]);
    }
  }

  lemma FourLetters(m: string)
    ensures |m| == 4 ==> (Spelled(m, 0, "post") <==> IsMethod(m, POST))
  {
    var low := "post";
    if |m| == 4 && Spelled(m, 0, low) {
      assert Letter(m[0 + 0], low[0]) && Letter(m[0 + 1], low[1]);
      assert Letter(m[0 + 2], low[2]) && Letter(m[0 + 3], low[3]);
    }
  }

  /** Section 3.1.1 of RFC 7230: method t[..i], target t[u..j], version t[v..]. */
  predicate InThree(t: string, i: nat, u: nat, j: nat, v: nat, verb: Method) {
    && Word(t, 0, i) && IsMethod(t[..i], verb) && Gap(t, i, u) && Word(t, u, j) && Gap(t, j, v)
    && |t| == v + 8 && Spelled(t, v, "http/1.1")
  }

  lemma InThreeExactly(t: string, i: nat, u: nat, j: nat, v: nat, verb: Method)
    ensures InThree(t, i, u, j, v, verb) <==> InParts(t, i, u, j, v) && VerbOf(t[..i]) == Some(verb)
  {
    hide VerbOf, MatchesAt, Spelled, IsMethod;
    MatchesExactly(t, v, "HTTP/1.1", "http/1.1");
    if i <= |t| {
      VerbExactly(t[..i], verb);
      if i == 0 {
        NoName(t[..i]);
      }
    }
  }

  lemma NoName(m: string)
    requires m == []
    ensures VerbOf(m).None?
  {
  }

  predicate FirstSlash(u: string, from: nat, k: nat) {
    from <= k < |u| && u[k] == '/' && forall m :: from <= m < k ==> u[m] != '/'
  }

  /** The path of a target: the target itself, or what comes behind a scheme and a host. */
  predicate IsPathAt(u: string, k: nat) {
    || (k == 0 && u != [] && u[0] == '/')
    || (Spelled(u, 0, "http://") && FirstSlash(u, 7, k))
    || (Spelled(u, 0, "https://") && FirstSlash(u, 8, k))
  }

  /** A scheme and a host, and no path behind them. */
  predicate IsBare(u: string) {
    Spelled(u, 0, "http://") && forall k :: 7 <= k < |u| ==> u[k] != '/'
  }

  /** The server finds that path, and no other, and reads through a null pointer where there is none
      behind http://. */
  lemma PathExactly(u: string, k: nat)
    ensures FindPath(u) == Path(k) <==> IsPathAt(u, k)
    ensures FindPath(u).NullRead? <==> IsBare(u)
  {
    hide MatchesAt, Spelled;
    IndexFromMeans(u, 7, '/');
    IndexFromMeans(u, 8, '/');
    MatchesExactly(u, 0, "http://", "http://");
    MatchesExactly(u, 0, "https://", "https://");
    SchemesDiffer(u);
    var f := IndexFrom(u, 7, '/');
    if f.Some? {
      SlashIsNoScheme(u, f.value);
    }
  }

  lemma SchemesDiffer(u: string)
    ensures Spelled(u, 0, "http://") ==> |u| >= 7 && u[0] != '/' && !Spelled(u, 0, "https://")
    ensures Spelled(u, 0, "https://") ==> |u| >= 8 && u[0] != '/'
  {
    var a, b := "http://", "https://";
    if Spelled(u, 0, a) {
      assert Letter(u[0 + 0], a[0]) && Letter(u[0 + 4], a[4]);
    }
    if Spelled(u, 0, b) {
      assert Letter(u[0 + 0], b[0]) && Letter(u[0 + 4], b[4]);
    }
  }

  lemma SlashIsNoScheme(u: string, k: nat)
    requires k < |u| && u[k] == '/'
    ensures !MatchesAt(u, k, "https://")
  {
    assert Lower(u[k + 0]) != Lower("https://"[0]);
  }

  /** The line is well formed and names a path at t[u + k]. */
  predicate IsRequest(t: string, i: nat, u: nat, j: nat, v: nat, k: nat, verb: Method) {
    InThree(t, i, u, j, v, verb) && IsPathAt(t[u..j], k)
  }

  predicate IsBareRequest(t: string, i: nat, u: nat, j: nat, v: nat, verb: Method) {
    InThree(t, i, u, j, v, verb) && IsBare(t[u..j])
  }

  ghost predicate Accepted(t: string, verb: Method) {
    exists i: nat, u: nat, j: nat, v: nat, k: nat :: IsRequest(t, i, u, j, v, k, verb)
  }

  ghost predicate Bare(t: string) {
    exists i: nat, u: nat, j: nat, v: nat, verb: Method :: IsBareRequest(t, i, u, j, v, verb)
  }

  /** Such a line is taken with that method and that path; two blanks become NULs, and "judge.html"
      is appended when the path is the target's last byte. */
  lemma RequestTaken(t: string, i: nat, u: nat, j: nat, v: nat, k: nat, verb: Method)
    requires IsRequest(t, i, u, j, v, k, verb)
    ensures ParseRequestLine(t) == RequestLine(NoRequest, Some(verb), Some(i), Some(j), Some(u + k), u + k + 1 == j)
  {
    hide ParseRequestLine, FindPath, InParts, InThree, IsPathAt, VerbOf;
    InThreeExactly(t, i, u, j, v, verb);
    PartsInRange(t, i, u, j, v);
    PathExactly(t[u..j], k);
    PartsRead(t, i, u, j, v);
  }

  lemma PartsInRange(t: string, i: nat, u: nat, j: nat, v: nat)
    requires InParts(t, i, u, j, v)
    ensures i < u < j < v <= |t| && VerbOf(t[..i]).Some?
  {
  }

  lemma BareTaken(t: string, i: nat, u: nat, j: nat, v: nat, verb: Method)
    requires IsBareRequest(t, i, u, j, v, verb)
    ensures ParseRequestLine(t).code.Fault?
  {
    hide ParseRequestLine, FindPath, InParts, InThree, IsBare, VerbOf;
    InThreeExactly(t, i, u, j, v, verb);
    PartsInRange(t, i, u, j, v);
    PathExactly(t[u..j], 0);
    PartsRead(t, i, u, j, v);
  }

  lemma TakenIs(t: string)
    requires ParseRequestLine(t).code.NoRequest? || ParseRequestLine(t).code.Fault?
    ensures ParseRequestLine(t).code.NoRequest? ==>
      ParseRequestLine(t).verb.Some? && Accepted(t, ParseRequestLine(t).verb.value)
    ensures ParseRequestLine(t).code.Fault? ==> Bare(t)
  {
    hide ParseRequestLine, FindPath, InParts, InThree, IsPathAt, IsBare, VerbOf;
    PartsFound(t);
    var i := BlankFrom(t, 0);
    var u := SkipBlanks(t, i + 1);
    var j := BlankFrom(t, u);
    var v := SkipBlanks(t, j + 1);
    PartsInRange(t, i, u, j, v);
    PartsRead(t, i, u, j, v);
    var verb := VerbOf(t[..i]).value;
    InThreeExactly(t, i, u, j, v, verb);
    var f := FindPath(t[u..j]);
    if f.Path? {
      PathExactly(t[u..j], f.off);
      assert IsRequest(t, i, u, j, v, f.off, verb);
    } else {
      PathExactly(t[u..j], 0);
      assert f.NullRead? ==> IsBareRequest(t, i, u, j, v, verb);
    }
  }

  /** Every line, one way or another: it is taken, with its method, if and only if it is a request
      line in that grammar; the parser faults exactly on the bare ones; every other line is bad. */
  lemma RequestLineExactly(t: string)
    ensures var p := ParseRequestLine(t);
      && (p.code.NoRequest? <==> exists verb: Method :: Accepted(t, verb))
      && (p.code.NoRequest? ==> p.verb.Some? && forall verb: Method :: Accepted(t, verb) <==> p.verb == Some(verb))
      && (p.code.Fault? <==> Bare(t))
      && (p.code.NoRequest? || p.code.Fault? || p.code.BadRequest?)
  {
    hide ParseRequestLine, IsRequest, IsBareRequest;
    OnlyThree(t);
    var p := ParseRequestLine(t);
    if p.code.NoRequest? || p.code.Fault? {
      TakenIs(t);
    }
    forall verb: Method | Accepted(t, verb)
      ensures p.code.NoRequest? && p.verb == Some(verb)
    {
      var i: nat, u: nat, j: nat, v: nat, k: nat :| IsRequest(t, i, u, j, v, k, verb);
      RequestTaken(t, i, u, j, v, k, verb);
    }
    if Bare(t) {
      var i: nat, u: nat, j: nat, v: nat, verb: Method :| IsBareRequest(t, i, u, j, v, verb);
      BareTaken(t, i, u, j, v, verb);
    }
  }

  lemma OnlyThree(t: string)
    ensures var c := ParseRequestLine(t).code; c.NoRequest? || c.Fault? || c.BadRequest?
  {
    hide FindPath, BlankFrom, SkipBlanks, VerbOf, EqualsAt;
  }

  /** The path of a "/"-target is the target. */
  lemma PathOfSlash(target: string)
    requires |target| > 1 && target[0] == '/'
    ensures FindPath(target) == Path(0) && PathOf(target) == target
  {
    PathExactly(target, 0);
  }

  // ---------- a call that answers BAD_REQUEST ----------

  /** The next line is whole, is the request line, and is neither in the grammar nor bare. */
  ghost predicate BadLineNext(s: Conn)
    requires s.Bounded()
  {
    && s.ctl.state.CheckRequestLine? && NextLine(s).1.LineOk?
    && var t := CStr(NextLine(s).0.buf, s.ctl.startLine);
       !Bare(t) && forall verb: Method :: !Accepted(t, verb)
  }

  lemma {:induction false} FieldsNeverBad(s: Conn)
    requires s.Bounded() && s.ctl.state.CheckHeader?
    ensures HeaderPhase(s).Stopped? ==> HeaderPhase(s).code.NoRequest? || HeaderPhase(s).code.GetRequest?
    decreases s.readIdx - s.ctl.checkedIdx
  {
    hide ParseField, ParseLine, CStr;
    var (s1, line) := NextLine(s);
    if line.LineOk? {
      var r := LineStep(s1);
      if r.code.NoRequest? && !r.conn.ctl.state.CheckContent? {
        FieldsNeverBad(r.conn);
      }
    }
  }

  lemma {:induction false} BodyNeverBad(b: Conn, line: LineStatus)
    requires b.Bounded() && b.ctl.state.CheckContent?
    ensures var c := BodyPhase(b, line).code; c.NoRequest? || c.GetRequest? || c.Fault?
    decreases b.readIdx - b.ctl.checkedIdx, line.LineOk?
  {
    hide ParseLine;
    if line.LineOk? {
      var r := ContentStep(b.(ctl := b.ctl.(startLine := b.ctl.checkedIdx)), b.ctl.startLine);
      if r.code.NoRequest? {
        BodyNeverBad(r.conn, LineOpen);
      }
    } else {
      var (s1, status) := NextLine(b);
      if status.LineOk? {
        BodyNeverBad(s1, LineOk);
      }
    }
  }

  /** process_read answers BAD_REQUEST if and only if such a line comes next; INTERNAL_ERROR never. */
  lemma BadRequestExactly(s: Conn)
    requires s.Bounded()
    ensures ProcessRead(s).code.BadRequest? <==> BadLineNext(s)
    ensures !ProcessRead(s).code.InternalError?
  {
    hide ParseLine, ParseRequestLine, Accepted, Bare, CStr, Edited, BodyPhase;
    if BodyOf(s).Some? {
      BodyNeverBad(BodyOf(s).value, LineOk);
    }
    if s.ctl.state.CheckHeader? {
      FieldsNeverBad(s);
    } else if s.ctl.state.CheckRequestLine? && NextLine(s).1.LineOk? {
      RequestLineExactly(CStr(NextLine(s).0.buf, s.ctl.startLine));
      var r := LineStep(NextLine(s).0);
      if r.code.NoRequest? {
        FieldsNeverBad(r.conn);
      }
    }
  }

  // ---------- a line ----------

  /** The first CR or LF from i on, or n. */
  ghost predicate BreakAt(buf: seq<char>, i: nat, n: nat, p: nat) {
    && i <= p <= n <= |buf|
    && (forall k :: i <= k < p ==> buf[k] != '\r' && buf[k] != '\n')
    && (p < n ==> buf[p] == '\r' || buf[p] == '\n')
  }

  /** parse_line stops at the first break: a CR LF there ends a line; a CR that is the last byte, or no
      break at all, leaves it open; anything else is bad. */
  lemma {:induction false} LineExactly(buf: seq<char>, i: nat, n: nat, p: nat)
    requires BreakAt(buf, i, n, p) && forall k :: 0 <= k < i ==> buf[k] != '\r' && buf[k] != '\n'
    ensures ParseLine(buf, i, n) ==
      if p == n then Line(LineOpen, buf, n)
      else if buf[p] == '\n' then Line(LineBad, buf, p)
      else if p + 1 == n then Line(LineOpen, buf, p)
      else if buf[p + 1] == '\n' then Line(LineOk, buf[p := '\0'][p + 1 := '\0'], p + 2)
      else Line(LineBad, buf, p)
    decreases p - i
  {
    if i < p {
      LineExactly(buf, i + 1, n, p);
    }
  }

  // ---------- a number ----------

  predicate Digits(ds: string) { forall k :: 0 <= k < |ds| ==> '0' <= ds[k] <= '9' }

  /** The value of digits, the first one being the highest. */
  function Value(ds: string): nat
    requires Digits(ds)
  {
    if ds == [] then 0
    else Value(ds[..|ds|-1]) * 10 + (ds[|ds|-1] as int - '0' as int)
  }

  predicate Spaces(ws: string) {
    forall k :: 0 <= k < |ws| ==>
      ws[k] == ' ' || ws[k] == '\t' || ws[k] == '\n' || ws[k] == '\r' || ws[k] as int == 11 || ws[k] as int == 12
  }

  lemma {:induction false} ValueIs(ds: string)
    requires Digits(ds)
    ensures (forall k :: 0 <= k < |ds| ==> IsDigit(ds[k])) && NatValue(ds) == Value(ds)
  {
    if ds != [] {
      ValueIs(ds[..|ds|-1]);
    }
  }

  lemma {:induction false} SpacesSkipped(ws: string, u: string)
    requires Spaces(ws) && (u != [] ==> !Spaces(u[..1]))
    ensures SpaceSpan(ws + u) == |ws|
  {
    if ws != [] {
      assert (ws + u)[1..] == ws[1..] + u;
      SpacesSkipped(ws[1..], u);
    } else if u != [] {
      assert u[..1][0] == u[0] && ws + u == u;
    }
  }

  lemma {:induction false} DigitsSpanned(ds: string, r: string)
    requires Digits(ds) && (r != [] ==> !Digits(r[..1]))
    ensures DigitSpan(ds + r) == |ds|
  {
    if ds != [] {
      assert (ds + r)[1..] == ds[1..] + r;
      DigitsSpanned(ds[1..], r);
    } else if r != [] {
      assert r[..1][0] == r[0] && ds + r == r;
    }
  }

  function Signed(sign: string, n: nat): int { if sign == "-" then -(n as int) else n }

  lemma FirstIsNoSpace(sign: string, ds: string, r: string)
    requires Digits(ds) && (sign == "-" || sign == "+" || sign == "")
    requires sign == "" && ds == [] && r != [] ==> !Spaces(r[..1])
    ensures var u := sign + ds + r; u != [] ==> !Spaces(u[..1])
  {
    var u := sign + ds + r;
    if u != [] {
      assert u[..1][0] == u[0];
      if sign != "" {
        assert u[0] == sign[0];
      } else if ds != [] {
        assert u[0] == ds[0];
      } else {
        assert u == r;
      }
    }
  }

  lemma SignRead(sign: string, ds: string, r: string)
    requires Digits(ds) && (sign == "-" || sign == "+" || sign == "")
    requires sign == "" && ds == [] && r != [] ==> r[0] != '-' && r[0] != '+'
    ensures var u := sign + ds + r;
      && (u != [] && (u[0] == '-' || u[0] == '+') <==> sign != "")
      && (u != [] && u[0] == '-' <==> sign == "-")
      && u[if sign == "" then 0 else 1..] == ds + r
  {
    var u := sign + ds + r;
    if sign == "" {
      assert u == ds + r;
    } else {
      assert u[0] == sign[0] && u[1..] == ds + r;
    }
  }

  lemma DigitsRead(ds: string, r: string)
    requires Digits(ds) && (r != [] ==> !Digits(r[..1]))
    ensures var v := ds + r;
      && v[..DigitSpan(v)] == ds && (forall k :: 0 <= k < |ds| ==> IsDigit(ds[k])) && NatValue(ds) == Value(ds)
  {
    DigitsSpanned(ds, r);
    ValueIs(ds);
  }

  /** atol: white space, a sign if there is one, digits if there are any, and what follows; the value
      sticks at the ends of long. */
  lemma AtolExactly(ws: string, sign: string, ds: string, r: string)
    requires Spaces(ws) && Digits(ds) && (sign == "-" || sign == "+" || sign == "")
    requires r != [] ==> !Digits(r[..1])
    requires sign == "" && ds == [] && r != [] ==> !Spaces(r[..1]) && r[0] != '-' && r[0] != '+'
    ensures var n := Signed(sign, Value(ds));
      Atol(ws + (sign + ds + r)) ==
        if n > 0x7fff_ffff_ffff_ffff then 0x7fff_ffff_ffff_ffff
        else if n < -0x8000_0000_0000_0000 then -0x8000_0000_0000_0000
        else n
  {
    hide SpaceSpan, DigitSpan, NatValue, Value, Digits, Spaces;
    var u := sign + ds + r;
    FirstIsNoSpace(sign, ds, r);
    SpacesSkipped(ws, u);
    assert (ws + u)[|ws|..] == u;
    SignRead(sign, ds, r);
    DigitsRead(ds, r);
  }

  /** A long that does not fit an int loses its high bits. */
  lemma ToIntExactly(v: int)
    ensures -0x8000_0000 <= ToInt(v) <= 0x7fff_ffff && (v - ToInt(v)) % 0x1_0000_0000 == 0
  {
  }
}
