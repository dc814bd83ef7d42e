/** The user name and password taken out of a posted form, `user=...&password=...`. */
module FormFields {
  import opened CStrings
  import opened HttpParser
  import opened ParserInvariant
  import opened ChunkInvariance
  import opened ParserSafety
  import opened RequestRoundTrip

  const FIELD_SIZE: nat := 100

  /** Where the loops stop in the memory from m_string on: the name runs from offset 5 to the first
      '&', the password from ten bytes behind it to the next NUL. */
  ghost predicate Delimited(m: seq<char>, amp: nat, end: nat) {
    && 5 <= amp && amp + 10 <= end < |m| && m[amp] == '&' && m[end] == NUL
    && (forall k :: 5 <= k < amp ==> m[k] != '&')
    && (forall k :: amp + 10 <= k < end ==> m[k] != NUL)
  }

  /** Both fields leave room for a NUL in their arrays. */
  ghost predicate IsForm(m: seq<char>, amp: nat, end: nat) {
    Delimited(m, amp, end) && amp - 5 < FIELD_SIZE && end - (amp + 10) < FIELD_SIZE
  }

  /** There is only one way to take the fields out. */
  lemma FormIsUnique(m: seq<char>, amp: nat, end: nat, amp2: nat, end2: nat)
    requires Delimited(m, amp, end) && Delimited(m, amp2, end2)
    ensures amp == amp2 && end == end2
  {
    assert !(amp < amp2) && !(amp2 < amp);
  }

  /** The first loop, up to the '&' at `i`; !ok where it would read behind the memory or write
      behind the array. */
  method ExtractName(m: seq<char>, name: array<char>) returns (i: nat, ok: bool)
    requires name.Length == FIELD_SIZE
    modifies name
    ensures ok ==> 5 <= i < |m| && m[i] == '&' && (forall k :: 5 <= k < i ==> m[k] != '&')
    ensures ok ==> i - 5 < FIELD_SIZE && name[..i - 5 + 1] == m[5..i] + [NUL]
    ensures !ok ==> forall k :: 5 <= k < |m| && k - 5 < FIELD_SIZE ==> m[k] != '&'
  {
    i := 5;
    while i < |m| && i - 5 < FIELD_SIZE && m[i] != '&'
      invariant 5 <= i && i - 5 <= FIELD_SIZE && (5 <= |m| ==> i <= |m|)
      invariant forall k :: 5 <= k < i && k < |m| ==> m[k] != '&'
      invariant i <= |m| ==> name[..i - 5] == m[5..i]
    {
      name[i - 5] := m[i];
      assert name[..i - 5 + 1] == name[..i - 5] + [m[i]] && m[5..i + 1] == m[5..i] + [m[i]];
      i := i + 1;
    }
    ok := i < |m| && i - 5 < FIELD_SIZE;
    if ok {
      name[i - 5] := NUL;
    }
  }

  /** The second loop, from `from` on. */
  method ExtractPassword(m: seq<char>, password: array<char>, from: nat) returns (i: nat, ok: bool)
    requires password.Length == FIELD_SIZE
    modifies password
    ensures ok ==> from <= i < |m| && m[i] == NUL && (forall k :: from <= k < i ==> m[k] != NUL)
    ensures ok ==> i - from < FIELD_SIZE && password[..i - from + 1] == m[from..i] + [NUL]
    ensures !ok ==> forall k :: from <= k < |m| && k - from < FIELD_SIZE ==> m[k] != NUL
  {
    i := from;
    var j := 0;
    while i < |m| && j < FIELD_SIZE && m[i] != NUL
      invariant from <= i && j == i - from <= FIELD_SIZE && (from <= |m| ==> i <= |m|)
      invariant forall k :: from <= k < i && k < |m| ==> m[k] != NUL
      invariant i <= |m| ==> password[..j] == m[from..i]
    {
      password[j] := m[i];
      assert password[..j + 1] == password[..j] + [m[i]] && m[from..i + 1] == m[from..i] + [m[i]];
      i, j := i + 1, j + 1;
    }
    ok := i < |m| && j < FIELD_SIZE;
    if ok {
      password[j] := NUL;
    }
  }

  /** The two loops. They stay in the memory and in the arrays if and only if the memory holds a form
      whose fields fit; and then the arrays hold the fields. */
  method Extract(m: seq<char>, name: array<char>, password: array<char>) returns (ok: bool)
    requires name.Length == FIELD_SIZE && password.Length == FIELD_SIZE && name != password
    modifies name, password
    ensures ok <==> exists amp: nat, end: nat :: IsForm(m, amp, end)
    ensures forall amp: nat, end: nat :: Delimited(m, amp, end) ==>
      (ok <==> amp - 5 < FIELD_SIZE && end - (amp + 10) < FIELD_SIZE)
    ensures forall amp: nat, end: nat :: IsForm(m, amp, end) ==>
      && name[..amp - 5 + 1] == m[5..amp] + [NUL]
      && password[..end - (amp + 10) + 1] == m[amp + 10..end] + [NUL]
  {
    var i;
    i, ok := ExtractName(m, name);
    if ok {
      var k;
      k, ok := ExtractPassword(m, password, i + 10);
      if ok {
        assert IsForm(m, i, k);
        forall amp: nat, end: nat | Delimited(m, amp, end)
          ensures amp == i && end == k
        {
          FormIsUnique(m, amp, end, i, k);
        }
      }
    }
  }

  /** A form as the log-in page posts it. */
  function Form(user: string, password: string): string {
    "user=" + user + "&password=" + password
  }

  ghost predicate FieldsFit(user: string, password: string) {
    && '&' !in user && NUL !in user && NUL !in password
    && |user| < FIELD_SIZE && |password| < FIELD_SIZE
  }

  /** The form lies in memory from `at` on, NUL-terminated: the loops take these fields from there. */
  ghost predicate FieldsAt(buf: seq<char>, at: nat, user: string, password: string) {
    && at <= |buf|
    && var m := buf[at..];
       var amp := 5 + |user|;
       var end := amp + 10 + |password|;
       IsForm(m, amp, end) && m[5..amp] == user && m[amp + 10..end] == password
  }

  lemma FormFound(buf: seq<char>, at: nat, user: string, password: string)
    requires FieldsFit(user, password) && Holds(buf, at, Form(user, password) + [NUL])
    ensures FieldsAt(buf, at, user, password)
  {
    var f := Form(user, password) + [NUL];
    var m := buf[at..];
    assert forall k :: 0 <= k < |f| ==> m[k] == f[k] by {
      forall k | 0 <= k < |f| ensures m[k] == f[k] {
        assert buf[at + k] == f[k];
      }
    }
    FormCut(m, f, user, password);
  }

  lemma FormCut(m: seq<char>, f: string, user: string, password: string)
    requires FieldsFit(user, password) && f == Form(user, password) + [NUL]
    requires |f| <= |m| && forall k :: 0 <= k < |f| ==> m[k] == f[k]
    ensures FieldsAt(m, 0, user, password)
  {
    var amp := 5 + |user|;
    var end := amp + 10 + |password|;
    assert f[amp] == '&' && f[end] == NUL;
    assert forall k :: 5 <= k < amp ==> f[k] == user[k - 5];
    assert forall k :: amp + 10 <= k < end ==> f[k] == password[k - (amp + 10)];
    assert m[5..amp] == user && m[amp + 10..end] == password;
    assert m[0..] == m;
  }

  /** From the wire to the fields: when a client posts a form with a user name and a password
      that fit, m_string points, after parsing, at memory from which the loops take exactly that
      user name and that password. */
  lemma PostedFormRecovered(buf: seq<char>, r: Request, user: string, password: string)
    requires |buf| == READ_BUFFER_SIZE && Printable(r)
    requires r.body == Form(user, password) && FieldsFit(user, password)
    ensures var c := ProcessRead(Receive(Initial(buf), Print(r))).conn;
      c.ctl.body.Some? && FieldsAt(c.buf, c.ctl.body.value, user, password)
  {
    ParsePrinted(buf, r);
    var c := ProcessRead(Receive(Initial(buf), Print(r))).conn;
    FormFound(c.buf, c.ctl.body.value, user, password);
  }

  // ---------- requests without a body ----------

  /** The head leaves m_string alone, and is answered by itself only when no length was announced. */
  lemma {:induction false} HeadKeepsBody(s: Conn)
    requires s.Bounded() && !s.ctl.state.CheckContent?
    ensures HeaderPhase(s).conn.ctl.body == s.ctl.body
    ensures HeaderPhase(s).Stopped? && HeaderPhase(s).code.GetRequest? ==>
      HeaderPhase(s).conn.ctl.contentLength == 0
    decreases s.readIdx - s.ctl.checkedIdx
  {
    hide ParseLine, ParseRequestLine, ParseField, Edited, CStr;
    var (s1, line) := NextLine(s);
    if line.LineOk? {
      if s1.ctl.state.CheckRequestLine? {
        NeverAnsweredByLine(s1);
      }
      var r := LineStep(s1);
      if r.code.NoRequest? && !r.conn.ctl.state.CheckContent? {
        HeadKeepsBody(r.conn);
      }
    }
  }

  /** A request line alone is no request. */
  lemma NeverAnsweredByLine(s: Conn)
    requires s.Bounded() && s.ctl.state.CheckRequestLine?
    ensures !LineStep(s).code.GetRequest?
  {
    hide EqualsAt, FindPath, BlankFrom, SkipBlanks, VerbOf, CStr;
  }

  lemma {:induction false} ScanKeepsBody(b: Conn)
    requires b.Bounded() && b.ctl.state.CheckContent? && !BodyComplete(b)
    ensures BodyPhase(b, LineOpen).conn.ctl.body == b.ctl.body
    decreases b.readIdx - b.ctl.checkedIdx
  {
    hide ParseLine;
    var (s1, line) := NextLine(b);
    if line.LineOk? && s1.ctl.contentLength + s1.ctl.checkedIdx <= INT_MAX {
      ScanKeepsBody(s1.(ctl := s1.ctl.(startLine := s1.ctl.checkedIdx)));
    }
  }

  /** m_string is set by the call that takes a body as received, and by no other. */
  lemma CallBody(s: Conn)
    requires Inv(s) && s.ctl.body.None?
    ensures var r := ProcessRead(s);
      && (r.code.NoRequest? ==> r.conn.ctl.body.None?)
      && (r.code.GetRequest? ==>
            && (r.conn.ctl.body.None? <==> !r.conn.ctl.state.CheckContent?)
            && (r.conn.ctl.body.None? ==> r.conn.ctl.contentLength == 0))
  {
    hide HeaderPhase, Inv;
    InvBounded(s);
    if !s.ctl.state.CheckContent? {
      HeadKeepsBody(s);
      HeaderResult(s);
    }
    if BodyOf(s).Some? {
      HeadBefore(s);
      BodyKeepsBody(BodyOf(s).value);
    }
  }

  lemma BodyKeepsBody(b: Conn)
    requires Inv(b) && b.ctl.state.CheckContent?
    ensures var r := BodyPhase(b, LineOk);
      && (r.code.NoRequest? ==> r.conn.ctl.body == b.ctl.body)
      && (r.code.GetRequest? ==> r.conn.ctl.body.Some? && r.conn.ctl.state.CheckContent?)
  {
    hide NextLine;
    BodyCall(b);
    var b1 := b.(ctl := b.ctl.(startLine := b.ctl.checkedIdx));
    if !BodyComplete(b) && b.ctl.contentLength + b.ctl.checkedIdx <= INT_MAX {
      ScanKeepsBody(b1);
      assert BodyPhase(b, LineOk) == BodyPhase(b1, LineOpen);
    }
  }

  /** However a request arrives, once it is answered m_string is null if and only if the answer came at
      the end of the head; and then no length, or a length of zero, was announced. The loops would
      read through the null pointer. */
  lemma {:induction false} AnsweredWithoutBody(s: Conn, ds: seq<seq<char>>)
    requires Inv(s) && s.ctl.body.None? && ds != [] && Fits(s, |Flatten(ds)|) && Feed(s, ds).code.GetRequest?
    ensures var c := Feed(s, ds).conn;
      && (c.ctl.body.None? <==> !c.ctl.state.CheckContent?)
      && (c.ctl.body.None? ==> c.ctl.contentLength == 0)
    decreases |ds|
  {
    hide ProcessRead;
    var s1 := Receive(s, ds[0]);
    ReceiveInv(s, ds[0]);
    CallBody(s1);
    ProcessReadInv(s1);
    if ProcessRead(s1).code.NoRequest? && |ds| > 1 {
      AnsweredWithoutBody(ProcessRead(s1).conn, ds[1..]);
    }
  }

  /** A POST without a body is such a request: answered, cgi set, and no m_string for the loops. */
  lemma PostWithoutBody(buf: seq<char>, r: Request)
    requires |buf| == READ_BUFFER_SIZE && Printable(r) && r.body == [] && r.verb.POST?
    ensures var p := ProcessRead(Receive(Initial(buf), Print(r)));
      p.code.GetRequest? && p.conn.ctl.cgi && p.conn.ctl.body.None?
  {
    hide Print, Printable, ProcessRead;
    ParsePrinted(buf, r);
  }
}
