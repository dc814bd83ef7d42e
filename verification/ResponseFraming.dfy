/** The responses are HTTP messages: a reader that follows RFC 7230 gets the status and the
    body back. */
module ResponseFraming {
  import opened CStrings
  import opened Response

  // ---------- a reader of responses ----------

  /** A line up to its CRLF, and what follows. */
  datatype Split = Split(line: string, rest: seq<char>)

  function SplitLine(d: seq<char>): (r: Option<Split>)
    ensures r.Some? ==> |r.value.rest| + |r.value.line| + 2 == |d|
  {
    if |d| < 2 then None
    else if d[0] == CR && d[1] == LF then Some(Split([], d[2..]))
    else
      match SplitLine(d[1..])
      case None => None
      case Some(s) => Some(Split([d[0]] + s.line, s.rest))
  }

  /** Section 3.1.2 of RFC 7230: HTTP-version SP status-code SP reason-phrase. */
  function ParseStatus(l: string): Option<nat> {
    if |l| >= 13 && l[..9] == "HTTP/1.1 " && DigitSpan(l[9..]) == 3 && l[12] == ' ' then
      Some(NatValue(l[9..12]))
    else None
  }

  /** The value of a Content-Length field: digits, after optional white space. */
  function ParseLength(v: string): Option<nat> {
    var u := v[SkipBlanks(v, 0)..];
    if u != [] && DigitSpan(u) == |u| then Some(NatValue(u[..DigitSpan(u)])) else None
  }

  /** The header section: what Content-Length says, if it is there, and what follows the section. */
  datatype Fields = Fields(length: Option<nat>, rest: seq<char>)

  function ParseFields(d: seq<char>, length: Option<nat>): Option<Fields>
    decreases |d|
  {
    match SplitLine(d)
    case None => None
    case Some(s) =>
      if s.line == [] then Some(Fields(length, s.rest))
      else if MatchesAt(s.line, 0, "Content-Length:") then
        match ParseLength(s.line[15..])
        case None => None
        case Some(n) => ParseFields(s.rest, Some(n))
      else if ':' in s.line then ParseFields(s.rest, length)
      else None
  }

  /** A message: its status and a body of exactly the announced length (section 3.3.2). */
  datatype Message = Message(status: nat, body: seq<char>)

  function ParseMessage(d: seq<char>): Option<Message> {
    match SplitLine(d)
    case None => None
    case Some(s) =>
      match ParseStatus(s.line)
      case None => None
      case Some(status) =>
        match ParseFields(s.rest, None)
        case Some(Fields(Some(n), body)) => if |body| == n then Some(Message(status, body)) else None
        case _ => None
  }

  // ---------- what the server writes, read ----------

  lemma {:induction false} SplitLineAt(l: string, rest: seq<char>)
    requires CR !in l
    ensures SplitLine(l + CRLF + rest) == Some(Split(l, rest))
    decreases |l|
  {
    var d := l + CRLF + rest;
    if l == [] {
      assert d[2..] == rest;
    } else {
      SplitLineAt(l[1..], rest);
      assert d[1..] == l[1..] + CRLF + rest;
      assert l == [l[0]] + l[1..];
    }
  }

  lemma StatusRead(status: nat, title: string)
    requires 100 <= status <= 999 && CR !in title
    ensures var l := "HTTP/1.1" + " " + FormatInt(status) + " " + title;
      StatusLine(status, title) == l + CRLF && CR !in l && ParseStatus(l) == Some(status)
  {
    var l := "HTTP/1.1" + " " + FormatInt(status) + " " + title;
    ThreeDigits(status);
    var ds := Decimal(status);
    DecimalValue(status);
    assert l[..9] == "HTTP/1.1 ";
    assert l[9..] == ds + (" " + title);
    DigitRun(ds, " " + title);
    assert l[9..12] == ds;
  }

  lemma ThreeDigits(n: nat)
    requires 100 <= n <= 999
    ensures |Decimal(n)| == 3
  {
    assert |Decimal(n / 10)| == 2 by {
      assert 10 <= n / 10 <= 99;
    }
  }

  lemma {:induction false} DigitRun(ds: string, rest: string)
    requires forall k :: 0 <= k < |ds| ==> IsDigit(ds[k])
    requires rest == [] || !IsDigit(rest[0])
    ensures DigitSpan(ds + rest) == |ds|
    decreases |ds|
  {
    if ds == [] {
      assert ds + rest == rest;
    } else {
      DigitRun(ds[1..], rest);
      assert (ds + rest)[1..] == ds[1..] + rest;
    }
  }

  lemma LengthRead(n: nat)
    ensures var l := "Content-Length:" + FormatInt(n);
      && LengthField(n) == l + CRLF && CR !in l && l != []
      && MatchesAt(l, 0, "Content-Length:") && ParseLength(l[15..]) == Some(n)
  {
    hide ParseLength, Decimal;
    var l := "Content-Length:" + FormatInt(n);
    assert l[15..] == Decimal(n);
    DecimalLengthRead(n);
    assert forall k :: 0 <= k < 15 ==> l[0 + k] == "Content-Length:"[k];
    assert CR !in Decimal(n) && CR !in "Content-Length:";
  }

  lemma DecimalLengthRead(n: nat)
    ensures ParseLength(Decimal(n)) == Some(n)
  {
    var ds := Decimal(n);
    assert SkipBlanks(ds, 0) == 0 by {
      assert IsDigit(ds[0]);
    }
    assert ds[0..] == ds;
    DigitRun(ds, []);
    assert ds + [] == ds && ds[..|ds|] == ds;
    DecimalValue(n);
  }

  lemma LingerRead(linger: bool)
    ensures var l := "Connection:" + (if linger then "keep_alive" else "close");
      && LingerField(linger) == l + CRLF && CR !in l && l != []
      && !MatchesAt(l, 0, "Content-Length:") && ':' in l
  {
    var l := "Connection:" + (if linger then "keep_alive" else "close");
    assert Lower(l[0 + 2]) != Lower("Content-Length:"[2]) || Lower(l[0 + 3]) != Lower("Content-Length:"[3]);
    assert l[10] == ':';
  }

  /** The head of every response. */
  function Head(status: nat, title: string, length: int, linger: bool): seq<char> {
    StatusLine(status, title) + (LengthField(length) + (LingerField(linger) + CRLF))
  }

  /** The head followed by a body is a message with that status and that body if and only if the
      announced length is the body's. */
  lemma HeadRead(status: nat, title: string, length: nat, linger: bool, body: seq<char>)
    requires 100 <= status <= 999 && CR !in title
    ensures ParseMessage(Head(status, title, length, linger) + body)
         == if |body| == length then Some(Message(status, body)) else None
  {
    hide *;
    StatusRead(status, title);
    LengthRead(length);
    LingerRead(linger);
    var l1 := "HTTP/1.1" + " " + FormatInt(status) + " " + title;
    var l2 := "Content-Length:" + FormatInt(length);
    var l3 := "Connection:" + (if linger then "keep_alive" else "close");
    LinesRead(l1, l2, l3, body, status, length);
    HeadLines(status, title, length, linger, body);
  }

  lemma HeadLines(status: nat, title: string, length: int, linger: bool, body: seq<char>)
    ensures Head(status, title, length, linger) + body
         == ("HTTP/1.1" + " " + FormatInt(status) + " " + title) + CRLF
            + (("Content-Length:" + FormatInt(length)) + CRLF
               + (("Connection:" + (if linger then "keep_alive" else "close")) + CRLF + ([] + CRLF + body)))
  {
  }

  lemma LinesRead(l1: string, l2: string, l3: string, body: seq<char>, status: nat, length: nat)
    requires CR !in l1 && ParseStatus(l1) == Some(status)
    requires CR !in l2 && l2 != [] && MatchesAt(l2, 0, "Content-Length:") && ParseLength(l2[15..]) == Some(length)
    requires CR !in l3 && l3 != [] && !MatchesAt(l3, 0, "Content-Length:") && ':' in l3
    ensures ParseMessage(l1 + CRLF + (l2 + CRLF + (l3 + CRLF + ([] + CRLF + body))))
         == if |body| == length then Some(Message(status, body)) else None
  {
    var d3 := [] + CRLF + body;
    var d2 := l3 + CRLF + d3;
    var d1 := l2 + CRLF + d2;
    assert ParseFields(d3, Some(length)) == Some(Fields(Some(length), body)) by {
      SplitLineAt([], body);
    }
    assert ParseFields(d2, Some(length)) == ParseFields(d3, Some(length)) by {
      SplitLineAt(l3, d3);
    }
    assert ParseFields(d1, None) == ParseFields(d2, Some(length)) by {
      SplitLineAt(l2, d2);
    }
    SplitLineAt(l1, d1);
  }

  // ---------- everything fits ----------

  function Pow10(k: nat): nat { if k == 0 then 1 else 10 * Pow10(k - 1) }

  lemma {:induction false} DecimalShort(n: nat, k: nat)
    requires 1 <= k && n < Pow10(k)
    ensures |Decimal(n)| <= k
    decreases k
  {
    if n >= 10 {
      assert k >= 2 by {
        assert Pow10(1) == 10 * Pow10(0);
      }
      assert n / 10 < Pow10(k - 1);
      DecimalShort(n / 10, k - 1);
    }
  }

  lemma IntShort(v: int)
    requires -INT_MAX - 1 <= v <= INT_MAX
    ensures |FormatInt(v)| <= 11
  {
    assert INT_MAX + 1 < Pow10(10) by {
      assert Pow10(5) == 100000;
      assert Pow10(10) == 10 * 10 * 10 * 10 * 10 * Pow10(5);
    }
    DecimalShort(if v < 0 then -v else v, 10);
  }

  /** Texts that fit together are appended one after the other. */
  lemma FourAppended(o: Out, l1: string, l2: string, l3: string, l4: string)
    requires o.Valid() && o.idx + |l1| + |l2| + |l3| + |l4| <= WRITE_BUFFER_SIZE - 2
    ensures AddResponse(AddResponse(AddResponse(AddResponse(o, l1).0, l2).0, l3).0, l4).0.Text()
         == o.Text() + (l1 + (l2 + (l3 + l4)))
  {
    hide AddResponse;
    var o1 := AddResponse(o, l1).0;
    var o2 := AddResponse(o1, l2).0;
    var o3 := AddResponse(o2, l3).0;
    var o4 := AddResponse(o3, l4).0;
    assert o1.Text() == o.Text() + l1 && o1.idx == o.idx + |l1| by { AddResponseMeans(o, l1); }
    assert o2.Text() == o1.Text() + l2 && o2.idx == o1.idx + |l2| by { AddResponseMeans(o1, l2); }
    assert o3.Text() == o2.Text() + l3 && o3.idx == o2.idx + |l3| by { AddResponseMeans(o2, l3); }
    assert o4.Text() == o3.Text() + l4 by { AddResponseMeans(o3, l4); }
    assert o.Text() + (l1 + (l2 + (l3 + l4))) == o.Text() + l1 + l2 + l3 + l4;
  }

  /** Into an empty buffer the head is written whole. */
  lemma HeadWritten(o: Out, status: nat, title: string, length: int, linger: bool)
    requires o.Valid() && o.idx == 0 && 100 <= status <= 999 && |title| <= 100
    requires -INT_MAX - 1 <= length <= INT_MAX
    ensures AddHead(o, status, title, length, linger).Text() == Head(status, title, length, linger)
    ensures |Head(status, title, length, linger)| <= 300
  {
    assert |StatusLine(status, title)| <= 120 && |LengthField(length)| <= 40 && |LingerField(linger)| <= 40 by {
      ThreeDigits(status);
      IntShort(length);
    }
    assert |CRLF| == 2 && o.Text() == [];
    hide StatusLine, LengthField, LingerField, AddResponse;
    FourAppended(o, StatusLine(status, title), LengthField(length), LingerField(linger), CRLF);
    assert [] + Head(status, title, length, linger) == Head(status, title, length, linger);
  }

  /** An error page: it is complete, process_write succeeds, and it reads back. */
  lemma PageFramed(o: Out, status: nat, title: string, form: string, linger: bool)
    requires o.Valid() && o.idx == 0 && 100 <= status <= 999 && |title| <= 100 && CR !in title
    requires |form| <= 700
    ensures var (o', ok) := AddPage(o, status, title, form, linger);
      && ok && o'.Text() == Head(status, title, |form|, linger) + form
      && ParseMessage(o'.Text()) == Some(Message(status, form))
  {
    HeadWritten(o, status, title, |form|, linger);
    AddResponseMeans(AddHead(o, status, title, |form|, linger), form);
    HeadRead(status, title, |form|, linger, form);
  }

  /** What the results that are answered at all stand for. */
  function StatusOf(ret: Outcome): nat {
    match ret
    case InternalError => 500
    case BadRequest => 404
    case ForbiddenRequest => 403
    case _ => 200
  }

  function Page(ret: Outcome): string {
    match ret
    case InternalError => "There was an unusual problem serving the request file.\n"
    case BadRequest => "The requested file was not found on this server.\n"
    case ForbiddenRequest => "You do not have permission to get file from this server.\n"
    case _ => ""
  }

  /** The error results: the buffer holds a message with the right status and the page as its
      body, and write() is given all of it. */
  lemma ErrorsFramed(o: Out, ret: Outcome, linger: bool)
    requires o.Valid() && o.idx == 0
    requires ret.InternalError? || ret.BadRequest? || ret.ForbiddenRequest?
    ensures var r := ProcessWrite(o, ret, linger);
      && r.ok && r.parts == Buffer(r.out.idx)
      && ParseMessage(r.out.Text()) == Some(Message(StatusOf(ret), Page(ret)))
  {
    match ret {
      case InternalError => PageFramed(o, 500, ERROR_500_TITLE, ERROR_500_FORM, linger);
      case BadRequest => PageFramed(o, 404, ERROR_404_TITLE, ERROR_404_FORM, linger);
      case ForbiddenRequest => PageFramed(o, 403, ERROR_403_TITLE, ERROR_403_FORM, linger);
    }
  }

  /** A file that is not empty: the buffer and the file together are a message with status 200
      and the file as its body if and only if the file's size is an int; and write() is told the
      number of bytes in the two. */
  lemma FileFramed(o: Out, file: seq<char>, linger: bool)
    requires o.Valid() && o.idx == 0 && file != []
    ensures var r := ProcessWrite(o, FileRequest(|file|), linger);
      && r.ok && r.parts == BufferAndFile(r.out.idx, |file|, ToInt(r.out.idx + |file|))
      && (ParseMessage(r.out.Text() + file) == Some(Message(200, file)) <==> |file| <= INT_MAX)
      && (r.parts.toSend == r.out.idx + |file| <==> r.out.idx + |file| <= INT_MAX)
  {
    hide ParseMessage, Head, ToInt;
    HeadWritten(o, 200, OK_200_TITLE, ToInt(|file|), linger);
    FileHeadRead(file, linger);
  }

  lemma FileHeadRead(file: seq<char>, linger: bool)
    ensures ParseMessage(Head(200, OK_200_TITLE, ToInt(|file|), linger) + file) == Some(Message(200, file))
      <==> |file| <= INT_MAX
  {
    hide ParseMessage, Head;
    var n := ToInt(|file|);
    if n >= 0 {
      HeadRead(200, OK_200_TITLE, n, linger, file);
    } else {
      NegativeLength(200, OK_200_TITLE, n, linger, file);
    }
  }

  /** A length that printed with a sign is not a length. */
  lemma NegativeLength(status: nat, title: string, n: int, linger: bool, body: seq<char>)
    requires 100 <= status <= 999 && CR !in title && n < 0
    ensures ParseMessage(Head(status, title, n, linger) + body) == None
  {
    var l1 := "HTTP/1.1" + " " + FormatInt(status) + " " + title;
    var l2 := "Content-Length:" + FormatInt(n);
    var l3 := "Connection:" + (if linger then "keep_alive" else "close");
    var d2 := l3 + CRLF + ([] + CRLF + body);
    assert ParseFields(l2 + CRLF + d2, None) == None by {
      assert CR !in l2 && l2 != [];
      SplitLineAt(l2, d2);
      SignedLength(l2, FormatInt(n));
    }
    hide *;
    StatusRead(status, title);
    HeadLines(status, title, n, linger, body);
    StatusLineRead(l1, l2 + CRLF + d2, status);
  }

  lemma SignedLength(l: string, v: string)
    requires l == "Content-Length:" + v && v != [] && v[0] == '-'
    ensures MatchesAt(l, 0, "Content-Length:") && ParseLength(l[15..]) == None
  {
    assert l[15..] == v && v[0..] == v;
    assert forall n :: 0 <= n < 15 ==> l[0 + n] == "Content-Length:"[n];
  }

  lemma StatusLineRead(l: string, d: seq<char>, status: nat)
    requires CR !in l && ParseStatus(l) == Some(status) && ParseFields(d, None) == None
    ensures ParseMessage(l + CRLF + d) == None
  {
    SplitLineAt(l, d);
  }

  predicate Answered(ret: Outcome) {
    ret.InternalError? || ret.BadRequest? || ret.ForbiddenRequest? || (ret.FileRequest? && ret.size != 0)
  }

  /** The other results, an empty file among them, are refused, whatever the buffer holds. */
  lemma OthersRefused(o: Out, ret: Outcome, linger: bool)
    requires o.Valid()
    ensures ProcessWrite(o, ret, linger).ok ==> Answered(ret)
    ensures o.idx == 0 ==> (ProcessWrite(o, ret, linger).ok <==> Answered(ret))
  {
    if o.idx == 0 && (ret.InternalError? || ret.BadRequest? || ret.ForbiddenRequest?) {
      ErrorsFramed(o, ret, linger);
    }
  }

  // ---------- the bytes of a reply ----------

  /** Status and reason phrase. */
  function StatusText(ret: Outcome): string {
    match ret
    case InternalError => "500 Interna Error"
    case BadRequest => "404 Not found"
    case ForbiddenRequest => "403 Forbidden"
    case _ => "200 OK"
  }

  function HeadText(status: string, length: int, linger: bool): string {
    "HTTP/1.1 " + status + "\r\n"
    + ("Content-Length:" + FormatInt(length) + "\r\n"
       + ("Connection:" + (if linger then "keep_alive" else "close") + "\r\n" + "\r\n"))
  }

  lemma StatusDigits()
    ensures FormatInt(500) == "500" && FormatInt(404) == "404" && FormatInt(403) == "403" && FormatInt(200) == "200"
  {
    assert Decimal(5) == "5" && Decimal(4) == "4" && Decimal(2) == "2";
    assert Decimal(50) == "50" && Decimal(40) == "40" && Decimal(20) == "20";
  }

  lemma HeadIs(status: nat, digits: string, title: string, length: int, linger: bool)
    requires FormatInt(status) == digits
    ensures Head(status, title, length, linger) == HeadText(digits + " " + title, length, linger)
  {
    hide FormatInt;
    assert CRLF == "\r\n";
    assert StatusLine(status, title) == "HTTP/1.1 " + (digits + " " + title) + "\r\n";
    assert LengthField(length) == "Content-Length:" + FormatInt(length) + "\r\n";
    assert LingerField(linger) == "Connection:" + (if linger then "keep_alive" else "close") + "\r\n";
    assert LingerField(linger) + CRLF
        == "Connection:" + (if linger then "keep_alive" else "close") + "\r\n" + "\r\n";
  }

  lemma StatusTexts()
    ensures "500" + " " + ERROR_500_TITLE == "500 Interna Error" && "404" + " " + ERROR_404_TITLE == "404 Not found"
    ensures "403" + " " + ERROR_403_TITLE == "403 Forbidden" && "200" + " " + OK_200_TITLE == "200 OK"
  {
  }

  /** Byte for byte: for each error result status, reason phrase, length, Connection and page; for a
      file the head. */
  lemma RepliesExactly(o: Out, ret: Outcome, linger: bool)
    requires o.Valid() && o.idx == 0 && Answered(ret)
    ensures var text := ProcessWrite(o, ret, linger).out.Text();
      if ret.FileRequest? then text == HeadText(StatusText(ret), ToInt(ret.size), linger)
      else text == HeadText(StatusText(ret), |Page(ret)|, linger) + Page(ret)
  {
    hide ParseMessage, Head, AddHead, HeadText, FormatInt, ToInt;
    StatusDigits();
    StatusTexts();
    match ret {
      case InternalError =>
        PageFramed(o, 500, ERROR_500_TITLE, ERROR_500_FORM, linger);
        HeadIs(500, "500", ERROR_500_TITLE, |ERROR_500_FORM|, linger);
      case BadRequest =>
        PageFramed(o, 404, ERROR_404_TITLE, ERROR_404_FORM, linger);
        HeadIs(404, "404", ERROR_404_TITLE, |ERROR_404_FORM|, linger);
      case ForbiddenRequest =>
        PageFramed(o, 403, ERROR_403_TITLE, ERROR_403_FORM, linger);
        HeadIs(403, "403", ERROR_403_TITLE, |ERROR_403_FORM|, linger);
      case FileRequest(size) =>
        HeadWritten(o, 200, OK_200_TITLE, ToInt(size), linger);
        HeadIs(200, "200", OK_200_TITLE, ToInt(size), linger);
    }
  }

  /** %d prints no leading zero, and a minus sign for a negative number. */
  lemma {:induction false} NumbersExactly(n: nat)
    ensures |Decimal(n)| > 1 ==> Decimal(n)[0] != '0'
    ensures n > 0 ==> Decimal(n)[0] != '0' && FormatInt(-(n as int)) == "-" + Decimal(n)
  {
    if n >= 10 {
      NumbersExactly(n / 10);
    }
  }
}
