/** Building a response: the bounded formatter add_response and process_write. */
module Response {
  import opened CStrings
  import P = HttpParser

  const WRITE_BUFFER_SIZE: nat := 1024

  const OK_200_TITLE: string := "OK"
  const ERROR_403_TITLE: string := "Forbidden"
  const ERROR_403_FORM: string := "You do not have permission to get file from this server.\n"
  const ERROR_404_TITLE: string := "Not found"
  const ERROR_404_FORM: string := "The requested file was not found on this server.\n"
  const ERROR_500_TITLE: string := "Interna Error"
  const ERROR_500_FORM: string := "There was an unusual problem serving the request file.\n"
  const EMPTY_PAGE: string := "<html><body></body></html>"

  /** m_write_buf and m_write_idx. */
  datatype Out = Out(buf: seq<char>, idx: nat) {
    ghost predicate Valid() {
      |buf| == WRITE_BUFFER_SIZE && idx <= WRITE_BUFFER_SIZE - 2
    }

    /** The response so far. */
    function Text(): seq<char>
      requires idx <= |buf|
    {
      buf[..idx]
    }
  }

  function Min(a: nat, b: nat): nat { if a < b then a else b }

  /** add_response with the text its format makes: vsnprintf stores at most room - 1 bytes of it
      and a NUL. */
  function AddResponse(o: Out, text: string): (r: (Out, bool))
    requires o.Valid()
    ensures r.0.Valid()
  {
    var room := WRITE_BUFFER_SIZE - 1 - o.idx;
    var buf := P.Stored(o.buf, o.idx, text[..Min(|text|, room - 1)] + [NUL]);
    if |text| >= room then (Out(buf, o.idx), false) else (Out(buf, o.idx + |text|), true)
  }

  /** What is in the buffer stays, and the text is appended entirely or not at all. */
  lemma AddResponseMeans(o: Out, text: string)
    requires o.Valid()
    ensures var (o', ok) := AddResponse(o, text);
      && o'.Text() == (if ok then o.Text() + text else o.Text())
      && (ok <==> o.idx + |text| <= WRITE_BUFFER_SIZE - 2)
  {
    var (o', ok) := AddResponse(o, text);
    if ok {
      assert text[..|text|] == text;
    }
    forall k | 0 <= k < o'.idx
      ensures o'.Text()[k] == (if ok then o.Text() + text else o.Text())[k]
    {
    }
  }

  function StatusLine(status: nat, title: string): string {
    "HTTP/1.1" + " " + FormatInt(status) + " " + title + CRLF
  }

  function LengthField(n: int): string { "Content-Length:" + FormatInt(n) + CRLF }

  function LingerField(linger: bool): string {
    "Connection:" + (if linger then "keep_alive" else "close") + CRLF
  }

  /** add_headers: what the three calls answer is not looked at. */
  function AddHeaders(o: Out, length: int, linger: bool): (r: Out)
    requires o.Valid()
    ensures r.Valid()
  {
    AddResponse(AddResponse(AddResponse(o, LengthField(length)).0, LingerField(linger)).0, CRLF).0
  }

  function AddHead(o: Out, status: nat, title: string, length: int, linger: bool): (r: Out)
    requires o.Valid()
    ensures r.Valid()
  {
    AddHeaders(AddResponse(o, StatusLine(status, title)).0, length, linger)
  }

  function AddPage(o: Out, status: nat, title: string, form: string, linger: bool): (r: (Out, bool))
    requires o.Valid()
    ensures r.0.Valid()
  {
    AddResponse(AddHead(o, status, title, |form|, linger), form)
  }

  /** The results of do_request and process_read that reach process_write. */
  datatype Outcome =
    | InternalError | BadRequest | ForbiddenRequest | NoResource | GetRequest | ClosedConnection
    | FileRequest(size: nat)

  /** What write() is given: nothing, the buffer, or the buffer and the file. */
  datatype Parts = Nothing | Buffer(len: nat) | BufferAndFile(len: nat, size: nat, toSend: int)

  datatype Reply = Reply(out: Out, ok: bool, parts: Parts)

  function PageReply(r: (Out, bool)): Reply {
    if r.1 then Reply(r.0, true, Buffer(r.0.idx)) else Reply(r.0, false, Nothing)
  }

  function ProcessWrite(o: Out, ret: Outcome, linger: bool): (r: Reply)
    requires o.Valid()
    ensures r.out.Valid()
  {
    match ret
    case InternalError => PageReply(AddPage(o, 500, ERROR_500_TITLE, ERROR_500_FORM, linger))
    case BadRequest => PageReply(AddPage(o, 404, ERROR_404_TITLE, ERROR_404_FORM, linger))
    case ForbiddenRequest => PageReply(AddPage(o, 403, ERROR_403_TITLE, ERROR_403_FORM, linger))
    case FileRequest(size) =>
      if size != 0 then
        var h := AddHead(o, 200, OK_200_TITLE, ToInt(size), linger);
        Reply(h, true, BufferAndFile(h.idx, size, ToInt(h.idx + size)))
      else
        // the branch for an empty file runs on into `default`
        Reply(AddPage(o, 200, OK_200_TITLE, EMPTY_PAGE, linger).0, false, Nothing)
    case NoResource => Reply(o, false, Nothing)
    case GetRequest => Reply(o, false, Nothing)
    case ClosedConnection => Reply(o, false, Nothing)
  }

  // ---------- the object ----------

  class ResponseWriter {
    const writeBuf: array<char>
    var writeIdx: nat
    var linger: bool

    ghost function Written(): Out
      reads this, writeBuf
    {
      Out(writeBuf[..], writeIdx)
    }

    constructor (keep: bool)
      ensures fresh(writeBuf) && Written().Valid() && writeIdx == 0 && linger == keep
    {
      writeBuf := new char[WRITE_BUFFER_SIZE];
      writeIdx, linger := 0, keep;
    }

    method Add(text: string) returns (ok: bool)
      requires Written().Valid()
      modifies this`writeIdx, writeBuf
      ensures (Written(), ok) == AddResponse(old(Written()), text)
    {
      if writeIdx >= WRITE_BUFFER_SIZE {
        return false;
      }
      var room := WRITE_BUFFER_SIZE - 1 - writeIdx;
      VsnPrintf(writeIdx, room, text);
      if |text| >= room {
        return false;
      }
      writeIdx := writeIdx + |text|;
      return true;
    }

    /** vsnprintf(m_write_buf + at, size, ...) */
    method VsnPrintf(at: nat, size: nat, text: string)
      requires 0 < size && at + size <= writeBuf.Length
      modifies writeBuf
      ensures writeBuf[..] == P.Stored(old(writeBuf[..]), at, text[..Min(|text|, size - 1)] + [NUL])
    {
      var n := Min(|text|, size - 1);
      for k := 0 to n
        invariant forall m :: 0 <= m < writeBuf.Length ==>
          writeBuf[m] == if at <= m < at + k then text[m - at] else old(writeBuf[m])
      {
        writeBuf[at + k] := text[k];
      }
      writeBuf[at + n] := NUL;
    }

    method AddFields(length: int)
      requires Written().Valid()
      modifies this`writeIdx, writeBuf
      ensures Written() == AddHeaders(old(Written()), length, linger)
    {
      var _ := Add(LengthField(length));
      var _ := Add(LingerField(linger));
      var _ := Add(CRLF);
    }

    method AddErrorPage(status: nat, title: string, form: string) returns (ok: bool)
      requires Written().Valid()
      modifies this`writeIdx, writeBuf
      ensures (Written(), ok) == AddPage(old(Written()), status, title, form, linger)
    {
      var _ := Add(StatusLine(status, title));
      AddFields(|form|);
      ok := Add(form);
    }

    method Process(ret: Outcome) returns (ok: bool, parts: Parts)
      requires Written().Valid()
      modifies this`writeIdx, writeBuf
      ensures Reply(Written(), ok, parts) == ProcessWrite(old(Written()), ret, linger)
    {
      hide AddResponse, AddHeaders, StatusLine, ToInt;
      match ret {
        case InternalError =>
          ok := AddErrorPage(500, ERROR_500_TITLE, ERROR_500_FORM);
        case BadRequest =>
          ok := AddErrorPage(404, ERROR_404_TITLE, ERROR_404_FORM);
        case ForbiddenRequest =>
          ok := AddErrorPage(403, ERROR_403_TITLE, ERROR_403_FORM);
        case FileRequest(size) =>
          if size != 0 {
            var _ := Add(StatusLine(200, OK_200_TITLE));
            AddFields(ToInt(size));
            return true, BufferAndFile(writeIdx, size, ToInt(writeIdx + size));
          }
          var _ := AddErrorPage(200, OK_200_TITLE, EMPTY_PAGE);
          ok := false;
        case _ =>
          ok := false;
      }
      parts := if ok then Buffer(writeIdx) else Nothing;
    }
  }
}
