/** From a file to the client: process_write, the send loop and the client's reader together. */
module Delivery {
  import opened CStrings
  import opened Response
  import opened ResponseFraming
  import Sender

  /** The bytes at a sequence of places, given the header buffer and the file. */
  function BytesAt(locs: seq<Sender.Loc>, head: seq<char>, file: seq<char>): (d: seq<char>)
    requires forall l :: l in locs ==> InRange(l, head, file)
    ensures |d| == |locs|
  {
    seq(|locs|, k requires 0 <= k < |locs| => ByteAt(locs[k], head, file))
  }

  predicate InRange(l: Sender.Loc, head: seq<char>, file: seq<char>) {
    match l
    case Header(i) => 0 <= i < |head|
    case File(i) => 0 <= i < |file|
  }

  function ByteAt(l: Sender.Loc, head: seq<char>, file: seq<char>): char
    requires InRange(l, head, file)
  {
    match l
    case Header(i) => head[i]
    case File(i) => file[i]
  }

  /** When the send loop finishes, the bytes that have left are those of the header and the file, each
      once and in order, if and only if every call was good; and then what the client has received
      is a message with status 200 and the file as its body. (Bytes from other places could still
      happen to be the same.) */
  lemma FileDelivered(o: Out, file: seq<char>, linger: bool, calls: seq<seq<nat>>)
    requires o.Valid() && o.idx == 0 && file != []
    requires var head := ProcessWrite(o, FileRequest(|file|), linger).out.idx;
      var s := Sender.Start(head, |file|);
      head + |file| <= INT_MAX && Sender.PossibleRun(s, calls) && Sender.Run(s, calls).1.Finished?
    ensures var r := ProcessWrite(o, FileRequest(|file|), linger);
      var s := Sender.Start(r.out.idx, |file|);
      var sent := Sender.Run(s, calls).0.sent;
      && r.ok && r.parts == BufferAndFile(r.out.idx, |file|, s.toSend)
      && (sent == Sender.Message(s) <==> Sender.Good(s, calls))
      && (Sender.Good(s, calls) ==>
            && (forall l :: l in sent ==> InRange(l, r.out.Text(), file))
            && ParseMessage(BytesAt(sent, r.out.Text(), file)) == Some(Message(200, file)))
  {
    hide ProcessWrite, ParseMessage, Sender.Good, Sender.Run, Sender.PossibleRun;
    var r := ProcessWrite(o, FileRequest(|file|), linger);
    FileFramed(o, file, linger);
    var head := r.out.Text();
    var s := Sender.Start(|head|, |file|);
    Sender.StartExact(|head|, |file|);
    Sender.SentExactly(s, calls);
    Sender.RunCounts(s, calls);
    MessageBytes(head, file);
  }

  /** The fields of write() after init(). */
  const FRESH: Sender.Send := Sender.Send(0, 0, 0, 0, 0, 0, 0, 0, [])

  /** What process_write makes of them: m_iv, and bytes_to_send for a file only. */
  function SetUp(s: Sender.Send, parts: Parts): Sender.Send {
    match parts
    case Nothing => s
    case Buffer(len) => s.(headLen := len, base0 := 0, len0 := len, fileLen := 0, len1 := 0)
    case BufferAndFile(len, size, toSend) =>
      s.(headLen := len, fileLen := size, base0 := 0, len0 := len, base1 := 0, len1 := size, toSend := toSend)
  }

  /** What write() starts with, for every result that process_write accepts: nothing to send for an
      error page, and for a file the number of bytes as an int. */
  lemma WriteGiven(o: Out, ret: Outcome, linger: bool)
    requires o.Valid() && ProcessWrite(o, ret, linger).ok
    ensures var r := ProcessWrite(o, ret, linger);
      var s := SetUp(FRESH, r.parts);
      && (!ret.FileRequest? ==> s == Sender.StartPage(r.out.idx))
      && (ret.FileRequest? ==> s == Sender.Start(r.out.idx, ret.size).(toSend := ToInt(r.out.idx + ret.size)))
      && (ret.FileRequest? && r.out.idx + ret.size <= INT_MAX ==>
            s == Sender.Start(r.out.idx, ret.size) && s.toSend > 0)
      && (s.toSend != 0 ==> Sender.Sending(s))
  {
    hide AddHead, AddPage, ToInt;
    OthersRefused(o, ret, linger);
    if ret.FileRequest? {
      HeadNotEmpty(o, 200, OK_200_TITLE, ToInt(ret.size), linger);
    }
  }

  lemma HeadNotEmpty(o: Out, status: nat, title: string, length: int, linger: bool)
    requires o.Valid() && status == 200 && title == OK_200_TITLE && -INT_MAX - 1 <= length <= INT_MAX
    ensures AddHead(o, status, title, length, linger).idx > 0
  {
  }

  /** What a call of write() comes to from there. It returns at once, with nothing sent, exactly when
      the count is zero: for every error page, and for a file whose bytes, header included, are a
      multiple of 2 to the 32. And when the count is negative, it finishes after the first writev that
      succeeds, whatever that has taken. */
  lemma FirstCall(o: Out, ret: Outcome, linger: bool, ns: seq<nat>, end: Sender.Ending)
    requires o.Valid() && ProcessWrite(o, ret, linger).ok
    requires Sender.Possible(SetUp(FRESH, ProcessWrite(o, ret, linger).parts), ns)
    ensures var r := ProcessWrite(o, ret, linger);
      var s := SetUp(FRESH, r.parts);
      && (s.toSend == 0 || Sender.Sending(s))
      && var (t, status) := Sender.Call(s, ns, end);
      && (status.Idle? <==> !ret.FileRequest? || ToInt(r.out.idx + ret.size) == 0)
      && (status.Idle? ==> t == s)
      && (s.toSend < 0 ==>
            if ns == [] then t == s && !status.Finished?
            else status.Finished? && t.sent == Sender.Pending(s)[..ns[0]])
  {
    hide ProcessWrite, ToInt, Sender.Pending;
    WriteGiven(o, ret, linger);
    var s := SetUp(FRESH, ProcessWrite(o, ret, linger).parts);
    if s.toSend != 0 {
      LoopIsNotIdle(s, ns, end, 0);
    }
  }

  lemma {:induction false} LoopIsNotIdle(s: Sender.Send, ns: seq<nat>, end: Sender.Ending, newadd: int)
    requires Sender.Sending(s) && Sender.Possible(s, ns)
    ensures !Sender.Loop(s, ns, end, newadd).1.Idle?
    decreases |ns|
  {
    hide Sender.Pending, Sender.Advance;
    if ns != [] && Sender.Take(s, ns[0]).toSend > 0 {
      LoopIsNotIdle(Sender.Take(s, ns[0]), ns[1..], end, Sender.Take(s, ns[0]).have - s.headLen);
    }
  }

  lemma MessageBytes(head: seq<char>, file: seq<char>)
    ensures var m := Sender.Message(Sender.Start(|head|, |file|));
      && (forall l :: l in m ==> InRange(l, head, file))
      && BytesAt(m, head, file) == head + file
  {
  }
}
