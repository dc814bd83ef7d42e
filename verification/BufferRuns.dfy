/** What the growable buffer does, on values: each operation as a function, and what holds over
    every run of operations. */
module BufferRuns {

  import opened CStrings

  datatype Buf = Buf(store: string, r: nat, w: nat)

  ghost predicate Valid(b: Buf) { b.r <= b.w <= |b.store| }

  /** The bytes between the read and the write position. */
  function Readable(b: Buf): string
    requires Valid(b)
  {
    b.store[b.r..b.w]
  }

  function Writable(b: Buf): nat
    requires Valid(b)
  {
    |b.store| - b.w
  }

  function Zeros(n: nat): (s: string)
    ensures |s| == n
  {
    seq(n, _ => NUL)
  }

  /** MakeSpace_: resize, or shift the readable bytes to the front over what has been read. */
  function MakeSpace(b: Buf, len: nat): Buf
    requires Valid(b) && Writable(b) < len
  {
    if Writable(b) + b.r < len then b.(store := b.store + Zeros(b.w + len + 1 - |b.store|))
    else Buf(b.store[b.r..b.w] + b.store[b.w - b.r..], 0, b.w - b.r)
  }

  function Ensure(b: Buf, len: nat): Buf
    requires Valid(b)
  {
    if Writable(b) < len then MakeSpace(b, len) else b
  }

  /** The bytes s behind the write position, where there is room for them. */
  function Fill(b: Buf, s: string): Buf
    requires Valid(b) && |s| <= Writable(b)
  {
    Buf(b.store[..b.w] + s + b.store[b.w + |s|..], b.r, b.w + |s|)
  }

  function Append(b: Buf, s: string): Buf
    requires Valid(b)
  {
    EnsureMeans(b, |s|);
    Fill(Ensure(b, |s|), s)
  }

  /** The size of the array on the stack that takes what does not fit. */
  const SPILL: nat := 65535

  /** What readv delivers, first to the store and then to the stack. */
  function ReadFd(b: Buf, data: string): Buf
    requires Valid(b) && |data| <= Writable(b) + SPILL
  {
    var room := Writable(b);
    if |data| <= room then Fill(b, data)
    else
      FillMeans(b, data[..room]);
      Append(Fill(b, data[..room]), data[room..])
  }

  function Retrieve(b: Buf, len: nat): Buf
    requires Valid(b) && len <= |Readable(b)|
  {
    b.(r := b.r + len)
  }

  function RetrieveAll(b: Buf): Buf {
    Buf(Zeros(|b.store|), 0, 0)
  }

  // ---------- one operation ----------

  /** Room is made for as much as was asked for, and the readable bytes are the same. */
  lemma EnsureMeans(b: Buf, len: nat)
    requires Valid(b)
    ensures var e := Ensure(b, len);
      Valid(e) && Readable(e) == Readable(b) && Writable(e) >= len && |e.store| >= |b.store|
  {
  }

  /** Where the bytes are afterwards. Too little room even with what has been read: the store grows
      behind its end, to one byte more than is needed, by zero bytes. Otherwise, if room is wanted, the
      readable bytes move to the front and those behind them are as they were. */
  lemma EnsureExactly(b: Buf, len: nat)
    requires Valid(b)
    ensures var e, wants, grows := Ensure(b, len), |b.store| - b.w < len, |b.store| - b.w + b.r < len;
      && (!wants ==> e == b)
      && (grows ==>
        && |e.store| == b.w + len + 1 && e.store[..|b.store|] == b.store && e.r == b.r && e.w == b.w
        && forall k :: |b.store| <= k < |e.store| ==> e.store[k] == NUL)
      && (wants && !grows ==>
        && |e.store| == |b.store| && e.r == 0 && e.w == b.w - b.r
        && (forall k :: 0 <= k < e.w ==> e.store[k] == b.store[b.r + k])
        && forall k :: e.w <= k < |e.store| ==> e.store[k] == b.store[k])
  {
  }

  /** Dropping everything leaves a store of the same size, zero throughout, all of it writable. */
  lemma RetrieveAllMeans(b: Buf)
    ensures var e := RetrieveAll(b);
      && Valid(e) && Readable(e) == "" && Writable(e) == |e.store| == |b.store|
      && forall k :: 0 <= k < |e.store| ==> e.store[k] == NUL
  {
  }

  lemma FillMeans(b: Buf, s: string)
    requires Valid(b) && |s| <= Writable(b)
    ensures Valid(Fill(b, s)) && Readable(Fill(b, s)) == Readable(b) + s && |Fill(b, s).store| == |b.store|
  {
  }

  lemma AppendMeans(b: Buf, s: string)
    requires Valid(b)
    ensures Valid(Append(b, s)) && Readable(Append(b, s)) == Readable(b) + s
    ensures |Append(b, s).store| == |Ensure(b, |s|).store|
  {
    hide Ensure, Fill;
    EnsureMeans(b, |s|);
    FillMeans(Ensure(b, |s|), s);
  }

  lemma ReadFdMeans(b: Buf, data: string)
    requires Valid(b) && |data| <= Writable(b) + SPILL
    ensures Valid(ReadFd(b, data)) && Readable(ReadFd(b, data)) == Readable(b) + data
  {
    hide Append, Fill;
    var room := Writable(b);
    if |data| <= room {
      FillMeans(b, data);
    } else {
      FillMeans(b, data[..room]);
      AppendMeans(Fill(b, data[..room]), data[room..]);
      assert data == data[..room] + data[room..];
    }
  }

  function Max(a: nat, b: nat): nat { if a < b then b else a }

  /** The store grows only when what has been read leaves less room than is asked for, so it stays
      within twice what it then has to hold. */
  lemma EnsureSize(b: Buf, len: nat)
    requires Valid(b)
    ensures |b.store| <= |Ensure(b, len).store| <= Max(|b.store|, 2 * (|Readable(b)| + len))
  {
  }

  lemma AppendSize(b: Buf, s: string)
    requires Valid(b)
    ensures |b.store| <= |Append(b, s).store| <= Max(|b.store|, 2 * (|Readable(b)| + |s|))
  {
    AppendMeans(b, s);
    EnsureSize(b, |s|);
  }

  lemma ReadFdSize(b: Buf, data: string)
    requires Valid(b) && |data| <= Writable(b) + SPILL
    ensures |b.store| <= |ReadFd(b, data).store| <= Max(|b.store|, 2 * (|Readable(b)| + |data|))
  {
    hide Append, Fill;
    var room := Writable(b);
    if |data| <= room {
      FillMeans(b, data);
    } else {
      FillMeans(b, data[..room]);
      AppendSize(Fill(b, data[..room]), data[room..]);
    }
  }

  // ---------- runs ----------

  /** What is done to a buffer. PutOp is a caller that writes at BeginWrite() and calls HasWritten;
      FailOp is a readv or a write that returns -1. */
  datatype Op =
    | AppendOp(data: string) | EnsureOp(len: nat) | PutOp(data: string)
    | ReadOp(data: string) | WriteOp(len: nat) | FailOp
    | RetrieveOp(len: nat) | RetrieveAllOp

  /** The buffer, all that has gone in, all that has come out or been dropped, and the most it has
      had to hold. */
  datatype State = State(buf: Buf, added: string, removed: string, peak: nat)

  predicate Allowed(b: Buf, op: Op)
    requires Valid(b)
  {
    match op
    case PutOp(data) => |data| <= Writable(b)
    case ReadOp(data) => |data| <= Writable(b) + SPILL
    case WriteOp(n) => n <= |Readable(b)|
    case RetrieveOp(n) => n <= |Readable(b)|
    case _ => true
  }

  function Apply(b: Buf, op: Op): Buf
    requires Valid(b) && Allowed(b, op)
  {
    match op
    case AppendOp(data) => Append(b, data)
    case EnsureOp(n) => Ensure(b, n)
    case PutOp(data) => Fill(b, data)
    case ReadOp(data) => ReadFd(b, data)
    case WriteOp(n) => Retrieve(b, n)
    case RetrieveOp(n) => Retrieve(b, n)
    case RetrieveAllOp => RetrieveAll(b)
    case FailOp => b
  }

  function In(op: Op): string {
    if op.AppendOp? || op.PutOp? || op.ReadOp? then op.data else ""
  }

  function Out(b: Buf, op: Op): string
    requires Valid(b) && Allowed(b, op)
  {
    match op
    case WriteOp(n) => Readable(b)[..n]
    case RetrieveOp(n) => Readable(b)[..n]
    case RetrieveAllOp => Readable(b)
    case _ => ""
  }

  function Room(op: Op): nat { if op.EnsureOp? then op.len else |In(op)| }

  lemma ApplyMeans(b: Buf, op: Op)
    requires Valid(b) && Allowed(b, op)
    ensures Valid(Apply(b, op))
    ensures Out(b, op) + Readable(Apply(b, op)) == Readable(b) + In(op)
    ensures |b.store| <= |Apply(b, op).store| <= Max(|b.store|, 2 * (|Readable(b)| + Room(op)))
  {
    hide Append, Ensure, Fill, ReadFd;
    match op
    case AppendOp(data) => AppendMeans(b, data); AppendSize(b, data);
    case EnsureOp(n) => EnsureMeans(b, n); EnsureSize(b, n);
    case PutOp(data) => FillMeans(b, data);
    case ReadOp(data) => ReadFdMeans(b, data); ReadFdSize(b, data);
    case WriteOp(n) => assert Readable(b) == Readable(b)[..n] + Readable(Apply(b, op));
    case RetrieveOp(n) => assert Readable(b) == Readable(b)[..n] + Readable(Apply(b, op));
    case RetrieveAllOp =>
    case FailOp =>
  }

  function Next(s: State, op: Op): State
    requires Valid(s.buf) && Allowed(s.buf, op)
  {
    State(Apply(s.buf, op), s.added + In(op), s.removed + Out(s.buf, op),
          Max(s.peak, |Readable(s.buf)| + Room(op)))
  }

  ghost predicate Possible(s: State, ops: seq<Op>)
    requires Valid(s.buf)
    decreases |ops|
  {
    ops != [] ==> Allowed(s.buf, ops[0]) && (ApplyMeans(s.buf, ops[0]); Possible(Next(s, ops[0]), ops[1..]))
  }

  ghost function Run(s: State, ops: seq<Op>): State
    requires Valid(s.buf) && Possible(s, ops)
    decreases |ops|
  {
    if ops == [] then s else (ApplyMeans(s.buf, ops[0]); Run(Next(s, ops[0]), ops[1..]))
  }

  /** A buffer of the given size, as constructed. */
  function Start(size: nat): State { State(Buf(Zeros(size), 0, 0), "", "", 0) }

  ghost predicate Inv(s: State, size: nat) {
    && Valid(s.buf)
    && s.removed + Readable(s.buf) == s.added
    && |s.buf.store| <= Max(size, 2 * s.peak)
  }

  lemma NextKeepsInv(s: State, op: Op, size: nat)
    requires Inv(s, size) && Allowed(s.buf, op)
    ensures Inv(Next(s, op), size)
  {
    hide Apply, Out, In;
    ApplyMeans(s.buf, op);
    var b, c := s.buf, Apply(s.buf, op);
    assert (s.removed + Out(b, op)) + Readable(c) == s.removed + (Out(b, op) + Readable(c));
    assert (s.removed + Readable(b)) + In(op) == s.removed + (Readable(b) + In(op));
  }

  lemma {:induction false} RunKeepsInv(s: State, ops: seq<Op>, size: nat)
    requires Inv(s, size) && Possible(s, ops)
    ensures Inv(Run(s, ops), size)
    decreases |ops|
  {
    hide Next, Allowed;
    if ops != [] {
      NextKeepsInv(s, ops[0], size);
      RunKeepsInv(Next(s, ops[0]), ops[1..], size);
    }
  }

  /** The buffer is a byte FIFO: over every run, what has come out, followed by what is readable, is
      what has gone in; and the store never exceeds the larger of its first size and twice the most
      it has had to hold. */
  lemma EveryRunIsFifo(size: nat, ops: seq<Op>)
    requires Possible(Start(size), ops)
    ensures var t := Run(Start(size), ops);
      && Valid(t.buf)
      && t.removed + Readable(t.buf) == t.added
      && |t.buf.store| <= Max(size, 2 * t.peak)
  {
    hide Next, Allowed;
    RunKeepsInv(Start(size), ops, size);
  }

  /** The bound is attained from every first size. */
  lemma CapacityAttained(s: string, u: string)
    requires |u| == |s| + 1
    ensures var ops := [AppendOp(s), RetrieveOp(|s|), AppendOp(u)];
      && Possible(Start(|s|), ops)
      && var t := Run(Start(|s|), ops); |t.buf.store| == 2 * t.peak && t.peak == |u|
  {
    var s0 := Start(|s|);
    var s1 := Next(s0, AppendOp(s));
    var s2 := Next(s1, RetrieveOp(|s|));
    var s3 := Next(s2, AppendOp(u));
    assert [AppendOp(s), RetrieveOp(|s|), AppendOp(u)][1..] == [RetrieveOp(|s|), AppendOp(u)];
    assert [RetrieveOp(|s|), AppendOp(u)][1..] == [AppendOp(u)];
    assert [AppendOp(u)][1..] == [];
    assert Possible(s3, []) && Run(s3, []) == s3;
    assert Possible(s2, [AppendOp(u)]) && Run(s2, [AppendOp(u)]) == s3;
    assert Possible(s1, [RetrieveOp(|s|), AppendOp(u)]) && Run(s1, [RetrieveOp(|s|), AppendOp(u)]) == s3;
  }
}
