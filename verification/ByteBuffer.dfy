/** The growable buffer as it stands in memory: one array, two positions, bytes moved in place. */
module ByteBuffer {

  import opened CStrings
  import R = BufferRuns

  class Buffer {
    var buffer: array<char>
    var readPos: nat
    var writePos: nat

    ghost function AsBuf(): R.Buf
      reads this, buffer
    {
      R.Buf(buffer[..], readPos, writePos)
    }

    ghost predicate Valid()
      reads this, buffer
    {
      R.Valid(AsBuf())
    }

    constructor (initBuffSize: nat)
      ensures Valid() && fresh(buffer) && AsBuf() == R.Start(initBuffSize).buf
    {
      buffer := new char[initBuffSize](_ => NUL);
      readPos, writePos := 0, 0;
    }

    function ReadableBytes(): nat
      requires Valid()
      reads this, buffer
      ensures ReadableBytes() == |R.Readable(AsBuf())|
    {
      writePos - readPos
    }

    function WritableBytes(): nat
      requires Valid()
      reads this, buffer
      ensures WritableBytes() == R.Writable(AsBuf())
    {
      buffer.Length - writePos
    }

    method Retrieve(len: nat)
      requires Valid() && len <= ReadableBytes()
      modifies this
      ensures Valid() && AsBuf() == R.Retrieve(old(AsBuf()), len) && buffer == old(buffer)
    {
      readPos := readPos + len;
    }

    /** `end` is the position in the array that the source's pointer has. */
    method RetrieveUntil(end: nat)
      requires Valid() && readPos <= end <= writePos
      modifies this
      ensures Valid() && AsBuf() == R.Retrieve(old(AsBuf()), end - old(readPos)) && buffer == old(buffer)
      ensures readPos == end
    {
      Retrieve(end - readPos);
    }

    method RetrieveAll()
      modifies this, buffer
      ensures Valid() && AsBuf() == R.RetrieveAll(old(AsBuf())) && buffer == old(buffer)
    {
      var i := 0;
      while i < buffer.Length
        invariant 0 <= i <= buffer.Length
        invariant forall k :: 0 <= k < i ==> buffer[k] == NUL
        modifies buffer
      {
        buffer[i] := NUL;
        i := i + 1;
      }
      readPos := 0;
      writePos := 0;
    }

    method RetrieveAllToStr() returns (str: string)
      requires Valid()
      modifies this, buffer
      ensures str == R.Readable(old(AsBuf()))
      ensures Valid() && AsBuf() == R.RetrieveAll(old(AsBuf())) && buffer == old(buffer)
    {
      str := buffer[readPos..writePos];
      RetrieveAll();
    }

    /** The caller has written len bytes at the write position. */
    method HasWritten(len: nat)
      requires Valid() && len <= WritableBytes()
      modifies this
      ensures Valid() && buffer == old(buffer) && readPos == old(readPos) && writePos == old(writePos) + len
    {
      writePos := writePos + len;
    }

    method Append(str: string)
      requires Valid()
      modifies this, buffer
      ensures Valid() && AsBuf() == R.Append(old(AsBuf()), str)
      ensures buffer == old(buffer) || fresh(buffer)
    {
      R.EnsureMeans(AsBuf(), |str|);
      EnsureWriteable(|str|);
      Copy(str);
    }

    /** What copies bytes to the write position and moves it. */
    method Copy(str: string)
      requires Valid() && |str| <= WritableBytes()
      modifies this, buffer
      ensures Valid() && AsBuf() == R.Fill(old(AsBuf()), str) && buffer == old(buffer)
    {
      var i := 0;
      while i < |str|
        invariant 0 <= i <= |str|
        invariant forall k :: 0 <= k < writePos || writePos + i <= k < buffer.Length ==> buffer[k] == old(buffer[k])
        invariant buffer[writePos..writePos + i] == str[..i]
        modifies buffer
      {
        buffer[writePos + i] := str[i];
        i := i + 1;
      }
      assert buffer[..writePos] == old(buffer[..writePos]);
      assert buffer[writePos + |str|..] == old(buffer[writePos + |str|..]);
      HasWritten(|str|);
    }

    /** From another buffer. */
    method AppendBuffer(buff: Buffer)
      requires Valid() && buff.Valid() && buff != this && buff.buffer != buffer
      modifies this, buffer
      ensures Valid() && AsBuf() == R.Append(old(AsBuf()), R.Readable(buff.AsBuf()))
      ensures buff.AsBuf() == old(buff.AsBuf())
      ensures buffer == old(buffer) || fresh(buffer)
    {
      Append(buff.buffer[buff.readPos..buff.writePos]);
    }

    method EnsureWriteable(len: nat)
      requires Valid()
      modifies this, buffer
      ensures Valid() && AsBuf() == R.Ensure(old(AsBuf()), len) && len <= WritableBytes()
      ensures buffer == old(buffer) || fresh(buffer)
    {
      R.EnsureMeans(AsBuf(), len);
      if WritableBytes() < len {
        MakeSpace(len);
      }
    }

    /** Ends with the readable bytes where they were, in a larger array, or at the front of the same
        one. The copy reads ahead of where it writes: there is always something before the read
        position then. */
    method MakeSpace(len: nat)
      requires Valid() && WritableBytes() < len
      modifies this, buffer
      ensures Valid() && AsBuf() == R.MakeSpace(old(AsBuf()), len)
      ensures buffer == old(buffer) || fresh(buffer)
    {
      if WritableBytes() + readPos < len {
        Resize(writePos + len + 1);
      } else {
        assert readPos > 0;
        Shift();
      }
    }

    /** std::copy of the readable bytes to the front. */
    method Shift()
      requires Valid()
      modifies this, buffer
      ensures Valid() && buffer == old(buffer)
      ensures AsBuf()
           == R.Buf(old(buffer[readPos..writePos] + buffer[writePos - readPos..]), 0, old(writePos - readPos))
    {
      var readable := ReadableBytes();
      var i := 0;
      while i < readable
        invariant 0 <= i <= readable
        invariant forall k :: 0 <= k < i ==> buffer[k] == old(buffer[readPos + k])
        invariant forall k :: i <= k < buffer.Length ==> buffer[k] == old(buffer[k])
        modifies buffer
      {
        buffer[i] := buffer[readPos + i];
        i := i + 1;
      }
      assert buffer[..readable] == old(buffer[readPos..writePos]);
      assert buffer[readable..] == old(buffer[writePos - readPos..]);
      assert buffer[..] == buffer[..readable] + buffer[readable..];
      readPos := 0;
      writePos := readPos + readable;
    }

    /** std::vector::resize to a larger size. */
    method Resize(size: nat)
      requires Valid() && buffer.Length <= size
      modifies this
      ensures Valid() && fresh(buffer) && readPos == old(readPos) && writePos == old(writePos)
      ensures buffer[..] == old(buffer[..]) + R.Zeros(size - old(buffer.Length))
    {
      var was := buffer;
      var grown := new char[size](_ => NUL);
      var i := 0;
      while i < was.Length
        invariant 0 <= i <= was.Length
        invariant grown[..] == was[..i] + R.Zeros(size - i)
        modifies grown
      {
        grown[i] := was[i];
        i := i + 1;
      }
      buffer := grown;
    }

    /** None is a readv that returns -1; otherwise what it delivers, in whatever amount. */
    method ReadFd(got: Option<string>) returns (len: int)
      requires Valid() && (got.Some? ==> |got.value| <= WritableBytes() + R.SPILL)
      modifies this, buffer
      ensures Valid() && AsBuf() == if got.None? then old(AsBuf()) else R.ReadFd(old(AsBuf()), got.value)
      ensures len == if got.None? then -1 else |got.value|
      ensures buffer == old(buffer) || fresh(buffer)
    {
      if got.None? {
        return -1;
      }
      var data := got.value;
      var writable := WritableBytes();
      len := |data|;
      if len <= writable {
        Copy(data);
      } else {
        Copy(data[..writable]);
        Append(data[writable..]);
      }
    }

    /** None is a write that returns -1; otherwise how many of the readable bytes it took. */
    method WriteFd(took: Option<nat>) returns (len: int)
      requires Valid() && (took.Some? ==> took.value <= ReadableBytes())
      modifies this
      ensures Valid() && AsBuf() == if took.None? then old(AsBuf()) else R.Retrieve(old(AsBuf()), took.value)
      ensures len == if took.None? then -1 else took.value
      ensures buffer == old(buffer)
    {
      if took.None? {
        return -1;
      }
      readPos := readPos + took.value;
      len := took.value;
    }
  }
}
