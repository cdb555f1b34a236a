/**
 * The growable byte buffer that every socket read and write goes through (class Buffer).
 * The storage is a std::vector<char>; bytes [readPos, writePos) are the unread data,
 * bytes before readPos are already consumed and may be reclaimed by compaction.
 */
module ByteBuffer {
  import opened Wrappers

  /** Size of the on-stack overflow array of readFd's scatter read. */
  const EXTRA_READ_SIZE: nat := 65535

  /** Storage as std::vector value-initialises it: n NUL bytes. */
  function Zeros(n: nat): (s: seq<char>)
    ensures |s| == n && forall i :: 0 <= i < n ==> s[i] == '\0'
  {
    seq(n, _ => '\0')
  }

  /** What one readv call reported: the bytes it stored, or -1 with errno. */
  datatype ReadvResult = ReadBytes(bytes: seq<char>) | ReadFailed(errno: int)

  /** What one write call reported: the number of bytes the kernel took, or -1 with errno. */
  datatype WriteResult = Wrote(count: nat) | WriteFailed(errno: int)

  class Buffer {
    var storage: seq<char>
    var readPos: nat
    var writePos: nat

    ghost predicate Valid()
      reads this
    {
      readPos <= writePos <= |storage|
    }

    /** The unread bytes, the ones peek() points at. */
    function Contents(): (s: seq<char>)
      reads this
      requires Valid()
      ensures |s| == writePos - readPos
    {
      storage[readPos..writePos]
    }

    function Capacity(): nat
      reads this
    {
      |storage|
    }

    function ReadableBytes(): (n: nat)
      reads this
      requires Valid()
      ensures n == |Contents()|
    {
      writePos - readPos
    }

    function WritableBytes(): (n: nat)
      reads this
      requires Valid()
      ensures n + writePos == Capacity()
    {
      |storage| - writePos
    }

    function PrependableBytes(): (n: nat)
      reads this
      requires Valid()
      ensures n + ReadableBytes() == writePos
    {
      readPos
    }

    /** Buffer(int initBufSize = 1024): a zero-filled vector and both cursors at 0. */
    constructor (initBufSize: nat)
      ensures Valid() && storage == Zeros(initBufSize)
      ensures readPos == 0 && writePos == 0 && Contents() == []
    {
      storage := Zeros(initBufSize);
      readPos, writePos := 0, 0;
    }

    /**
     * makeSpace_: grow the vector to writePos + len + 1 when the consumed prefix and the
     * writable tail together are too small, otherwise move the unread bytes to the front.
     */
    method MakeSpace(len: nat)
      requires Valid()
      modifies this
      ensures Valid() && Contents() == old(Contents()) && WritableBytes() >= len
      ensures old(PrependableBytes() + WritableBytes()) < len ==>
        && storage == old(storage) + Zeros(old(writePos) + len + 1 - old(|storage|))
        && readPos == old(readPos) && writePos == old(writePos)
      ensures old(PrependableBytes() + WritableBytes()) >= len ==>
        && readPos == 0 && writePos == old(ReadableBytes())
        && storage == old(Contents()) + old(storage)[old(ReadableBytes())..]
    {
      if PrependableBytes() + WritableBytes() < len {
        // vector::resize to a larger size appends value-initialised bytes
        storage := storage + Zeros(writePos + len + 1 - |storage|);
      } else {
        var readable := ReadableBytes();
        var unread := storage[readPos..writePos];
        storage := unread + storage[readable..];
        readPos := 0;
        writePos := readable;
      }
    }

    /** ensureWritable: afterwards at least len bytes can be written without moving data. */
    method EnsureWritable(len: nat)
      requires Valid()
      modifies this
      ensures Valid() && Contents() == old(Contents()) && WritableBytes() >= len
      ensures old(WritableBytes()) >= len ==> storage == old(storage) && readPos == old(readPos) && writePos == old(writePos)
      ensures old(WritableBytes()) < len && old(PrependableBytes() + WritableBytes()) < len ==>
        && storage == old(storage) + Zeros(old(writePos) + len + 1 - old(|storage|))
        && readPos == old(readPos) && writePos == old(writePos)
      ensures old(WritableBytes()) < len && old(PrependableBytes() + WritableBytes()) >= len ==>
        && readPos == 0 && writePos == old(ReadableBytes())
        && storage == old(Contents()) + old(storage)[old(ReadableBytes())..]
    {
      if len <= WritableBytes() {
        return;
      }
      MakeSpace(len);
    }

    /** retrieve(len): consume the first len unread bytes; nothing else changes. */
    method Retrieve(len: nat)
      requires Valid() && len <= ReadableBytes()
      modifies this
      ensures Valid() && Contents() == old(Contents())[len..]
      ensures storage == old(storage) && writePos == old(writePos) && readPos == old(readPos) + len
    {
      readPos := readPos + len;
    }

    /** retrieveUntil(end), with the end pointer given as an index into the storage. */
    method RetrieveUntil(end: nat)
      requires Valid() && readPos <= end <= writePos
      modifies this
      ensures Valid() && Contents() == old(storage)[end..old(writePos)]
      ensures storage == old(storage) && writePos == old(writePos) && readPos == end
    {
      Retrieve(end - readPos);
    }

    /** retrieveAll: zero the whole storage and reset both cursors; the capacity stays. */
    method RetrieveAll()
      requires Valid()
      modifies this
      ensures Valid() && Contents() == []
      ensures storage == Zeros(old(|storage|)) && readPos == 0 && writePos == 0
    {
      storage := Zeros(|storage|);
      readPos, writePos := 0, 0;
    }

    /** retrieveAllToString: the unread bytes, then retrieveAll. */
    method RetrieveAllToString() returns (s: string)
      requires Valid()
      modifies this
      ensures s == old(Contents())
      ensures Valid() && storage == Zeros(old(|storage|)) && readPos == 0 && writePos == 0
    {
      s := Contents();
      RetrieveAll();
    }

    /** hasWritten(len): len bytes already stored at beginWrite() become unread data. */
    method HasWritten(len: nat)
      requires Valid() && writePos + len <= |storage|
      modifies this
      ensures Valid() && Contents() == old(Contents()) + old(storage)[old(writePos)..old(writePos) + len]
      ensures storage == old(storage) && readPos == old(readPos) && writePos == old(writePos) + len
    {
      writePos := writePos + len;
    }

    /** append(str, len): the unread bytes become the old ones followed by str. */
    method Append(str: seq<char>)
      requires Valid()
      modifies this
      ensures Valid() && Contents() == old(Contents()) + str
      ensures old(WritableBytes()) >= |str| ==> |storage| == old(|storage|) && readPos == old(readPos)
      ensures old(WritableBytes()) < |str| && old(PrependableBytes() + WritableBytes()) < |str| ==>
        |storage| == old(writePos) + |str| + 1 && readPos == old(readPos)
      ensures old(WritableBytes()) < |str| && old(PrependableBytes() + WritableBytes()) >= |str| ==>
        |storage| == old(|storage|) && readPos == 0
    {
      EnsureWritable(|str|);
      ghost var before := Contents();
      storage := storage[..writePos] + str + storage[writePos + |str|..];
      assert storage[readPos..writePos] == before;
      HasWritten(|str|);
    }

    /** append(const Buffer&): the other buffer's unread bytes; the other buffer is not changed. */
    method AppendBuffer(other: Buffer)
      requires Valid() && other.Valid() && other != this
      modifies this
      ensures Valid() && Contents() == old(Contents()) + other.Contents()
    {
      Append(other.Contents());
    }

    /**
     * readFd: one scatter read into the writable tail and the 65535-byte overflow array.
     * The readv outcome is the input; a read never returns more than the two regions hold.
     */
    method ReadFd(r: ReadvResult) returns (len: int, err: Option<int>)
      requires Valid()
      requires r.ReadBytes? ==> |r.bytes| <= WritableBytes() + EXTRA_READ_SIZE
      modifies this
      ensures Valid()
      ensures r.ReadBytes? ==> len == |r.bytes| && err == None && Contents() == old(Contents()) + r.bytes
      ensures r.ReadBytes? && |r.bytes| <= old(WritableBytes()) ==> |storage| == old(|storage|) && readPos == old(readPos)
      ensures r.ReadBytes? && |r.bytes| > old(WritableBytes()) ==>
        var rest := |r.bytes| - old(WritableBytes());
        && (old(readPos) < rest ==> |storage| == old(|storage|) + rest + 1 && readPos == old(readPos))
        && (old(readPos) >= rest ==> |storage| == old(|storage|) && readPos == 0)
      ensures r.ReadFailed? ==> len == -1 && err == Some(r.errno)
      ensures r.ReadFailed? ==> storage == old(storage) && readPos == old(readPos) && writePos == old(writePos)
    {
      if r.ReadFailed? {
        return -1, Some(r.errno);
      }
      var writable := WritableBytes();
      var bytes := r.bytes;
      len, err := |bytes|, None;
      // readv fills the writable tail first, the overflow array with the rest
      var k := if |bytes| <= writable then |bytes| else writable;
      storage := storage[..writePos] + bytes[..k] + storage[writePos + k..];
      assert storage[writePos..writePos + k] == bytes[..k];
      ghost var before := old(Contents());
      assert storage[readPos..writePos] == before;
      HasWritten(k);
      if |bytes| > writable {
        Append(bytes[k..]);
      }
      assert bytes[..k] + bytes[k..] == bytes;
    }

    /** writefd: one write of all unread bytes; the count the kernel took is the input. */
    method WriteFd(w: WriteResult) returns (len: int, err: Option<int>)
      requires Valid()
      requires w.Wrote? ==> w.count <= ReadableBytes()
      modifies this
      ensures Valid() && storage == old(storage) && writePos == old(writePos)
      ensures w.Wrote? ==> len == w.count && err == None && readPos == old(readPos) + w.count
      ensures w.Wrote? ==> Contents() == old(Contents())[w.count..]
      ensures w.WriteFailed? ==> len == -1 && err == Some(w.errno) && readPos == old(readPos)
    {
      if w.WriteFailed? {
        return -1, Some(w.errno);
      }
      len, err := w.count, None;
      readPos := readPos + w.count;
    }
  }

  /** The consumed prefix, the unread bytes and the writable tail partition the storage. */
  lemma CursorsPartitionStorage(b: Buffer)
    requires b.Valid()
    ensures b.PrependableBytes() + b.ReadableBytes() + b.WritableBytes() == b.Capacity()
  {
  }

  /**
   * The buffer scenario of the repository's unit test: a 16-byte buffer reads 13 bytes,
   * 16 more are appended (the storage grows to 30), all 29 are written out, then a read of
   * 4 bytes overflows the 1-byte tail and compacts.
   */
  method BufferTestSequence() returns (r1: nat, w1: nat, p1: nat, r2: nat, w2: nat, p2: nat)
    ensures r1 == 0 && w1 == 1 && p1 == 29
    ensures r2 == 4 && w2 == 26 && p2 == 0
  {
    var buf := new Buffer(16);
    var n, e := buf.ReadFd(ReadBytes("hello, world."));
    assert n == 13 && buf.ReadableBytes() == 13 && buf.Capacity() == 16;
    buf.Append("kiko is the best");
    assert buf.ReadableBytes() == 29 && buf.Capacity() == 30;
    n, e := buf.WriteFd(Wrote(29));
    r1, w1, p1 := buf.ReadableBytes(), buf.WritableBytes(), buf.PrependableBytes();
    n, e := buf.ReadFd(ReadBytes("good"));
    assert buf.Contents() == "good";
    r2, w2, p2 := buf.ReadableBytes(), buf.WritableBytes(), buf.PrependableBytes();
  }
}
