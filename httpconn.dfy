/**
 * One client connection (class HttpConn): the read loop into readBuff_, the request to
 * response step, and the vectored write of the response from two regions, the header
 * bytes in writeBuff_ (iov_[0]) and the mapped file (iov_[1]).
 * The socket is an input: what it holds to read, and how much it accepts before writes fail.
 */
module Connection {
  import opened Wrappers
  import opened Faults
  import opened ByteBuffer
  import opened HttpGrammar
  import opened Request
  import opened Response
  import opened Decimal

  /** Linux's EAGAIN: a non-blocking socket has nothing to read, or no room to write. */
  const EAGAIN: int := 11

  /** write() keeps looping in level-triggered mode while more than this many bytes remain. */
  const WRITE_LOOP_THRESHOLD: nat := 10240

  /** One iovec: where it starts within the memory it points into, and its length. */
  datatype IoVec = IoVec(base: nat, len: nat)

  /** The bytes an iovec covers within the memory it points into. */
  function Region(mem: seq<char>, v: IoVec): (s: seq<char>)
    requires v.base + v.len <= |mem|
    ensures |s| == v.len
  {
    mem[v.base..v.base + v.len]
  }

  /** Both iovecs lie within their memories: the write buffer's storage and the mapped file. */
  predicate InBounds(hdr: seq<char>, file: seq<char>, i0: IoVec, i1: IoVec, cnt: int) {
    i0.base + i0.len <= |hdr| && (cnt == 2 ==> i1.base + i1.len <= |file|)
  }

  /** The bytes writev(fd, iov_, iovCnt_) offers: the header region, then the file region if iovCnt_ is 2. */
  function Offered(hdr: seq<char>, file: seq<char>, i0: IoVec, i1: IoVec, cnt: int): (s: seq<char>)
    requires InBounds(hdr, file, i0, i1, cnt)
    ensures |s| == i0.len + (if cnt == 2 then i1.len else 0)
  {
    Region(hdr, i0) + (if cnt == 2 then Region(file, i1) else [])
  }

  /**
   * How write() moves the iovecs after writev took n bytes: past the header region into
   * the file region when n exceeds the header length, else within the header region.
   */
  function Advance(i0: IoVec, i1: IoVec, n: nat): (IoVec, IoVec)
    requires n <= i0.len + i1.len
  {
    if n > i0.len then (i0.(len := 0), IoVec(i1.base + (n - i0.len), i1.len - (n - i0.len)))
    else (IoVec(i0.base + n, i0.len - n), i1)
  }

  /**
   * Advancing by the count writev took leaves offered exactly the bytes not yet sent,
   * in order, and lowers toWriteBytes by that count.
   */
  lemma AdvanceDropsSent(hdr: seq<char>, file: seq<char>, i0: IoVec, i1: IoVec, cnt: int, n: nat)
    requires InBounds(hdr, file, i0, i1, cnt) && n <= |Offered(hdr, file, i0, i1, cnt)|
    ensures n <= i0.len + i1.len
    ensures var (j0, j1) := Advance(i0, i1, n);
      && j0.len + j1.len == i0.len + i1.len - n
      && InBounds(hdr, file, j0, j1, cnt)
      && Offered(hdr, file, j0, j1, cnt) == Offered(hdr, file, i0, i1, cnt)[n..]
  {
    var o := Offered(hdr, file, i0, i1, cnt);
    var (j0, j1) := Advance(i0, i1, n);
    if n > i0.len {
      assert cnt == 2;
      var f := Region(file, i1);
      assert o == Region(hdr, i0) + f;
      assert Region(file, j1) == f[n - i0.len..];
      assert o[n..] == f[n - i0.len..];
    } else {
      assert Region(hdr, j0) == Region(hdr, i0)[n..];
    }
  }

  /** Two advances in a row send what one advance by their sum sends. */
  lemma AdvanceTwice(hdr: seq<char>, file: seq<char>, i0: IoVec, i1: IoVec, cnt: int, a: nat, b: nat)
    requires InBounds(hdr, file, i0, i1, cnt) && a + b <= |Offered(hdr, file, i0, i1, cnt)|
    ensures a + b <= i0.len + i1.len && a <= i0.len + i1.len
    ensures var (j0, j1) := Advance(i0, i1, a);
      && b <= j0.len + j1.len && InBounds(hdr, file, j0, j1, cnt)
      && var (k0, k1) := Advance(j0, j1, b);
      && InBounds(hdr, file, k0, k1, cnt)
      && Offered(hdr, file, k0, k1, cnt) == Offered(hdr, file, i0, i1, cnt)[a + b..]
  {
    AdvanceDropsSent(hdr, file, i0, i1, cnt, a);
    var (j0, j1) := Advance(i0, i1, a);
    AdvanceDropsSent(hdr, file, j0, j1, cnt, b);
    DropTwice(Offered(hdr, file, i0, i1, cnt), a, b);
  }

  lemma DropTwice<T>(s: seq<T>, a: nat, b: nat)
    requires a + b <= |s|
    ensures s[a..][b..] == s[a + b..]
  {
  }

  /**
   * The readable side of the socket: the bytes it holds, and what readv reports once they
   * are used up, 0 (ReadBytes([])) when the peer closed or -1 with errno.
   */
  datatype Inbound = Inbound(data: seq<char>, end: ReadvResult)

  /** The writable side of the socket: how many bytes it accepts, then what writev reports. */
  datatype Outbound = Outbound(room: nat, end: WriteResult)

  /** What one readv offering n bytes of space returns from the socket. */
  function ReadCall(s: Inbound, n: nat): (r: ReadvResult)
    ensures r.ReadBytes? && s.data != [] ==> r.bytes == s.data[..if |s.data| <= n then |s.data| else n]
    ensures s.data == [] ==> r == s.end
  {
    if s.data == [] then s.end
    else ReadBytes(s.data[..if |s.data| <= n then |s.data| else n])
  }

  /** The response process() sets up before makeResponse, for a request parsed to `code`. */
  function ResponseFor(code: HttpCode, q: Req, srcDir: string, prev: Resp): Resp {
    match code
    case GetRequest => Resp(200, KeepAlive(q.header, q.version), q.path, srcDir, None, ZERO_STAT)
    case BadRequest => Resp(400, false, q.path, srcDir, None, ZERO_STAT)
    case _ => prev
  }

  /**
   * A request line the pattern rejects is answered 404 Not Found whenever the resource
   * directory exists: BAD_REQUEST leaves the path "" that init() set, and makeResponse
   * then stats the directory itself before the code 400 is looked at.
   */
  lemma {:induction false} BadLineAnswered404(line: string, rest: string, srcDir: string, prev: Resp, fs: Files, db: UserDb)
    requires NoLineBreak(line) && forall m, p, v :: !IsRequestLineOf(line, m, p, v)
    requires srcDir in fs.stat && fs.stat[srcDir].isDir
    ensures var o := ParseFrom(Fresh, line + ("\r\n" + rest), 0, db);
      && o == Success(Outcome(Fresh.(lineState := LineOk), BadRequest, |line| + 2))
      && ResponseFor(BadRequest, o.value.req, srcDir, prev).code == 400
      && Headed(ResponseFor(BadRequest, o.value.req, srcDir, prev), fs).code == 404
  {
    var input := line + ("\r\n" + rest);
    LineOfText(Fresh, line, rest);
    ParseFromRequestLine(Fresh, input, 0, db, line);
    RequestLineRejected(Fresh.(lineState := LineOk), line);
    assert srcDir + Fresh.path == srcDir;
  }

  /** A request line holds its three groups, two spaces and "HTTP/": ten bytes at least. */
  lemma RequestLineLength(line: string, m: string, p: string, v: string)
    ensures IsRequestLineOf(line, m, p, v) ==> |line| >= 10
  {
  }

  /** The line "BAD LINE" has one space, too few for a request line. */
  lemma BadLineRejected()
    ensures NoLineBreak("BAD LINE") && forall m, p, v :: !IsRequestLineOf("BAD LINE", m, p, v)
  {
    forall m, p, v
      ensures !IsRequestLineOf("BAD LINE", m, p, v)
    {
      RequestLineLength("BAD LINE", m, p, v);
    }
  }

  /** The status line addStateLine_ writes for 404. */
  lemma NotFoundLine()
    ensures StatusLine(404) == "HTTP/1.1 404 Not Found\r\n"
  {
    assert IntToString(404) == "404";
  }

  /** "BAD LINE\r\n\r\n" with an existing resource directory gets status line 404. */
  lemma BadLineExample(srcDir: string, prev: Resp, fs: Files, db: UserDb)
    requires srcDir in fs.stat && fs.stat[srcDir].isDir
    ensures var o := ParseFrom(Fresh, "BAD LINE\r\n\r\n", 0, db);
      && o.Success? && o.value.code == BadRequest
      && StatusLine(Headed(ResponseFor(BadRequest, o.value.req, srcDir, prev), fs).code) == "HTTP/1.1 404 Not Found\r\n"
  {
    BadLineRejected();
    BadLineAnswered404("BAD LINE", "\r\n", srcDir, prev, fs, db);
    assert "BAD LINE" + ("\r\n" + "\r\n") == "BAD LINE\r\n\r\n";
    NotFoundLine();
  }

  /** The status line addStateLine_ writes for 400. */
  lemma BadRequestLine()
    ensures StatusLine(400) == "HTTP/1.1 400 Bad Request\r\n"
  {
    assert IntToString(400) == "400";
  }

  /**
   * "BAD LINE\r\n\r\n" under the intended decision gets status line 400 and the 400 page,
   * whatever the resource directory is.
   */
  lemma BadLineIntended400(srcDir: string, prev: Resp, fs: Files, db: UserDb)
    ensures var o := ParseFrom(Fresh, "BAD LINE\r\n\r\n", 0, db);
      && o.Success? && o.value.code == BadRequest
      && var h := HeadedIntended(ResponseFor(BadRequest, o.value.req, srcDir, prev), fs);
      && StatusLine(h.code) == "HTTP/1.1 400 Bad Request\r\n" && h.path == "/400.html"
  {
    BadLineRejected();
    var input := "BAD LINE" + ("\r\n" + "\r\n");
    assert input == "BAD LINE\r\n\r\n";
    LineOfText(Fresh, "BAD LINE", "\r\n");
    ParseFromRequestLine(Fresh, input, 0, db, "BAD LINE");
    RequestLineRejected(Fresh.(lineState := LineOk), "BAD LINE");
    var o := ParseFrom(Fresh, input, 0, db);
    IntendedKeepsErrorCode(ResponseFor(BadRequest, o.value.req, srcDir, prev), fs);
    BadRequestLine();
  }

  /**
   * The bytes read() moves from a socket holding `data` into a buffer with `room` bytes of
   * space, overflow array included: all of them edge-triggered, what one readv takes otherwise.
   */
  ghost function Received(data: seq<char>, room: nat, isET: bool): seq<char> {
    if isET || |data| <= room then data else data[..room]
  }

  /**
   * What process() makes of the bytes buffered: no request at all when there are none,
   * otherwise a parse from a fresh request.
   */
  ghost function Parsed(input: seq<char>, db: UserDb): Result<Outcome, Fault> {
    if input == [] then Success(Outcome(Fresh, NoRequest, 0)) else ParseFrom(Fresh, input, 0, db)
  }

  /** The static members of HttpConn, shared by every connection. */
  class ConnStatics {
    var isET: bool
    var srcDir: string
    var userCount: int

    constructor (isET': bool, srcDir': string)
      ensures isET == isET' && srcDir == srcDir' && userCount == 0
    {
      isET, srcDir, userCount := isET', srcDir', 0;
    }
  }

  class HttpConn {
    var fd: int
    var isClose: bool
    var iovCnt: int
    var iov0: IoVec
    var iov1: IoVec
    const readBuff: Buffer
    const writeBuff: Buffer
    const request: HttpRequest
    const response: HttpResponse

    ghost predicate Valid()
      reads this, readBuff, writeBuff
    {
      readBuff != writeBuff && readBuff.Valid() && writeBuff.Valid()
    }

    /**
     * What write() relies on: iov_[0] over writeBuff_, and a second iovec that stays within
     * the mapped file.
     */
    ghost predicate ReadyToWrite()
      reads this, readBuff, writeBuff, response
    {
      Valid() && HeaderInBuffer() && (iovCnt == 2 ==> iov1.base + iov1.len <= response.FileLen())
    }

    /**
     * iov_[0] covers the unread bytes of writeBuff_, as process() sets it and write()
     * keeps it; an emptied header region may keep a stale base.
     */
    ghost predicate HeaderInBuffer()
      reads this, readBuff, writeBuff
      requires Valid()
    {
      iov0.len == writeBuff.ReadableBytes() && (iov0.len > 0 ==> iov0.base == writeBuff.readPos)
      && iov0.base <= |writeBuff.storage|
    }

    /** The listing of both iovecs' positions within their memories. */
    ghost predicate IovInBounds(file: seq<char>)
      reads this, writeBuff
    {
      InBounds(writeBuff.storage, file, iov0, iov1, iovCnt)
    }

    /** The bytes writev would offer now. */
    ghost function Pending(file: seq<char>): seq<char>
      reads this, writeBuff
      requires IovInBounds(file)
    {
      Offered(writeBuff.storage, file, iov0, iov1, iovCnt)
    }

    /** The constructor: no descriptor, closed, both buffers empty. */
    constructor ()
      ensures Valid() && fd == -1 && isClose && iovCnt == 0 && iov0 == IoVec(0, 0) && iov1 == IoVec(0, 0)
      ensures fresh(readBuff) && fresh(writeBuff) && fresh(request) && fresh(response)
      ensures readBuff.Contents() == [] && writeBuff.Contents() == []
      ensures request.View() == Fresh && response.View() == Resp(-1, false, "", "", None, ZERO_STAT)
    {
      fd := -1;
      isClose := true;
      iovCnt := 0;
      iov0, iov1 := IoVec(0, 0), IoVec(0, 0);
      readBuff := new Buffer(1024);
      writeBuff := new Buffer(1024);
      request := new HttpRequest();
      response := new HttpResponse();
    }

    /** init: take the accepted socket, count the user, empty both buffers and open. */
    method Init(st: ConnStatics, sockFd: int)
      requires Valid() && sockFd > 0
      modifies this, st, readBuff, writeBuff
      ensures Valid() && fd == sockFd && !isClose && st.userCount == old(st.userCount) + 1
      ensures readBuff.Contents() == [] && writeBuff.Contents() == []
      ensures st.isET == old(st.isET) && st.srcDir == old(st.srcDir)
      ensures iovCnt == old(iovCnt) && iov0 == old(iov0) && iov1 == old(iov1)
    {
      st.userCount := st.userCount + 1;
      fd := sockFd;
      writeBuff.RetrieveAll();
      readBuff.RetrieveAll();
      isClose := false;
    }

    /**
     * close: release the mapping; only the open to closed transition closes the socket
     * and uncounts the user, so a second close changes nothing more.
     */
    method Close(st: ConnStatics)
      modifies this, st, response
      ensures isClose && st.userCount == old(st.userCount) - (if old(isClose) then 0 else 1)
      ensures st.isET == old(st.isET) && st.srcDir == old(st.srcDir)
      ensures response.View() == old(response.View()).(mmFile := None)
      ensures fd == old(fd) && iovCnt == old(iovCnt) && iov0 == old(iov0) && iov1 == old(iov1)
    {
      response.UnmapFile();
      if !isClose {
        isClose := true;
        st.userCount := st.userCount - 1;
      }
    }

    function GetFd(): int
      reads this
    {
      fd
    }

    /** toWriteBytes: the lengths of both iovecs, whether or not iov_[1] is in use. */
    function ToWriteBytes(): (n: nat)
      reads this
      ensures n == iov0.len + iov1.len
    {
      iov0.len + iov1.len
    }

    /** isKeepAlive: the request's. */
    predicate IsKeepAlive()
      reads this, request
    {
      request.IsKeepAlive()
    }

    /**
     * One readFd on the socket: the bytes that fit in the writable tail plus the overflow
     * array, or, with the socket drained, what it reports then.  Returns what is left unread.
     */
    method ReadOnce(sock: Inbound) returns (len: int, err: Option<int>, left: seq<char>)
      requires Valid() && (sock.end.ReadBytes? ==> sock.end.bytes == [])
      modifies readBuff
      ensures Valid()
      ensures sock.data == [] ==>
        && left == [] && readBuff.Contents() == old(readBuff.Contents())
        && (sock.end.ReadBytes? ==> len == 0 && err == None)
        && (sock.end.ReadFailed? ==> len == -1 && err == Some(sock.end.errno))
      ensures sock.data != [] ==>
        var room := old(readBuff.WritableBytes()) + EXTRA_READ_SIZE;
        var k := if |sock.data| <= room then |sock.data| else room;
        && len == k > 0 && err == None && left == sock.data[k..]
        && readBuff.Contents() == old(readBuff.Contents()) + sock.data[..k]
    {
      var r := ReadCall(sock, readBuff.WritableBytes() + EXTRA_READ_SIZE);
      len, err := readBuff.ReadFd(r);
      left := if sock.data == [] then [] else sock.data[len..];
    }

    /**
     * read: readFd until a call returns at most 0 bytes, or once only when level-triggered.
     * Edge-triggered, every byte the socket holds ends up in readBuff_ in order and the
     * result is what the drained socket reports; level-triggered, one readv takes as much
     * as fits in the writable tail plus the overflow array.
     */
    method Read(st: ConnStatics, sock: Inbound) returns (len: int, err: Option<int>)
      requires Valid() && (sock.end.ReadBytes? ==> sock.end.bytes == [])
      modifies readBuff
      ensures Valid()
      ensures readBuff.Contents() == old(readBuff.Contents()) + Received(sock.data, old(readBuff.WritableBytes()) + EXTRA_READ_SIZE, st.isET)
      ensures st.isET ==> readBuff.Contents() == old(readBuff.Contents()) + sock.data
      ensures st.isET || sock.data == [] ==>
        (sock.end.ReadBytes? ==> len == 0 && err == None) && (sock.end.ReadFailed? ==> len == -1 && err == Some(sock.end.errno))
      ensures !st.isET && sock.data != [] ==>
        var room := old(readBuff.WritableBytes()) + EXTRA_READ_SIZE;
        var k := if |sock.data| <= room then |sock.data| else room;
        len == k && err == None && readBuff.Contents() == old(readBuff.Contents()) + sock.data[..k]
    {
      var left := sock.data;
      while true
        invariant Valid()
        invariant readBuff.Contents() + left == old(readBuff.Contents()) + sock.data
        invariant !st.isET ==> left == sock.data && unchanged(readBuff)
        decreases |left|
      {
        ghost var before := readBuff.Contents();
        var rest;
        len, err, rest := ReadOnce(Inbound(left, sock.end));
        if len <= 0 {
          return;
        }
        assert left == left[..len] + rest;
        left := rest;
        if !st.isET {
          return;
        }
      }
    }

    /** Whether a mapped file is to be sent: one is mapped and its length is not 0. */
    predicate SendsFile()
      reads response
    {
      response.File().Some? && response.FileLen() > 0
    }

    /**
     * What process() leaves for write(): iov_[0] over the unread bytes of writeBuff_, and
     * two iovecs exactly when a mapped file with a non-zero length follows, the second over
     * the whole file.
     */
    ghost predicate IovReady()
      reads this, readBuff, writeBuff, response
    {
      && Valid() && HeaderInBuffer()
      && iov0 == IoVec(writeBuff.readPos, writeBuff.ReadableBytes())
      && (SendsFile() ==> iovCnt == 2 && iov1 == IoVec(0, response.FileLen()))
      && (!SendsFile() ==> iovCnt == 1)
    }

    /** Point the iovecs at what makeResponse produced; iov_[1] is left as it was without a file. */
    method PointIov()
      requires Valid()
      modifies this
      ensures IovReady() && (!SendsFile() ==> iov1 == old(iov1)) && fd == old(fd)
    {
      iov0 := IoVec(writeBuff.readPos, writeBuff.ReadableBytes());
      iovCnt := 1;
      if SendsFile() {
        iov1 := IoVec(0, response.FileLen());
        iovCnt := 2;
      }
    }

    /**
     * What makeResponse and the iovecs leave once the response prepared as `prev` is
     * answered: the fields makeResponse decides, its bytes after what `before` held, and the
     * iovecs over them.
     */
    ghost predicate Answered(prev: Resp, fs: Files, before: seq<char>)
      reads this, readBuff, writeBuff, response
    {
      IovReady() && Made(prev, fs, before)
    }

    /** What makeResponse leaves: the fields it decides, and its bytes after what `before` held. */
    ghost predicate Made(prev: Resp, fs: Files, before: seq<char>)
      reads writeBuff, response
    {
      && writeBuff.Valid()
      && response.View() == RespondState(prev, fs)
      && writeBuff.Contents() == before + RespondText(prev, fs)
    }

    /** The tail of process(): makeResponse into writeBuff_, then the iovecs. */
    method Respond(fs: Files)
      requires Valid()
      modifies this, writeBuff, response
      ensures Answered(old(response.View()), fs, old(writeBuff.Contents()))
      ensures !SendsFile() ==> iov1 == old(iov1)
      ensures fd == old(fd)
    {
      response.MakeResponse(writeBuff, fs);
      assert Made(old(response.View()), fs, old(writeBuff.Contents()));
      PointIov();
    }

    /** The switch in process(): GET answers 200 with the request's keep-alive flag, BAD 400 without. */
    method Prepare(code: HttpCode, srcDir: string)
      requires Valid() && srcDir != ""
      modifies response
      ensures response.View() == ResponseFor(code, request.View(), srcDir, old(response.View()))
    {
      match code {
        case GetRequest =>
          response.Init(srcDir, request.path, request.IsKeepAlive(), 200);
        case BadRequest =>
          response.Init(srcDir, request.path, false, 400);
        case _ =>
      }
    }

    /**
     * process: a fresh request; with nothing buffered, or an incomplete request, there is
     * nothing to send.  GET answers 200 with the request's keep-alive flag, BAD answers 400
     * without keep-alive; the response is appended to writeBuff_, iov_[0] covers it and
     * iov_[1] the mapped file when there is one with a non-zero length.
     */
    method Process(st: ConnStatics, db: UserDb, fs: Files) returns (res: Result<bool, Fault>)
      requires Valid() && st.srcDir != ""
      modifies this, readBuff, writeBuff, request, response
      ensures Valid() && fd == old(fd)
      ensures var p := Parsed(old(readBuff.Contents()), db);
        && (res.Failure? <==> p.Failure?) && (p.Failure? ==> res.error == p.error)
        && (p.Success? ==> (res.value <==> p.value.code != NoRequest))
      ensures var p := Parsed(old(readBuff.Contents()), db);
        && (p.Failure? ==> res == Failure(p.error))
        && (p.Success? ==> request.View() == p.value.req && readBuff.Contents() == old(readBuff.Contents())[p.value.consumed..])
        && (p.Success? && p.value.code == NoRequest ==>
              && res == Success(false) && unchanged(writeBuff, response)
              && iovCnt == old(iovCnt) && iov0 == old(iov0) && iov1 == old(iov1))
        && (p.Success? && p.value.code != NoRequest ==>
              && res == Success(true)
              && Answered(ResponseFor(p.value.code, p.value.req, st.srcDir, old(response.View())), fs, old(writeBuff.Contents()))
              && (!SendsFile() ==> iov1 == old(iov1)))
    {
      request.Init();
      if readBuff.ReadableBytes() <= 0 {
        return Success(false);
      }
      var code := request.Parse(readBuff, db);
      if code.Failure? {
        return Failure(code.error);
      }
      if code.value == NoRequest {
        return Success(false);
      }
      Prepare(code.value, st.srcDir);
      Respond(fs);
      return Success(true);
    }

    /** The state write() works in: both buffers sound, iov_[0] over writeBuff_, both iovecs in bounds. */
    ghost predicate Sending(file: seq<char>)
      reads this, readBuff, writeBuff
    {
      Valid() && HeaderInBuffer() && IovInBounds(file)
    }

    /**
     * The bookkeeping of write() after writev took n bytes: past the header region into the
     * file region, emptying writeBuff_, or forward within the header region.
     */
    method Consume(n: nat, ghost file: seq<char>)
      requires Sending(file) && n <= |Pending(file)|
      modifies this, writeBuff
      ensures Sending(file) && iovCnt == old(iovCnt) && fd == old(fd)
      ensures (iov0.len, iov1) == (Advance(old(iov0), old(iov1), n).0.len, Advance(old(iov0), old(iov1), n).1)
      ensures Pending(file) == old(Pending(file))[n..]
      ensures ToWriteBytes() == old(ToWriteBytes()) - n
    {
      ghost var hdr := writeBuff.storage;
      AdvanceDropsSent(hdr, file, iov0, iov1, iovCnt, n);
      if n > iov0.len {
        iov1 := IoVec(iov1.base + (n - iov0.len), iov1.len - (n - iov0.len));
        if iov0.len > 0 {
          writeBuff.RetrieveAll();
          iov0 := iov0.(len := 0);
        }
      } else {
        iov0 := IoVec(iov0.base + n, iov0.len - n);
        writeBuff.Retrieve(n);
      }
    }

    /**
     * One writev on a socket with `room` bytes of space: nothing offered returns 0, a full
     * socket returns -1 with its errno, otherwise as many bytes as fit are sent.
     */
    method WriteOnce(room: nat, end: WriteResult, ghost file: seq<char>) returns (len: int, err: Option<int>, n: nat)
      requires Sending(file) && end.WriteFailed?
      modifies this, writeBuff
      ensures Sending(file) && iovCnt == old(iovCnt) && fd == old(fd)
      ensures n <= |old(Pending(file))| && n <= room
      ensures Pending(file) == old(Pending(file))[n..]
      ensures ToWriteBytes() == old(ToWriteBytes()) - n
      ensures old(Pending(file)) == [] ==> len == 0 && err == None
      ensures old(Pending(file)) != [] && room == 0 ==> len == -1 && err == Some(end.errno) && n == 0
      ensures old(Pending(file)) != [] && room > 0 ==>
        len == n > 0 && err == None && n == (if |old(Pending(file))| <= room then |old(Pending(file))| else room)
    {
      var offered: nat := iov0.len + (if iovCnt == 2 then iov1.len else 0);
      if offered == 0 {
        return 0, None, 0;
      }
      if room == 0 {
        return -1, Some(end.errno), 0;
      }
      n := if offered <= room then offered else room;
      Consume(n, file);
      len, err := n, None;
    }

    /**
     * write: writev until a call returns at most 0 bytes, or, level-triggered, until some
     * but at most WRITE_LOOP_THRESHOLD bytes remain.  The peer receives the first `sent`
     * bytes writev offered, in order; what stays offered is exactly the rest, and
     * toWriteBytes drops by `sent`.
     */
    method Write(st: ConnStatics, peer: Outbound, ghost file: seq<char>) returns (len: int, err: Option<int>, sent: nat)
      requires Sending(file) && peer.end.WriteFailed?
      modifies this, writeBuff
      ensures Sending(file) && iovCnt == old(iovCnt) && fd == old(fd)
      ensures sent <= |old(Pending(file))| && sent <= peer.room
      ensures Pending(file) == old(Pending(file))[sent..]
      ensures ToWriteBytes() == old(ToWriteBytes()) - sent
      ensures len > 0 ==> !st.isET && 0 < ToWriteBytes() <= WRITE_LOOP_THRESHOLD && err == None
      ensures len == 0 ==> Pending(file) == [] && err == None
      ensures len < 0 ==> sent == peer.room && Pending(file) != [] && len == -1 && err == Some(peer.end.errno)
      ensures st.isET ==> len <= 0
    {
      sent := 0;
      while true
        invariant Sending(file) && iovCnt == old(iovCnt) && fd == old(fd)
        invariant sent <= |old(Pending(file))| && sent <= peer.room
        invariant Pending(file) == old(Pending(file))[sent..]
        invariant ToWriteBytes() == old(ToWriteBytes()) - sent
        decreases ToWriteBytes()
      {
        var n;
        len, err, n := WriteOnce(peer.room - sent, peer.end, file);
        DropTwice(old(Pending(file)), sent, n);
        sent := sent + n;
        if len <= 0 {
          return;
        }
        if !(st.isET || ToWriteBytes() > WRITE_LOOP_THRESHOLD || ToWriteBytes() == 0) {
          return;
        }
      }
    }
  }
}
