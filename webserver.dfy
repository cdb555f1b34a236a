/**
 * The reactor (class WebServer): the port check and the trigger-mode flags set up at
 * construction, and the main loop's decisions: which handler an epoll event goes to, who is
 * admitted on the listening socket, when timers are registered and extended, and whether a
 * connection is re-armed for reading, re-armed for writing, re-processed or closed.
 *
 * epoll itself is an input: each round brings the clock and the events epoll_wait returned,
 * and each event brings what the sockets hold (the accept queue, the bytes to read, the room
 * to write).  The interest list that addFd/modFd/delFd maintain is the field `armed`.
 * Worker tasks run to completion in the order they are queued.
 */
module Server {
  import opened Wrappers
  import opened Faults
  import opened ByteBuffer
  import opened Request
  import opened Response
  import opened Timer
  import opened Connection

  // The Linux values of the epoll event bits the server uses.
  const EPOLLIN: bv32 := 0x001
  const EPOLLOUT: bv32 := 0x004
  const EPOLLERR: bv32 := 0x008
  const EPOLLHUP: bv32 := 0x010
  const EPOLLRDHUP: bv32 := 0x2000
  const EPOLLONESHOT: bv32 := 0x4000_0000
  const EPOLLET: bv32 := 0x8000_0000

  /** Events that mean the peer is gone or the socket failed. */
  const HANGUP: bv32 := EPOLLRDHUP | EPOLLHUP | EPOLLERR

  /** The most connections the server admits (MAX_FD in webserver.h). */
  const MAX_FD: int := 65536

  /** The ports the constructor accepts. */
  predicate PortInRange(port: int) {
    1024 <= port <= 65535
  }

  /**
   * The flags initEventMode_ settles for a trigger mode: the listener always asks for
   * EPOLLRDHUP and a connection for EPOLLONESHOT|EPOLLRDHUP; connections are edge-triggered
   * in every mode but 0 and 2, the listener in every mode but 0 and 1; no other bit is set.
   */
  predicate ModeFlags(trigMode: int, listen: bv32, conn: bv32) {
    && conn & (EPOLLONESHOT | EPOLLRDHUP) == EPOLLONESHOT | EPOLLRDHUP
    && listen & EPOLLRDHUP == EPOLLRDHUP
    && (conn & EPOLLET != 0 <==> trigMode != 0 && trigMode != 2)
    && (listen & EPOLLET != 0 <==> trigMode != 0 && trigMode != 1)
    && conn & !(EPOLLONESHOT | EPOLLRDHUP | EPOLLET) == 0
    && listen & !(EPOLLRDHUP | EPOLLET) == 0
  }

  /** The four words initEventMode_ can produce, and the modes that produce each. */
  lemma FlagsOf(trigMode: int, listen: bv32, conn: bv32)
    requires listen == EPOLLRDHUP || listen == EPOLLRDHUP | EPOLLET
    requires conn == EPOLLONESHOT | EPOLLRDHUP || conn == EPOLLONESHOT | EPOLLRDHUP | EPOLLET
    requires conn == EPOLLONESHOT | EPOLLRDHUP | EPOLLET <==> trigMode != 0 && trigMode != 2
    requires listen == EPOLLRDHUP | EPOLLET <==> trigMode != 0 && trigMode != 1
    ensures ModeFlags(trigMode, listen, conn)
  {
  }

  /** The flags name one pair of words: nothing about them is left open. */
  lemma ModeFlagsDetermine(trigMode: int, l1: bv32, c1: bv32, l2: bv32, c2: bv32)
    requires ModeFlags(trigMode, l1, c1) && ModeFlags(trigMode, l2, c2)
    ensures l1 == l2 && c1 == c2
  {
  }

  /** The events modFd re-arms a connection with: EPOLLOUT when a response waits, else EPOLLIN. */
  function Rearm(conn: bv32, writing: bool): bv32 {
    conn | (if writing then EPOLLOUT else EPOLLIN)
  }

  /** Re-arming asks for writing exactly when a response waits, given flags without either bit. */
  lemma RearmWritable(conn: bv32, writing: bool)
    requires conn & (EPOLLIN | EPOLLOUT) == 0
    ensures (Rearm(conn, writing) & EPOLLOUT != 0) == writing
  {
  }

  /** Where start() sends an event. */
  datatype Route = Accept | Hangup | ReadReady | WriteReady | Unexpected

  /**
   * The dispatch in start(): the listening socket first, then a hang-up or error, then
   * readability, then writability.
   */
  function RouteOf(fd: int, events: bv32, listenFd: int): (r: Route)
    ensures fd == listenFd ==> r == Accept
    ensures fd != listenFd && events & HANGUP != 0 ==> r == Hangup
    ensures r == ReadReady <==> fd != listenFd && events & HANGUP == 0 && events & EPOLLIN != 0
    ensures r == WriteReady <==>
      fd != listenFd && events & (HANGUP | EPOLLIN) == 0 && events & EPOLLOUT != 0
    ensures r == Unexpected <==> fd != listenFd && events & (HANGUP | EPOLLIN | EPOLLOUT) == 0
  {
    if fd == listenFd then Accept
    else if events & HANGUP != 0 then Hangup
    else if events & EPOLLIN != 0 then ReadReady
    else if events & EPOLLOUT != 0 then WriteReady
    else Unexpected
  }

  /**
   * dealListen_'s admission of an accept queue: the descriptors admitted and the one turned
   * away as "Server busy!", starting from `count` users.  A negative descriptor (the queue
   * is empty) ends it, reaching MAX_FD users turns the next one away, and a level-triggered
   * listener takes one descriptor per event.
   */
  function Admission(accepts: seq<int>, count: int, et: bool): (r: (seq<int>, Option<int>))
    decreases |accepts|
  {
    if accepts == [] || accepts[0] < 0 then ([], None)
    else if count >= MAX_FD then ([], Some(accepts[0]))
    else if !et then ([accepts[0]], None)
    else
      var (rest, busy) := Admission(accepts[1..], count + 1, et);
      ([accepts[0]] + rest, busy)
  }

  /**
   * What admission promises: the admitted descriptors are a prefix of the queue, none is
   * negative, the user count never passes MAX_FD on their account, a busy answer comes only
   * at the limit, and a level-triggered listener admits at most one.
   */
  lemma {:induction false} AdmissionBounds(accepts: seq<int>, count: int, et: bool)
    ensures var (adm, busy) := Admission(accepts, count, et);
      && adm <= accepts
      && (forall k :: 0 <= k < |adm| ==> adm[k] >= 0)
      && (count <= MAX_FD ==> count + |adm| <= MAX_FD)
      && (busy.Some? ==> count + |adm| >= MAX_FD && |adm| < |accepts| && busy.value == accepts[|adm|] >= 0)
      && (!et ==> |adm| <= 1)
    decreases |accepts|
  {
    if accepts == [] || accepts[0] < 0 || count >= MAX_FD || !et {
    } else {
      AdmissionBounds(accepts[1..], count + 1, et);
      var (rest, busy) := Admission(accepts[1..], count + 1, et);
      assert accepts == [accepts[0]] + accepts[1..];
    }
  }

  /**
   * Under the limit with an edge-triggered listener, the whole queue up to the first
   * negative descriptor is admitted.
   */
  lemma {:induction false} AdmissionDrainsQueue(accepts: seq<int>, count: int)
    requires forall k :: 0 <= k < |accepts| ==> accepts[k] >= 0
    requires count + |accepts| <= MAX_FD
    ensures Admission(accepts, count, true) == (accepts, None)
    decreases |accepts|
  {
    if accepts != [] {
      AdmissionDrainsQueue(accepts[1..], count + 1);
      assert accepts == [accepts[0]] + accepts[1..];
    }
  }

  /** Where admission stands at position i of the queue with `count` users. */
  lemma AdmissionAt(accepts: seq<int>, i: nat, count: int, et: bool)
    requires i <= |accepts|
    ensures i == |accepts| || accepts[i] < 0 ==> Admission(accepts[i..], count, et) == ([], None)
    ensures i < |accepts| && accepts[i] >= 0 && count >= MAX_FD ==>
      Admission(accepts[i..], count, et) == ([], Some(accepts[i]))
    ensures i < |accepts| && accepts[i] >= 0 && count < MAX_FD && !et ==>
      Admission(accepts[i..], count, et) == ([accepts[i]], None)
    ensures i < |accepts| && accepts[i] >= 0 && count < MAX_FD && et ==>
      Admission(accepts[i..], count, et) ==
      ([accepts[i]] + Admission(accepts[i + 1..], count + 1, et).0, Admission(accepts[i + 1..], count + 1, et).1)
  {
    if i < |accepts| {
      assert accepts[i..][1..] == accepts[i + 1..];
    }
  }

  /**
   * After `i` admissions from a queue that started at `count` users: the admitted ones are
   * the first `i`, and the rest of the admission is that of the rest of the queue, unless a
   * level-triggered listener has had its one admission.
   */
  ghost predicate AdmittedSoFar(accepts: seq<int>, count: int, et: bool, i: nat)
    requires i <= |accepts|
  {
    && (i <= 1 || et)
    && (i == 0 || et ==>
      && Admission(accepts, count, et).0 == accepts[..i] + Admission(accepts[i..], count + i, et).0
      && Admission(accepts, count, et).1 == Admission(accepts[i..], count + i, et).1)
    && (i == 1 && !et ==> Admission(accepts, count, et) == (accepts[..1], None))
  }

  /** Admitting the next descriptor of the queue moves admission one place on. */
  lemma AdmitNext(accepts: seq<int>, count: int, et: bool, i: nat)
    requires i < |accepts| && AdmittedSoFar(accepts, count, et, i)
    requires accepts[i] >= 0 && count + i < MAX_FD && (i == 0 || et)
    ensures AdmittedSoFar(accepts, count, et, i + 1)
  {
    AdmissionAt(accepts, i, count + i, et);
    assert accepts[..i + 1] == accepts[..i] + [accepts[i]];
    if i == 0 {
      assert accepts[0..] == accepts;
    }
  }

  /**
   * Where admission stops: the first `i` descriptors are admitted, and the next is turned
   * away exactly when it is a descriptor that would have been taken but for the limit.
   */
  lemma AdmissionStopped(accepts: seq<int>, count: int, et: bool, i: nat)
    requires i <= |accepts| && AdmittedSoFar(accepts, count, et, i)
    requires !(i < |accepts| && accepts[i] >= 0 && count + i < MAX_FD && (i == 0 || et))
    ensures Admission(accepts, count, et).0 == accepts[..i]
    ensures Admission(accepts, count, et).1 ==
      if i < |accepts| && accepts[i] >= 0 && (i == 0 || et) then Some(accepts[i]) else None
  {
    AdmissionAt(accepts, i, count + i, et);
    assert accepts[..i] + [] == accepts[..i];
  }

  /** One more descriptor registered and timed, and seen. */
  lemma Appended(a: map<int, bv32>, s: map<int, TimerNode>, fds: seq<int>, fd: int, ev: bv32, due: int)
    ensures Registered(a, fds + [fd], ev) == Registered(a, fds, ev)[fd := ev]
    ensures Timed(s, fds + [fd], due) == Timed(s, fds, due)[fd := TimerNode(fd, due, fd)]
    ensures (set x | x in fds + [fd]) == (set x | x in fds) + {fd}
  {
    assert (fds + [fd])[..|fds|] == fds;
  }

  /** The interest list after registering each descriptor of `fds`, in order, with `ev`. */
  ghost function Registered(a: map<int, bv32>, fds: seq<int>, ev: bv32): map<int, bv32>
    decreases |fds|
  {
    if fds == [] then a else Registered(a, fds[..|fds| - 1], ev)[fds[|fds| - 1] := ev]
  }

  /** Registering a queue of descriptors: every one of them holds `ev`, every other keeps its events. */
  lemma {:induction false} RegisteredIs(a: map<int, bv32>, fds: seq<int>, ev: bv32)
    ensures Registered(a, fds, ev) == map fd | fd in a.Keys + (set x | x in fds) :: if fd in fds then ev else a[fd]
    decreases |fds|
  {
    if fds != [] {
      var init := fds[..|fds| - 1];
      RegisteredIs(a, init, ev);
      assert fds == init + [fds[|fds| - 1]];
    }
  }

  /** The schedule after a timer due at `due` is added, in order, for each descriptor of `fds`. */
  ghost function Timed(s: map<int, TimerNode>, fds: seq<int>, due: int): map<int, TimerNode>
    decreases |fds|
  {
    if fds == [] then s else Timed(s, fds[..|fds| - 1], due)[fds[|fds| - 1] := TimerNode(fds[|fds| - 1], due, fds[|fds| - 1])]
  }

  /** Adding timers for a queue of descriptors: each is due at `due` and closes itself; the rest stay. */
  lemma {:induction false} TimedIs(s: map<int, TimerNode>, fds: seq<int>, due: int)
    ensures Timed(s, fds, due) == map fd | fd in s.Keys + (set x | x in fds) :: if fd in fds then TimerNode(fd, due, fd) else s[fd]
    decreases |fds|
  {
    if fds != [] {
      var init := fds[..|fds| - 1];
      TimedIs(s, init, due);
      assert fds == init + [fds[|fds| - 1]];
    }
  }

  /** The descriptors of fired timers, in firing order. */
  function Descriptors(f: seq<TimerNode>): (r: seq<int>)
    ensures |r| == |f| && (forall k :: 0 <= k < |f| ==> r[k] == f[k].id)
    ensures (set id | id in r) == Ids(f)
  {
    var r := seq(|f|, k requires 0 <= k < |f| => f[k].id);
    assert forall id :: id in Ids(f) ==> id in r by {
      forall id | id in Ids(f)
        ensures id in r
      {
        var k :| 0 <= k < |f| && f[k].id == id;
        assert r[k] == id;
      }
    }
    r
  }

  /** The bytes of a mapped file; their values play no part in the accounting. */
  ghost function Blank(n: nat): (s: seq<char>)
    ensures |s| == n
  {
    seq(n, _ => '\0')
  }

  /** Ready to write is being sound to write with the mapped file's length of bytes behind iov_[1]. */
  lemma ReadyIffSending(c: HttpConn)
    ensures c.ReadyToWrite() <==> c.Valid() && c.Sending(Blank(c.response.FileLen()))
  {
  }

  /** What onWrite_ goes on to do once write() has returned. */
  datatype WriteStep = ProcessNext | AwaitRoom | Close

  /**
   * onWrite_ as written: a drained response on a keep-alive connection goes back to
   * onProcess; a write that stalled on EAGAIN re-arms for EPOLLOUT and then, with no return
   * after the re-arm, falls through to closeConn_ like every other case.
   */
  function WriteStepsAsWritten(left: nat, keepAlive: bool, ret: int, err: Option<int>): (r: seq<WriteStep>)
    ensures r != [] && (r[|r| - 1] == Close <==> left > 0 || !keepAlive)
    ensures AwaitRoom in r <==> left > 0 && ret < 0 && err == Some(EAGAIN)
  {
    if left == 0 then (if keepAlive then [ProcessNext] else [Close])
    else if ret < 0 && err == Some(EAGAIN) then [AwaitRoom, Close]
    else [Close]
  }

  /**
   * onWrite_ as intended: a write that stalled on EAGAIN with bytes left waits for room, and
   * only that case differs from the code as written.
   */
  function WriteSteps(left: nat, keepAlive: bool, ret: int, err: Option<int>): (r: seq<WriteStep>)
    ensures |r| == 1
    ensures r[0] == ProcessNext <==> left == 0 && keepAlive
    ensures r[0] == AwaitRoom <==> left > 0 && ret < 0 && err == Some(EAGAIN)
    ensures r[0] == Close <==> (left == 0 && !keepAlive) || (left > 0 && !(ret < 0 && err == Some(EAGAIN)))
  {
    if left == 0 then (if keepAlive then [ProcessNext] else [Close])
    else if ret < 0 && err == Some(EAGAIN) then [AwaitRoom]
    else [Close]
  }

  /** The two agree except on a stalled write, which the code as written then closes. */
  lemma StallIsTheDifference(left: nat, keepAlive: bool, ret: int, err: Option<int>)
    ensures WriteStepsAsWritten(left, keepAlive, ret, err) ==
      WriteSteps(left, keepAlive, ret, err) + (if left > 0 && ret < 0 && err == Some(EAGAIN) then [Close] else [])
  {
  }

  /** A response with one byte still queued when the socket fills is cut off as written. */
  lemma StalledResponseIsCut()
    ensures WriteStepsAsWritten(1, true, -1, Some(EAGAIN)) == [AwaitRoom, Close]
    ensures WriteSteps(1, true, -1, Some(EAGAIN)) == [AwaitRoom]
  {
  }

  /** Dropping or re-arming one registered descriptor leaves every other registration as it was. */
  lemma OnlyOneChanged(a: map<int, bv32>, b: map<int, bv32>, fd: int, ev: bv32)
    requires fd in a && (b == a - {fd} || b == a[fd := ev])
    ensures b.Keys <= a.Keys && forall x :: x in a && x != fd ==> x in b && b[x] == a[x]
  {
  }

  /** Whether onRead_ closes or processes, without a fault it drops or re-arms only its own descriptor. */
  lemma ReadKeepsOthers(a: map<int, bv32>, b: map<int, bv32>, fd: int, closed: bool, fault: Option<Fault>, ev: bv32)
    requires fd in a
    requires closed ==> b == a - {fd}
    requires !closed && fault.None? ==> b == a[fd := ev]
    ensures fault.None? ==> b.Keys <= a.Keys && forall x :: x in a && x != fd ==> x in b && b[x] == a[x]
  {
  }

  /** Whatever onWrite_ goes on to do, without a fault it re-arms or drops only its own descriptor. */
  lemma WriteKeepsOthers(a: map<int, bv32>, b: map<int, bv32>, fd: int, step: WriteStep, p: Result<Outcome, Fault>, fault: Option<Fault>, conn: bv32)
    requires fd in a
    requires step == ProcessNext ==> (fault.Some? <==> p.Failure?)
    requires step == ProcessNext && p.Success? ==> b == a[fd := Rearm(conn, p.value.code != NoRequest)]
    requires step == AwaitRoom ==> fault.None? && b == a
    requires step == Close ==> fault.None? && b == a - {fd}
    ensures fault.None? ==> b.Keys <= a.Keys && forall x :: x in a && x != fd ==> x in b && b[x] == a[x]
  {
  }

  /** One event epoll_wait returned, with what its socket holds when it is handled. */
  datatype Event = Event(fd: int, events: bv32, accepts: seq<int>, inbound: Inbound, outbound: Outbound)

  /** One turn of start()'s loop: the clock and the events. */
  datatype Round = Round(now: int, events: seq<Event>)

  /** What the socket layer can report: reads end in bytes only at end of file, writes fail. */
  predicate EventSound(ev: Event) {
    && (forall k :: 0 <= k < |ev.accepts| ==> ev.accepts[k] != 0)
    && (ev.inbound.end.ReadBytes? ==> ev.inbound.end.bytes == [])
    && ev.outbound.end.WriteFailed?
  }

  /**
   * What epoll reports for a registered connection: the events it asked for, and EPOLLERR and
   * EPOLLHUP, which epoll reports whether asked for or not.
   */
  predicate Reportable(events: bv32, interest: bv32) {
    events & !(interest | EPOLLERR | EPOLLHUP) == 0
  }

  /** A connection reported writable was registered for writing, not for reading. */
  lemma ReportedWritable(events: bv32, conn: bv32, writing: bool)
    requires conn & (EPOLLIN | EPOLLOUT) == 0 && Reportable(events, Rearm(conn, writing))
    requires events & EPOLLOUT != 0
    ensures writing
  {
  }

  /**
   * An event epoll_wait can return against the interest list `armed`: for the listener, an
   * accept queue of descriptors not open as connections; for a connection, one registered,
   * with events it can be reported.
   */
  predicate Answerable(ev: Event, armed: map<int, bv32>, listenFd: int) {
    && EventSound(ev)
    && if ev.fd == listenFd then forall k :: 0 <= k < |ev.accepts| ==> ev.accepts[k] !in armed
       else ev.fd in armed && Reportable(ev.events, armed[ev.fd])
  }

  /** A list epoll_wait can return: each descriptor at most once, each event answerable. */
  predicate Deliverable(events: seq<Event>, armed: map<int, bv32>, listenFd: int) {
    && (forall k, j :: 0 <= k < j < |events| ==> events[k].fd != events[j].fd)
    && (forall k :: 0 <= k < |events| ==> Answerable(events[k], armed, listenFd))
  }

  /**
   * The events after the first stay answerable when handling the first leaves every other
   * registration as it was and, unless it was the listener's, registers nothing new.
   */
  lemma StillDeliverable(events: seq<Event>, a: map<int, bv32>, b: map<int, bv32>, listenFd: int)
    requires |events| > 0 && Deliverable(events, a, listenFd)
    requires forall fd :: fd in a && fd != events[0].fd ==> fd in b && b[fd] == a[fd]
    requires events[0].fd != listenFd ==> b.Keys <= a.Keys
    ensures Deliverable(events[1..], b, listenFd)
  {
    forall k | 1 <= k < |events|
      ensures Answerable(events[k], b, listenFd)
    {
      assert events[k].fd != events[0].fd;
    }
  }

  /** Accepted descriptors that were not registered leave every registered one as it was. */
  lemma RegisteredKeepsOthers(a: map<int, bv32>, accepts: seq<int>, adm: seq<int>, ev: bv32)
    requires adm <= accepts && forall k :: 0 <= k < |accepts| ==> accepts[k] !in a
    ensures forall fd :: fd in a ==> fd in Registered(a, adm, ev) && Registered(a, adm, ev)[fd] == a[fd]
  {
    RegisteredIs(a, adm, ev);
  }

  /**
   * A connection as the server keeps it: sound, knowing its descriptor, and ready to write
   * when it is registered for writing.
   */
  ghost predicate ConnOk(c: HttpConn, fd: int, writable: bool)
    reads c, c.readBuff, c.writeBuff, c.response
  {
    && c.Valid() && c.fd == fd
    && (writable ==> c.ReadyToWrite())
  }

  class WebServer {
    const port: int
    const timeoutMS: int
    const listenFd: int
    const srcDir: string
    const isClose: bool
    var listenEvent: bv32
    var connEvent: bv32
    /** The epoll interest list for connections: each registered descriptor with its events. */
    var armed: map<int, bv32>
    /** users_: one connection object per descriptor ever admitted. */
    var users: map<int, HttpConn>
    /** Descriptors answered "Server busy!" and closed. */
    var busy: seq<int>
    /** The timeout the last epoll_wait was given. */
    var waitMs: int
    /** Which descriptor's connection each connection object belongs to; no object is shared. */
    ghost var owner: map<object, int>
    /** Descriptors whose timer has fired and whose connection is not closed yet. */
    ghost var expiring: set<int>
    const timer: HeapTimer
    /** HttpConn's static members. */
    const statics: ConnStatics

    /** The objects owned by connections other than `fd`'s. */
    ghost function Others(fd: int): set<object>
      reads this
    {
      set o | o in owner && owner[o] != fd
    }

    /** The objects every connection's soundness depends on. */
    ghost function Clients(): set<object>
      reads this
    {
      owner.Keys
    }

    /** The connection's objects are recorded as belonging to `fd`. */
    ghost predicate OwnedBy(c: HttpConn, fd: int)
      reads this
    {
      && c in owner && owner[c] == fd
      && c.readBuff in owner && owner[c.readBuff] == fd
      && c.writeBuff in owner && owner[c.writeBuff] == fd
      && c.request in owner && owner[c.request] == fd
      && c.response in owner && owner[c.response] == fd
    }

    /** Whether the interest list holds `fd` re-armed for writing. */
    ghost predicate Writable(fd: int)
      reads this
    {
      fd in armed && armed[fd] == Rearm(connEvent, true)
    }

    /**
     * What holds apart from the connections themselves: a sound timer heap whose every node
     * closes its own descriptor, connection flags without EPOLLIN or EPOLLOUT, only known
     * descriptors registered, each for reading or for writing, no object shared between
     * connections, and, with timeouts on, a timer for every registered descriptor whose
     * timer has not just fired.
     */
    ghost predicate Shared()
      reads this, timer
    {
      && timer.Valid() && HeapOrdered(timer.heap)
      && connEvent & (EPOLLIN | EPOLLOUT) == 0
      && armed.Keys <= users.Keys
      && (forall fd :: fd in armed ==> armed[fd] == Rearm(connEvent, false) || armed[fd] == Rearm(connEvent, true))
      && this !in owner && timer !in owner && statics !in owner
      && (forall id :: id in timer.ref ==> id in users && timer.Schedule()[id].cb == id)
      && (timeoutMS > 0 ==> armed.Keys <= timer.ref.Keys + expiring)
    }

    /** Every connection but `fd`'s is sound. */
    ghost predicate ConnsBut(fd: int)
      reads this, Others(fd)
    {
      forall k :: k in users && k != fd ==> OwnedBy(users[k], k) && ConnOk(users[k], k, Writable(k))
    }

    /** Every connection is sound. */
    ghost predicate Conns()
      reads this, Clients()
    {
      forall k :: k in users ==> OwnedBy(users[k], k) && ConnOk(users[k], k, Writable(k))
    }

    /** The invariant with connection `fd` left out. */
    ghost predicate Rest(fd: int)
      reads this, timer, Others(fd)
    {
      Shared() && ConnsBut(fd)
    }

    /** The server's invariant: every connection sound, and a resource directory to serve from. */
    ghost predicate Inv()
      reads this, timer, statics, Clients()
    {
      Shared() && statics.srcDir != "" && Conns()
    }

    /** Set one connection apart: the rest of the invariant does not depend on its objects. */
    lemma Focus(fd: int)
      requires Inv() && fd in users
      ensures Rest(fd) && OwnedBy(users[fd], fd) && ConnOk(users[fd], fd, Writable(fd))
    {
    }

    /** The rest of the invariant survives any change that leaves the rest alone. */
    twostate lemma RestFramed(fd: int)
      requires old(Rest(fd)) && unchanged(this, timer)
      requires forall o :: o in old(Others(fd)) ==> unchanged(o)
      ensures Rest(fd)
    {
    }

    /** Moving timers within the heap, each keeping its callback, keeps the invariant. */
    twostate lemma Rescheduled()
      requires old(Inv()) && unchanged(this, statics)
      requires forall o :: o in old(Clients()) ==> unchanged(o)
      requires timer.Valid() && HeapOrdered(timer.heap) && timer.ref.Keys == old(timer.ref.Keys)
      requires forall id :: id in timer.ref ==> timer.Schedule()[id].cb == old(timer.Schedule())[id].cb
      ensures Inv()
    {
    }

    /** Put a sound connection back. */
    lemma Unfocus(fd: int)
      requires fd in users && Rest(fd) && OwnedBy(users[fd], fd) && ConnOk(users[fd], fd, Writable(fd))
      requires statics.srcDir != ""
      ensures Inv()
    {
    }

    /** The fields only the constructor sets. */
    twostate predicate Kept()
      reads this
    {
      && listenEvent == old(listenEvent) && connEvent == old(connEvent) && busy == old(busy) && waitMs == old(waitMs)
      && owner == old(owner) && expiring == old(expiring)
    }

    /**
     * The constructor: a port outside [1024, 65535] closes the server before anything else is
     * set up; otherwise the resource directory is the working directory's "resources", the
     * user count starts at 0, the trigger mode settles the flags, and a failed socket set-up
     * (`socketOk` false) closes the server.
     */
    constructor(port': int, trigMode: int, timeoutMS': int, listenFd': int, socketOk: bool, cwd: string, statics': ConnStatics)
      modifies statics'
      ensures port == port' && timeoutMS == timeoutMS' && listenFd == listenFd' && statics == statics'
      ensures isClose <==> !PortInRange(port') || !socketOk
      ensures users == map[] && armed == map[] && busy == [] && waitMs == -1
      ensures fresh(timer) && timer.heap == [] && timer.fired == []
      ensures PortInRange(port') ==>
        && srcDir == cwd + "/resources" && statics.srcDir == srcDir && statics.userCount == 0
        && ModeFlags(trigMode, listenEvent, connEvent) && (statics.isET <==> connEvent & EPOLLET != 0)
        && Inv()
      ensures !PortInRange(port') ==> unchanged(statics)
    {
      port := port';
      timeoutMS := timeoutMS';
      listenFd := listenFd';
      srcDir := if PortInRange(port') then cwd + "/resources" else "";
      isClose := !PortInRange(port') || !socketOk;
      timer := new HeapTimer();
      statics := statics';
      listenEvent := 0;
      connEvent := 0;
      armed := map[];
      users := map[];
      owner := map[];
      expiring := {};
      busy := [];
      waitMs := -1;
      new;
      if PortInRange(port') {
        statics.userCount := 0;
        statics.srcDir := srcDir;
        InitEventMode(trigMode);
      }
    }

    /** initEventMode_: the flags for the trigger mode, and HttpConn::isET from the connection flags. */
    method InitEventMode(trigMode: int)
      modifies this, statics
      ensures ModeFlags(trigMode, listenEvent, connEvent) && (statics.isET <==> connEvent & EPOLLET != 0)
      ensures statics.srcDir == old(statics.srcDir) && statics.userCount == old(statics.userCount)
      ensures armed == old(armed) && users == old(users) && busy == old(busy) && waitMs == old(waitMs)
      ensures owner == old(owner) && expiring == old(expiring)
    {
      var listen: bv32 := EPOLLRDHUP;
      var conn: bv32 := EPOLLONESHOT | EPOLLRDHUP;
      match trigMode {
        case 0 =>
        case 1 =>
          conn := conn | EPOLLET;
        case 2 =>
          listen := listen | EPOLLET;
        case 3 =>
          conn := conn | EPOLLET;
          listen := listen | EPOLLET;
        case _ =>
          conn := conn | EPOLLET;
          listen := listen | EPOLLET;
      }
      FlagsOf(trigMode, listen, conn);
      listenEvent, connEvent := listen, conn;
      statics.isET := connEvent & EPOLLET != 0;
    }

    /**
     * addClient_: users_[fd], made on first use, is initialised with the socket; with
     * timeouts on it gets a timer due timeoutMS_ from now whose callback closes it; and the
     * descriptor is registered for reading.
     */
    method AddClient(fd: int, now: int)
      requires Inv() && fd > 0
      modifies this, statics, timer, Clients()
      ensures Inv() && users.Keys == old(users.Keys) + {fd} && armed == old(armed)[fd := Rearm(connEvent, false)]
      ensures fd in old(users) ==> users == old(users)
      ensures fd !in old(users) ==> fresh(users[fd]) && users == old(users)[fd := users[fd]]
      ensures statics.userCount == old(statics.userCount) + 1 && statics.isET == old(statics.isET)
      ensures !users[fd].isClose && users[fd].readBuff.Contents() == [] && users[fd].writeBuff.Contents() == []
      ensures timeoutMS > 0 ==> timer.Schedule() == old(timer.Schedule())[fd := TimerNode(fd, now + timeoutMS, fd)]
      ensures timeoutMS <= 0 ==> unchanged(timer)
      ensures listenEvent == old(listenEvent) && connEvent == old(connEvent) && busy == old(busy)
      ensures waitMs == old(waitMs) && expiring == old(expiring)
      ensures forall o :: o in Clients() ==> o in old(Clients()) || fresh(o)
    {
      var client := Seat(fd);
      label seated:
      client.Init(statics, fd);
      RestFramed@seated(fd);
      Arm(fd, now);
    }

    /** users_[fd]: the connection object of fd, made and set apart for fd on first use. */
    method Seat(fd: int) returns (client: HttpConn)
      requires Inv()
      modifies this
      ensures Rest(fd) && OwnedBy(client, fd) && client.Valid()
      ensures users == old(users)[fd := client] && armed == old(armed)
      ensures fd in old(users) ==> client == old(users)[fd]
      ensures fd !in old(users) ==> fresh(client) && fresh(client.readBuff) && fresh(client.writeBuff)
      ensures listenEvent == old(listenEvent) && connEvent == old(connEvent) && busy == old(busy)
      ensures waitMs == old(waitMs) && expiring == old(expiring)
      ensures forall o :: o in Clients() ==> o in old(Clients()) || fresh(o)
    {
      if fd in users {
        client := users[fd];
        Focus(fd);
      } else {
        client := Adopt(fd);
      }
    }

    /** A new connection object for a descriptor not seen before, recorded as fd's. */
    method Adopt(fd: int) returns (client: HttpConn)
      requires Inv() && fd !in users
      modifies this
      ensures Rest(fd) && OwnedBy(client, fd) && client.Valid()
      ensures users == old(users)[fd := client] && armed == old(armed)
      ensures fresh(client) && fresh(client.readBuff) && fresh(client.writeBuff) && fresh(client.request) && fresh(client.response)
      ensures listenEvent == old(listenEvent) && connEvent == old(connEvent) && busy == old(busy)
      ensures waitMs == old(waitMs) && expiring == old(expiring)
      ensures owner.Keys == old(owner.Keys) + {client, client.readBuff, client.writeBuff, client.request, client.response}
    {
      client := new HttpConn();
      users := users[fd := client];
      owner := owner[client := fd][client.readBuff := fd][client.writeBuff := fd][client.request := fd][client.response := fd];
      Adopted(fd, client);
    }

    /** Recording a new connection's objects under fd leaves the other connections as they were. */
    twostate lemma Adopted(fd: int, new c: HttpConn)
      requires old(Inv()) && unchanged(timer) && fd !in old(users) && users == old(users)[fd := c]
      requires forall o :: o in old(Clients()) ==> unchanged(o)
      requires armed == old(armed) && connEvent == old(connEvent) && expiring == old(expiring)
      requires c !in old(owner) && c.readBuff !in old(owner) && c.writeBuff !in old(owner)
      requires c.request !in old(owner) && c.response !in old(owner)
      requires owner == old(owner)[c := fd][c.readBuff := fd][c.writeBuff := fd][c.request := fd][c.response := fd]
      ensures Rest(fd)
    {
      forall k | k in users && k != fd
        ensures OwnedBy(users[k], k) && ConnOk(users[k], k, Writable(k))
      {
        var u := users[k];
        assert old(OwnedBy(u, k) && ConnOk(u, k, Writable(k)));
        assert u in old(Clients()) && u.readBuff in old(Clients()) && u.writeBuff in old(Clients()) && u.response in old(Clients());
      }
    }

    /**
     * The rest of addClient_ for an initialised connection: its timer, with timeouts on,
     * and its registration for reading.
     */
    method Arm(fd: int, now: int)
      requires fd > 0 && fd in users && Rest(fd) && statics.srcDir != ""
      requires OwnedBy(users[fd], fd) && ConnOk(users[fd], fd, false)
      modifies this, timer
      ensures Inv() && Kept() && users == old(users) && armed == old(armed)[fd := Rearm(connEvent, false)]
      ensures timeoutMS > 0 ==> timer.Schedule() == old(timer.Schedule())[fd := TimerNode(fd, now + timeoutMS, fd)]
      ensures timeoutMS <= 0 ==> unchanged(timer)
    {
      if timeoutMS > 0 {
        timer.Add(fd, timeoutMS, fd, now);
      }
      RearmWritable(connEvent, false);
      armed := armed[fd := Rearm(connEvent, false)];
      Unfocus(fd);
    }

    /**
     * dealListen_: accept until the queue is empty (a negative descriptor), taking one
     * connection per event when the listener is level-triggered; at MAX_FD users the next
     * connection is told "Server busy!" and closed without being registered.
     */
    method DealListen(accepts: seq<int>, now: int)
      requires Inv() && forall k :: 0 <= k < |accepts| ==> accepts[k] != 0
      modifies this, statics, timer, Clients()
      ensures Inv()
      ensures var (adm, turned) := Admission(accepts, old(statics.userCount), listenEvent & EPOLLET != 0);
        && busy == old(busy) + (if turned.Some? then [turned.value] else [])
        && statics.userCount == old(statics.userCount) + |adm|
        && armed == Registered(old(armed), adm, Rearm(connEvent, false))
        && users.Keys == old(users.Keys) + (set fd | fd in adm)
        && timer.Schedule() == (if timeoutMS > 0 then Timed(old(timer.Schedule()), adm, now + timeoutMS) else old(timer.Schedule()))
      ensures forall fd :: fd in old(users) ==> users[fd] == old(users)[fd]
      ensures listenEvent == old(listenEvent) && connEvent == old(connEvent) && waitMs == old(waitMs)
      ensures expiring == old(expiring) && statics.isET == old(statics.isET)
      ensures forall o :: o in Clients() ==> o in old(Clients()) || fresh(o)
    {
      var et := listenEvent & EPOLLET != 0;
      ghost var c0 := statics.userCount;
      var i := AdmitAll(accepts, now);
      AdmissionStopped(accepts, c0, et, i);
      TurnAway(if i < |accepts| && accepts[i] >= 0 && (i == 0 || et) then Some(accepts[i]) else None);
    }

    /**
     * Admission under way: `i` connections of the queue admitted since the user count was
     * `c0`, the interest list `a0`, the schedule `s0` and the users `u0`.
     */
    ghost predicate Admitting(accepts: seq<int>, now: int, i: nat, c0: int, a0: map<int, bv32>, s0: map<int, TimerNode>, u0: map<int, HttpConn>)
      reads this, statics, timer
    {
      && i <= |accepts| && timer.Valid()
      && statics.userCount == c0 + i
      && AdmittedSoFar(accepts, c0, listenEvent & EPOLLET != 0, i)
      && armed == Registered(a0, accepts[..i], Rearm(connEvent, false))
      && users.Keys == u0.Keys + (set fd | fd in accepts[..i])
      && (forall fd :: fd in u0 ==> users[fd] == u0[fd])
      && timer.Schedule() == (if timeoutMS > 0 then Timed(s0, accepts[..i], now + timeoutMS) else s0)
    }

    /**
     * The accepting part of dealListen_: connections are admitted from the front of the
     * queue while it lasts, the user count is under MAX_FD and, level-triggered, none was
     * admitted yet.
     */
    method AdmitAll(accepts: seq<int>, now: int) returns (i: nat)
      requires Inv() && (forall k :: 0 <= k < |accepts| ==> accepts[k] != 0)
      modifies this, statics, timer, Clients()
      ensures Inv() && Admitting(accepts, now, i, old(statics.userCount), old(armed), old(timer.Schedule()), old(users))
      ensures !(i < |accepts| && accepts[i] >= 0 && statics.userCount < MAX_FD && (i == 0 || listenEvent & EPOLLET != 0))
      ensures busy == old(busy) && listenEvent == old(listenEvent) && connEvent == old(connEvent) && waitMs == old(waitMs)
      ensures expiring == old(expiring) && statics.isET == old(statics.isET)
      ensures forall o :: o in Clients() ==> o in old(Clients()) || fresh(o)
    {
      var et := listenEvent & EPOLLET != 0;
      i := 0;
      assert accepts[..0] == [] && accepts[0..] == accepts;
      while i < |accepts| && accepts[i] >= 0 && statics.userCount < MAX_FD && (i == 0 || et)
        invariant Inv() && Admitting(accepts, now, i, old(statics.userCount), old(armed), old(timer.Schedule()), old(users))
        invariant busy == old(busy) && listenEvent == old(listenEvent) && connEvent == old(connEvent) && waitMs == old(waitMs)
        invariant expiring == old(expiring) && statics.isET == old(statics.isET)
        invariant forall o :: o in Clients() ==> o in old(Clients()) || fresh(o)
      {
        i := AdmitOne(accepts, now, i, old(statics.userCount), old(armed), old(timer.Schedule()), old(users));
      }
    }

    /** addClient_ for the next descriptor of the queue. */
    method AdmitOne(accepts: seq<int>, now: int, i: nat, ghost c0: int, ghost a0: map<int, bv32>, ghost s0: map<int, TimerNode>, ghost u0: map<int, HttpConn>)
      returns (next: nat)
      requires Inv() && Admitting(accepts, now, i, c0, a0, s0, u0)
      requires i < |accepts| && accepts[i] > 0 && statics.userCount < MAX_FD && (i == 0 || listenEvent & EPOLLET != 0)
      modifies this, statics, timer, Clients()
      ensures next == i + 1 && Inv() && Admitting(accepts, now, next, c0, a0, s0, u0)
      ensures busy == old(busy) && listenEvent == old(listenEvent) && connEvent == old(connEvent) && waitMs == old(waitMs)
      ensures expiring == old(expiring) && statics.isET == old(statics.isET)
      ensures forall o :: o in Clients() ==> o in old(Clients()) || fresh(o)
    {
      AddClient(accepts[i], now);
      next := i + 1;
      AdmittedOne(accepts, now, i, next, c0, a0, s0, u0);
    }

    /**
     * What addClient_ does for the next descriptor moves admission one place on. The
     * parameters that hold no objects are declared `new`: they need no allocation check.
     */
    twostate lemma AdmittedOne(new accepts: seq<int>, new now: int, new i: nat, new next: nat, new c0: int, new a0: map<int, bv32>, new s0: map<int, TimerNode>, u0: map<int, HttpConn>)
      requires old(Admitting(accepts, now, i, c0, a0, s0, u0)) && i < |accepts|
      requires old(accepts[i] > 0 && statics.userCount < MAX_FD && (i == 0 || listenEvent & EPOLLET != 0))
      requires listenEvent == old(listenEvent) && connEvent == old(connEvent) && timer.Valid()
      requires statics.userCount == old(statics.userCount) + 1
      requires armed == old(armed)[accepts[i] := Rearm(connEvent, false)]
      requires users.Keys == old(users.Keys) + {accepts[i]}
      requires forall fd :: fd in old(users) ==> fd in users && users[fd] == old(users)[fd]
      requires timer.Schedule() == if timeoutMS > 0 then
        old(timer.Schedule())[accepts[i] := TimerNode(accepts[i], now + timeoutMS, accepts[i])] else old(timer.Schedule())
      requires next == i + 1
      ensures Admitting(accepts, now, next, c0, a0, s0, u0)
    {
      AdmitNext(accepts, c0, listenEvent & EPOLLET != 0, i);
      Appended(a0, s0, accepts[..i], accepts[i], Rearm(connEvent, false), now + timeoutMS);
      assert accepts[..i + 1] == accepts[..i] + [accepts[i]];
    }

    /** The busy answer, if any: the descriptor is recorded as turned away; nothing else changes. */
    method TurnAway(turned: Option<int>)
      requires Inv()
      modifies this
      ensures Inv() && busy == old(busy) + (if turned.Some? then [turned.value] else []) && users == old(users) && armed == old(armed)
      ensures listenEvent == old(listenEvent) && connEvent == old(connEvent) && waitMs == old(waitMs)
      ensures owner == old(owner) && expiring == old(expiring)
    {
      if turned.Some? {
        busy := busy + [turned.value];
        Rebooked();
      }
    }

    /** closeConn_: the client's descriptor leaves the interest list and the client closes. */
    method CloseConn(client: HttpConn)
      requires Inv() && client.fd in users && users[client.fd] == client
      modifies this, statics, client, client.response
      ensures Inv() && Kept() && users == old(users) && client.fd == old(client.fd)
      ensures armed == old(armed) - {client.fd} && client.isClose
      ensures statics.userCount == old(statics.userCount) - (if old(client.isClose) then 0 else 1)
      ensures statics.isET == old(statics.isET) && client.ToWriteBytes() == old(client.ToWriteBytes())
      ensures client.response.View() == old(client.response.View()).(mmFile := None)
      ensures unchanged(timer)
    {
      DelFd(client.GetFd());
      label deleted:
      client.Close(statics);
      RestFramed@deleted(client.fd);
      Unfocus(client.fd);
    }

    /** extentTime_: with timeouts on, the client's timer is due timeoutMS_ from now. */
    method ExtentTime(client: HttpConn, now: int)
      requires Inv() && expiring == {} && client.fd in armed && users[client.fd] == client
      modifies timer
      ensures Inv()
      ensures timeoutMS > 0 ==>
        timer.Schedule() == old(timer.Schedule())[client.fd := old(timer.Schedule())[client.fd].(expires := now + timeoutMS)]
      ensures timeoutMS <= 0 ==> unchanged(timer)
    {
      if timeoutMS > 0 {
        timer.Adjust(client.GetFd(), timeoutMS, now);
        Rescheduled();
      }
    }

    /**
     * The invariant after the timer, the fired set or the timeout changes and the connections
     * are left alone: the timer stays sound, its nodes still close their own descriptors, and
     * every registered descriptor still has a timer or one that has just fired.
     */
    twostate lemma Rebooked()
      requires old(Inv()) && unchanged(statics)
      requires forall o :: o in old(Clients()) ==> unchanged(o)
      requires users == old(users) && armed == old(armed) && owner == old(owner) && connEvent == old(connEvent)
      requires timer.Valid() && HeapOrdered(timer.heap)
      requires forall id :: id in timer.ref ==> id in old(timer.ref) && timer.Schedule()[id].cb == old(timer.Schedule())[id].cb
      requires timeoutMS > 0 ==> armed.Keys <= timer.ref.Keys + expiring
      ensures Inv()
    {
      forall k | k in users
        ensures OwnedBy(users[k], k) && ConnOk(users[k], k, Writable(k))
      {
        var u := users[k];
        assert old(OwnedBy(u, k) && ConnOk(u, k, Writable(k)));
        assert u in old(Clients()) && u.readBuff in old(Clients()) && u.writeBuff in old(Clients()) && u.response in old(Clients());
      }
    }

    /** Two descriptors have two connection objects. */
    lemma Apart(a: int, b: int)
      requires Inv() && a in users && b in users && a != b
      ensures users[a] != users[b]
    {
      assert OwnedBy(users[a], a) && OwnedBy(users[b], b);
    }

    /**
     * The timer part of start()'s loop with timeouts on: getNextTickMs fires every timer due
     * by now, each callback closing its connection with closeConn_, and the time until the
     * next timer is epoll_wait's timeout, -1 when no timer is left.
     */
    method Expire(now: int) returns (gone: seq<int>)
      requires Inv() && expiring == {} && timeoutMS > 0
      modifies this, statics, timer, Clients()
      ensures Inv() && expiring == {} && users == old(users) && owner == old(owner)
      ensures listenEvent == old(listenEvent) && connEvent == old(connEvent) && busy == old(busy)
      ensures forall id :: id in gone <==> id in old(timer.Schedule()) && old(timer.Schedule())[id].expires <= now
      ensures armed == old(armed) - (set id | id in gone)
      ensures forall k :: 0 <= k < |gone| ==> gone[k] in users && users[gone[k]].isClose
      ensures timer.Schedule() == old(timer.Schedule()) - (set id | id in gone)
      ensures forall id :: id in timer.Schedule() ==> timer.Schedule()[id].expires > now
      ensures waitMs == -1 <==> timer.heap == []
      ensures timer.heap != [] ==> waitMs == timer.heap[0].expires - now > 0
    {
      var f, ms := FireAndClose(now);
      gone := Descriptors(f);
      Settle(ms);
    }

    /** getNextTickMs with its callbacks: the due timers fire and their connections close. */
    method FireAndClose(now: int) returns (f: seq<TimerNode>, ms: int)
      requires Inv() && expiring == {} && timeoutMS > 0
      modifies this, statics, timer, Clients()
      ensures Inv() && expiring == Ids(f) && users == old(users) && owner == old(owner)
      ensures listenEvent == old(listenEvent) && connEvent == old(connEvent) && busy == old(busy)
      ensures forall id :: id in Ids(f) <==> id in old(timer.Schedule()) && old(timer.Schedule())[id].expires <= now
      ensures armed == old(armed) - Ids(f) && armed.Keys <= timer.ref.Keys
      ensures forall k :: 0 <= k < |f| ==> f[k].id in users && users[f[k].id].isClose
      ensures timer.Schedule() == old(timer.Schedule()) - Ids(f)
      ensures forall id :: id in timer.Schedule() ==> timer.Schedule()[id].expires > now
      ensures ms == -1 <==> timer.heap == []
      ensures timer.heap != [] ==> ms == timer.heap[0].expires - now > 0
    {
      f, ms := Fire(now);
      CloseFired(f);
    }

    /**
     * getNextTickMs: the timers due by now fire, in order; their descriptors are marked as
     * expiring until their connections are closed.
     */
    method Fire(now: int) returns (f: seq<TimerNode>, ms: int)
      requires Inv() && expiring == {} && timeoutMS > 0
      modifies this, timer
      ensures Inv() && expiring == Ids(f) && users == old(users) && armed == old(armed) && owner == old(owner)
      ensures listenEvent == old(listenEvent) && connEvent == old(connEvent) && busy == old(busy)
      ensures armed.Keys <= timer.ref.Keys + Ids(f)
      ensures forall id :: id in Ids(f) <==> id in old(timer.Schedule()) && old(timer.Schedule())[id].expires <= now
      ensures forall a, b :: 0 <= a < b < |f| ==> f[a].id != f[b].id
      ensures forall k :: 0 <= k < |f| ==> f[k].id in users
      ensures timer.Schedule() == old(timer.Schedule()) - Ids(f)
      ensures forall id :: id in timer.Schedule() ==> timer.Schedule()[id].expires > now
      ensures ms == -1 <==> timer.heap == []
      ensures timer.heap != [] ==> ms == timer.heap[0].expires - now > 0
    {
      f, ms := TickTimer(now);
      expiring := Ids(f);
      Rebooked();
    }

    /** getNextTickMs on the server's timer, nothing else changing. */
    method TickTimer(now: int) returns (f: seq<TimerNode>, ms: int)
      requires timer.Valid() && HeapOrdered(timer.heap)
      modifies timer
      ensures timer.Valid() && HeapOrdered(timer.heap)
      ensures forall id :: id in Ids(f) <==> id in old(timer.Schedule()) && old(timer.Schedule())[id].expires <= now
      ensures forall a, b :: 0 <= a < b < |f| ==> f[a].id != f[b].id
      ensures timer.Schedule() == old(timer.Schedule()) - Ids(f)
      ensures forall id :: id in timer.Schedule() ==> timer.Schedule()[id].expires > now
      ensures ms == -1 <==> timer.heap == []
      ensures timer.heap != [] ==> ms == timer.heap[0].expires - now > 0
    {
      var start := |timer.fired|;
      ms := timer.GetNextTickMs(now, now);
      f := timer.fired[start..];
      forall id | id in Ids(f)
        ensures id in old(timer.Schedule()) && old(timer.Schedule())[id].expires <= now
      {
        var k :| 0 <= k < |f| && f[k].id == id;
      }
    }

    /** The fired timers' callbacks: closeConn_ for each of their descriptors, in order. */
    method CloseFired(f: seq<TimerNode>)
      requires Inv() && expiring == Ids(f)
      requires forall a, b :: 0 <= a < b < |f| ==> f[a].id != f[b].id
      requires forall k :: 0 <= k < |f| ==> f[k].id in users
      modifies this, statics, Clients()
      ensures Inv() && Kept() && users == old(users) && unchanged(timer)
      ensures armed == old(armed) - Ids(f)
      ensures forall k :: 0 <= k < |f| ==> users[f[k].id].isClose
    {
      var i := 0;
      while i < |f|
        invariant 0 <= i <= |f|
        invariant Inv() && Kept() && users == old(users) && unchanged(timer)
        invariant armed == old(armed) - Ids(f[..i])
        invariant forall k :: 0 <= k < i ==> users[f[k].id].isClose
      {
        var client := users[f[i].id];
        Focus(f[i].id);
        forall k | 0 <= k < i
          ensures users[f[k].id] != client
        {
          Apart(f[k].id, f[i].id);
        }
        CloseConn(client);
        IdsAppend(f[..i], f[i]);
        assert f[..i + 1] == f[..i] + [f[i]];
        i := i + 1;
      }
      assert f[..i] == f;
    }

    /** With every fired connection closed, nothing is expiring; epoll_wait sleeps for `ms`. */
    method Settle(ms: int)
      requires Inv() && timeoutMS > 0 && armed.Keys <= timer.ref.Keys
      modifies this
      ensures Inv() && expiring == {} && waitMs == ms && users == old(users) && armed == old(armed)
      ensures listenEvent == old(listenEvent) && connEvent == old(connEvent) && busy == old(busy) && owner == old(owner)
    {
      expiring := {};
      waitMs := ms;
      Rebooked();
    }

    /** The descriptors whose timers are due at `now`. */
    ghost function Due(now: int): set<int>
      reads this, timer
      requires timer.Valid()
    {
      set id | id in timer.Schedule() && timer.Schedule()[id].expires <= now
    }

    /**
     * One turn of start()'s loop: with timeouts on, getNextTickMs closes the connections
     * whose timers are due and gives epoll_wait its timeout; then each event epoll_wait
     * returns is handled in order. A fault in a handler ends the server.
     */
    method Step(r: Round, db: UserDb, fs: Files) returns (gone: seq<int>, routes: seq<Route>, fault: Option<Fault>)
      requires Inv() && expiring == {} && !isClose
      requires Deliverable(r.events, if timeoutMS > 0 then armed - Due(r.now) else armed, listenFd)
      modifies this, statics, timer, Clients()
      ensures timeoutMS > 0 ==> forall id :: id in gone <==> id in old(Due(r.now))
      ensures timeoutMS <= 0 ==> gone == [] && waitMs == old(waitMs)
      ensures |routes| <= |r.events| && forall k :: 0 <= k < |routes| ==> routes[k] == RouteOf(r.events[k].fd, r.events[k].events, listenFd)
      ensures fault.None? ==> |routes| == |r.events| && Inv() && expiring == {}
    {
      gone := Tick(r.now);
      routes, fault := Dispatch(r.events, r.now, db, fs);
    }

    /**
     * The timer part of a turn: with timeouts on, the connections whose timers are due are
     * closed and epoll_wait's timeout is the time to the next one; with timeouts off, nothing.
     */
    method Tick(now: int) returns (gone: seq<int>)
      requires Inv() && expiring == {}
      modifies this, statics, timer, Clients()
      ensures Inv() && expiring == {} && owner == old(owner)
      ensures armed == if timeoutMS > 0 then old(armed) - old(Due(now)) else old(armed)
      ensures timeoutMS > 0 ==> forall id :: id in gone <==> id in old(Due(now))
      ensures timeoutMS <= 0 ==> gone == [] && waitMs == old(waitMs)
    {
      gone := [];
      if timeoutMS > 0 {
        ghost var s0 := timer.Schedule();
        assert Due(now) == set id | id in s0 && s0[id].expires <= now;
        gone := Expire(now);
        forall id
          ensures id in gone <==> id in s0 && s0[id].expires <= now
        {
        }
        assert (set id | id in gone) == set id | id in s0 && s0[id].expires <= now;
      }
    }

    /** The event loop of one turn: each event handled in order, until a handler faults. */
    method Dispatch(events: seq<Event>, now: int, db: UserDb, fs: Files) returns (routes: seq<Route>, fault: Option<Fault>)
      requires Inv() && expiring == {} && Deliverable(events, armed, listenFd)
      modifies this, statics, timer, Clients()
      ensures |routes| <= |events| && forall k :: 0 <= k < |routes| ==> routes[k] == RouteOf(events[k].fd, events[k].events, listenFd)
      ensures fault.None? ==> |routes| == |events| && Inv() && expiring == {}
      ensures waitMs == old(waitMs)
    {
      routes := [];
      fault := None;
      var i := 0;
      while i < |events| && fault.None?
        invariant i <= |events| && |routes| == i
        invariant forall k :: 0 <= k < i ==> routes[k] == RouteOf(events[k].fd, events[k].events, listenFd)
        invariant fault.None? ==> Inv() && expiring == {} && Deliverable(events[i..], armed, listenFd)
        invariant waitMs == old(waitMs) && forall o :: o in Clients() ==> o in old(Clients()) || fresh(o)
      {
        var route;
        route, fault, i := HandleNext(events, i, now, db, fs);
        routes := routes + [route];
      }
    }

    /** The next event of the list, after which the rest of the list stays answerable. */
    method HandleNext(events: seq<Event>, i: nat, now: int, db: UserDb, fs: Files) returns (route: Route, fault: Option<Fault>, next: nat)
      requires i < |events| && Inv() && expiring == {} && Deliverable(events[i..], armed, listenFd)
      modifies this, statics, timer, Clients()
      ensures next == i + 1 && route == RouteOf(events[i].fd, events[i].events, listenFd) && waitMs == old(waitMs)
      ensures fault.None? ==> Inv() && expiring == {} && Deliverable(events[next..], armed, listenFd)
      ensures forall o :: o in Clients() ==> o in old(Clients()) || fresh(o)
    {
      route, fault := HandleEvent(events[i], now, db, fs);
      next := i + 1;
      if fault.None? {
        StillDeliverable(events[i..], old(armed), armed, listenFd);
        assert events[i..][1..] == events[next..];
      }
    }

    /**
     * One event: the listener accepts; a connection that hung up or failed is closed; a
     * readable one is read and a writable one written, each after its timer is pushed back;
     * any other event is only logged.
     */
    method HandleEvent(ev: Event, now: int, db: UserDb, fs: Files) returns (route: Route, fault: Option<Fault>)
      requires Inv() && expiring == {} && Answerable(ev, armed, listenFd)
      modifies this, statics, timer, Clients()
      ensures route == RouteOf(ev.fd, ev.events, listenFd) && waitMs == old(waitMs)
      ensures fault.None? ==> Inv() && expiring == {}
      ensures fault.None? ==> forall fd :: fd in old(armed) && fd != ev.fd ==> fd in armed && armed[fd] == old(armed)[fd]
      ensures fault.None? && ev.fd != listenFd ==> armed.Keys <= old(armed).Keys
      ensures route == Route.Accept || route == Hangup || route == Unexpected ==> fault.None?
      ensures route != Route.Accept ==> users == old(users)
      ensures forall o :: o in Clients() ==> o in old(Clients()) || fresh(o)
    {
      route := RouteOf(ev.fd, ev.events, listenFd);
      if route == Route.Accept {
        Listen(ev.accepts, now);
        fault := None;
      } else {
        fault := HandleConn(ev, route, now, db, fs);
      }
    }

    /** The listener's event: dealListen_, which registers only descriptors that were not registered. */
    method Listen(accepts: seq<int>, now: int)
      requires Inv() && forall k :: 0 <= k < |accepts| ==> accepts[k] != 0 && accepts[k] !in armed
      modifies this, statics, timer, Clients()
      ensures Inv() && expiring == old(expiring) && waitMs == old(waitMs)
      ensures forall fd :: fd in old(armed) ==> fd in armed && armed[fd] == old(armed)[fd]
      ensures forall o :: o in Clients() ==> o in old(Clients()) || fresh(o)
    {
      var et := listenEvent & EPOLLET != 0;
      ghost var adm := Admission(accepts, statics.userCount, et).0;
      AdmissionBounds(accepts, statics.userCount, et);
      RegisteredKeepsOthers(armed, accepts, adm, Rearm(connEvent, false));
      DealListen(accepts, now);
    }

    /**
     * A connection's event: a hang-up or error closes it, readability reads it, writability
     * (for a connection registered for writing) writes it, and anything else only is logged.
     */
    method HandleConn(ev: Event, route: Route, now: int, db: UserDb, fs: Files) returns (fault: Option<Fault>)
      requires Inv() && expiring == {} && Answerable(ev, armed, listenFd)
      requires ev.fd != listenFd && route == RouteOf(ev.fd, ev.events, listenFd)
      modifies this, statics, timer, Clients()
      ensures waitMs == old(waitMs) && users == old(users) && owner == old(owner)
      ensures fault.None? ==> Inv() && expiring == {} && armed.Keys <= old(armed).Keys
      ensures fault.None? ==> forall fd :: fd in old(armed) && fd != ev.fd ==> fd in armed && armed[fd] == old(armed)[fd]
      ensures route == Hangup ==> fault.None? && armed == old(armed) - {ev.fd} && users[ev.fd].isClose
      ensures route == Unexpected ==> fault.None? && armed == old(armed)
    {
      var client := users[ev.fd];
      Focus(ev.fd);
      fault := None;
      if route == Hangup {
        CloseConn(client);
        OnlyOneChanged(old(armed), armed, ev.fd, 0);
      } else if route == ReadReady {
        var closed, writing;
        fault, closed, writing := DealRead(client, now, ev.inbound, db, fs);
      } else if route == WriteReady {
        ReportedWritable(ev.events, connEvent, armed[ev.fd] == Rearm(connEvent, true));
        fault := DealWrite(client, now, ev.outbound, db, fs);
      }
    }

    /** dealRead_: with timeouts on, the client's timer is pushed back; then onRead_. */
    method DealRead(client: HttpConn, now: int, sock: Inbound, db: UserDb, fs: Files)
      returns (fault: Option<Fault>, closed: bool, writing: bool)
      requires Inv() && expiring == {} && client.fd in armed && users[client.fd] == client
      requires sock.end.ReadBytes? ==> sock.end.bytes == []
      modifies this, statics, timer, client, client.readBuff, client.writeBuff, client.request, client.response
      ensures Kept() && users == old(users) && client.fd == old(client.fd) && timer.Valid()
      ensures timeoutMS > 0 ==>
        timer.Schedule() == old(timer.Schedule())[client.fd := old(timer.Schedule())[client.fd].(expires := now + timeoutMS)]
      ensures timeoutMS <= 0 ==> timer.Schedule() == old(timer.Schedule())
      ensures closed <==> (old(statics.isET) || sock.data == []) && sock.end.ReadFailed? && sock.end.errno != EAGAIN
      ensures closed ==> fault.None? && Inv() && armed == old(armed) - {client.fd} && client.isClose
      ensures !closed && fault.None? ==> Inv() && armed == old(armed)[client.fd := Rearm(connEvent, writing)]
      ensures fault.None? ==> armed.Keys <= old(armed).Keys
      ensures fault.None? ==> forall fd :: fd in old(armed) && fd != client.fd ==> fd in armed && armed[fd] == old(armed)[fd]
    {
      ExtentTime(client, now);
      fault, closed, writing := OnRead(client, sock, db, fs);
      ReadKeepsOthers(old(armed), armed, client.fd, closed, fault, Rearm(connEvent, writing));
    }

    /** dealWrite_: with timeouts on, the client's timer is pushed back; then onWrite_. */
    method DealWrite(client: HttpConn, now: int, peer: Outbound, db: UserDb, fs: Files) returns (fault: Option<Fault>)
      requires Inv() && expiring == {} && Writable(client.fd) && users[client.fd] == client && peer.end.WriteFailed?
      modifies this, statics, timer, client, client.readBuff, client.writeBuff, client.request, client.response
      ensures Kept() && users == old(users) && client.fd == old(client.fd) && timer.Valid()
      ensures timeoutMS > 0 ==>
        timer.Schedule() == old(timer.Schedule())[client.fd := old(timer.Schedule())[client.fd].(expires := now + timeoutMS)]
      ensures timeoutMS <= 0 ==> timer.Schedule() == old(timer.Schedule())
      ensures fault.None? ==> Inv() && armed.Keys <= old(armed).Keys
      ensures fault.None? ==> forall fd :: fd in old(armed) && fd != client.fd ==> fd in armed && armed[fd] == old(armed)[fd]
    {
      ExtentTime(client, now);
      ghost var a, left, keepAlive, p := armed, client.ToWriteBytes(), client.IsKeepAlive(), Parsed(client.readBuff.Contents(), db);
      var ret, err, sent;
      fault, ret, err, sent := OnWrite(client, peer, db, fs);
      WriteKeepsOthers(a, armed, client.fd, WriteSteps(left - sent, keepAlive, ret, err)[0], p, fault, connEvent);
    }

    /** delFd: a connection leaves the interest list; the rest of the invariant holds without it. */
    method DelFd(fd: int)
      requires Inv() && fd in users
      modifies this
      ensures Kept() && users == old(users) && armed == old(armed) - {fd}
      ensures Rest(fd) && OwnedBy(users[fd], fd) && ConnOk(users[fd], fd, false) && !Writable(fd)
    {
      Focus(fd);
      armed := armed - {fd};
    }

    /** modFd: new events for a registered connection that is sound for them. */
    method ModFd(fd: int, writing: bool)
      requires fd in users
      requires fd in armed
      requires Rest(fd)
      requires OwnedBy(users[fd], fd) && ConnOk(users[fd], fd, writing)
      requires statics.srcDir != ""
      modifies this
      ensures Inv() && Kept() && users == old(users) && armed == old(armed)[fd := Rearm(connEvent, writing)]
    {
      RearmWritable(connEvent, false);
      RearmWritable(connEvent, true);
      armed := armed[fd := Rearm(connEvent, writing)];
      Unfocus(fd);
    }

    /**
     * onRead_: read what the socket holds; a failed read other than EAGAIN closes the client,
     * anything else, an empty read included, goes on to onProcess.
     */
    method OnRead(client: HttpConn, sock: Inbound, db: UserDb, fs: Files)
      returns (fault: Option<Fault>, closed: bool, writing: bool)
      requires Inv() && client.fd in armed && users[client.fd] == client
      requires sock.end.ReadBytes? ==> sock.end.bytes == []
      modifies this, statics, client, client.readBuff, client.writeBuff, client.request, client.response
      ensures Kept() && users == old(users) && client.fd == old(client.fd)
      ensures closed <==> (old(statics.isET) || sock.data == []) && sock.end.ReadFailed? && sock.end.errno != EAGAIN
      ensures closed ==> fault.None? && Inv() && armed == old(armed) - {client.fd} && client.isClose
      ensures closed ==>
        && client.readBuff.Contents() == old(client.readBuff.Contents()) + Received(sock.data, old(client.readBuff.WritableBytes()) + EXTRA_READ_SIZE, old(statics.isET))
        && unchanged(client.request, client.writeBuff)
        && client.response.View() == old(client.response.View()).(mmFile := None)
      ensures !closed ==>
        var p := Parsed(old(client.readBuff.Contents()) + Received(sock.data, old(client.readBuff.WritableBytes()) + EXTRA_READ_SIZE, old(statics.isET)), db);
        && (fault.Some? <==> p.Failure?) && (p.Failure? ==> fault == Some(p.error))
        && (p.Success? ==> (writing <==> p.value.code != NoRequest))
      ensures !closed && fault.None? ==> Inv() && armed == old(armed)[client.fd := Rearm(connEvent, writing)]
    {
      Focus(client.fd);
      var ret, err := Receive(client, sock);
      fault, closed, writing := AfterRead(client, ret, err, db, fs);
    }

    /** The rest of onRead_: a read error other than EAGAIN closes the client, otherwise onProcess. */
    method AfterRead(client: HttpConn, ret: int, err: Option<int>, db: UserDb, fs: Files)
      returns (fault: Option<Fault>, closed: bool, writing: bool)
      requires Inv() && client.fd in armed && users[client.fd] == client
      modifies this, statics, client, client.readBuff, client.writeBuff, client.request, client.response
      ensures Kept() && users == old(users) && client.fd == old(client.fd)
      ensures closed <==> ret < 0 && err != Some(EAGAIN)
      ensures closed ==> fault.None? && Inv() && armed == old(armed) - {client.fd} && client.isClose
      ensures closed ==>
        && unchanged(client.readBuff, client.request, client.writeBuff)
        && client.response.View() == old(client.response.View()).(mmFile := None)
      ensures !closed ==>
        var p := Parsed(old(client.readBuff.Contents()), db);
        && (fault.Some? <==> p.Failure?) && (p.Failure? ==> fault == Some(p.error))
        && (p.Success? ==> (writing <==> p.value.code != NoRequest))
      ensures !closed && fault.None? ==> Inv() && armed == old(armed)[client.fd := Rearm(connEvent, writing)]
    {
      if ret < 0 && err != Some(EAGAIN) {
        CloseConn(client);
        return None, true, false;
      }
      fault, writing := OnProcess(client, db, fs);
      closed := false;
    }

    /** The read() in onRead_: only the client's read buffer changes. */
    method Receive(client: HttpConn, sock: Inbound) returns (ret: int, err: Option<int>)
      requires Inv() && client.fd in armed && users[client.fd] == client && client.Valid()
      requires sock.end.ReadBytes? ==> sock.end.bytes == []
      modifies client.readBuff
      ensures Inv() && client.Valid()
      ensures client.readBuff.Contents() == old(client.readBuff.Contents()) + Received(sock.data, old(client.readBuff.WritableBytes()) + EXTRA_READ_SIZE, statics.isET)
      ensures ret < 0 && err != Some(EAGAIN) <==> (statics.isET || sock.data == []) && sock.end.ReadFailed? && sock.end.errno != EAGAIN
    {
      Focus(client.fd);
      ret, err := client.Read(statics, sock);
      RestFramed(client.fd);
      Unfocus(client.fd);
    }

    /**
     * The write() in onWrite_: the connection stays sound and registered for writing, with
     * `sent` fewer bytes to write.
     */
    method Flush(client: HttpConn, peer: Outbound) returns (ret: int, err: Option<int>, sent: nat)
      requires Inv() && Writable(client.fd) && users[client.fd] == client && peer.end.WriteFailed?
      modifies client, client.writeBuff
      ensures Inv() && Writable(client.fd) && client.fd == old(client.fd)
      ensures sent <= old(client.ToWriteBytes()) && sent <= peer.room
      ensures client.ToWriteBytes() == old(client.ToWriteBytes()) - sent
      ensures ret < 0 ==> sent == peer.room && client.ToWriteBytes() > 0 && err == Some(peer.end.errno)
      ensures client.IsKeepAlive() == old(client.IsKeepAlive())
    {
      Focus(client.fd);
      ReadyIffSending(client);
      ret, err, sent := client.Write(statics, peer, Blank(client.response.FileLen()));
      RestFramed(client.fd);
      ReadyIffSending(client);
      Unfocus(client.fd);
    }

    /**
     * onWrite_, corrected: write; a drained response on a keep-alive connection is followed
     * by onProcess, a write that stalled on EAGAIN keeps the client registered for EPOLLOUT,
     * and everything else closes it.
     */
    method OnWrite(client: HttpConn, peer: Outbound, db: UserDb, fs: Files)
      returns (fault: Option<Fault>, ret: int, err: Option<int>, sent: nat)
      requires Inv() && Writable(client.fd) && users[client.fd] == client && peer.end.WriteFailed?
      modifies this, statics, client, client.readBuff, client.writeBuff, client.request, client.response
      ensures Kept() && users == old(users) && client.fd == old(client.fd)
      ensures sent <= old(client.ToWriteBytes()) && sent <= peer.room
      ensures ret < 0 ==> sent == peer.room && err == Some(peer.end.errno)
      ensures fault.None? ==> Inv()
      ensures var steps := WriteSteps(old(client.ToWriteBytes()) - sent, old(client.IsKeepAlive()), ret, err);
        var p := Parsed(old(client.readBuff.Contents()), db);
        && (steps[0] == ProcessNext ==> (fault.Some? <==> p.Failure?) && (p.Failure? ==> fault == Some(p.error)))
        && (steps[0] == ProcessNext && p.Success? ==> armed == old(armed)[client.fd := Rearm(connEvent, p.value.code != NoRequest)])
        && (steps[0] == AwaitRoom ==> fault.None? && armed == old(armed))
        && (steps[0] == Close ==> fault.None? && armed == old(armed) - {client.fd} && client.isClose)
    {
      ret, err, sent := Flush(client, peer);
      fault := AfterWrite(client, client.ToWriteBytes(), client.IsKeepAlive(), ret, err, db, fs, Parsed(client.readBuff.Contents(), db));
    }

    /** The rest of onWrite_, after write(): what the bytes left and keep-alive decide. */
    method AfterWrite(client: HttpConn, left: nat, keepAlive: bool, ret: int, err: Option<int>, db: UserDb, fs: Files, ghost p: Result<Outcome, Fault>)
      returns (fault: Option<Fault>)
      requires Inv() && Writable(client.fd) && users[client.fd] == client
      requires left == client.ToWriteBytes() && keepAlive == client.IsKeepAlive() && p == Parsed(client.readBuff.Contents(), db)
      modifies this, statics, client, client.readBuff, client.writeBuff, client.request, client.response
      ensures Kept() && users == old(users) && client.fd == old(client.fd)
      ensures fault.None? ==> Inv()
      ensures var steps := WriteSteps(left, keepAlive, ret, err);
        && (steps[0] == ProcessNext ==> (fault.Some? <==> p.Failure?) && (p.Failure? ==> fault == Some(p.error)))
        && (steps[0] == ProcessNext && p.Success? ==> armed == old(armed)[client.fd := Rearm(connEvent, p.value.code != NoRequest)])
        && (steps[0] == AwaitRoom ==> fault.None? && armed == old(armed))
        && (steps[0] == Close ==> fault.None? && armed == old(armed) - {client.fd} && client.isClose)
    {
      if left == 0 && keepAlive {
        var writing;
        fault, writing := OnProcess(client, db, fs);
      } else {
        WaitOrClose(client, ret, err);
        fault := None;
      }
    }

    /** The paths of onWrite_ that do not process again: wait for room after a stall, or close. */
    method WaitOrClose(client: HttpConn, ret: int, err: Option<int>)
      requires Inv() && Writable(client.fd) && users[client.fd] == client
      modifies this, statics, client, client.response
      ensures Inv() && Kept() && users == old(users) && client.fd == old(client.fd)
      ensures old(client.ToWriteBytes()) > 0 && ret < 0 && err == Some(EAGAIN) ==> armed == old(armed)
      ensures !(old(client.ToWriteBytes()) > 0 && ret < 0 && err == Some(EAGAIN)) ==>
        armed == old(armed) - {client.fd} && client.isClose
    {
      if client.ToWriteBytes() > 0 && ret < 0 && err == Some(EAGAIN) {
        KeepWaiting(client);
      } else {
        CloseConn(client);
      }
    }

    /**
     * onWrite_ as written: like OnWrite, except that a stalled write is re-armed and then
     * closed anyway, with bytes of its response still unsent.
     */
    method OnWriteAsWritten(client: HttpConn, peer: Outbound, db: UserDb, fs: Files)
      returns (fault: Option<Fault>, ret: int, err: Option<int>, sent: nat)
      requires Inv() && Writable(client.fd) && users[client.fd] == client && peer.end.WriteFailed?
      modifies this, statics, client, client.readBuff, client.writeBuff, client.request, client.response
      ensures Kept() && users == old(users) && client.fd == old(client.fd)
      ensures sent <= old(client.ToWriteBytes()) && sent <= peer.room
      ensures ret < 0 ==> sent == peer.room && err == Some(peer.end.errno)
      ensures fault.None? ==> Inv()
      ensures var steps := WriteStepsAsWritten(old(client.ToWriteBytes()) - sent, old(client.IsKeepAlive()), ret, err);
        var p := Parsed(old(client.readBuff.Contents()), db);
        && (steps == [ProcessNext] ==> (fault.Some? <==> p.Failure?) && (p.Failure? ==> fault == Some(p.error)))
        && (steps == [ProcessNext] && p.Success? ==> armed == old(armed)[client.fd := Rearm(connEvent, p.value.code != NoRequest)])
        && (steps[|steps| - 1] == Close ==> fault.None? && armed == old(armed) - {client.fd} && client.isClose)
        && (steps == [AwaitRoom, Close] ==> client.ToWriteBytes() > 0)
    {
      ret, err, sent := Flush(client, peer);
      fault := AfterWriteAsWritten(client, client.ToWriteBytes(), client.IsKeepAlive(), ret, err, db, fs, Parsed(client.readBuff.Contents(), db));
    }

    /** The rest of onWrite_ as written, after write(): what the bytes left and keep-alive decide. */
    method AfterWriteAsWritten(client: HttpConn, left: nat, keepAlive: bool, ret: int, err: Option<int>, db: UserDb, fs: Files, ghost p: Result<Outcome, Fault>)
      returns (fault: Option<Fault>)
      requires Inv() && Writable(client.fd) && users[client.fd] == client
      requires left == client.ToWriteBytes() && keepAlive == client.IsKeepAlive() && p == Parsed(client.readBuff.Contents(), db)
      modifies this, statics, client, client.readBuff, client.writeBuff, client.request, client.response
      ensures Kept() && users == old(users) && client.fd == old(client.fd)
      ensures fault.None? ==> Inv()
      ensures var steps := WriteStepsAsWritten(left, keepAlive, ret, err);
        && (steps == [ProcessNext] ==> (fault.Some? <==> p.Failure?) && (p.Failure? ==> fault == Some(p.error)))
        && (steps == [ProcessNext] && p.Success? ==> armed == old(armed)[client.fd := Rearm(connEvent, p.value.code != NoRequest)])
        && (steps[|steps| - 1] == Close ==> fault.None? && armed == old(armed) - {client.fd} && client.isClose)
        && (steps == [AwaitRoom, Close] ==> client.ToWriteBytes() > 0)
    {
      if left == 0 {
        if keepAlive {
          var writing;
          fault, writing := OnProcess(client, db, fs);
          return;
        }
      } else if ret < 0 {
        if err == Some(EAGAIN) {
          RearmThenClose(client);
          return None;
        }
      }
      CloseConn(client);
      fault := None;
    }

    /** The stalled path of onWrite_: modFd for EPOLLOUT, which the client is registered for already. */
    method KeepWaiting(client: HttpConn)
      requires Inv() && Writable(client.fd) && users[client.fd] == client
      modifies this
      ensures Inv() && Kept() && users == old(users) && armed == old(armed)
    {
      Focus(client.fd);
      ModFd(client.GetFd(), true);
    }

    /** The stalled path of onWrite_ as written: modFd for EPOLLOUT, then closeConn_ after all. */
    method RearmThenClose(client: HttpConn)
      requires Inv() && Writable(client.fd) && users[client.fd] == client
      modifies this, statics, client, client.response
      ensures Inv() && Kept() && users == old(users) && client.fd == old(client.fd)
      ensures armed == old(armed) - {client.fd} && client.isClose
      ensures client.ToWriteBytes() == old(client.ToWriteBytes())
    {
      Focus(client.fd);
      ModFd(client.GetFd(), true);
      CloseConn(client);
    }

    /**
     * onProcess: the client is re-armed for writing when process() produced a response and
     * for reading otherwise.  A fault escaping the parser ends the server.
     */
    method OnProcess(client: HttpConn, db: UserDb, fs: Files) returns (fault: Option<Fault>, writing: bool)
      requires Inv() && client.fd in armed && users[client.fd] == client
      modifies this, client, client.readBuff, client.writeBuff, client.request, client.response
      ensures Kept() && users == old(users) && client.fd == old(client.fd)
      ensures var p := Parsed(old(client.readBuff.Contents()), db);
        && (fault.Some? <==> p.Failure?)
        && (p.Failure? ==> fault == Some(p.error))
        && (p.Success? ==> (writing <==> p.value.code != NoRequest))
      ensures fault.None? ==> Inv() && armed == old(armed)[client.fd := Rearm(connEvent, writing)]
    {
      Focus(client.fd);
      var res := client.Process(statics, db, fs);
      RestFramed(client.fd);
      if res.Failure? {
        return Some(res.error), false;
      }
      writing := res.value;
      ModFd(client.GetFd(), writing);
      fault := None;
    }
  }
}
