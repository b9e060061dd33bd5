/** Properties of the server's decision logic: the live counter matches the
    open connections and never passes `MAX_FD`, registration follows the
    connections, and the read and write outcomes end where the source says. */
module WebServerLemmas {
  import opened WebServer
  import HC = HttpConn
  import HCL = HttpConnLemmas
  import Req = HttpRequest
  import Resp = HttpResponse

  // ---------------------------------------------------------------------
  // The server invariant

  /** The counter is the number of open connections and at most `MAX_FD`;
      every kept connection sits under its own descriptor (never the
      listener's); exactly the open descriptors are registered, each armed
      for output only when its response is ready to write. */
  predicate Inv(s: Server)
  {
    && s.userCount == |OpenFds(s)| <= MaxFd
    && s.listenFd !in s.users
    && (forall k :: k in s.users ==> k > 0 && s.users[k].fd == k)
    && s.armed.Keys == OpenFds(s)
    && Out !in s.mode.connEvent
    && (forall k :: k in s.armed && Out in s.armed[k] ==> HC.WriteReady(s.users[k]))
    && s.timers <= s.users.Keys
  }

  lemma CreateInv(port: int, trigMode: int, timeoutMS: int, listenFd: int, socketOk: bool, srcDir: string)
    ensures Inv(Create(port, trigMode, timeoutMS, listenFd, socketOk, srcDir))
  {
    var s := Create(port, trigMode, timeoutMS, listenFd, socketOk, srcDir);
    assert OpenFds(s) == {};
  }

  lemma CardAdd(a: set<int>, x: int)
    requires x !in a
    ensures |a + {x}| == |a| + 1
  {
  }

  lemma CardRemove(a: set<int>, x: int)
    requires x in a
    ensures |a - {x}| == |a| - 1
  {
    assert (a - {x}) + {x} == a;
    CardAdd(a - {x}, x);
  }

  lemma {:induction false} CloseConnInv(s: Server, fd: int)
    requires Inv(s) && fd in s.users
    ensures Inv(CloseConn(s, fd))
  {
    var s' := CloseConn(s, fd);
    if fd in OpenFds(s) {
      CardRemove(OpenFds(s), fd);
    } else {
      assert OpenFds(s) - {fd} == OpenFds(s);
    }
    assert s'.armed.Keys == s.armed.Keys - {fd};
  }

  /** A descriptor `accept` can return: positive, not the listener and not
      an open connection. */
  predicate FreshFd(s: Server, fd: int)
  {
    fd > 0 && fd != s.listenFd && fd !in OpenFds(s)
  }

  lemma {:induction false} AddClientInv(s: Server, fd: int, uninit: (HC.Seg, HC.Seg, nat))
    requires Inv(s) && FreshFd(s, fd) && s.userCount < MaxFd
    ensures Inv(AddClient(s, fd, uninit))
  {
    var s' := AddClient(s, fd, uninit);
    CardAdd(OpenFds(s), fd);
    assert s'.armed.Keys == OpenFds(s');
    forall k | k in s'.armed && Out in s'.armed[k]
      ensures HC.WriteReady(s'.users[k])
    {
      assert k != fd;
    }
  }

  /** `accept` hands out distinct fresh descriptors. */
  predicate FreshPending(s: Server, pending: seq<int>)
  {
    && (forall i :: 0 <= i < |pending| && pending[i] > 0 ==> pending[i] != s.listenFd && pending[i] !in OpenFds(s))
    && (forall i, j :: 0 <= i < j < |pending| && pending[i] > 0 ==> pending[i] != pending[j])
  }

  lemma {:induction false} DealListenInv(s: Server, pending: seq<int>, uninit: (HC.Seg, HC.Seg, nat))
    requires Inv(s) && FreshPending(s, pending)
    ensures Inv(DealListen(s, pending, uninit).server)
    decreases |pending|
  {
    if |pending| > 0 && pending[0] > 0 && s.userCount < MaxFd {
      var fd := pending[0];
      AddClientInv(s, fd, uninit);
      var s1 := AddClient(s, fd, uninit);
      if Et in s.mode.listenEvent {
        assert FreshPending(s1, pending[1..]) by {
          forall i | 0 <= i < |pending[1..]| && pending[1..][i] > 0
            ensures pending[1..][i] != s1.listenFd && pending[1..][i] !in OpenFds(s1)
          {
            assert pending[1..][i] == pending[i + 1];
          }
          forall i, j | 0 <= i < j < |pending[1..]| && pending[1..][i] > 0
            ensures pending[1..][i] != pending[1..][j]
          {
            assert pending[1..][i] == pending[i + 1] && pending[1..][j] == pending[j + 1];
          }
        }
        DealListenInv(s1, pending[1..], uninit);
      }
    }
  }

  lemma {:induction false} OnProcessInv(s: Server, fd: int, fs: Resp.FileSystem,
                                        store: (string, string, bool) -> bool)
    requires Inv(s) && fd in s.users && s.srcDir != ""
    requires Req.Decodable(Req.Init(), s.users[fd].readBuf)
    ensures Inv(OnProcess(s, fd, fs, store))
  {
    var p := HC.Process(s.users[fd], s.srcDir, fs, store);
    var s' := OnProcess(s, fd, fs, store);
    forall k | k in s'.armed && Out in s'.armed[k]
      ensures HC.WriteReady(s'.users[k])
    {
      if k == fd {
        assert p.ok;
      }
    }
  }

  /** Replacing a connection by one with the same descriptor and open
      state, still ready to write if it was, keeps the invariant. */
  lemma ReplaceConnInv(s: Server, fd: int, c: HC.Conn)
    requires Inv(s) && fd in s.users
    requires c.fd == fd && c.isClosed == s.users[fd].isClosed
    requires HC.WriteReady(s.users[fd]) ==> HC.WriteReady(c)
    ensures Inv(s.(users := s.users[fd := c]))
  {
    var s1 := s.(users := s.users[fd := c]);
    assert OpenFds(s1) == OpenFds(s);
  }

  lemma {:induction false} OnReadInv(s: Server, fd: int, chunks: seq<HC.Chunk>, fs: Resp.FileSystem,
                                     store: (string, string, bool) -> bool)
    requires Inv(s) && fd in s.users && s.srcDir != "" && ReadDecodable(s, fd, chunks)
    ensures Inv(OnRead(s, fd, chunks, fs, store))
  {
    var r := HC.Read(s.users[fd], IsET(s.mode), chunks);
    ReplaceConnInv(s, fd, r.conn);
    var s1 := s.(users := s.users[fd := r.conn]);
    match AfterRead(r.len, r.errno)
    case CloseAfterRead => CloseConnInv(s1, fd);
    case ProcessIt => OnProcessInv(s1, fd, fs, store);
  }

  lemma {:induction false} OnWriteInv(s: Server, fd: int, kernel: nat -> HC.Sink, fs: Resp.FileSystem,
                                      store: (string, string, bool) -> bool)
    requires Inv(s) && fd in s.users && s.srcDir != "" && HC.WriteReady(s.users[fd])
    requires WriteDecodable(s, fd, kernel)
    ensures Inv(OnWrite(s, fd, kernel, fs, store))
  {
    var w := HC.Write(s.users[fd], IsET(s.mode), kernel);
    ReplaceConnInv(s, fd, w.conn);
    var s1 := s.(users := s.users[fd := w.conn]);
    match AfterWrite(HC.ToWriteBytes(w.conn), HC.IsKeepAlive(w.conn), w.len, w.errno)
    case Reprocess => OnProcessInv(s1, fd, fs, store);
    case ArmOut =>
    case CloseAfterWrite => CloseConnInv(s1, fd);
  }

  /** What the world may deliver for one event. `accept` hands out fresh
      descriptors; a client event comes for a kept connection (the source
      asserts `users_.count(fd) > 0`); `epoll` reports output readiness
      only on a descriptor registered for it; and a buffer `process` will
      see meets the form decoder's precondition. */
  predicate Feasible(s: Server, fd: int, events: set<Event>, input: Input)
  {
    && s.srcDir != ""
    && (fd == s.listenFd ==> FreshPending(s, input.pending))
    && (fd != s.listenFd ==> fd in s.users)
    && (fd != s.listenFd && Out in events ==> fd in s.armed && Out in s.armed[fd])
    && (Dispatch(fd, s.listenFd, events) == ReadTask ==> ReadDecodable(s, fd, input.chunks))
    && (Dispatch(fd, s.listenFd, events) == WriteTask && HC.WriteReady(s.users[fd]) ==>
          WriteDecodable(s, fd, input.kernel))
  }

  /** Under the invariant, what the world may deliver is an event `Step`
      is defined on: a write event finds its response ready. */
  lemma FeasibleDefined(s: Server, fd: int, events: set<Event>, input: Input)
    requires Inv(s) && Feasible(s, fd, events, input)
    ensures StepDefined(s, fd, events, input)
  {
    if Dispatch(fd, s.listenFd, events) == WriteTask {
      ArmedOutIsReady(s, fd);
    }
  }

  /** Every event keeps the invariant. */
  lemma {:induction false} StepInv(s: Server, fd: int, events: set<Event>, input: Input)
    requires Inv(s) && Feasible(s, fd, events, input)
    ensures StepDefined(s, fd, events, input)
    ensures Inv(Step(s, fd, events, input))
  {
    FeasibleDefined(s, fd, events, input);
    match Dispatch(fd, s.listenFd, events)
    case Accept => DealListenInv(s, input.pending, input.uninit);
    case CloseIt => CloseConnInv(s, fd);
    case ReadTask => OnReadInv(s, fd, input.chunks, input.fs, input.store);
    case WriteTask => OnWriteInv(s, fd, input.kernel, input.fs, input.store);
    case Ignore =>
  }

  /** A timer firing, on an open or an already closed connection, keeps it too. */
  lemma ExpireInv(s: Server, fd: int)
    requires Inv(s) && fd in s.users
    ensures Inv(Expire(s, fd))
  {
    CloseConnInv(s, fd);
  }

  /** Under the invariant an event that asks to write finds a ready response. */
  lemma ArmedOutIsReady(s: Server, fd: int)
    requires Inv(s) && fd in s.armed && Out in s.armed[fd]
    ensures fd in s.users && HC.WriteReady(s.users[fd])
  {
  }

  // ---------------------------------------------------------------------
  // A run of events

  /** What happens between two checks of `isClose_` in `Start`: a ready
      descriptor from `epoll_wait`, or the heap timer firing a connection's
      expiry while `GetNextTick` runs. */
  datatype Happening = Ready(fd: int, events: set<Event>, input: Input) | TimerFires(fd: int)

  /** The world's side of a run: every ready event is feasible, and only a
      descriptor that was given a timer sees one fire. */
  predicate RunFeasible(s: Server, hs: seq<Happening>)
    requires Inv(s)
    decreases |hs|
  {
    |hs| == 0 ||
    match hs[0]
    case Ready(fd, events, input) =>
      Feasible(s, fd, events, input)
      && (StepInv(s, fd, events, input); RunFeasible(Step(s, fd, events, input), hs[1..]))
    case TimerFires(fd) =>
      fd in s.timers
      && (ExpireInv(s, fd); RunFeasible(Expire(s, fd), hs[1..]))
  }

  /** The server after a run. */
  function Run(s: Server, hs: seq<Happening>): Server
    requires Inv(s) && RunFeasible(s, hs)
    decreases |hs|
  {
    if |hs| == 0 then s
    else match hs[0]
      case Ready(fd, events, input) =>
        StepInv(s, fd, events, input);
        Run(Step(s, fd, events, input), hs[1..])
      case TimerFires(fd) =>
        ExpireInv(s, fd);
        Run(Expire(s, fd), hs[1..])
  }

  /** Over any run of ready events and timer firings, the counter equals
      the number of open connections and stays within `MAX_FD`, and every
      descriptor armed for output has a response ready to write. */
  lemma {:induction false} RunInv(s: Server, hs: seq<Happening>)
    requires Inv(s) && RunFeasible(s, hs)
    ensures Inv(Run(s, hs))
    ensures Run(s, hs).userCount == |OpenFds(Run(s, hs))| <= MaxFd
    ensures forall k :: k in Run(s, hs).armed && Out in Run(s, hs).armed[k] ==> HC.WriteReady(Run(s, hs).users[k])
    decreases |hs|
  {
    if |hs| > 0 {
      match hs[0]
      case Ready(fd, events, input) =>
        StepInv(s, fd, events, input);
        RunInv(Step(s, fd, events, input), hs[1..]);
      case TimerFires(fd) =>
        ExpireInv(s, fd);
        RunInv(Expire(s, fd), hs[1..]);
    }
  }

  /** From construction on: a server built by the constructor keeps the
      invariant over any feasible run. */
  lemma ServeFromStart(port: int, trigMode: int, timeoutMS: int, listenFd: int, socketOk: bool,
                       srcDir: string, hs: seq<Happening>)
    ensures Inv(Create(port, trigMode, timeoutMS, listenFd, socketOk, srcDir))
    ensures var s := Create(port, trigMode, timeoutMS, listenFd, socketOk, srcDir);
      RunFeasible(s, hs) ==> Run(s, hs).userCount == |OpenFds(Run(s, hs))| <= MaxFd
  {
    var s := Create(port, trigMode, timeoutMS, listenFd, socketOk, srcDir);
    CreateInv(port, trigMode, timeoutMS, listenFd, socketOk, srcDir);
    if RunFeasible(s, hs) {
      RunInv(s, hs);
    }
  }

  // ---------------------------------------------------------------------
  // Accepting

  /** An edge-triggered listener facing `n` fresh descriptors then a failed
      `accept` takes as many as fit under `MAX_FD` and refuses the next one. */
  lemma {:induction false} DealListenFills(s: Server, pending: seq<int>, uninit: (HC.Seg, HC.Seg, nat))
    requires Et in s.mode.listenEvent
    requires forall i :: 0 <= i < |pending| ==> pending[i] > 0
    requires s.userCount <= MaxFd
    ensures var l := DealListen(s, pending, uninit);
      && (s.userCount + |pending| <= MaxFd ==> l.accepted == pending && l.refused == [])
      && (s.userCount + |pending| > MaxFd ==>
            |l.accepted| == MaxFd - s.userCount && l.refused == [pending[MaxFd - s.userCount]])
    decreases |pending|
  {
    if |pending| > 0 && s.userCount < MaxFd {
      var s1 := AddClient(s, pending[0], uninit);
      DealListenFills(s1, pending[1..], uninit);
      var l := DealListen(s1, pending[1..], uninit);
      if s.userCount + |pending| <= MaxFd {
        assert [pending[0]] + pending[1..] == pending;
      } else {
        assert pending[1..][MaxFd - s1.userCount] == pending[MaxFd - s.userCount];
      }
    }
  }

  // ---------------------------------------------------------------------
  // After a read or a write

  /** A read that met the end of the stream closes; an edge-triggered read
      that drained the socket goes on to `process`. */
  lemma ReadOutcomes(c: HC.Conn, chunks: seq<HC.Chunk>)
    requires forall i :: 0 <= i < |chunks| ==> chunks[i].Bytes? && chunks[i].data != ""
    ensures var r := HC.Read(c, true, chunks); AfterRead(r.len, r.errno) == ProcessIt
    ensures var r := HC.Read(c, true, chunks + [HC.Bytes("")]); AfterRead(r.len, r.errno) == CloseAfterRead
  {
    HCL.ReadEndsET(c, chunks);
  }

  /** A keep-alive connection goes back to `process` only once everything
      has been written; a connection that did not ask for keep-alive is
      closed once everything has been written. */
  lemma AfterWriteComplete(toWrite: nat, keepAlive: bool, ret: int, errno: int)
    ensures AfterWrite(toWrite, keepAlive, ret, errno) == Reprocess <==> toWrite == 0 && keepAlive
    ensures AfterWrite(toWrite, keepAlive, ret, errno) == ArmOut <==> toWrite > 0 && ret < 0 && errno == HC.EAGAIN
  {
  }

  /** With a stale second segment the connection never counts as fully
      written, so a keep-alive client is never served a second request on it. */
  lemma StaleSegmentNeverReprocesses(c: HC.Conn, isET: bool, kernel: nat -> HC.Sink)
    requires HC.WriteReady(c) && c.iovCnt == 1 && c.iov1.len > 0
    ensures var w := HC.Write(c, isET, kernel);
      AfterWrite(HC.ToWriteBytes(w.conn), HC.IsKeepAlive(w.conn), w.len, w.errno) != Reprocess
  {
    HCL.WriteLeavesStaleSegment(c, isET, kernel);
  }

  /** Level-triggered: a transfer that leaves at most 10240 bytes unsent
      ends `write` with a positive result, and the connection is closed
      with those bytes never sent. */
  lemma LevelTriggeredDropsTail(c: HC.Conn, kernel: nat -> HC.Sink)
    requires HC.WriteReady(c)
    ensures var w := HC.Write(c, false, kernel);
      w.len > 0 && HC.ToWriteBytes(w.conn) > 0 ==>
        AfterWrite(HC.ToWriteBytes(w.conn), HC.IsKeepAlive(w.conn), w.len, w.errno) == CloseAfterWrite
        && HC.ToWriteBytes(w.conn) <= HC.WriteThreshold
  {
  }

  /** A concrete case: a 10-byte response, a socket that takes 4 bytes;
      6 bytes are dropped. */
  lemma DroppedTailExample(c: HC.Conn)
    requires c.writeBuf == "HTTP/1.1 2" && c.iov0 == HC.Seg(0, 10) && c.iov1 == HC.Seg(0, 0) && c.iovCnt == 1
    ensures var w := HC.Write(c, false, j => HC.Sink(4, 0));
      w.len == 4 && HC.ToWriteBytes(w.conn) == 6
      && AfterWrite(HC.ToWriteBytes(w.conn), HC.IsKeepAlive(w.conn), w.len, w.errno) == CloseAfterWrite
  {
    var kernel := j => HC.Sink(4, 0);
    assert HC.Transfer(c, kernel(0)) == 4;
    var c1 := HC.Advance(c, 4);
    assert HC.ToWriteBytes(c1) == 6;
  }
}
