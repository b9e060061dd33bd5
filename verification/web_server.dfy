/** The decision logic of `code/server/webserver.cpp`.

    The epoll interest list is a map from client descriptor to the flags it
    is registered with, and the heap timer is the set of descriptors that
    have a timer. `accept` results, socket reads and `writev` answers are
    inputs. Tasks handed to the thread pool run to completion, one at a time. */
module WebServer {
  import HC = HttpConn
  import Req = HttpRequest
  import Resp = HttpResponse

  /** `MAX_FD`: the most connections served at once. */
  const MaxFd := 65536

  /** The `epoll` flags the server uses. */
  datatype Event = In | Out | RdHup | Hup | Err | OneShot | Et

  /** `listenEvent_` and `connEvent_`. */
  datatype EventMode = EventMode(listenEvent: set<Event>, connEvent: set<Event>)

  /** `InitEventMode_`: peer hang-up is watched on both; connections are
      one-shot; the trigger mode says which of the two are edge-triggered
      (0 neither, 1 connections, 2 the listener, anything else both). */
  function InitEventMode(trigMode: int): (m: EventMode)
    ensures RdHup in m.listenEvent && OneShot in m.connEvent && RdHup in m.connEvent
    ensures m.listenEvent <= {RdHup, Et} && m.connEvent <= {OneShot, RdHup, Et}
    ensures Et in m.connEvent <==> trigMode != 0 && trigMode != 2
    ensures Et in m.listenEvent <==> trigMode != 0 && trigMode != 1
  {
    var listen := {RdHup};
    var conn := {OneShot, RdHup};
    if trigMode == 0 then EventMode(listen, conn)
    else if trigMode == 1 then EventMode(listen, conn + {Et})
    else if trigMode == 2 then EventMode(listen + {Et}, conn)
    else EventMode(listen + {Et}, conn + {Et})
  }

  /** `HttpConn::isET`: whether connections are edge-triggered. */
  predicate IsET(m: EventMode)
  {
    Et in m.connEvent
  }

  /** The `epoll_wait` timeout of `Start`: block without a connection
      timeout, else wait until the timer's next expiry. */
  function WaitTimeout(timeoutMS: int, nextTick: int): (t: int)
    ensures timeoutMS <= 0 ==> t == -1
    ensures timeoutMS > 0 ==> t == nextTick
  {
    if timeoutMS > 0 then nextTick else -1
  }

  /** What `Start` does with one ready descriptor. */
  datatype Action = Accept | CloseIt | ReadTask | WriteTask | Ignore

  /** The dispatch branch of `Start`: the listener accepts; otherwise a
      hang-up or error closes, before a read, before a write. */
  function Dispatch(fd: int, listenFd: int, events: set<Event>): (a: Action)
    ensures a == Accept <==> fd == listenFd
    ensures a == CloseIt <==> fd != listenFd && (RdHup in events || Hup in events || Err in events)
    ensures a == ReadTask ==> In in events
    ensures a == WriteTask ==> Out in events && In !in events
    ensures a == Ignore ==> In !in events && Out !in events
  {
    if fd == listenFd then Accept
    else if RdHup in events || Hup in events || Err in events then CloseIt
    else if In in events then ReadTask
    else if Out in events then WriteTask
    else Ignore
  }

  /** The first check of `InitSocket_`: only non-privileged ports. */
  predicate ValidPort(port: int)
  {
    1024 <= port <= 65535
  }

  datatype Server = Server(
    isClose: bool,
    listenFd: int,
    mode: EventMode,
    timeoutMS: int,
    srcDir: string,
    users: map<int, HC.Conn>,
    userCount: int,
    armed: map<int, set<Event>>,
    timers: set<int>)

  /** The constructor: no users, nothing registered; the server is closed
      when the port is out of range or the rest of socket setup fails. */
  function Create(port: int, trigMode: int, timeoutMS: int, listenFd: int, socketOk: bool, srcDir: string): (s: Server)
    ensures s.isClose <==> !ValidPort(port) || !socketOk
    ensures s.userCount == 0 && s.users == map[] && s.armed == map[] && s.timers == {}
    ensures s.mode == InitEventMode(trigMode)
  {
    Server(!(ValidPort(port) && socketOk), listenFd, InitEventMode(trigMode), timeoutMS, srcDir,
           map[], 0, map[], {})
  }

  /** Descriptors whose connection is open. */
  function OpenFds(s: Server): set<int>
  {
    set k | k in s.users && !s.users[k].isClosed
  }

  /** `ModFd`: only a registered descriptor changes its flags. */
  function ModFd(armed: map<int, set<Event>>, fd: int, flags: set<Event>): (a: map<int, set<Event>>)
    ensures a.Keys == armed.Keys
    ensures fd in armed ==> a[fd] == flags
    ensures forall k :: k in armed && k != fd ==> a[k] == armed[k]
  {
    if fd in armed then armed[fd := flags] else armed
  }

  /** `CloseConn_`: deregister, then `Close` the connection. */
  function CloseConn(s: Server, fd: int): (s': Server)
    requires fd in s.users
    ensures fd !in s'.armed && fd in s'.users && s'.users[fd].isClosed
    ensures OpenFds(s') == OpenFds(s) - {fd}
    ensures s'.userCount == (if fd in OpenFds(s) then s.userCount - 1 else s.userCount)
  {
    var r := HC.Close(s.users[fd], s.userCount);
    s.(armed := s.armed - {fd}, users := s.users[fd := r.conn], userCount := r.userCount)
  }

  /** `AddClient_`: initialise the connection kept for `fd` (a new one when
      there is none: `uninit` stands for the `iovec` fields the constructor
      leaves unset), add a timer when timeouts are on, register for input. */
  function AddClient(s: Server, fd: int, uninit: (HC.Seg, HC.Seg, nat)): (s': Server)
    requires fd > 0
    ensures s'.armed == s.armed[fd := {In} + s.mode.connEvent]
    ensures s'.timers == (if s.timeoutMS > 0 then s.timers + {fd} else s.timers)
    ensures OpenFds(s') == OpenFds(s) + {fd}
    ensures s'.userCount == s.userCount + 1
    ensures fd in s'.users && s'.users[fd].fd == fd && s'.users[fd].readBuf == ""
  {
    var base := if fd in s.users then s.users[fd] else HC.NewConn(uninit.0, uninit.1, uninit.2);
    var r := HC.InitConn(base, fd, s.userCount);
    s.(users := s.users[fd := r.conn], userCount := r.userCount,
       timers := if s.timeoutMS > 0 then s.timers + {fd} else s.timers,
       armed := s.armed[fd := {In} + s.mode.connEvent])
  }

  /** The outcome of `DealListen_`: the server, the descriptors accepted
      and those refused with `Server busy!`. */
  datatype Listened = Listened(server: Server, accepted: seq<int>, refused: seq<int>)

  /** `DealListen_` with `pending` the results of successive `accept`
      calls (an exhausted list fails). A failure stops; a full server
      refuses the descriptor and stops; otherwise the client is added and
      accepting goes on only when the listener is edge-triggered. */
  function DealListen(s: Server, pending: seq<int>, uninit: (HC.Seg, HC.Seg, nat)): (l: Listened)
    ensures l.server.userCount == s.userCount + |l.accepted|
    ensures |l.refused| <= 1
    ensures |l.refused| == 1 ==> l.server.userCount >= MaxFd && l.refused[0] > 0
    ensures Et !in s.mode.listenEvent ==> |l.accepted| + |l.refused| <= 1
    ensures |l.accepted| + |l.refused| <= |pending|
    ensures l.server.mode == s.mode && l.server.listenFd == s.listenFd && l.server.srcDir == s.srcDir
    decreases |pending|
  {
    if |pending| == 0 || pending[0] <= 0 then Listened(s, [], [])
    else if s.userCount >= MaxFd then Listened(s, [], [pending[0]])
    else
      var s1 := AddClient(s, pending[0], uninit);
      if Et in s.mode.listenEvent then
        var l := DealListen(s1, pending[1..], uninit);
        l.(accepted := [pending[0]] + l.accepted)
      else Listened(s1, [pending[0]], [])
  }

  /** `OnProcess`: build the response, then wait for the socket to take it,
      or for more input when there was nothing to process. */
  function OnProcess(s: Server, fd: int, fs: Resp.FileSystem, store: (string, string, bool) -> bool): (s': Server)
    requires fd in s.users && s.srcDir != ""
    requires Req.Decodable(Req.Init(), s.users[fd].readBuf)
    ensures var p := HC.Process(s.users[fd], s.srcDir, fs, store);
      s'.users == s.users[fd := p.conn]
      && s'.armed == ModFd(s.armed, fd, s.mode.connEvent + {if p.ok then Out else In})
    ensures OpenFds(s') == OpenFds(s) && s'.userCount == s.userCount
  {
    var p := HC.Process(s.users[fd], s.srcDir, fs, store);
    var s1 := s.(users := s.users[fd := p.conn]);
    assert OpenFds(s1) == OpenFds(s);
    s1.(armed := ModFd(s.armed, fd, s.mode.connEvent + {if p.ok then Out else In}))
  }

  /** What `OnRead_` does after reading. */
  datatype ReadNext = ProcessIt | CloseAfterRead

  /** A read that ended in 0 or in an error other than `EAGAIN` closes. */
  function AfterRead(ret: int, errno: int): (n: ReadNext)
  {
    if ret <= 0 && errno != HC.EAGAIN then CloseAfterRead else ProcessIt
  }

  /** The buffer `process` sees after the read: the precondition form
      decoding needs is on it. */
  predicate ReadDecodable(s: Server, fd: int, chunks: seq<HC.Chunk>)
    requires fd in s.users
  {
    var r := HC.Read(s.users[fd], IsET(s.mode), chunks);
    AfterRead(r.len, r.errno) == ProcessIt ==> Req.Decodable(Req.Init(), r.conn.readBuf)
  }

  /** `OnRead_`. */
  function OnRead(s: Server, fd: int, chunks: seq<HC.Chunk>, fs: Resp.FileSystem,
                  store: (string, string, bool) -> bool): (s': Server)
    requires fd in s.users && s.srcDir != "" && ReadDecodable(s, fd, chunks)
    ensures fd in s'.users
    ensures var r := HC.Read(s.users[fd], IsET(s.mode), chunks);
      AfterRead(r.len, r.errno) == CloseAfterRead ==> fd !in s'.armed && s'.users[fd].isClosed
    ensures var r := HC.Read(s.users[fd], IsET(s.mode), chunks);
      AfterRead(r.len, r.errno) == ProcessIt ==>
        var p := HC.Process(r.conn, s.srcDir, fs, store);
        && s'.users == s.users[fd := p.conn] && s'.userCount == s.userCount
        && s'.armed.Keys == s.armed.Keys
        && (fd in s.armed ==> s'.armed[fd] == s.mode.connEvent + {if p.ok then Out else In})
  {
    var r := HC.Read(s.users[fd], IsET(s.mode), chunks);
    var s1 := s.(users := s.users[fd := r.conn]);
    match AfterRead(r.len, r.errno)
    case CloseAfterRead => CloseConn(s1, fd)
    case ProcessIt => OnProcess(s1, fd, fs, store)
  }

  /** What `OnWrite_` does after writing. */
  datatype WriteNext = Reprocess | ArmOut | CloseAfterWrite

  /** All sent on a keep-alive connection: serve the next request; bytes
      left after `EAGAIN`: wait for the socket; anything else closes,
      including bytes left after a transfer that did not fail. */
  function AfterWrite(toWrite: nat, keepAlive: bool, ret: int, errno: int): (n: WriteNext)
  {
    if toWrite == 0 then (if keepAlive then Reprocess else CloseAfterWrite)
    else if ret < 0 && errno == HC.EAGAIN then ArmOut
    else CloseAfterWrite
  }

  /** The precondition form decoding needs, when the write leads to `process`. */
  predicate WriteDecodable(s: Server, fd: int, kernel: nat -> HC.Sink)
    requires fd in s.users && HC.WriteReady(s.users[fd])
  {
    var w := HC.Write(s.users[fd], IsET(s.mode), kernel);
    var next := AfterWrite(HC.ToWriteBytes(w.conn), HC.IsKeepAlive(w.conn), w.len, w.errno);
    next == Reprocess ==> Req.Decodable(Req.Init(), w.conn.readBuf)
  }

  /** `OnWrite_`. */
  function OnWrite(s: Server, fd: int, kernel: nat -> HC.Sink, fs: Resp.FileSystem,
                   store: (string, string, bool) -> bool): (s': Server)
    requires fd in s.users && s.srcDir != "" && HC.WriteReady(s.users[fd])
    requires WriteDecodable(s, fd, kernel)
    ensures fd in s'.users
    ensures var w := HC.Write(s.users[fd], IsET(s.mode), kernel);
      var next := AfterWrite(HC.ToWriteBytes(w.conn), HC.IsKeepAlive(w.conn), w.len, w.errno);
      next == CloseAfterWrite ==> fd !in s'.armed && s'.users[fd].isClosed
    ensures var w := HC.Write(s.users[fd], IsET(s.mode), kernel);
      var next := AfterWrite(HC.ToWriteBytes(w.conn), HC.IsKeepAlive(w.conn), w.len, w.errno);
      next == ArmOut ==>
        && s'.users == s.users[fd := w.conn] && s'.userCount == s.userCount
        && s'.armed.Keys == s.armed.Keys
        && (fd in s.armed ==> s'.armed[fd] == s.mode.connEvent + {Out})
    ensures var w := HC.Write(s.users[fd], IsET(s.mode), kernel);
      var next := AfterWrite(HC.ToWriteBytes(w.conn), HC.IsKeepAlive(w.conn), w.len, w.errno);
      next == Reprocess ==>
        var p := HC.Process(w.conn, s.srcDir, fs, store);
        && s'.users == s.users[fd := p.conn] && s'.userCount == s.userCount
        && s'.armed.Keys == s.armed.Keys
        && (fd in s.armed ==> s'.armed[fd] == s.mode.connEvent + {if p.ok then Out else In})
  {
    var w := HC.Write(s.users[fd], IsET(s.mode), kernel);
    var s1 := s.(users := s.users[fd := w.conn]);
    match AfterWrite(HC.ToWriteBytes(w.conn), HC.IsKeepAlive(w.conn), w.len, w.errno)
    case Reprocess => OnProcess(s1, fd, fs, store)
    case ArmOut => s1.(armed := ModFd(s1.armed, fd, s.mode.connEvent + {Out}))
    case CloseAfterWrite => CloseConn(s1, fd)
  }

  /** The heap timer's callback for an expired connection: `CloseConn_`
      again, whether or not the connection was closed meanwhile. */
  function Expire(s: Server, fd: int): (s': Server)
    requires fd in s.users
    ensures fd in s'.users && s'.users[fd].isClosed && OpenFds(s') == OpenFds(s) - {fd}
    ensures fd !in OpenFds(s) ==> s'.userCount == s.userCount
  {
    CloseConn(s, fd)
  }

  /** The outside world's answers for one event: what `accept` returns,
      what the socket delivers to `read`, how `writev` is answered, the
      unset fields of a connection object created for a new descriptor,
      the file system and the user store. */
  datatype Input = Input(
    pending: seq<int>,
    chunks: seq<HC.Chunk>,
    kernel: nat -> HC.Sink,
    uninit: (HC.Seg, HC.Seg, nat),
    fs: Resp.FileSystem,
    store: (string, string, bool) -> bool)

  /** What the source assumes of one event: the descriptor has a connection
      (`assert(users_.count(fd) > 0)`), a write follows a built response,
      and any buffer `process` sees meets the form decoder's precondition. */
  predicate StepDefined(s: Server, fd: int, events: set<Event>, input: Input)
  {
    && s.srcDir != ""
    && (fd != s.listenFd ==> fd in s.users)
    && (Dispatch(fd, s.listenFd, events) == ReadTask ==> fd in s.users && ReadDecodable(s, fd, input.chunks))
    && (Dispatch(fd, s.listenFd, events) == WriteTask ==>
          fd in s.users && HC.WriteReady(s.users[fd]) && WriteDecodable(s, fd, input.kernel))
  }

  /** One ready descriptor of the loop in `Start`. */
  function Step(s: Server, fd: int, events: set<Event>, input: Input): (s': Server)
    requires StepDefined(s, fd, events, input)
    ensures s'.mode == s.mode && s'.listenFd == s.listenFd && s'.srcDir == s.srcDir
    ensures Dispatch(fd, s.listenFd, events) == Ignore ==> s' == s
  {
    match Dispatch(fd, s.listenFd, events)
    case Accept => DealListen(s, input.pending, input.uninit).server
    case CloseIt => CloseConn(s, fd)
    case ReadTask => OnRead(s, fd, input.chunks, input.fs, input.store)
    case WriteTask => OnWrite(s, fd, input.kernel, input.fs, input.store)
    case Ignore => s
  }
}
