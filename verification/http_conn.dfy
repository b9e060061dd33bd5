/** The per-connection driver of `code/http/httpconn.cpp`.

    A connection is an immutable record. The process-wide live counter
    `userCount` is passed in and handed back explicitly. Each `writev` call
    is answered by a kernel oracle `Sink`, given as a function from the call
    number. Bytes are characters. The client address serves only for
    logging and is not kept. */
module HttpConn {
  import opened Text
  import Req = HttpRequest
  import Resp = HttpResponse

  /** `write` keeps looping in level-triggered mode while more than this many bytes remain. */
  const WriteThreshold := 10240

  /** One `iovec`: the offset of its first byte in the region it points into
      (the response text for segment 0, the mapped file for segment 1) and
      the number of bytes it still covers. */
  datatype Seg = Seg(start: nat, len: nat)

  datatype Conn = Conn(
    fd: int,
    isClosed: bool,
    readBuf: string,
    writeBuf: string,
    req: Req.Request,
    resp: Resp.Response,
    iov0: Seg,
    iov1: Seg,
    iovCnt: nat)

  /** `HttpConn::HttpConn`: no descriptor, closed. The `iovec` pair and its
      count are not initialised by the constructor, so they are whatever
      the caller passes. */
  function NewConn(iov0: Seg, iov1: Seg, iovCnt: nat): (c: Conn)
    ensures c.isClosed && c.fd == -1 && !c.resp.mapped
  {
    Conn(-1, true, "", "", Req.Init(), Resp.Fresh, iov0, iov1, iovCnt)
  }

  /** A connection paired with the live counter after an operation. */
  datatype Counted = Counted(conn: Conn, userCount: int)

  /** `init`: count one more user, take the descriptor, empty both buffers,
      open. The request, the response and the `iovec` pair are left as they were. */
  function InitConn(c: Conn, fd: int, userCount: int): (r: Counted)
    requires fd > 0
    ensures r.userCount == userCount + 1
    ensures !r.conn.isClosed && r.conn.fd == fd && r.conn.readBuf == "" && r.conn.writeBuf == ""
    ensures r.conn.req == c.req && r.conn.resp == c.resp
    ensures r.conn.iov0 == c.iov0 && r.conn.iov1 == c.iov1 && r.conn.iovCnt == c.iovCnt
  {
    Counted(c.(fd := fd, readBuf := "", writeBuf := "", isClosed := false), userCount + 1)
  }

  /** `Close`: always release the mapping; only an open connection is
      marked closed and uncounted. */
  function Close(c: Conn, userCount: int): (r: Counted)
    ensures r.conn.isClosed && !r.conn.resp.mapped
    ensures r.userCount == (if c.isClosed then userCount else userCount - 1)
    ensures r.conn == c.(isClosed := true, resp := Resp.UnmapFile(c.resp))
  {
    var c' := c.(resp := Resp.UnmapFile(c.resp));
    if !c.isClosed then Counted(c'.(isClosed := true), userCount - 1)
    else Counted(c', userCount)
  }

  /** `ToWriteBytes`: both segment lengths, whether or not the second is in use. */
  function ToWriteBytes(c: Conn): nat
  {
    c.iov0.len + c.iov1.len
  }

  /** What `writev(fd_, iov_, iovCnt_)` is asked to send: only the segments in use. */
  function Requested(c: Conn): (n: nat)
    ensures n <= ToWriteBytes(c)
  {
    c.iov0.len + (if c.iovCnt == 2 then c.iov1.len else 0)
  }

  /** The state `process` leaves for `write`: segment 0 is exactly the
      readable part of the write buffer, and one or two segments are in use. */
  predicate WriteReady(c: Conn)
  {
    c.iov0.len == |c.writeBuf| && (c.iovCnt == 1 || c.iovCnt == 2)
  }

  /** Segment 1 in use ends at the end of the mapped file. */
  predicate FileSegment(c: Conn)
  {
    c.iovCnt == 2 ==> c.iov1.start + c.iov1.len == c.resp.stat.size
  }

  /** Only the write buffer and the segments differ. */
  predicate SameButCursor(c: Conn, c': Conn)
  {
    c' == c.(writeBuf := c'.writeBuf, iov0 := c'.iov0, iov1 := c'.iov1)
  }

  /** The cursor arithmetic after `writev` sent `len` bytes (`len` at most
      what was asked): past segment 0, segment 1 advances by the excess
      and the write buffer is emptied; otherwise segment 0 advances and
      the buffer retires `len` bytes. */
  function Advance(c: Conn, len: nat): (c': Conn)
    requires WriteReady(c) && 0 < len <= Requested(c)
    ensures WriteReady(c') && SameButCursor(c, c')
    ensures FileSegment(c) ==> FileSegment(c')
    ensures ToWriteBytes(c') == ToWriteBytes(c) - len
    ensures Requested(c') == Requested(c) - len
    ensures c.iovCnt == 1 ==> c'.iov1 == c.iov1
  {
    if len > c.iov0.len then
      var k := len - c.iov0.len;
      var c1 := c.(iov1 := Seg(c.iov1.start + k, c.iov1.len - k));
      if c.iov0.len != 0 then c1.(writeBuf := "", iov0 := c.iov0.(len := 0)) else c1
    else
      c.(iov0 := Seg(c.iov0.start + len, c.iov0.len - len), writeBuf := c.writeBuf[len..])
  }

  /** The kernel's side of one `writev` call: how many bytes the socket
      accepts now (0 when its send buffer is full) and the `errno` it leaves. */
  datatype Sink = Sink(room: nat, errno: int)

  /** The value `writev` returns: 0 when nothing is asked, -1 when the
      socket takes nothing, else as much as fits. */
  function Transfer(c: Conn, s: Sink): (len: int)
    ensures -1 <= len <= Requested(c)
    ensures len > 0 <==> Requested(c) > 0 && s.room > 0
    ensures len == 0 <==> Requested(c) == 0
  {
    if Requested(c) == 0 then 0
    else if s.room == 0 then -1
    else if s.room < Requested(c) then s.room
    else Requested(c)
  }

  /** The outcome of `write`: the connection, the last `writev` result, the
      `errno` handed back (0 unless that result was not positive), the bytes
      sent in total and the number of `writev` calls made. */
  datatype Written = Written(conn: Conn, len: int, errno: int, sent: nat, calls: nat)

  /** The loop of `write` from its `k`-th `writev` call on. The check that
      both segments are empty after a positive transfer never fires (a
      positive transfer is at most what the segments hold), so it is not a
      branch here. */
  function WriteFrom(c: Conn, isET: bool, kernel: nat -> Sink, k: nat): (w: Written)
    requires WriteReady(c)
    ensures WriteReady(w.conn) && SameButCursor(c, w.conn)
    ensures FileSegment(c) ==> FileSegment(w.conn)
    ensures ToWriteBytes(w.conn) + w.sent == ToWriteBytes(c)
    ensures Requested(w.conn) + w.sent == Requested(c)
    ensures c.iovCnt == 1 ==> w.conn.iov1 == c.iov1
    ensures w.calls > k
    ensures w.len <= 0 ==> w.errno == kernel(w.calls - 1).errno
    ensures w.len == 0 ==> Requested(w.conn) == 0
    ensures w.len < 0 ==> Requested(w.conn) > 0 && kernel(w.calls - 1).room == 0
    ensures w.len > 0 ==> w.errno == 0 && !isET && ToWriteBytes(w.conn) <= WriteThreshold
    decreases Requested(c)
  {
    var s := kernel(k);
    var len := Transfer(c, s);
    if len <= 0 then Written(c, len, s.errno, 0, k + 1)
    else
      var c1 := Advance(c, len);
      if isET || ToWriteBytes(c1) > WriteThreshold then
        var w := WriteFrom(c1, isET, kernel, k + 1);
        w.(sent := w.sent + len)
      else Written(c1, len, 0, len, k + 1)
  }

  /** `write`. */
  function Write(c: Conn, isET: bool, kernel: nat -> Sink): (w: Written)
    requires WriteReady(c)
    ensures ToWriteBytes(w.conn) + w.sent == ToWriteBytes(c)
    ensures isET ==> w.len <= 0
  {
    WriteFrom(c, isET, kernel, 0)
  }

  /** `EAGAIN` on Linux: the socket has nothing more to give or take right now. */
  const EAGAIN := 11

  /** What one `readv` inside `Buffer::ReadFd` gets: some bytes (none when
      the peer has closed) or a failure with the `errno` it sets. */
  datatype Chunk = Bytes(data: string) | Failed(errno: int)

  /** The outcome of `read`: the connection, the last `ReadFd` result and
      the `errno` handed back (left at 0 unless that result was negative). */
  datatype ReadOut = ReadOut(conn: Conn, len: int, errno: int)

  /** `read`: `ReadFd` appends what arrives to the read buffer; stop on a
      result of 0 or less, else go on only in edge-triggered mode. Once the
      given chunks are used up the socket answers `EAGAIN`. */
  function Read(c: Conn, isET: bool, chunks: seq<Chunk>): (r: ReadOut)
    ensures r.conn == c.(readBuf := r.conn.readBuf)
    ensures |c.readBuf| <= |r.conn.readBuf| && r.conn.readBuf[..|c.readBuf|] == c.readBuf
    ensures isET ==> r.len <= 0
    ensures r.len >= 0 ==> r.errno == 0
    ensures r.len < 0 ==> r.len == -1
    decreases |chunks|
  {
    if |chunks| == 0 then ReadOut(c, -1, EAGAIN)
    else match chunks[0]
      case Failed(e) => ReadOut(c, -1, e)
      case Bytes(d) =>
        var c1 := c.(readBuf := c.readBuf + d);
        if |d| == 0 then ReadOut(c1, 0, 0)
        else if isET then
          var r := Read(c1, isET, chunks[1..]);
          assert r.conn.readBuf[..|c1.readBuf|] == c1.readBuf;
          assert c1.readBuf[..|c.readBuf|] == c.readBuf;
          r
        else ReadOut(c1, |d|, 0)
  }

  /** `IsKeepAlive`. */
  predicate IsKeepAlive(c: Conn)
  {
    Req.IsKeepAlive(c.req)
  }

  /** The outcome of `process`: the connection and whether a response was built. */
  datatype Processed = Processed(conn: Conn, ok: bool)

  /** The code and keep-alive flag `process` gives the response. */
  function ResponseArgs(parsed: Req.Parsed): (int, bool)
  {
    if parsed.ok then (200, Req.IsKeepAlive(parsed.req)) else (400, false)
  }

  /** `process`: re-initialise the request; with nothing to read stop;
      otherwise parse, build the response into the write buffer and point
      segment 0 at the whole buffer and, when a non-empty file is mapped,
      segment 1 at the file. The user store behind the login and register
      pages is the oracle `store`. */
  function Process(c: Conn, srcDir: string, fs: Resp.FileSystem,
                   store: (string, string, bool) -> bool): (p: Processed)
    requires srcDir != ""
    requires Req.Decodable(Req.Init(), c.readBuf)
    ensures !p.ok <==> c.readBuf == ""
    ensures !p.ok ==> p.conn == c.(req := Req.Init())
    ensures p.ok ==> WriteReady(p.conn) && FileSegment(p.conn)
    ensures p.ok ==> p.conn.iov0 == Seg(0, |p.conn.writeBuf|) && |p.conn.writeBuf| > |c.writeBuf|
    ensures p.ok ==> p.conn.writeBuf[..|c.writeBuf|] == c.writeBuf
    ensures p.ok ==> (p.conn.iovCnt == 2 <==> p.conn.resp.mapped && p.conn.resp.stat.size > 0)
    ensures p.ok && p.conn.iovCnt == 2 ==> p.conn.iov1 == Seg(0, p.conn.resp.stat.size)
    ensures p.ok && p.conn.iovCnt == 1 ==> p.conn.iov1 == c.iov1
    ensures p.conn.fd == c.fd && p.conn.isClosed == c.isClosed
  {
    var c0 := c.(req := Req.Init());
    if |c0.readBuf| == 0 then Processed(c0, false)
    else
      var parsed := Req.Parse(c0.req, c0.readBuf, store);
      var (code, keepAlive) := ResponseArgs(parsed);
      var m := Resp.MakeResponse(Resp.Init(c.resp, srcDir, parsed.req.path, keepAlive, code), fs);
      var wb := c.writeBuf + m.out;
      var withFile := m.resp.mapped && Resp.FileLen(m.resp) > 0;
      var c1 := c0.(readBuf := parsed.rest, req := parsed.req, resp := m.resp, writeBuf := wb,
                    iov0 := Seg(0, |wb|),
                    iov1 := if withFile then Seg(0, Resp.FileLen(m.resp)) else c.iov1,
                    iovCnt := if withFile then 2 else 1);
      Processed(c1, true)
  }
}
