/** Properties of the connection driver: the live counter, the write
    cursor, and the response `process` assembles. */
module HttpConnLemmas {
  import opened Text
  import opened HttpConn
  import Req = HttpRequest
  import ReqL = HttpRequestLemmas
  import Resp = HttpResponse
  import RespL = HttpResponseLemmas

  // ---------------------------------------------------------------------
  // Live counter

  /** Closing a freshly initialised connection gives the count back. */
  lemma InitThenClose(c: Conn, fd: int, userCount: int)
    requires fd > 0
    ensures var r := InitConn(c, fd, userCount); Close(r.conn, r.userCount).userCount == userCount
  {
  }

  /** A second `Close` changes nothing: the counter drops at most once. */
  lemma CloseIdempotent(c: Conn, userCount: int)
    ensures var r := Close(c, userCount); Close(r.conn, r.userCount) == r
  {
  }

  // ---------------------------------------------------------------------
  // Write cursor

  /** The header bytes one `writev` of `len` bytes takes from the write buffer. */
  function HeaderSent(c: Conn, len: nat): string
    requires WriteReady(c)
  {
    if len <= c.iov0.len then c.writeBuf[..len] else c.writeBuf
  }

  /** The file range one `writev` of `len` bytes takes through segment 1. */
  function FileSent(c: Conn, len: nat): (nat, nat)
  {
    if len <= c.iov0.len then (c.iov1.start, c.iov1.start) else (c.iov1.start, c.iov1.start + (len - c.iov0.len))
  }

  /** No byte is lost or repeated: what is sent of the write buffer followed
      by what is left is the buffer, and segment 1 resumes exactly where the
      sent file range ends. */
  lemma AdvanceSplits(c: Conn, len: nat)
    requires WriteReady(c) && 0 < len <= Requested(c)
    ensures HeaderSent(c, len) + Advance(c, len).writeBuf == c.writeBuf
    ensures Advance(c, len).iov1.start == FileSent(c, len).1
    ensures |HeaderSent(c, len)| + (FileSent(c, len).1 - FileSent(c, len).0) == len
  {
  }

  /** The part of the cursor the next `writev` reads (the start of an empty
      segment 0 is never used). */
  function Cursor(c: Conn): (string, nat, nat, Seg)
  {
    (c.writeBuf, c.iov0.len, if c.iov0.len > 0 then c.iov0.start else 0, c.iov1)
  }

  /** Two transfers leave the cursor where one transfer of their sum would. */
  lemma AdvanceCompose(c: Conn, a: nat, b: nat)
    requires WriteReady(c) && 0 < a && 0 < b && a + b <= Requested(c)
    ensures Cursor(Advance(Advance(c, a), b)) == Cursor(Advance(c, a + b))
  {
    var c1 := Advance(c, a);
    if a <= c.iov0.len && b <= c1.iov0.len {
      assert c1.writeBuf[b..] == c.writeBuf[a + b..];
    }
  }

  /** In edge-triggered mode, when the socket never refuses, `write` sends
      everything it was asked for and ends on the `writev` that returns 0. */
  lemma {:induction false} WriteDrainsWithRoom(c: Conn, kernel: nat -> Sink, k: nat)
    requires WriteReady(c)
    requires forall j :: kernel(j).room > 0
    ensures var w := WriteFrom(c, true, kernel, k);
      w.len == 0 && w.sent == Requested(c) && Requested(w.conn) == 0
    decreases Requested(c)
  {
    var len := Transfer(c, kernel(k));
    if len > 0 {
      WriteDrainsWithRoom(Advance(c, len), kernel, k + 1);
    }
  }

  /** With one segment in use, `write` never touches segment 1, so its stale
      length still counts in `ToWriteBytes` afterwards. */
  lemma WriteLeavesStaleSegment(c: Conn, isET: bool, kernel: nat -> Sink)
    requires WriteReady(c) && c.iovCnt == 1
    ensures Write(c, isET, kernel).conn.iov1 == c.iov1
    ensures ToWriteBytes(Write(c, isET, kernel).conn) >= c.iov1.len
  {
  }

  // ---------------------------------------------------------------------
  // read

  /** The bytes a `read` takes in: chunk after chunk up to the first failure
      or end of stream, only the first chunk when level-triggered. */
  function Received(chunks: seq<Chunk>, isET: bool): string
    decreases |chunks|
  {
    if |chunks| == 0 || chunks[0].Failed? then ""
    else if !isET || chunks[0].data == "" then chunks[0].data
    else chunks[0].data + Received(chunks[1..], isET)
  }

  /** `read` appends exactly the bytes received to the read buffer. */
  lemma {:induction false} ReadAppendsReceived(c: Conn, isET: bool, chunks: seq<Chunk>)
    ensures Read(c, isET, chunks).conn.readBuf == c.readBuf + Received(chunks, isET)
    decreases |chunks|
  {
    if |chunks| > 0 && chunks[0].Bytes? && chunks[0].data != "" && isET {
      var c1 := c.(readBuf := c.readBuf + chunks[0].data);
      ReadAppendsReceived(c1, isET, chunks[1..]);
      assert c.readBuf + chunks[0].data + Received(chunks[1..], isET)
          == c.readBuf + (chunks[0].data + Received(chunks[1..], isET));
    } else {
      assert c.readBuf + "" == c.readBuf;
    }
  }

  /** In edge-triggered mode, reading on until the socket is drained ends in
      `EAGAIN`, so the server goes on to process what arrived; a peer that
      closes ends it with 0 and `errno` 0 instead. */
  lemma {:induction false} ReadEndsET(c: Conn, chunks: seq<Chunk>)
    requires forall i :: 0 <= i < |chunks| ==> chunks[i].Bytes? && chunks[i].data != ""
    ensures Read(c, true, chunks).len == -1 && Read(c, true, chunks).errno == EAGAIN
    ensures Read(c, true, chunks + [Bytes("")]).len == 0 && Read(c, true, chunks + [Bytes("")]).errno == 0
    decreases |chunks|
  {
    if |chunks| > 0 {
      var c1 := c.(readBuf := c.readBuf + chunks[0].data);
      assert (chunks + [Bytes("")])[1..] == chunks[1..] + [Bytes("")];
      ReadEndsET(c1, chunks[1..]);
    }
  }

  // ---------------------------------------------------------------------
  // process

  /** `s` ends with `t`. */
  predicate EndsWith(s: string, t: string)
  {
    |t| <= |s| && s[|s| - |t|..] == t
  }

  /** The parse `process` runs. */
  function ParseOf(c: Conn, store: (string, string, bool) -> bool): Req.Parsed
    requires Req.Decodable(Req.Init(), c.readBuf)
  {
    Req.Parse(Req.Init(), c.readBuf, store)
  }

  /** `process` starts from `HttpRequest::Init`, so whatever request the
      connection held before plays no part in the outcome. */
  lemma ProcessForgetsRequest(c: Conn, q: Req.Request, srcDir: string, fs: Resp.FileSystem,
                              store: (string, string, bool) -> bool)
    requires srcDir != "" && Req.Decodable(Req.Init(), c.readBuf)
    ensures Process(c.(req := q), srcDir, fs, store) == Process(c, srcDir, fs, store)
    ensures !Process(c, srcDir, fs, store).ok ==>
      var r := Process(c, srcDir, fs, store).conn.req;
      r.state == Req.RequestLine && r.header == map[] && r.post == map[]
      && r.httpMethod == "" && r.path == "" && r.version == "" && r.body == ""
  {
  }

  /** The response starts as `Init` sets it up from the parse outcome. */
  lemma {:induction false} ProcessResponse(c: Conn, srcDir: string, fs: Resp.FileSystem,
                                           store: (string, string, bool) -> bool)
    requires srcDir != "" && Req.Decodable(Req.Init(), c.readBuf) && c.readBuf != ""
    ensures var parsed := ParseOf(c, store); var args := ResponseArgs(parsed);
      var r0 := Resp.Init(c.resp, srcDir, parsed.req.path, args.1, args.0);
      var m := Resp.MakeResponse(r0, fs);
      var p := Process(c, srcDir, fs, store);
      p.ok && p.conn.resp == m.resp && p.conn.writeBuf == c.writeBuf + m.out
      && p.conn.req == parsed.req && p.conn.readBuf == parsed.rest
  {
  }

  /** The response keeps the connection open exactly when the request asked
      for it, which can only happen when the request line parsed. */
  lemma {:induction false} ProcessKeepAlive(c: Conn, srcDir: string, fs: Resp.FileSystem,
                                            store: (string, string, bool) -> bool)
    requires srcDir != "" && Req.Decodable(Req.Init(), c.readBuf)
    ensures var p := Process(c, srcDir, fs, store);
      p.ok ==> ((p.conn.resp.keepAlive <==> IsKeepAlive(p.conn))
                && (p.conn.resp.keepAlive ==> ParseOf(c, store).ok))
  {
    if c.readBuf != "" {
      ProcessResponse(c, srcDir, fs, store);
    }
  }

  /** A rejected request line is answered with the 404 page, not the 400
      page: the request keeps its empty path, so the response resolves the
      resource root itself, which is a directory or missing. The read buffer
      is kept. */
  lemma {:induction false} BadRequestLineServes404(c: Conn, srcDir: string, fs: Resp.FileSystem,
                                                   store: (string, string, bool) -> bool)
    requires srcDir != "" && Req.Decodable(Req.Init(), c.readBuf) && c.readBuf != ""
    requires Req.SplitRequestLine(c.readBuf[..FindCrlf(c.readBuf)]).None?
    requires srcDir in fs ==> fs[srcDir].meta.isDir
    ensures var p := Process(c, srcDir, fs, store);
      p.ok && p.conn.resp.code == 404 && p.conn.resp.path == "/404.html" && !p.conn.resp.keepAlive
      && p.conn.readBuf == c.readBuf && p.conn.req == Req.Init()
  {
    BadLineRejected(c, store);
    RootResponse(c.resp, srcDir, fs);
    ProcessResponse(c, srcDir, fs, store);
  }

  /** The 400 response for the empty path, built over the resource root. */
  lemma RootResponse(resp: Resp.Response, srcDir: string, fs: Resp.FileSystem)
    requires srcDir != "" && (srcDir in fs ==> fs[srcDir].meta.isDir)
    ensures var m := Resp.MakeResponse(Resp.Init(resp, srcDir, "", false, 400), fs);
      m.resp.code == 404 && m.resp.path == "/404.html" && !m.resp.keepAlive
  {
    var r0 := Resp.Init(resp, srcDir, "", false, 400);
    assert r0.srcDir + r0.path == srcDir;
    RespL.MakeResponseMissing(r0, fs);
  }

  /** A request line that does not split is rejected, and the parser keeps
      the initial request. */
  lemma BadLineRejected(c: Conn, store: (string, string, bool) -> bool)
    requires Req.Decodable(Req.Init(), c.readBuf) && c.readBuf != ""
    requires Req.SplitRequestLine(c.readBuf[..FindCrlf(c.readBuf)]).None?
    ensures !ParseOf(c, store).ok && ParseOf(c, store).req == Req.Init()
    ensures ParseOf(c, store).rest == c.readBuf
  {
    ReqL.ParseAcceptsIff(Req.Init(), c.readBuf, store);
  }

  /** A parsed request for a servable file is answered 200 with that file. */
  lemma {:induction false} GoodRequestServes200(c: Conn, srcDir: string, fs: Resp.FileSystem,
                                                store: (string, string, bool) -> bool)
    requires srcDir != "" && Req.Decodable(Req.Init(), c.readBuf)
    requires ParseOf(c, store).ok
    requires RespL.Servable(fs, srcDir + ParseOf(c, store).req.path)
    ensures var p := Process(c, srcDir, fs, store);
      p.ok && p.conn.resp.code == 200 && p.conn.resp.path == p.conn.req.path
  {
    var parsed := ParseOf(c, store);
    assert ResponseArgs(parsed) == (200, Req.IsKeepAlive(parsed.req));
    var r0 := Resp.Init(c.resp, srcDir, parsed.req.path, Req.IsKeepAlive(parsed.req), 200);
    RespL.MakeResponseServesFile(r0, fs);
    ProcessResponse(c, srcDir, fs, store);
  }

  /** What `AddContent_` appends for a response: the length line of the
      mapped file, or the inline error page. */
  function ContentOf(r: Resp.Response): string
  {
    if r.mapped then Resp.LengthHeader(Resp.FileLen(r)) else Resp.ErrorContent(r.code, "File NotFound!")
  }

  lemma EndsWithAfter(prefix: string, x: string, mid: string, t: string)
    requires x == mid + t
    ensures EndsWith(prefix + x, t)
  {
    assert prefix + x == (prefix + mid) + t;
    assert (prefix + x)[|prefix + x| - |t|..] == t;
  }

  /** Whatever precedes it, a response text ends with its content part. */
  lemma {:induction false} MadeEndsWithContent(prefix: string, r: Resp.Response, fs: Resp.FileSystem)
    requires !r.mapped
    ensures var m := Resp.MakeResponse(r, fs); EndsWith(prefix + m.out, ContentOf(m.resp))
  {
    RespL.MakeResponseContent(r, fs);
    var m := Resp.MakeResponse(r, fs);
    EndsWithAfter(prefix, m.out, Resp.StatusLine(m.resp).1 + Resp.HeaderText(m.resp), ContentOf(m.resp));
  }

  /** The content part, case by case. */
  lemma ContentCases(wb: string, c: Conn)
    requires EndsWith(wb, ContentOf(c.resp)) && (c.iovCnt == 2 ==> c.iov1.len == c.resp.stat.size)
    requires c.iovCnt == 2 <==> c.resp.mapped && c.resp.stat.size > 0
    ensures c.iovCnt == 2 ==> EndsWith(wb, Resp.LengthHeader(c.iov1.len))
    ensures c.iovCnt != 2 && c.resp.mapped ==> EndsWith(wb, Resp.LengthHeader(0))
    ensures !c.resp.mapped ==> EndsWith(wb, Resp.ErrorContent(c.resp.code, "File NotFound!"))
  {
  }

  /** The write buffer ends with the content part of the final response. */
  lemma {:induction false} ProcessEndsWithContent(c: Conn, srcDir: string, fs: Resp.FileSystem,
                                                  store: (string, string, bool) -> bool)
    requires srcDir != "" && Req.Decodable(Req.Init(), c.readBuf)
    ensures var p := Process(c, srcDir, fs, store);
      p.ok ==> EndsWith(p.conn.writeBuf, ContentOf(p.conn.resp))
  {
    if c.readBuf != "" {
      var parsed := ParseOf(c, store);
      var args := ResponseArgs(parsed);
      var r0 := Resp.Init(c.resp, srcDir, parsed.req.path, args.1, args.0);
      ProcessResponse(c, srcDir, fs, store);
      MadeEndsWithContent(c.writeBuf, r0, fs);
    }
  }

  /** The write buffer ends with a body framed by its own length: the
      length line of the file segment 1 carries (of length 0 when the file
      is empty), or the inline error page. */
  lemma {:induction false} ProcessFramed(c: Conn, srcDir: string, fs: Resp.FileSystem,
                                         store: (string, string, bool) -> bool)
    requires srcDir != "" && Req.Decodable(Req.Init(), c.readBuf)
    ensures var p := Process(c, srcDir, fs, store); var wb := p.conn.writeBuf;
      && (p.ok && p.conn.iovCnt == 2 ==> EndsWith(wb, Resp.LengthHeader(p.conn.iov1.len)))
      && (p.ok && p.conn.iovCnt == 1 && p.conn.resp.mapped ==> EndsWith(wb, Resp.LengthHeader(0)))
      && (p.ok && !p.conn.resp.mapped ==> EndsWith(wb, Resp.ErrorContent(p.conn.resp.code, "File NotFound!")))
  {
    ProcessEndsWithContent(c, srcDir, fs, store);
    var p := Process(c, srcDir, fs, store);
    if p.ok {
      ContentCases(p.conn.writeBuf, p.conn);
    }
  }
}
