/** Properties of the response synthesiser: the status line and the
    length line against readers written from section 4 and section 6 of
    RFC 9112, the header block against the request parser, MIME lookup,
    and the four-way code resolution of `MakeResponse`. */
module HttpResponseLemmas {
  import opened Text
  import opened HttpResponse
  import Req = HttpRequest
  import ReqL = HttpRequestLemmas

  // ---------------------------------------------------------------------
  // Mapping lifecycle

  /** Unmapping twice is unmapping once; with nothing mapped it is a no-op. */
  lemma UnmapIdempotent(r: Response)
    ensures UnmapFile(UnmapFile(r)) == UnmapFile(r)
    ensures !r.mapped ==> UnmapFile(r) == r
  {
  }

  /** `Init` on a response that holds a mapping releases it, whatever else it resets. */
  lemma InitReleases(r: Response, srcDir: string, path: string, keepAlive: bool, code: int)
    requires srcDir != ""
    ensures Init(r, srcDir, path, keepAlive, code) == Init(UnmapFile(r), srcDir, path, keepAlive, code)
    ensures Init(r, srcDir, path, keepAlive, code) == Fresh.(code := code, keepAlive := keepAlive, path := path, srcDir := srcDir)
  {
  }

  // ---------------------------------------------------------------------
  // Status line

  /** `status-line = HTTP-version SP status-code SP reason-phrase CRLF`
      with a three-digit code (section 4 of RFC 9112), as a client reads it. */
  function ReadStatusLine(line: string): Option<(int, string)>
  {
    if |line| < 9 || line[..9] != "HTTP/1.1 " then None
    else
      var rest := line[9..];
      match IndexOf(rest, ' ')
      case None => None
      case Some(i) =>
        var digits := rest[..i];
        var tail := rest[i + 1..];
        if |digits| != 3 || !AllDigits(digits) || |tail| < 2 || tail[|tail| - 2..] != "\r\n" then None
        else Some((DecimalValue(digits), tail[..|tail| - 2]))
  }

  lemma {:induction false} ThreeDigits(c: int)
    requires c in CodeStatus
    ensures IntToDecimal(c) == NatToDecimal(c) && |NatToDecimal(c)| == 3
  {
    assert c == 200 || c == 400 || c == 403 || c == 404;
    assert NatToDecimal(c) == NatToDecimal(c / 10) + [DigitChar(c % 10)];
    assert NatToDecimal(c / 10) == NatToDecimal(c / 100) + [DigitChar(c / 10 % 10)];
  }

  /** The status line reads back as the final code and its reason phrase. */
  lemma StatusLineReadBack(r: Response)
    ensures ReadStatusLine(StatusLine(r).1) == Some((StatusLine(r).0.code, CodeStatus[StatusLine(r).0.code]))
  {
    var c := StatusLine(r).0.code;
    var d := IntToDecimal(c);
    var reason := CodeStatus[c];
    ThreeDigits(c);
    DecimalRoundTrip(c);
    var line := StatusLine(r).1;
    var tail := reason + "\r\n";
    assert line == "HTTP/1.1 " + (d + [' '] + tail);
    var rest := line[9..];
    assert rest == d + [' '] + tail;
    assert ' ' !in d by {
      assert forall k :: 0 <= k < |d| ==> IsDigit(d[k]);
    }
    IndexOfAfter(d, ' ', tail);
    assert rest[..|d|] == d;
    assert rest[|d| + 1..] == tail;
    assert tail[|tail| - 2..] == "\r\n";
    assert tail[..|tail| - 2] == reason;
  }

  // ---------------------------------------------------------------------
  // Length framing

  /** `Content-length: N` CR LF CR LF as a client reads it (section 6.2 of
      RFC 9112): the declared length and what follows the blank line. */
  function ReadLength(s: string): Option<(nat, string)>
  {
    if |s| < 16 || s[..16] != "Content-length: " then None
    else
      var rest := s[16..];
      var e := FindCrlf(rest);
      if e == 0 || e + 4 > |rest| || rest[e..e + 4] != "\r\n\r\n" || !AllDigits(rest[..e]) then None
      else Some((DecimalValue(rest[..e]), rest[e + 4..]))
  }

  /** The length line reads back as the number written, with the rest untouched. */
  lemma ReadLengthHeader(n: nat, tail: string)
    ensures ReadLength(LengthHeader(n) + tail) == Some((n, tail))
  {
    var d := NatToDecimal(n);
    var s := LengthHeader(n) + tail;
    assert s == "Content-length: " + (d + "\r\n" + ("\r\n" + tail));
    var rest := s[16..];
    assert rest == d + "\r\n" + ("\r\n" + tail);
    assert '\r' !in d by {
      assert forall k :: 0 <= k < |d| ==> IsDigit(d[k]);
    }
    FindCrlfAfter(d, "\r\n" + tail);
    assert rest[..|d|] == d;
    assert rest[|d|..|d| + 4] == "\r\n\r\n";
    assert rest[|d| + 4..] == tail;
    DecimalRoundTrip(n);
  }

  /** `ErrorContent` declares exactly the number of bytes that follow it. */
  lemma ErrorContentFramed(code: int, message: string)
    ensures ReadLength(ErrorContent(code, message))
         == Some((|ErrorBody(code, message)|, ErrorBody(code, message)))
  {
    ReadLengthHeader(|ErrorBody(code, message)|, ErrorBody(code, message));
  }

  // ---------------------------------------------------------------------
  // MIME type

  /** Every table key is a dot followed by dot-free text. */
  lemma SuffixKeysShape(ext: string)
    requires ext in SuffixType
    ensures |ext| > 1 && ext[0] == '.' && '.' !in ext[1..]
  {
  }

  /** A path ending in a table suffix gets that suffix's type, whatever precedes it. */
  lemma FileTypeOfSuffix(stem: string, ext: string)
    requires ext in SuffixType
    ensures FileType(stem + ext) == SuffixType[ext]
  {
    SuffixKeysShape(ext);
    assert stem + ext == stem + ['.'] + ext[1..];
    LastIndexOfBefore(stem, '.', ext[1..]);
    assert (stem + ext)[|stem|..] == ext;
  }

  /** A path whose last `.` starts an unknown suffix is served as plain text. */
  lemma FileTypeUnknown(stem: string, ext: string)
    requires '.' !in ext && "." + ext !in SuffixType
    ensures FileType(stem + "." + ext) == "text/plain"
  {
    assert stem + "." + ext == stem + ['.'] + ext;
    LastIndexOfBefore(stem, '.', ext);
    assert (stem + "." + ext)[|stem|..] == "." + ext;
  }

  // ---------------------------------------------------------------------
  // Header block against the request parser

  /** The connection lines of `AddHeader_` as name and value pairs. */
  function ConnectionPairs(keepAlive: bool): seq<(string, string)>
  {
    if keepAlive then [("Connection", "keep-alive"), ("keep-alive", "max=6, timeout=120")]
    else [("Connection", "close")]
  }

  /** The header lines of `AddHeader_` as name and value pairs. */
  function ResponseHeaderPairs(r: Response): seq<(string, string)>
  {
    ConnectionPairs(r.keepAlive) + [("Content-type", FileType(r.path))]
  }

  lemma TypesHaveNoLineBreak(t: string)
    requires t == "text/plain" || t in SuffixType.Values
    ensures Req.NoLineBreak(t)
  {
    TextTypes();
    ApplicationTypes();
    MediaTypes();
  }

  // The type names, grouped by top-level type.

  lemma TextTypes()
    ensures Req.NoLineBreak("text/html") && Req.NoLineBreak("text/xml") && Req.NoLineBreak("text/plain")
    ensures Req.NoLineBreak("text/css ") && Req.NoLineBreak("text/javascript ")
  {
  }

  lemma ApplicationTypes()
    ensures Req.NoLineBreak("application/xhtml+xml") && Req.NoLineBreak("application/rtf")
    ensures Req.NoLineBreak("application/pdf") && Req.NoLineBreak("application/nsword")
    ensures Req.NoLineBreak("application/x-gzip") && Req.NoLineBreak("application/x-tar")
  {
  }

  lemma MediaTypes()
    ensures Req.NoLineBreak("image/png") && Req.NoLineBreak("image/gif") && Req.NoLineBreak("image/jpeg")
    ensures Req.NoLineBreak("audio/basic") && Req.NoLineBreak("video/mpeg") && Req.NoLineBreak("video/x-msvideo")
  {
  }

  /** The block of a concatenation is the concatenation of the blocks. */
  lemma {:induction false} HeaderBlockAppend(a: seq<(string, string)>, b: seq<(string, string)>)
    ensures ReqL.HeaderBlock(a + b) == ReqL.HeaderBlock(a) + ReqL.HeaderBlock(b)
    decreases |a|
  {
    if |a| > 0 {
      assert (a + b)[1..] == a[1..] + b;
      HeaderBlockAppend(a[1..], b);
    } else {
      assert a + b == b;
    }
  }

  /** The block of one pair is its single line. */
  lemma HeaderBlockSingle(k: string, v: string)
    ensures ReqL.HeaderBlock([(k, v)]) == k + ": " + v + "\r\n"
  {
    assert [(k, v)][1..] == [];
  }

  lemma ConnectionLinesAreBlock(keepAlive: bool)
    ensures ConnectionLines(keepAlive) == ReqL.HeaderBlock(ConnectionPairs(keepAlive))
  {
    if keepAlive {
      KeepAliveLines();
    } else {
      assert "close\r\n" == "close" + "\r\n";
      assert "Connection: " == "Connection" + ": ";
      HeaderBlockSingle("Connection", "close");
    }
  }

  lemma KeepAliveLines()
    ensures ConnectionLines(true) == ReqL.HeaderBlock(ConnectionPairs(true))
  {
    var c, k, m := "Connection", "keep-alive", "max=6, timeout=120";
    assert "Connection: " == c + ": ";
    assert "keep-alive\r\n" == k + "\r\n";
    assert "keep-alive: max=6, timeout=120\r\n" == k + ": " + m + "\r\n";
    TwoLines(c, k, k, m);
  }

  /** Two lines after a shared name prefix, regrouped as a block of two pairs. */
  lemma TwoLines(c: string, v: string, k: string, m: string)
    ensures (c + ": ") + ((v + "\r\n") + (k + ": " + m + "\r\n")) == ReqL.HeaderBlock([(c, v), (k, m)])
  {
    var ps := [(c, v), (k, m)];
    HeaderBlockAppend([ps[0]], [ps[1]]);
    assert ps == [ps[0]] + [ps[1]];
    HeaderBlockSingle(c, v);
    HeaderBlockSingle(k, m);
  }

  /** `AddHeader_` writes exactly the header block of these pairs. */
  lemma HeaderTextIsBlock(r: Response)
    ensures HeaderText(r) == ReqL.HeaderBlock(ResponseHeaderPairs(r))
  {
    var t := FileType(r.path);
    ConnectionLinesAreBlock(r.keepAlive);
    HeaderBlockAppend(ConnectionPairs(r.keepAlive), [("Content-type", t)]);
    HeaderBlockSingle("Content-type", t);
  }

  /** The pairs are in the form the request parser reads back. */
  lemma ResponseHeadersWellFormed(r: Response)
    ensures ReqL.WellFormedHeaders(ResponseHeaderPairs(r))
  {
    var t := FileType(r.path);
    var cs := ConnectionPairs(r.keepAlive);
    var ps := ResponseHeaderPairs(r);
    TypesHaveNoLineBreak(t);
    HeaderNames();
    assert ReqL.WellFormedHeaders(cs);
    forall i | 0 <= i < |ps|
      ensures ':' !in ps[i].0 && Req.NoLineBreak(ps[i].0) && Req.NoLineBreak(ps[i].1)
    {
      if i < |cs| {
        assert ps[i] == cs[i];
      } else {
        assert ps[i] == ("Content-type", t);
      }
    }
  }

  /** The names and fixed values of the response headers. */
  lemma HeaderNames()
    ensures ':' !in "Connection" && ':' !in "keep-alive" && ':' !in "Content-type"
    ensures Req.NoLineBreak("Connection") && Req.NoLineBreak("keep-alive") && Req.NoLineBreak("Content-type")
    ensures Req.NoLineBreak("max=6, timeout=120") && Req.NoLineBreak("close")
  {
    NamesHaveNoColon();
    NamesHaveNoLineBreak();
    ValuesHaveNoLineBreak();
  }

  lemma NamesHaveNoColon()
    ensures ':' !in "Connection" && ':' !in "keep-alive" && ':' !in "Content-type"
  {
  }

  lemma NamesHaveNoLineBreak()
    ensures Req.NoLineBreak("Connection") && Req.NoLineBreak("keep-alive") && Req.NoLineBreak("Content-type")
  {
  }

  lemma ValuesHaveNoLineBreak()
    ensures Req.NoLineBreak("max=6, timeout=120") && Req.NoLineBreak("close")
  {
  }

  /** The last `Connection` value among the pairs. */
  lemma {:induction false} ResponseConnection(r: Response)
    ensures ReqL.LastValue(ResponseHeaderPairs(r), "Connection")
         == Some(if r.keepAlive then "keep-alive" else "close")
  {
    var ps := ResponseHeaderPairs(r);
    var t := FileType(r.path);
    assert ReqL.LastValue([("Content-type", t)], "Connection") == None by {
      assert [("Content-type", t)][1..] == [];
    }
    if r.keepAlive {
      assert ps[1..][1..] == [("Content-type", t)];
      assert ReqL.LastValue(ps[1..], "Connection") == None;
    } else {
      assert ps[1..] == [("Content-type", t)];
    }
  }

  /** The header block is written in the `Name: value` CR LF form the request
      parser reads, so that parser recovers the pairs, and it sees keep-alive
      exactly when this response grants it. */
  lemma {:induction false} ResponseHeadersReadBack(r: Response, req: Req.Request, tail: string)
    requires req.state == Req.Headers && req.version == "1.1" && req.header == map[]
    ensures Req.Loop(req, HeaderText(r) + tail)
         == Req.Loop(req.(header := ReqL.StoreAll(map[], ResponseHeaderPairs(r))), tail)
    ensures Req.IsKeepAlive(req.(header := ReqL.StoreAll(map[], ResponseHeaderPairs(r)))) <==> r.keepAlive
  {
    var ps := ResponseHeaderPairs(r);
    HeaderTextIsBlock(r);
    ResponseHeadersWellFormed(r);
    ReqL.HeadersScan(req, ps, tail);
    ResponseConnection(r);
    ReqL.StoreAllLookup(map[], ps, "Connection");
  }

  // ---------------------------------------------------------------------
  // MakeResponse

  /** A full path that exists, is no directory and is world-readable. */
  predicate Servable(fs: FileSystem, full: string)
  {
    full in fs && !fs[full].meta.isDir && fs[full].meta.worldReadable
  }

  /** The response after the first three stages of `MakeResponse`. */
  function Staged(r: Response, fs: FileSystem): Response
  {
    StatusLine(ErrorHtml(ResolveCode(r, fs), fs)).0
  }

  /** The final code and page come from the first three stages alone. */
  lemma {:induction false} MakeResponseStages(r: Response, fs: FileSystem)
    ensures MakeResponse(r, fs).resp.code == Staged(r, fs).code
    ensures MakeResponse(r, fs).resp.path == Staged(r, fs).path
  {
    var r2 := Staged(r, fs);
    assert MakeResponse(r, fs).resp == AddContent(r2, fs).0;
  }

  /** An error code's page, with the code kept by the status line. */
  lemma {:induction false} StagedError(r: Response, fs: FileSystem, code: int)
    requires code in CodePath && ResolveCode(r, fs).code == code
    ensures Staged(r, fs).code == code && Staged(r, fs).path == CodePath[code]
  {
    var r1 := ErrorHtml(ResolveCode(r, fs), fs);
    assert r1.code == code && r1.path == CodePath[code];
    assert code in CodeStatus;
  }

  lemma {:induction false} StagedMissing(r: Response, fs: FileSystem)
    requires r.srcDir + r.path !in fs || fs[r.srcDir + r.path].meta.isDir
    ensures Staged(r, fs).code == 404 && Staged(r, fs).path == "/404.html"
  {
    assert ResolveCode(r, fs).code == 404;
    StagedError(r, fs, 404);
  }

  lemma {:induction false} StagedUnreadable(r: Response, fs: FileSystem)
    requires r.srcDir + r.path in fs
    requires !fs[r.srcDir + r.path].meta.isDir && !fs[r.srcDir + r.path].meta.worldReadable
    ensures Staged(r, fs).code == 403 && Staged(r, fs).path == "/403.html"
  {
    assert ResolveCode(r, fs).code == 403;
    StagedError(r, fs, 403);
  }

  lemma {:induction false} StagedServable(r: Response, fs: FileSystem)
    requires Servable(fs, r.srcDir + r.path)
    ensures r.code == -1 ==> Staged(r, fs).code == 200 && Staged(r, fs).path == r.path
    ensures r.code in CodeStatus ==> Staged(r, fs).code == r.code
    ensures r.code in CodeStatus ==> Staged(r, fs).path == (if r.code in CodePath then CodePath[r.code] else r.path)
    ensures r.code != -1 && r.code !in CodeStatus ==> Staged(r, fs).code == 400 && Staged(r, fs).path == r.path
  {
    var r0 := ResolveCode(r, fs);
    var r1 := ErrorHtml(r0, fs);
    assert r0.path == r.path;
    if r.code == -1 {
      assert r0.code == 200 && 200 !in CodePath && 200 in CodeStatus;
      assert r1.path == r.path;
    } else {
      assert r0.code == r.code;
      if r.code in CodePath {
        StagedError(r, fs, r.code);
      } else {
        assert r1.path == r.path;
      }
    }
  }

  /** The code `MakeResponse` settles on and the page it then serves:
      missing or directory gives 404, unreadable gives 403, an unset code
      becomes 200, a known code stays (its error page substituted), any
      other code becomes 400 without a page change. */
  lemma {:induction false} MakeResponseCode(r: Response, fs: FileSystem)
    ensures var m := MakeResponse(r, fs); var full := r.srcDir + r.path;
      && (full !in fs || fs[full].meta.isDir ==> m.resp.code == 404 && m.resp.path == "/404.html")
      && (full in fs && !fs[full].meta.isDir && !fs[full].meta.worldReadable ==>
            m.resp.code == 403 && m.resp.path == "/403.html")
      && (Servable(fs, full) && r.code == -1 ==> m.resp.code == 200 && m.resp.path == r.path)
      && (Servable(fs, full) && r.code in CodeStatus ==>
            m.resp.code == r.code && m.resp.path == (if r.code in CodePath then CodePath[r.code] else r.path))
      && (Servable(fs, full) && r.code != -1 && r.code !in CodeStatus ==>
            m.resp.code == 400 && m.resp.path == r.path)
  {
    MakeResponseStages(r, fs);
    var full := r.srcDir + r.path;
    if full !in fs || fs[full].meta.isDir {
      StagedMissing(r, fs);
    } else if !fs[full].meta.worldReadable {
      StagedUnreadable(r, fs);
    } else {
      StagedServable(r, fs);
    }
  }

  /** A servable file requested with code 200 is answered 200 with that file. */
  lemma MakeResponseServesFile(r: Response, fs: FileSystem)
    requires Servable(fs, r.srcDir + r.path) && r.code == 200
    ensures MakeResponse(r, fs).resp.code == 200 && MakeResponse(r, fs).resp.path == r.path
  {
    MakeResponseCode(r, fs);
    assert 200 in CodeStatus && 200 !in CodePath;
  }

  /** A missing file or a directory is answered with the 404 page. */
  lemma MakeResponseMissing(r: Response, fs: FileSystem)
    requires r.srcDir + r.path !in fs || fs[r.srcDir + r.path].meta.isDir
    ensures MakeResponse(r, fs).resp.code == 404 && MakeResponse(r, fs).resp.path == "/404.html"
  {
    MakeResponseCode(r, fs);
  }

  /** What `MakeResponse` appends: the status line of the final code, the
      headers for the final page, then the length of the mapped file or,
      when the page does not open, the inline error page. A mapping is
      recorded exactly when the final page opens, and the length sent is
      that page's size. */
  lemma {:induction false} MakeResponseContent(r: Response, fs: FileSystem)
    requires !r.mapped
    ensures var m := MakeResponse(r, fs); var full := r.srcDir + m.resp.path;
      && (m.resp.mapped <==> full in fs && fs[full].opens)
      && (m.resp.mapped ==> m.resp.stat == fs[full].meta)
      && m.out == StatusLine(m.resp).1 + HeaderText(m.resp)
                  + (if m.resp.mapped then LengthHeader(FileLen(m.resp))
                     else ErrorContent(m.resp.code, "File NotFound!"))
  {
  }
}
