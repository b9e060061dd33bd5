/** The response synthesiser of `code/http/httpresponse.cpp`.

    The file system is an abstract map from full path to what `stat`
    reports for it and whether `open` succeeds on it. A path missing from
    the map is one on which `stat` fails; a failed `stat` writes nothing,
    so the previous metadata stays. The memory mapping `mmFile_` is the
    flag `mapped`. Response text is returned rather than appended to a
    buffer. */
module HttpResponse {
  import opened Text

  /** The part of `struct stat` the synthesiser reads. */
  datatype FileMeta = FileMeta(isDir: bool, worldReadable: bool, size: nat)

  /** `mmFileStat_ = { 0 }`: mode 0 (neither directory nor readable), size 0. */
  const ZeroStat := FileMeta(false, false, 0)

  /** What the file system says about one full path. */
  datatype FileInfo = FileInfo(meta: FileMeta, opens: bool)

  type FileSystem = map<string, FileInfo>

  datatype Response = Response(
    code: int,
    keepAlive: bool,
    path: string,
    srcDir: string,
    stat: FileMeta,
    mapped: bool)

  /** `HttpResponse::HttpResponse`: no code, no paths, nothing mapped. */
  const Fresh := Response(-1, false, "", "", ZeroStat, false)

  /** `SUFFIX_TYPE`, verbatim (two values end in a space). */
  const SuffixType: map<string, string> := map[
    ".html" := "text/html",
    ".xml" := "text/xml",
    ".xhtml" := "application/xhtml+xml",
    ".txt" := "text/plain",
    ".rtf" := "application/rtf",
    ".pdf" := "application/pdf",
    ".word" := "application/nsword",
    ".png" := "image/png",
    ".gif" := "image/gif",
    ".jpg" := "image/jpeg",
    ".jpeg" := "image/jpeg",
    ".au" := "audio/basic",
    ".mpeg" := "video/mpeg",
    ".mpg" := "video/mpeg",
    ".avi" := "video/x-msvideo",
    ".gz" := "application/x-gzip",
    ".tar" := "application/x-tar",
    ".css" := "text/css ",
    ".js" := "text/javascript "]

  /** `CODE_STATUS`: the reason phrases. */
  const CodeStatus: map<int, string> := map[200 := "OK", 400 := "Bad Request", 403 := "Forbidden", 404 := "Not Found"]

  /** `CODE_PATH`: the error page served for a code. */
  const CodePath: map<int, string> := map[400 := "/400.html", 403 := "/403.html", 404 := "/404.html"]

  /** `UnmapFile`: release the mapping if one is held. */
  function UnmapFile(r: Response): (r': Response)
    ensures !r'.mapped
    ensures r'.code == r.code && r'.keepAlive == r.keepAlive && r'.path == r.path
    ensures r'.srcDir == r.srcDir && r'.stat == r.stat
  {
    if r.mapped then r.(mapped := false) else r
  }

  /** `Init`: release any mapping, then reset every field. */
  function Init(r: Response, srcDir: string, path: string, keepAlive: bool, code: int): (r': Response)
    requires srcDir != ""
    ensures !r'.mapped && r'.stat == ZeroStat
    ensures r'.code == code && r'.keepAlive == keepAlive && r'.path == path && r'.srcDir == srcDir
  {
    Response(code, keepAlive, path, srcDir, ZeroStat, false)
  }

  /** `stat` into the kept metadata: on failure nothing is written. */
  function Stat(fs: FileSystem, full: string, previous: FileMeta): FileMeta
  {
    if full in fs then fs[full].meta else previous
  }

  /** The code chosen at the top of `MakeResponse`. */
  function ResolveCode(r: Response, fs: FileSystem): (r': Response)
    ensures r'.keepAlive == r.keepAlive && r'.path == r.path && r'.srcDir == r.srcDir && r'.mapped == r.mapped
    ensures r'.stat == Stat(fs, r.srcDir + r.path, r.stat)
    ensures r'.code in {200, 403, 404} || r'.code == r.code
  {
    var full := r.srcDir + r.path;
    if full !in fs then r.(code := 404)
    else
      var m := fs[full].meta;
      if m.isDir then r.(code := 404, stat := m)
      else if !m.worldReadable then r.(code := 403, stat := m)
      else if r.code == -1 then r.(code := 200, stat := m)
      else r.(stat := m)
  }

  /** `ErrorHtml_`: an error code serves its error page, whose metadata is re-read. */
  function ErrorHtml(r: Response, fs: FileSystem): (r': Response)
    ensures r'.code == r.code && r'.keepAlive == r.keepAlive && r'.srcDir == r.srcDir && r'.mapped == r.mapped
    ensures r.code in CodePath ==> r'.path == CodePath[r.code]
    ensures r.code !in CodePath ==> r' == r
    ensures r.code in CodePath ==> r'.stat == Stat(fs, r.srcDir + CodePath[r.code], r.stat)
  {
    if r.code in CodePath then
      var p := CodePath[r.code];
      r.(path := p, stat := Stat(fs, r.srcDir + p, r.stat))
    else r
  }

  /** `AddStateLine_`: a code without a reason phrase is rewritten to 400. */
  function StatusLine(r: Response): (p: (Response, string))
    ensures p.0 == r.(code := p.0.code)
    ensures p.0.code in CodeStatus
    ensures r.code in CodeStatus ==> p.0.code == r.code
    ensures r.code !in CodeStatus ==> p.0.code == 400
  {
    var code := if r.code in CodeStatus then r.code else 400;
    (r.(code := code), "HTTP/1.1 " + IntToDecimal(code) + " " + CodeStatus[code] + "\r\n")
  }

  /** `GetFileType_`: the suffix from the last `.`, looked up in the table. */
  function FileType(path: string): (t: string)
    ensures t == "text/plain" || t in SuffixType.Values
    ensures '.' !in path ==> t == "text/plain"
  {
    match LastIndexOf(path, '.')
    case None => "text/plain"
    case Some(i) =>
      var suffix := path[i..];
      if suffix in SuffixType then SuffixType[suffix] else "text/plain"
  }

  /** The connection lines of `AddHeader_`. */
  function ConnectionLines(keepAlive: bool): string
  {
    "Connection: " + (if keepAlive then "keep-alive\r\n" + "keep-alive: max=6, timeout=120\r\n" else "close\r\n")
  }

  /** `AddHeader_`. */
  function HeaderText(r: Response): string
  {
    ConnectionLines(r.keepAlive) + "Content-type: " + FileType(r.path) + "\r\n"
  }

  /** The `Content-length` line and the blank line that ends the header block. */
  function LengthHeader(n: nat): string
  {
    "Content-length: " + NatToDecimal(n) + "\r\n\r\n"
  }

  /** The reason `ErrorContent` prints: the table's, else `Bad Request`. */
  function ReasonOf(code: int): string
  {
    if code in CodeStatus then CodeStatus[code] else "Bad Request"
  }

  /** The HTML body built by `ErrorContent`. */
  function ErrorBody(code: int, message: string): string
  {
    "<html><title>Error</title>" + "<body bgcolor=\"ffffff\">"
    + IntToDecimal(code) + " : " + ReasonOf(code) + "\n"
    + "<p>" + message + "</p>"
    + "<hr><em>TinyWebServer</em></body></html>"
  }

  /** `ErrorContent`: the length line for the body, then the body. */
  function ErrorContent(code: int, message: string): (s: string)
    ensures |s| > |ErrorBody(code, message)|
  {
    LengthHeader(|ErrorBody(code, message)|) + ErrorBody(code, message)
  }

  /** `AddContent_`: on an open failure the inline error page; otherwise
      the file is mapped and only its length line is emitted (the bytes go
      out through the second write segment). */
  function AddContent(r: Response, fs: FileSystem): (p: (Response, string))
    ensures p.0 == r.(mapped := p.0.mapped)
    ensures p.0.mapped <==> r.mapped || (r.srcDir + r.path in fs && fs[r.srcDir + r.path].opens)
  {
    var full := r.srcDir + r.path;
    if full !in fs || !fs[full].opens then (r, ErrorContent(r.code, "File NotFound!"))
    else (r.(mapped := true), LengthHeader(r.stat.size))
  }

  /** The outcome of `MakeResponse`: the response state and the text appended. */
  datatype Made = Made(resp: Response, out: string)

  /** `MakeResponse`: code, error page, status line, headers, content. */
  function MakeResponse(r: Response, fs: FileSystem): (m: Made)
    ensures m.resp.code in CodeStatus
    ensures m.resp.keepAlive == r.keepAlive && m.resp.srcDir == r.srcDir
  {
    var r1 := ErrorHtml(ResolveCode(r, fs), fs);
    var (r2, line) := StatusLine(r1);
    var header := HeaderText(r2);
    var (r3, content) := AddContent(r2, fs);
    Made(r3, line + header + content)
  }

  /** `FileLen`. */
  function FileLen(r: Response): nat
  {
    r.stat.size
  }
}
