/** The incremental HTTP request parser of `code/http/httprequest.cpp`.

    The read buffer is the sequence of unread characters. A character stands
    for one octet of the connection's byte stream. `parse` walks the buffer
    one CR LF-terminated line at a time through the states
    REQUEST_LINE -> HEADERS -> BODY -> FINISH. The request-line and header
    regular expressions of the source are replaced by the explicit splitting
    functions `SplitRequestLine` and `SplitHeader`. */
module HttpRequest {
  import opened Text

  datatype ParseState = RequestLine | Headers | Body | Finish

  /** Position of a state in the order the parser moves through them. */
  function Rank(s: ParseState): nat
  {
    match s
    case RequestLine => 0
    case Headers => 1
    case Body => 2
    case Finish => 3
  }

  datatype Request = Request(
    state: ParseState,
    httpMethod: string,
    path: string,
    version: string,
    body: string,
    header: map<string, string>,
    post: map<string, string>)

  /** `HttpRequest::Init`: all text fields empty, both maps empty, state REQUEST_LINE. */
  function Init(): Request
  {
    Request(RequestLine, "", "", "", "", map[], map[])
  }

  /** Bare page names that get `.html` appended (`DEFAULT_HTML`). */
  const DefaultHtml: set<string> := {"/index", "/register", "/login", "/welcome", "/video", "/picture"}

  /** Pages whose form posts go to the credential store, with their tag (`DEFAULT_HTML_TAG`). */
  const DefaultHtmlTag: map<string, int> := map["/register.html" := 0, "/login.html" := 1]

  /** `ParsePath_`: `/` is the default document, a bare page name gains `.html`. */
  function NormalizePath(p: string): string
  {
    if p == "/" then "/index.html"
    else if p in DefaultHtml then p + ".html"
    else p
  }

  // ---------------------------------------------------------------------
  // Request line: `^([^ ]*) ([^ ]*) HTTP/([^ ]*)$`

  datatype RequestLineFields = RequestLineFields(httpMethod: string, path: string, version: string)

  /** The request line as the three fields would be written on the wire. */
  function RequestLineText(f: RequestLineFields): string
  {
    f.httpMethod + " " + f.path + " HTTP/" + f.version
  }

  predicate NoSpace(s: string)
  {
    ' ' !in s
  }

  /** `ParseRequestLine_`'s match: exactly two spaces, the third field starting with `HTTP/`. */
  function SplitRequestLine(line: string): (r: Option<RequestLineFields>)
    ensures r.Some? ==>
      && NoSpace(r.value.httpMethod) && NoSpace(r.value.path) && NoSpace(r.value.version)
      && line == RequestLineText(r.value)
  {
    var first := IndexOf(line, ' ');
    if first.None? then None
    else
      var i := first.value;
      var rest := line[i + 1..];
      var second := IndexOf(rest, ' ');
      if second.None? then None
      else
        var j := second.value;
        var tail := rest[j + 1..];
        if NoSpace(tail) && |tail| >= 5 && tail[..5] == "HTTP/" then
          var f := RequestLineFields(line[..i], rest[..j], tail[5..]);
          SplitRequestLineParts(line, i, j, f);
          Some(f)
        else None
  }

  lemma SplitRequestLineParts(line: string, i: nat, j: nat, f: RequestLineFields)
    requires i < |line| && line[i] == ' '
    requires j < |line[i + 1..]| && line[i + 1..][j] == ' '
    requires |line[i + 1..][j + 1..]| >= 5 && line[i + 1..][j + 1..][..5] == "HTTP/"
    requires NoSpace(line[i + 1..][j + 1..])
    requires f == RequestLineFields(line[..i], line[i + 1..][..j], line[i + 1..][j + 1..][5..])
    ensures NoSpace(f.version) && line == RequestLineText(f)
  {
    var rest := line[i + 1..];
    var tail := rest[j + 1..];
    var v := tail[5..];
    assert NoSpace(v) by {
      assert forall k :: 0 <= k < |v| ==> v[k] == tail[k + 5];
    }
    assert tail == "HTTP/" + v by {
      assert tail == tail[..5] + tail[5..];
    }
    assert rest == f.path + [' '] + tail by {
      assert rest == rest[..j] + rest[j..j + 1] + rest[j + 1..];
    }
    assert line == f.httpMethod + [' '] + rest by {
      assert line == line[..i] + line[i..i + 1] + line[i + 1..];
    }
    JoinFields(f.httpMethod, f.path, v);
  }

  /** The request line text with the concatenations grouped from the right. */
  lemma JoinFields(m: string, p: string, v: string)
    ensures m + [' '] + (p + [' '] + ("HTTP/" + v)) == RequestLineText(RequestLineFields(m, p, v))
  {
    assert " HTTP/" == [' '] + "HTTP/";
  }

  // ---------------------------------------------------------------------
  // Header line: `^([^:]*): ?(.*)$`

  /** Characters the ECMAScript `.` of `std::regex` does not match. */
  predicate NoLineBreak(s: string)
  {
    '\r' !in s && '\n' !in s
  }

  /** `ParseHeader_`'s match: split at the first colon, drop one following
      space; `.` refuses CR and LF, so a value holding one does not match. */
  function SplitHeader(line: string): (r: Option<(string, string)>)
    ensures r.Some? ==>
      && ':' !in r.value.0 && NoLineBreak(r.value.1)
      && (|| line == r.value.0 + ": " + r.value.1
          || (line == r.value.0 + ":" + r.value.1 && (|r.value.1| == 0 || r.value.1[0] != ' ')))
    ensures r.None? <==> (':' !in line || !NoLineBreak(line[IndexOf(line, ':').value + 1..]))
  {
    match IndexOf(line, ':')
    case None => None
    case Some(i) =>
      var after := line[i + 1..];
      if !NoLineBreak(after) then None
      else
        assert line == line[..i] + ":" + after;
        if |after| > 0 && after[0] == ' ' then
          assert after == " " + after[1..];
          assert NoLineBreak(after[1..]) by {
            assert forall c :: c in after[1..] ==> c in after;
          }
          Some((line[..i], after[1..]))
        else Some((line[..i], after))
  }

  /** `ParseHeader_`: store the pair (last write wins) or move on to BODY. */
  function ParseHeader(req: Request, line: string): (r: Request)
    ensures r.httpMethod == req.httpMethod && r.path == req.path && r.version == req.version
    ensures r.body == req.body && r.post == req.post
    ensures ':' !in line ==> r == req.(state := Body)
    ensures SplitHeader(line).None? ==> r.header == req.header && r.state == Body
    ensures SplitHeader(line).Some? ==>
      var (k, v) := SplitHeader(line).value;
      && r.state == req.state
      && r.header.Keys == req.header.Keys + {k} && r.header[k] == v
      && (forall k' :: k' in req.header && k' != k ==> r.header[k'] == req.header[k'])
  {
    match SplitHeader(line)
    case Some((k, v)) => req.(header := req.header[k := v])
    case None => req.(state := Body)
  }

  // ---------------------------------------------------------------------
  // The line loop of `parse`

  /** Outcome of the line loop: whether it accepted, the request it built,
      the unread rest of the buffer, and whether a BODY line was taken. */
  datatype Scanned = Scanned(ok: bool, req: Request, rest: string, bodyParsed: bool)

  /** True when `rest` is what is left of `buf` after dropping a prefix. */
  predicate IsSuffix(rest: string, buf: string)
  {
    |rest| <= |buf| && rest == buf[|buf| - |rest|..]
  }

  /** One pass of the `while` loop on the current line: the request after
      the state's handler, and whether the pass took a BODY line; `None`
      when the request line does not match. `last` says the buffer held at
      most two characters before the pass. */
  function Step(req: Request, line: string, last: bool): (r: Option<(Request, bool)>)
    ensures r.None? ==> req.state == RequestLine
    ensures r.Some? ==> Rank(r.value.0.state) >= Rank(req.state)
    ensures r.Some? && r.value.1 ==> r.value.0.state == Finish
  {
    match req.state
    case RequestLine =>
      (match SplitRequestLine(line)
       case None => None
       case Some(f) =>
         Some((req.(httpMethod := f.httpMethod, path := NormalizePath(f.path),
                    version := f.version, state := Headers), false)))
    case Headers =>
      var req1 := ParseHeader(req, line);
      Some((if last then req1.(state := Finish) else req1, false))
    case Body => Some((req.(body := line, state := Finish), true))
    case Finish => Some((req, false))
  }

  /** The `while` loop of `parse` (form decoding excepted, see `Parse`).
      Each pass takes the text before the first CR LF as the current line;
      the line and its CR LF are retired only when a CR LF was found. */
  function Loop(req: Request, buf: string): (r: Scanned)
    ensures IsSuffix(r.rest, buf)
    ensures !r.ok ==> r.rest == buf && r.req == req && req.state == RequestLine && !r.bodyParsed
    ensures r.ok ==> Rank(r.req.state) >= Rank(req.state)
    ensures r.ok && |r.rest| > 0 && r.req.state != Finish ==> FindCrlf(r.rest) == |r.rest|
    ensures r.bodyParsed ==> r.req.state == Finish
    decreases |buf|
  {
    if |buf| == 0 || req.state == Finish then Scanned(true, req, buf, false)
    else
      var e := FindCrlf(buf);
      match Step(req, buf[..e], |buf| <= 2)
      case None => Scanned(false, req, buf, false)
      case Some((req', taken)) =>
        if e == |buf| then Scanned(true, req', buf, taken)
        else
          var s := Loop(req', buf[e + 2..]);
          assert buf[e + 2..][|buf[e + 2..]| - |s.rest|..] == buf[|buf| - |s.rest|..];
          s.(bodyParsed := s.bodyParsed || taken)
  }

  // ---------------------------------------------------------------------
  // Form bodies

  const FormContentType := "application/x-www-form-urlencoded"

  /** The value `header_["Content-Type"]` reads (an absent key reads as empty). */
  function ContentTypeOf(header: map<string, string>): string
  {
    if "Content-Type" in header then header["Content-Type"] else ""
  }

  /** The gate of `ParsePost_`: a POST whose content type is exactly the form type. */
  predicate IsFormPost(req: Request)
  {
    req.httpMethod == "POST" && ContentTypeOf(req.header) == FormContentType
  }

  /** Every `%` the decoder stops at has two characters after it. The
      decoder reads both unconditionally, so this is what it needs to stay
      within the body; the two characters are then skipped, never examined. */
  predicate EscapesComplete(s: string)
    decreases |s|
  {
    if |s| == 0 then true
    else if s[0] == '%' then |s| >= 3 && EscapesComplete(s[3..])
    else EscapesComplete(s[1..])
  }

  /** The octet value of a character read through a signed `char`. */
  function SignedOctet(c: char): int
  {
    var b := c as int % 256;
    if b < 128 then b else b - 256
  }

  /** An `int` stored into a `char`: its value modulo 256. */
  function OctetChar(x: int): char
  {
    (x % 256) as char
  }

  /** `ConverHex`: hex letters give 10 to 15; any other character, digits
      included, gives its own character code. */
  function ConverHex(c: char): int
  {
    if 'A' <= c <= 'F' then c as int - 'A' as int + 10
    else if 'a' <= c <= 'f' then c as int - 'a' as int + 10
    else SignedOctet(c)
  }

  /** C++ integer division and remainder: the quotient truncates toward zero. */
  function TruncDiv(a: int, b: int): int
    requires b > 0
  {
    if a >= 0 then a / b else -((-a) / b)
  }

  function TruncRem(a: int, b: int): int
    requires b > 0
  {
    a - b * TruncDiv(a, b)
  }

  /** The two characters written over `c1 c2` after a `%`:
      `num / 10 + '0'` and `num % 10 + '0'` with `num = 16 * ConverHex(c1) + ConverHex(c2)`. */
  function EscapeDigits(c1: char, c2: char): string
  {
    var num := 16 * ConverHex(c1) + ConverHex(c2);
    [OctetChar(TruncDiv(num, 10) + '0' as int), OctetChar(TruncRem(num, 10) + '0' as int)]
  }

  /** The decoded body (rewritten in place) and the pairs stored. */
  datatype Form = Form(body: string, post: map<string, string>)

  /** The `for` loop of `ParseFromUrlencoded_` from index `i`, with `j` the
      start of the pending token and `key` the last key read, followed by the
      trailing-pair step after the loop. */
  function DecodeFrom(b: string, i: nat, j: nat, key: string, post: map<string, string>): (r: Form)
    requires j <= i <= |b|
    requires EscapesComplete(b[i..])
    ensures |r.body| == |b|
    ensures post.Keys <= r.post.Keys
    decreases |b| - i
  {
    if i == |b| then
      if key !in post && j < i then Form(b, post[key := b[j..i]]) else Form(b, post)
    else if b[i] == '=' then
      assert b[i..][1..] == b[i + 1..];
      DecodeFrom(b, i + 1, i + 1, b[j..i], post)
    else if b[i] == '+' then
      var b' := b[i := ' '];
      assert b'[i + 1..] == b[i..][1..];
      DecodeFrom(b', i + 1, j, key, post)
    else if b[i] == '%' then
      var d := EscapeDigits(b[i + 1], b[i + 2]);
      var b' := b[i + 1 := d[0]][i + 2 := d[1]];
      assert b'[i + 3..] == b[i..][3..];
      DecodeFrom(b', i + 3, j, key, post)
    else if b[i] == '&' then
      assert b[i..][1..] == b[i + 1..];
      DecodeFrom(b, i + 1, i + 1, key, post[key := b[j..i]])
    else
      assert b[i..][1..] == b[i + 1..];
      DecodeFrom(b, i + 1, j, key, post)
  }

  /** `ParseFromUrlencoded_`: an empty body changes nothing. */
  function DecodeForm(body: string, post: map<string, string>): (r: Form)
    requires EscapesComplete(body)
    ensures |body| == 0 ==> r == Form(body, post)
    ensures |r.body| == |body| && post.Keys <= r.post.Keys
  {
    if |body| == 0 then Form(body, post)
    else
      assert body[0..] == body;
      DecodeFrom(body, 0, 0, "", post)
  }

  /** `UserVerify`: the credential store is an oracle, consulted only when
      both name and password are non-empty. */
  function UserVerify(name: string, pwd: string, isLogin: bool,
                      store: (string, string, bool) -> bool): (ok: bool)
    ensures ok ==> name != "" && pwd != "" && store(name, pwd, isLogin)
    ensures name != "" && pwd != "" ==> ok == store(name, pwd, isLogin)
  {
    if name == "" || pwd == "" then false
    else store(name, pwd, isLogin)
  }

  /** `m[k]` used as an rvalue: inserts `k` with an empty value when absent. */
  function Touch(m: map<string, string>, k: string): map<string, string>
  {
    if k in m then m else m[k := ""]
  }

  /** `ParsePost_`: decode a form POST, then send login and register posts
      to the credential store and rewrite the path with the verdict. */
  function ParsePost(req: Request, store: (string, string, bool) -> bool): (r: Request)
    requires IsFormPost(req) ==> EscapesComplete(req.body)
    ensures r.httpMethod == req.httpMethod && r.version == req.version && r.state == req.state
    ensures IsKeepAlive(r) == IsKeepAlive(req)
    ensures !IsFormPost(req) ==> r.post == req.post && r.body == req.body && r.path == req.path
    ensures r.path != req.path ==> r.path in {"/welcome.html", "/error.html"} && req.path in DefaultHtmlTag
    ensures IsFormPost(req) ==> r.body == DecodeForm(req.body, req.post).body
    ensures IsFormPost(req) && req.path !in DefaultHtmlTag ==>
      r.path == req.path && r.post == DecodeForm(req.body, req.post).post
    ensures IsFormPost(req) && req.path in DefaultHtmlTag ==>
      var d := DecodeForm(req.body, req.post).post;
      var name := if "username" in d then d["username"] else "";
      var pwd := if "password" in d then d["password"] else "";
      && r.path in {"/welcome.html", "/error.html"}
      && (r.path == "/welcome.html" <==> UserVerify(name, pwd, req.path == "/login.html", store))
  {
    if req.httpMethod != "POST" then req
    else
      var header := Touch(req.header, "Content-Type");
      if header["Content-Type"] != FormContentType then req.(header := header)
      else
        var form := DecodeForm(req.body, req.post);
        var req1 := req.(header := header, body := form.body, post := form.post);
        if req1.path in DefaultHtmlTag then
          var tag := DefaultHtmlTag[req1.path];
          if tag == 0 || tag == 1 then
            var post := Touch(Touch(req1.post, "username"), "password");
            var ok := UserVerify(post["username"], post["password"], tag == 1, store);
            req1.(post := post, path := if ok then "/welcome.html" else "/error.html")
          else req1
        else req1
  }

  // ---------------------------------------------------------------------
  // parse

  /** What the caller of `parse` learns: the returned flag, the request,
      and the unread rest of the buffer. */
  datatype Parsed = Parsed(ok: bool, req: Request, rest: string)

  /** The source's precondition on the buffer: if `parse` reaches form
      decoding, the body line has two characters after every visited `%`. */
  predicate Decodable(req: Request, buf: string)
  {
    var s := Loop(req, buf);
    s.ok && s.bodyParsed && IsFormPost(s.req) ==> EscapesComplete(s.req.body)
  }

  /** `HttpRequest::parse`. BODY is the last state the loop passes through
      and nothing after `ParseBody_` reads the decoded fields, so running
      `ParsePost_` once the loop has finished gives the same request. */
  function Parse(req: Request, buf: string, store: (string, string, bool) -> bool): (r: Parsed)
    requires Decodable(req, buf)
    ensures |buf| == 0 ==> !r.ok && r.req == req && r.rest == buf
    ensures IsSuffix(r.rest, buf)
    ensures !r.ok ==> r.rest == buf && r.req == req
  {
    if |buf| == 0 then Parsed(false, req, buf)
    else
      var s := Loop(req, buf);
      if s.ok && s.bodyParsed then Parsed(true, ParsePost(s.req, store), s.rest)
      else Parsed(s.ok, s.req, s.rest)
  }

  /** `IsKeepAlive`: an explicit `Connection: keep-alive` on an HTTP/1.1 request. */
  function IsKeepAlive(req: Request): bool
  {
    "Connection" in req.header && req.header["Connection"] == "keep-alive" && req.version == "1.1"
  }

  /** `GetPost`, both overloads: the decoded value, or the empty string for
      an absent key. The empty key is a valid argument: the decoder can
      store it (`=x&`). */
  function GetPost(req: Request, key: string): (v: string)
    ensures key in req.post ==> v == req.post[key]
    ensures key !in req.post ==> v == ""
  {
    if key in req.post then req.post[key] else ""
  }
}
