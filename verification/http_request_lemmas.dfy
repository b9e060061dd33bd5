/** Properties of the request parser: the two splitting functions against
    the wire text they read, the whole line loop against a request written
    by a client, and the form decoder against reference definitions. */
module HttpRequestLemmas {
  import opened Text
  import opened HttpRequest

  // ---------------------------------------------------------------------
  // Path normalisation

  /** `/` is the default document, the six bare names gain `.html`, every
      other path is kept; normalising twice changes nothing more. */
  lemma NormalizePathCases(p: string)
    ensures p == "/" ==> NormalizePath(p) == "/index.html"
    ensures p in DefaultHtml ==> NormalizePath(p) == p + ".html"
    ensures p != "/" && p !in DefaultHtml ==> NormalizePath(p) == p
    ensures NormalizePath(NormalizePath(p)) == NormalizePath(p)
  {
  }

  // ---------------------------------------------------------------------
  // Request line and header line against their wire text

  /** Every space-free triple written as `M SP P SP HTTP/V` is read back as
      that triple; with the ensures of `SplitRequestLine` this makes the
      match an if-and-only-if. */
  lemma SplitRequestLineComplete(f: RequestLineFields)
    requires NoSpace(f.httpMethod) && NoSpace(f.path) && NoSpace(f.version)
    ensures SplitRequestLine(RequestLineText(f)) == Some(f)
  {
    var m, p, v := f.httpMethod, f.path, f.version;
    var tail := "HTTP/" + v;
    var rest := p + [' '] + tail;
    var line := m + [' '] + rest;
    JoinFields(m, p, v);
    assert line == RequestLineText(f);
    IndexOfAfter(m, ' ', rest);
    IndexOfAfter(p, ' ', tail);
    assert line[..|m|] == m && line[|m| + 1..] == rest;
    assert rest[..|p|] == p && rest[|p| + 1..] == tail;
    VersionTail(v);
  }

  /** The third field `HTTP/V` has no space when `V` has none. */
  lemma VersionTail(v: string)
    requires NoSpace(v)
    ensures NoSpace("HTTP/" + v) && |"HTTP/" + v| >= 5
    ensures ("HTTP/" + v)[..5] == "HTTP/" && ("HTTP/" + v)[5..] == v
  {
    var tail := "HTTP/" + v;
    forall k | 0 <= k < |tail| ensures tail[k] != ' ' {
      if k >= 5 {
        assert tail[k] == v[k - 5];
      }
    }
  }

  /** A header written as `Name: value` (or `Name:value` when the value does
      not start with a space) is read back as exactly that pair. */
  lemma SplitHeaderComplete(k: string, v: string)
    requires ':' !in k && NoLineBreak(v)
    ensures SplitHeader(k + ": " + v) == Some((k, v))
    ensures |v| == 0 || v[0] != ' ' ==> SplitHeader(k + ":" + v) == Some((k, v))
  {
    SplitHeaderAt(k, " " + v);
    assert (" " + v)[1..] == v;
    if |v| == 0 || v[0] != ' ' {
      SplitHeaderAt(k, v);
    }
  }

  /** A well-formed header line stores its value under its key, replacing
      any earlier value, and keeps the parser in HEADERS. */
  lemma ParseHeaderStores(req: Request, k: string, v: string)
    requires ':' !in k && NoLineBreak(v)
    ensures k in ParseHeader(req, k + ": " + v).header && ParseHeader(req, k + ": " + v).header[k] == v
    ensures ParseHeader(req, k + ": " + v).state == req.state
  {
    SplitHeaderComplete(k, v);
  }

  /** The split of `k:after` when `k` has no colon and `after` no line break. */
  lemma SplitHeaderAt(k: string, after: string)
    requires ':' !in k && NoLineBreak(after)
    ensures |after| > 0 && after[0] == ' ' ==> SplitHeader(k + ":" + after) == Some((k, after[1..]))
    ensures !(|after| > 0 && after[0] == ' ') ==> SplitHeader(k + ":" + after) == Some((k, after))
  {
    var line := k + ":" + after;
    assert line == k + [':'] + after;
    IndexOfAfter(k, ':', after);
    assert line[..|k|] == k;
    assert line[|k| + 1..] == after;
  }

  // ---------------------------------------------------------------------
  // A request as a client writes it

  /** Left-to-right insertion, later pairs overwriting earlier ones. */
  function StoreAll(m: map<string, string>, ps: seq<(string, string)>): map<string, string>
    decreases |ps|
  {
    if |ps| == 0 then m else StoreAll(m[ps[0].0 := ps[0].1], ps[1..])
  }

  /** The value of the last pair whose key is `k`. */
  function LastValue(ps: seq<(string, string)>, k: string): Option<string>
    decreases |ps|
  {
    if |ps| == 0 then None
    else
      match LastValue(ps[1..], k)
      case Some(v) => Some(v)
      case None => if ps[0].0 == k then Some(ps[0].1) else None
  }

  /** What `StoreAll` keeps for a key: the last pair's value, else the old entry. */
  lemma {:induction false} StoreAllLookup(m: map<string, string>, ps: seq<(string, string)>, k: string)
    ensures LastValue(ps, k).Some? ==> k in StoreAll(m, ps) && StoreAll(m, ps)[k] == LastValue(ps, k).value
    ensures LastValue(ps, k).None? ==> (k in StoreAll(m, ps) <==> k in m)
    ensures LastValue(ps, k).None? && k in m ==> StoreAll(m, ps)[k] == m[k]
    decreases |ps|
  {
    if |ps| > 0 {
      StoreAllLookup(m[ps[0].0 := ps[0].1], ps[1..], k);
    }
  }

  /** The header block: one `Name: value` CR LF line per header. */
  function HeaderBlock(hs: seq<(string, string)>): string
    decreases |hs|
  {
    if |hs| == 0 then "" else hs[0].0 + ": " + hs[0].1 + "\r\n" + HeaderBlock(hs[1..])
  }

  predicate WellFormedHeaders(hs: seq<(string, string)>)
  {
    forall i :: 0 <= i < |hs| ==> ':' !in hs[i].0 && NoLineBreak(hs[i].0) && NoLineBreak(hs[i].1)
  }

  predicate WellFormedLine(f: RequestLineFields)
  {
    && NoSpace(f.httpMethod) && NoSpace(f.path) && NoSpace(f.version)
    && NoLineBreak(f.httpMethod) && NoLineBreak(f.path) && NoLineBreak(f.version)
  }

  /** Request line, header block, blank line, then a one-line body. */
  function RequestText(f: RequestLineFields, hs: seq<(string, string)>, body: string): string
  {
    RequestLineText(f) + "\r\n" + HeaderBlock(hs) + "\r\n" + body
  }

  /** The request the parser should build from `RequestText(f, hs, body)`
      before any form decoding. */
  function Expected(f: RequestLineFields, hs: seq<(string, string)>, body: string): Request
  {
    Request(Finish, f.httpMethod, NormalizePath(f.path), f.version, body, StoreAll(map[], hs), map[])
  }

  /** One pass of the line loop over a line `line` ended by CR LF. */
  lemma LoopPass(req: Request, line: string, more: string)
    requires req.state != Finish && '\r' !in line
    requires Step(req, line, |line + "\r\n" + more| <= 2).Some?
    ensures var p := Step(req, line, |line + "\r\n" + more| <= 2).value;
            var s := Loop(p.0, more);
            Loop(req, line + "\r\n" + more) == s.(bodyParsed := s.bodyParsed || p.1)
  {
    var buf := line + "\r\n" + more;
    FindCrlfAfter(line, more);
    assert buf[..|line|] == line;
    assert buf[|line| + 2..] == more;
  }

  /** The header lines are stored in order, each line with its CR LF consumed. */
  lemma {:induction false} HeadersScan(req: Request, hs: seq<(string, string)>, tail: string)
    requires req.state == Headers && WellFormedHeaders(hs)
    ensures Loop(req, HeaderBlock(hs) + tail) == Loop(req.(header := StoreAll(req.header, hs)), tail)
    decreases |hs|
  {
    if |hs| > 0 {
      var k := hs[0].0;
      var v := hs[0].1;
      var line := k + ": " + v;
      var more := HeaderBlock(hs[1..]) + tail;
      assert HeaderBlock(hs) + tail == line + "\r\n" + more;
      assert '\r' !in line;
      SplitHeaderComplete(k, v);
      LoopPass(req, line, more);
      var req' := req.(header := req.header[k := v]);
      assert WellFormedHeaders(hs[1..]) by {
        assert forall i :: 0 <= i < |hs[1..]| ==> hs[1..][i] == hs[i + 1];
      }
      HeadersScan(req', hs[1..], tail);
    } else {
      assert HeaderBlock(hs) + tail == tail;
    }
  }

  /** The last pass of the line loop, over a line without CR LF: the line
      is handled but stays in the buffer. */
  lemma LoopLastPass(req: Request, line: string)
    requires req.state != Finish && |line| > 0 && '\r' !in line
    requires Step(req, line, |line| <= 2).Some?
    ensures var p := Step(req, line, |line| <= 2).value;
            Loop(req, line) == Scanned(true, p.0, line, p.1)
  {
    FindCrlfNone(line);
    assert line[..|line|] == line;
  }

  /** The blank line ends the header block: with nothing after it the
      request is finished, otherwise the rest is taken as the body and,
      lacking a CR LF, stays in the buffer. */
  lemma BlankLineScan(req: Request, body: string)
    requires req.state == Headers && NoLineBreak(body)
    ensures body == "" ==> Loop(req, "\r\n" + body) == Scanned(true, req.(state := Finish), "", false)
    ensures body != "" ==>
      Loop(req, "\r\n" + body) == Scanned(true, req.(body := body, state := Finish), body, true)
  {
    assert SplitHeader("") == None;
    assert "\r\n" + body == "" + "\r\n" + body;
    LoopPass(req, "", body);
    if body != "" {
      LoopLastPass(req.(state := Body), body);
    }
  }

  /** Parsing what a client writes recovers the method, the normalised
      path, the version, the headers (last write wins) and the body line;
      a body line stays unread in the buffer. */
  lemma RequestScan(f: RequestLineFields, hs: seq<(string, string)>, body: string)
    requires WellFormedLine(f) && WellFormedHeaders(hs) && NoLineBreak(body)
    ensures Loop(Init(), RequestText(f, hs, body))
         == Scanned(true, Expected(f, hs, body), body, body != "")
  {
    var line := RequestLineText(f);
    var more := HeaderBlock(hs) + ("\r\n" + body);
    assert RequestText(f, hs, body) == line + "\r\n" + more;
    assert '\r' !in line by {
      assert line == f.httpMethod + " " + f.path + " HTTP/" + f.version;
    }
    SplitRequestLineComplete(f);
    var req1 := Init().(httpMethod := f.httpMethod, path := NormalizePath(f.path),
                        version := f.version, state := Headers);
    assert Step(Init(), line, |line + "\r\n" + more| <= 2) == Some((req1, false));
    LoopPass(Init(), line, more);
    assert Loop(Init(), RequestText(f, hs, body)) == Loop(req1, more);
    HeadersScan(req1, hs, "\r\n" + body);
    var req2 := req1.(header := StoreAll(map[], hs));
    assert Loop(req1, more) == Loop(req2, "\r\n" + body);
    BlankLineScan(req2, body);
  }

  /** `parse` on what a client writes: accepted, everything after the body
      line consumed, and the form handling of `ParsePost_` applied only
      when a body line was present. */
  lemma ParseRequestText(f: RequestLineFields, hs: seq<(string, string)>, body: string,
                         store: (string, string, bool) -> bool)
    requires WellFormedLine(f) && WellFormedHeaders(hs) && NoLineBreak(body)
    requires IsFormPost(Expected(f, hs, body)) && body != "" ==> EscapesComplete(body)
    ensures Decodable(Init(), RequestText(f, hs, body))
    ensures body == "" ==> Parse(Init(), RequestText(f, hs, body), store) == Parsed(true, Expected(f, hs, body), "")
    ensures body != "" ==>
      Parse(Init(), RequestText(f, hs, body), store) == Parsed(true, ParsePost(Expected(f, hs, body), store), body)
  {
    RequestScan(f, hs, body);
  }

  /** A request for `/` is answered exactly like one for `/index.html`. */
  lemma RootIsIndex(f: RequestLineFields, hs: seq<(string, string)>, body: string,
                    store: (string, string, bool) -> bool)
    requires WellFormedLine(f) && f.path == "/" && WellFormedHeaders(hs) && NoLineBreak(body)
    requires IsFormPost(Expected(f, hs, body)) && body != "" ==> EscapesComplete(body)
    ensures WellFormedLine(f.(path := "/index.html"))
    ensures Decodable(Init(), RequestText(f, hs, body))
    ensures Decodable(Init(), RequestText(f.(path := "/index.html"), hs, body))
    ensures Parse(Init(), RequestText(f, hs, body), store)
         == Parse(Init(), RequestText(f.(path := "/index.html"), hs, body), store)
  {
    var g := f.(path := "/index.html");
    assert WellFormedLine(g) by {
      assert NoSpace(g.path) && NoLineBreak(g.path);
    }
    assert Expected(f, hs, body) == Expected(g, hs, body);
    ParseRequestText(f, hs, body, store);
    ParseRequestText(g, hs, body, store);
  }

  /** Keep-alive is granted only for version `1.1` and a last `Connection`
      header equal to `keep-alive`; no default applies. */
  lemma KeepAliveOfRequestText(f: RequestLineFields, hs: seq<(string, string)>, body: string,
                               store: (string, string, bool) -> bool)
    requires WellFormedLine(f) && WellFormedHeaders(hs) && NoLineBreak(body)
    requires IsFormPost(Expected(f, hs, body)) && body != "" ==> EscapesComplete(body)
    ensures Decodable(Init(), RequestText(f, hs, body))
    ensures IsKeepAlive(Parse(Init(), RequestText(f, hs, body), store).req)
        <==> f.version == "1.1" && LastValue(hs, "Connection") == Some("keep-alive")
  {
    ParseRequestText(f, hs, body, store);
    StoreAllLookup(map[], hs, "Connection");
  }

  /** `parse` fails exactly on an empty buffer or a rejected first line. */
  lemma {:induction false} ParseAcceptsIff(req: Request, buf: string, store: (string, string, bool) -> bool)
    requires req.state == RequestLine && Decodable(req, buf)
    ensures Parse(req, buf, store).ok
        <==> |buf| > 0 && SplitRequestLine(buf[..FindCrlf(buf)]).Some?
  {
    if |buf| > 0 {
      ParseOk(req, buf, store);
      FirstLineDecides(req, buf);
    }
  }

  lemma ParseOk(req: Request, buf: string, store: (string, string, bool) -> bool)
    requires Decodable(req, buf) && |buf| > 0
    ensures Parse(req, buf, store).ok == Loop(req, buf).ok
  {
  }

  /** In state REQUEST_LINE the loop fails only on its first line. */
  lemma FirstLineDecides(req: Request, buf: string)
    requires req.state == RequestLine && |buf| > 0
    ensures Loop(req, buf).ok <==> SplitRequestLine(buf[..FindCrlf(buf)]).Some?
  {
    var e := FindCrlf(buf);
    var step := Step(req, buf[..e], |buf| <= 2);
    assert step.Some? <==> SplitRequestLine(buf[..e]).Some?;
    if step.Some? && e < |buf| {
      assert step.value.0.state == Headers;
      var s := Loop(step.value.0, buf[e + 2..]);
      assert s.ok;
    }
  }

  // ---------------------------------------------------------------------
  // ConverHex against standard hexadecimal

  predicate IsHexDigit(c: char)
  {
    IsDigit(c) || 'A' <= c <= 'F' || 'a' <= c <= 'f'
  }

  /** The value of a hex digit as percent-decoding in RFC 3986 reads it. */
  function HexValue(c: char): int
    requires IsHexDigit(c)
  {
    if IsDigit(c) then c as int - '0' as int
    else if 'A' <= c <= 'F' then c as int - 'A' as int + 10
    else c as int - 'a' as int + 10
  }

  /** `ConverHex` agrees with standard hex on letters only: a decimal digit
      yields its character code (48 to 57), not its value. */
  lemma ConverHexDeparts(c: char)
    requires IsHexDigit(c)
    ensures ConverHex(c) == HexValue(c) <==> !IsDigit(c)
    ensures IsDigit(c) ==> ConverHex(c) == c as int
  {
  }

  /** Below 128 a non-letter character's code is returned unchanged; above,
      the character is read as a signed octet. */
  lemma ConverHexRaw(c: char)
    requires !('A' <= c <= 'F') && !('a' <= c <= 'f') && c as int < 256
    ensures c as int < 128 ==> ConverHex(c) == c as int
    ensures c as int >= 128 ==> ConverHex(c) == c as int - 256
  {
  }

  // ---------------------------------------------------------------------
  // Form decoding against reference definitions

  /** The in-place rewrite as a left-to-right function: `+` becomes a space,
      `%c1c2` keeps its `%` and gets the two digits of `EscapeDigits`. */
  function Rewrite(s: string): string
    requires EscapesComplete(s)
    decreases |s|
  {
    if |s| == 0 then ""
    else if s[0] == '+' then " " + Rewrite(s[1..])
    else if s[0] == '%' then "%" + EscapeDigits(s[1], s[2]) + Rewrite(s[3..])
    else [s[0]] + Rewrite(s[1..])
  }

  /** The body the decoder leaves behind is the rewrite of what it scanned. */
  lemma {:induction false} DecodedBodyIsRewrite(b: string, i: nat, j: nat, key: string,
                                                post: map<string, string>)
    requires j <= i <= |b| && EscapesComplete(b[i..])
    ensures DecodeFrom(b, i, j, key, post).body == b[..i] + Rewrite(b[i..])
    decreases |b| - i, 1
  {
    if i == |b| {
      assert b[..i] == b;
    } else if b[i] == '+' {
      RewritePlus(b, i, j, key, post);
    } else if b[i] == '%' {
      RewritePercent(b, i, j, key, post);
    } else if b[i] == '=' {
      RewriteKept(b, i, i + 1, b[j..i], post);
    } else if b[i] == '&' {
      RewriteKept(b, i, i + 1, key, post[key := b[j..i]]);
    } else {
      RewriteKept(b, i, j, key, post);
    }
  }

  /** A character other than `+` and `%` is kept, whatever the decoder does next. */
  lemma {:induction false} RewriteKept(b: string, i: nat, j: nat, key: string,
                                       post: map<string, string>)
    requires i < |b| && j <= i + 1 && b[i] != '+' && b[i] != '%' && EscapesComplete(b[i..])
    ensures EscapesComplete(b[i + 1..])
    ensures DecodeFrom(b, i + 1, j, key, post).body == b[..i] + Rewrite(b[i..])
    decreases |b| - i, 0
  {
    var t := b[i..];
    var u := b[i + 1..];
    assert u == t[1..];
    assert Rewrite(t) == [b[i]] + Rewrite(u);
    DecodedBodyIsRewrite(b, i + 1, j, key, post);
    assert b[..i + 1] == b[..i] + [b[i]];
    Regroup(b[..i], [b[i]], Rewrite(u));
  }

  lemma {:induction false} RewritePlus(b: string, i: nat, j: nat, key: string,
                                       post: map<string, string>)
    requires j <= i < |b| && b[i] == '+' && EscapesComplete(b[i..])
    ensures DecodeFrom(b, i, j, key, post).body == b[..i] + Rewrite(b[i..])
    decreases |b| - i, 0
  {
    var t := b[i..];
    var b' := b[i := ' '];
    var u := b'[i + 1..];
    assert u == t[1..];
    assert Rewrite(t) == " " + Rewrite(u);
    assert DecodeFrom(b, i, j, key, post) == DecodeFrom(b', i + 1, j, key, post);
    DecodedBodyIsRewrite(b', i + 1, j, key, post);
    assert b'[..i + 1] == b[..i] + " ";
    Regroup(b[..i], " ", Rewrite(u));
  }

  lemma {:induction false} RewritePercent(b: string, i: nat, j: nat, key: string,
                                          post: map<string, string>)
    requires j <= i < |b| && b[i] == '%' && EscapesComplete(b[i..])
    ensures DecodeFrom(b, i, j, key, post).body == b[..i] + Rewrite(b[i..])
    decreases |b| - i, 0
  {
    var t := b[i..];
    var d := EscapeDigits(b[i + 1], b[i + 2]);
    var b' := b[i + 1 := d[0]][i + 2 := d[1]];
    var u := b'[i + 3..];
    assert u == t[3..];
    assert Rewrite(t) == "%" + d + Rewrite(u);
    assert DecodeFrom(b, i, j, key, post) == DecodeFrom(b', i + 3, j, key, post);
    DecodedBodyIsRewrite(b', i + 3, j, key, post);
    assert b'[..i + 3] == b[..i] + ("%" + d);
    Regroup(b[..i], "%" + d, Rewrite(u));
  }

  /** Concatenation regrouped to the right. */
  lemma Regroup(x: string, y: string, z: string)
    ensures (x + y) + z == x + (y + z)
  {
  }

  /** `ParseFromUrlencoded_` leaves the rewritten body behind. */
  lemma DecodeFormBody(body: string, post: map<string, string>)
    requires EscapesComplete(body)
    ensures DecodeForm(body, post).body == Rewrite(body)
  {
    if |body| > 0 {
      assert body[0..] == body;
      DecodedBodyIsRewrite(body, 0, 0, "", post);
    }
  }

  predicate IsDelimiter(c: char)
  {
    c == '=' || c == '&' || c == '+' || c == '%'
  }

  predicate PlainText(s: string)
  {
    forall k :: 0 <= k < |s| ==> !IsDelimiter(s[k])
  }

  predicate PlainPairs(ps: seq<(string, string)>)
  {
    forall i :: 0 <= i < |ps| ==> PlainText(ps[i].0) && PlainText(ps[i].1)
  }

  /** A form body as a client writes it: `k1=v1&...&kn=vn`. */
  function EncodePairs(ps: seq<(string, string)>): string
    decreases |ps|
  {
    if |ps| == 0 then ""
    else if |ps| == 1 then ps[0].0 + "=" + ps[0].1
    else ps[0].0 + "=" + ps[0].1 + "&" + EncodePairs(ps[1..])
  }

  /** What the decoder stores for `EncodePairs(ps)`: every pair but the last
      with last write winning, then the last pair only if its key is new
      and its value non-empty (the check after the loop). */
  function ExpectedPairs(m: map<string, string>, ps: seq<(string, string)>): map<string, string>
    requires |ps| > 0
  {
    var front := StoreAll(m, ps[..|ps| - 1]);
    var last := ps[|ps| - 1];
    if last.0 !in front && last.1 != "" then front[last.0 := last.1] else front
  }

  /** Without a `%` every escape is complete, in every suffix. */
  lemma {:induction false} PlainEscapes(b: string, m: nat)
    requires m <= |b| && '%' !in b
    ensures EscapesComplete(b[m..])
    decreases |b| - m
  {
    if m < |b| {
      assert b[m] != '%' by {
        assert b[m] in b;
      }
      assert b[m..][1..] == b[m + 1..];
      PlainEscapes(b, m + 1);
    }
  }

  lemma {:induction false} EncodingHasNoPercent(ps: seq<(string, string)>)
    requires PlainPairs(ps)
    ensures '%' !in EncodePairs(ps)
    decreases |ps|
  {
    if |ps| > 0 {
      var k := ps[0].0;
      var v := ps[0].1;
      assert '%' !in k by {
        assert forall x :: 0 <= x < |k| ==> k[x] != '%';
      }
      assert '%' !in v by {
        assert forall x :: 0 <= x < |v| ==> v[x] != '%';
      }
      if |ps| > 1 {
        assert PlainPairs(ps[1..]) by {
          assert forall x :: 0 <= x < |ps[1..]| ==> ps[1..][x] == ps[x + 1];
        }
        EncodingHasNoPercent(ps[1..]);
      }
    }
  }

  /** Characters that are not delimiters are passed over without effect. */
  lemma {:induction false} SkipPlain(b: string, i: nat, m: nat, j: nat, key: string,
                                     post: map<string, string>)
    requires j <= i <= m <= |b| && '%' !in b
    requires forall k :: i <= k < m ==> !IsDelimiter(b[k])
    ensures EscapesComplete(b[i..]) && EscapesComplete(b[m..])
    ensures DecodeFrom(b, i, j, key, post) == DecodeFrom(b, m, j, key, post)
    decreases m - i
  {
    PlainEscapes(b, i);
    PlainEscapes(b, m);
    if i < m {
      PlainEscapes(b, i + 1);
      assert b[i..][1..] == b[i + 1..];
      SkipPlain(b, i + 1, m, j, key, post);
    }
  }

  /** `SkipPlain` for a body that may hold escapes elsewhere. */
  lemma {:induction false} SkipPlainAnywhere(b: string, i: nat, m: nat, j: nat, key: string,
                                             post: map<string, string>)
    requires j <= i <= m <= |b| && EscapesComplete(b[m..])
    requires forall k :: i <= k < m ==> !IsDelimiter(b[k])
    ensures EscapesComplete(b[i..])
    ensures DecodeFrom(b, i, j, key, post) == DecodeFrom(b, m, j, key, post)
    decreases m - i
  {
    if i < m {
      SkipPlainAnywhere(b, i + 1, m, j, key, post);
      assert b[i..][1..] == b[i + 1..];
    }
  }

  lemma {:induction false} StoreAllFront(m: map<string, string>, p: (string, string),
                                         ps: seq<(string, string)>)
    requires |ps| > 0
    ensures ExpectedPairs(m, [p] + ps) == ExpectedPairs(m[p.0 := p.1], ps)
  {
    var qs := [p] + ps;
    assert qs[..|qs| - 1][1..] == ps[..|ps| - 1];
    assert qs[|qs| - 1] == ps[|ps| - 1];
  }

  /** At `=` the pending token becomes the key and a new token starts. */
  lemma DecodeAtEquals(b: string, i: nat, j: nat, key: string, post: map<string, string>)
    requires j <= i < |b| && b[i] == '=' && EscapesComplete(b[i..])
    ensures EscapesComplete(b[i + 1..])
    ensures DecodeFrom(b, i, j, key, post) == DecodeFrom(b, i + 1, i + 1, b[j..i], post)
  {
    assert b[i..][1..] == b[i + 1..];
  }

  /** At `&` the pending token is stored as the key's value and a new token starts. */
  lemma DecodeAtAmpersand(b: string, i: nat, j: nat, key: string, post: map<string, string>)
    requires j <= i < |b| && b[i] == '&' && EscapesComplete(b[i..])
    ensures EscapesComplete(b[i + 1..])
    ensures DecodeFrom(b, i, j, key, post) == DecodeFrom(b, i + 1, i + 1, key, post[key := b[j..i]])
  {
    assert b[i..][1..] == b[i + 1..];
  }

  /** Decoding one `k=v` pair that starts at `i`: the decoder ends up at
      `end` with `k` as its key and the value pending from `eq + 1`. */
  lemma {:induction false} DecodeOnePair(b: string, i: nat, k: string, v: string,
                                         key: string, post: map<string, string>)
    requires '%' !in b && PlainText(k) && PlainText(v)
    requires i + |k| + 1 + |v| <= |b|
    requires b[i..i + |k|] == k && b[i + |k|] == '=' && b[i + |k| + 1..i + |k| + 1 + |v|] == v
    ensures EscapesComplete(b[i..]) && EscapesComplete(b[i + |k| + 1 + |v|..])
    ensures DecodeFrom(b, i, i, key, post) == DecodeFrom(b, i + |k| + 1 + |v|, i + |k| + 1, k, post)
  {
    var eq := i + |k|;
    SkipToken(b, i, k, i, key, post);
    DecodeAtEquals(b, eq, i, key, post);
    SkipToken(b, eq + 1, v, eq + 1, k, post);
  }

  /** A plain token written at `lo` is passed over without effect. */
  lemma SkipToken(b: string, lo: nat, t: string, j: nat, key: string, post: map<string, string>)
    requires '%' !in b && PlainText(t) && j <= lo && lo + |t| <= |b| && b[lo..lo + |t|] == t
    ensures EscapesComplete(b[lo..]) && EscapesComplete(b[lo + |t|..])
    ensures DecodeFrom(b, lo, j, key, post) == DecodeFrom(b, lo + |t|, j, key, post)
  {
    forall x | lo <= x < lo + |t| ensures !IsDelimiter(b[x]) {
      assert b[x] == t[x - lo];
    }
    SkipPlain(b, lo, lo + |t|, j, key, post);
  }

  /** Where the first pair of `EncodePairs(ps)` sits when it starts at `i`. */
  lemma PairLayout(b: string, i: nat, ps: seq<(string, string)>)
    requires |ps| > 0 && i <= |b| && b[i..] == EncodePairs(ps)
    ensures var k := ps[0].0; var v := ps[0].1; var end := i + |k| + 1 + |v|;
      && end <= |b|
      && b[i..i + |k|] == k && b[i + |k|] == '=' && b[i + |k| + 1..end] == v
      && (|ps| == 1 ==> end == |b|)
      && (|ps| > 1 ==> end < |b| && b[end] == '&' && b[end + 1..] == EncodePairs(ps[1..]))
  {
    var k := ps[0].0;
    var v := ps[0].1;
    var end := i + |k| + 1 + |v|;
    var rest := if |ps| == 1 then "" else "&" + EncodePairs(ps[1..]);
    var t := b[i..];
    assert t == k + "=" + v + rest;
    PairText(k, v, rest);
    assert b[i..i + |k|] == t[..|k|];
    assert b[i + |k|] == t[|k|];
    assert b[i + |k| + 1..end] == t[|k| + 1..|k| + 1 + |v|];
    assert b[end..] == t[|k| + 1 + |v|..];
    if |ps| > 1 {
      assert b[end + 1..] == b[end..][1..];
    }
  }

  /** The parts of `k=v` followed by `rest`. */
  lemma PairText(k: string, v: string, rest: string)
    ensures var t := k + "=" + v + rest;
      && t[..|k|] == k && t[|k|] == '=' && t[|k| + 1..|k| + 1 + |v|] == v
      && t[|k| + 1 + |v|..] == rest
  {
    var t := k + "=" + v + rest;
    assert t == k + ("=" + v + rest);
    assert t[|k|..] == "=" + v + rest;
    assert t[|k| + 1..] == v + rest;
  }

  /** After the loop: the pending token is stored only under a new key
      and only when non-empty. */
  lemma DecodeAtEnd(b: string, j: nat, key: string, post: map<string, string>)
    requires j <= |b|
    ensures EscapesComplete(b[|b|..])
    ensures DecodeFrom(b, |b|, j, key, post)
         == if key !in post && j < |b| then Form(b, post[key := b[j..]]) else Form(b, post)
  {
    assert b[|b|..] == "";
    assert b[j..|b|] == b[j..];
  }

  lemma ExpectedSingle(post: map<string, string>, p: (string, string))
    ensures ExpectedPairs(post, [p]) == if p.0 !in post && p.1 != "" then post[p.0 := p.1] else post
  {
    assert [p][..0] == [];
  }

  /** Decoding `EncodePairs(ps)` from a pair boundary. */
  lemma {:induction false} DecodePairsFrom(b: string, i: nat, ps: seq<(string, string)>,
                                           key: string, post: map<string, string>)
    requires |ps| > 0 && PlainPairs(ps) && '%' !in b && i <= |b| && b[i..] == EncodePairs(ps)
    ensures EscapesComplete(b[i..])
    ensures DecodeFrom(b, i, i, key, post) == Form(b, ExpectedPairs(post, ps))
    decreases |ps|, 2
  {
    PairLayout(b, i, ps);
    if |ps| == 1 {
      DecodeOnlyPair(b, i, ps, key, post);
    } else {
      DecodeFirstOfMany(b, i, ps, key, post);
    }
  }

  lemma {:induction false} DecodeOnlyPair(b: string, i: nat, ps: seq<(string, string)>,
                                          key: string, post: map<string, string>)
    requires |ps| == 1 && PlainPairs(ps) && '%' !in b
    requires i + |ps[0].0| + 1 + |ps[0].1| == |b|
    requires b[i..i + |ps[0].0|] == ps[0].0 && b[i + |ps[0].0|] == '='
    requires b[i + |ps[0].0| + 1..] == ps[0].1
    ensures EscapesComplete(b[i..])
    ensures DecodeFrom(b, i, i, key, post) == Form(b, ExpectedPairs(post, ps))
  {
    var p := ps[0];
    assert b[i + |p.0| + 1..i + |p.0| + 1 + |p.1|] == p.1;
    DecodeOnePair(b, i, p.0, p.1, key, post);
    DecodeLastPair(b, i, p, post);
    assert ps == [p];
  }

  lemma {:induction false} DecodeFirstOfMany(b: string, i: nat, ps: seq<(string, string)>,
                                             key: string, post: map<string, string>)
    requires |ps| > 1 && PlainPairs(ps) && '%' !in b
    requires i + |ps[0].0| + 1 + |ps[0].1| < |b|
    requires b[i..i + |ps[0].0|] == ps[0].0 && b[i + |ps[0].0|] == '='
    requires b[i + |ps[0].0| + 1..i + |ps[0].0| + 1 + |ps[0].1|] == ps[0].1
    requires b[i + |ps[0].0| + 1 + |ps[0].1|] == '&'
    requires b[i + |ps[0].0| + 1 + |ps[0].1| + 1..] == EncodePairs(ps[1..])
    ensures EscapesComplete(b[i..])
    ensures DecodeFrom(b, i, i, key, post) == Form(b, ExpectedPairs(post, ps))
    decreases |ps|, 1
  {
    DecodeOnePair(b, i, ps[0].0, ps[0].1, key, post);
    DecodeNextPair(b, i, ps, post);
  }

  lemma {:induction false} DecodeLastPair(b: string, i: nat, p: (string, string),
                                          post: map<string, string>)
    requires i + |p.0| + 1 + |p.1| == |b| && b[i + |p.0| + 1..] == p.1
    ensures EscapesComplete(b[|b|..])
    ensures DecodeFrom(b, |b|, i + |p.0| + 1, p.0, post) == Form(b, ExpectedPairs(post, [p]))
  {
    DecodeAtEnd(b, i + |p.0| + 1, p.0, post);
    ExpectedSingle(post, p);
  }

  lemma {:induction false} DecodeNextPair(b: string, i: nat, ps: seq<(string, string)>,
                                          post: map<string, string>)
    requires |ps| > 1 && PlainPairs(ps) && '%' !in b
    requires i + |ps[0].0| + 1 + |ps[0].1| < |b|
    requires b[i + |ps[0].0| + 1..i + |ps[0].0| + 1 + |ps[0].1|] == ps[0].1
    requires b[i + |ps[0].0| + 1 + |ps[0].1|] == '&'
    requires b[i + |ps[0].0| + 1 + |ps[0].1| + 1..] == EncodePairs(ps[1..])
    ensures EscapesComplete(b[i + |ps[0].0| + 1 + |ps[0].1|..])
    ensures DecodeFrom(b, i + |ps[0].0| + 1 + |ps[0].1|, i + |ps[0].0| + 1, ps[0].0, post)
         == Form(b, ExpectedPairs(post, ps))
    decreases |ps|, 0
  {
    var k := ps[0].0;
    var v := ps[0].1;
    var end := i + |k| + 1 + |v|;
    assert PlainPairs(ps[1..]) by {
      assert forall x :: 0 <= x < |ps[1..]| ==> ps[1..][x] == ps[x + 1];
    }
    PlainEscapes(b, end);
    DecodeAtAmpersand(b, end, i + |k| + 1, k, post);
    DecodePairsFrom(b, end + 1, ps[1..], k, post[k := v]);
    StoreAllFront(post, ps[0], ps[1..]);
    assert [ps[0]] + ps[1..] == ps;
  }

  /** Decoding a body written from plain pairs stores `ExpectedPairs` and
      leaves the body unchanged. */
  lemma {:induction false} DecodeEncodedPairs(ps: seq<(string, string)>)
    requires |ps| > 0 && PlainPairs(ps)
    ensures EscapesComplete(EncodePairs(ps))
    ensures DecodeForm(EncodePairs(ps), map[]) == Form(EncodePairs(ps), ExpectedPairs(map[], ps))
  {
    var b := EncodePairs(ps);
    EncodingHasNoPercent(ps);
    assert b[0..] == b;
    DecodePairsFrom(b, 0, ps, "", map[]);
    assert |b| > 0 by {
      if |ps| == 1 {
        assert b == ps[0].0 + "=" + ps[0].1;
      } else {
        assert b == ps[0].0 + "=" + ps[0].1 + "&" + EncodePairs(ps[1..]);
      }
    }
  }

  predicate DistinctKeys(ps: seq<(string, string)>)
  {
    forall i, j :: 0 <= i < j < |ps| ==> ps[i].0 != ps[j].0
  }

  lemma {:induction false} LastValueDistinct(ps: seq<(string, string)>, i: nat)
    requires DistinctKeys(ps) && i < |ps|
    ensures LastValue(ps, ps[i].0) == Some(ps[i].1)
    decreases |ps|
  {
    if i > 0 {
      LastValueDistinct(ps[1..], i - 1);
    } else if |ps| > 1 {
      LastValueAbsent(ps[1..], ps[0].0);
    }
  }

  lemma {:induction false} LastValueAbsent(ps: seq<(string, string)>, k: string)
    requires forall i :: 0 <= i < |ps| ==> ps[i].0 != k
    ensures LastValue(ps, k) == None
    decreases |ps|
  {
    if |ps| > 0 {
      LastValueAbsent(ps[1..], k);
    }
  }

  /** A body `k1=v1&...&kn=vn` of plain text with distinct keys and a
      non-empty last value yields exactly those pairs. */
  lemma DistinctPairsDecoded(ps: seq<(string, string)>)
    requires |ps| > 0 && PlainPairs(ps) && DistinctKeys(ps) && ps[|ps| - 1].1 != ""
    ensures EscapesComplete(EncodePairs(ps))
    ensures forall i :: 0 <= i < |ps| ==>
      ps[i].0 in DecodeForm(EncodePairs(ps), map[]).post
      && DecodeForm(EncodePairs(ps), map[]).post[ps[i].0] == ps[i].1
    ensures forall k :: k in DecodeForm(EncodePairs(ps), map[]).post ==> LastValue(ps, k).Some?
  {
    DecodeEncodedPairs(ps);
    ExpectedDistinct(ps);
  }

  /** With distinct keys and a non-empty last value, the expected storage
      holds exactly the pairs. */
  lemma ExpectedDistinct(ps: seq<(string, string)>)
    requires |ps| > 0 && DistinctKeys(ps) && ps[|ps| - 1].1 != ""
    ensures forall i :: 0 <= i < |ps| ==>
      ps[i].0 in ExpectedPairs(map[], ps) && ExpectedPairs(map[], ps)[ps[i].0] == ps[i].1
    ensures forall k :: k in ExpectedPairs(map[], ps) ==> LastValue(ps, k).Some?
  {
    var n := |ps|;
    var front := ps[..n - 1];
    var last := ps[n - 1];
    assert DistinctKeys(front);
    LastValueAbsent(front, last.0);
    StoreAllLookup(map[], front, last.0);
    var post := ExpectedPairs(map[], ps);
    assert post == StoreAll(map[], front)[last.0 := last.1];
    forall i | 0 <= i < n
      ensures ps[i].0 in post && post[ps[i].0] == ps[i].1
    {
      if i < n - 1 {
        assert front[i] == ps[i];
        LastValueDistinct(front, i);
        StoreAllLookup(map[], front, ps[i].0);
      }
    }
    forall k | k in post ensures LastValue(ps, k).Some? {
      if k != last.0 {
        StoreAllLookup(map[], front, k);
        LastValueOfPrefix(ps, k);
      } else {
        LastValueDistinct(ps, n - 1);
      }
    }
  }

  lemma {:induction false} LastValueOfPrefix(ps: seq<(string, string)>, k: string)
    requires |ps| > 0
    ensures LastValue(ps[..|ps| - 1], k).Some? ==> LastValue(ps, k).Some?
    decreases |ps|
  {
    if |ps| > 1 {
      assert ps[..|ps| - 1][1..] == ps[1..][..|ps[1..]| - 1];
      LastValueOfPrefix(ps[1..], k);
    }
  }

  /** A trailing pair whose key an earlier pair already stored is dropped:
      the earlier value stays. */
  lemma TrailingDuplicateIgnored(ps: seq<(string, string)>, i: nat)
    requires |ps| > 1 && PlainPairs(ps) && i < |ps| - 1 && ps[i].0 == ps[|ps| - 1].0
    ensures EscapesComplete(EncodePairs(ps))
    ensures DecodeForm(EncodePairs(ps), map[]).post == StoreAll(map[], ps[..|ps| - 1])
  {
    DecodeEncodedPairs(ps);
    var front := ps[..|ps| - 1];
    assert front[i] == ps[i];
    KeyStored(front, i);
  }

  lemma {:induction false} KeyStored(ps: seq<(string, string)>, i: nat)
    requires i < |ps|
    ensures LastValue(ps, ps[i].0).Some? && ps[i].0 in StoreAll(map[], ps)
    decreases |ps|
  {
    if i > 0 {
      KeyStored(ps[1..], i - 1);
    }
    StoreAllLookup(map[], ps, ps[i].0);
  }

  /** Plain pairs: `a=1&b=2` stores both pairs. */
  lemma FormExamplePlain()
    ensures DecodeForm("a=1&b=2", map[]).post == map["a" := "1", "b" := "2"]
  {
    var ps := [("a", "1"), ("b", "2")];
    assert EncodePairs(ps) == "a=1&b=2";
    DecodeEncodedPairs(ps);
    assert ps[..1] == [("a", "1")];
    assert StoreAll(map[], ps[..1]) == map["a" := "1"];
  }

  /** An empty key: `=x&` stores `x` under the empty name, and `GetPost`
      hands it back for the key `""`. */
  lemma FormExampleEmptyKey(req: Request)
    ensures EscapesComplete("=x&")
    ensures DecodeForm("=x&", map[]).post == map["" := "x"]
    ensures GetPost(req.(post := DecodeForm("=x&", map[]).post), "") == "x"
  {
    EmptyKeySteps("=x&");
  }

  /** The steps of the empty-key example: `=` sets the empty key, `&`
      stores `x`, and the end finds no pending token. */
  lemma EmptyKeySteps(b: string)
    requires b == "=x&"
    ensures EscapesComplete(b)
    ensures DecodeForm(b, map[]).post == map["" := "x"]
  {
    PlainEscapes(b, 0);
    assert b[0..] == b;
    DecodeAtEquals(b, 0, 0, "", map[]);
    assert b[0..0] == "";
    assert DecodeFrom(b, 1, 1, "", map[]) == DecodeFrom(b, 2, 1, "", map[]) by {
      assert b[1] == 'x';
      assert b[1..][1..] == b[2..];
    }
    DecodeAtAmpersand(b, 2, 1, "", map[]);
    assert b[1..2] == "x";
    DecodeAtEnd(b, 3, "", map["" := "x"]);
  }

  /** What a handler reads back with `GetPost` from a form body of plain
      pairs with distinct keys and a non-empty last value: each pair's value
      under its key, and the empty string for any key not written. */
  lemma GetPostOfEncoded(req: Request, ps: seq<(string, string)>, key: string)
    requires |ps| > 0 && PlainPairs(ps) && DistinctKeys(ps) && ps[|ps| - 1].1 != ""
    ensures EscapesComplete(EncodePairs(ps))
    ensures var r := req.(post := DecodeForm(EncodePairs(ps), map[]).post);
      && (forall i :: 0 <= i < |ps| ==> GetPost(r, ps[i].0) == ps[i].1)
      && (LastValue(ps, key).None? ==> GetPost(r, key) == "")
  {
    DistinctPairsDecoded(ps);
  }

  /** An escape as written: `%20` leaves `%`, octet 132 and `8` in the value. */
  lemma FormExampleEscape()
    ensures EscapesComplete("b=%20")
    ensures DecodeForm("b=%20", map[]).post == map["b" := "%" + [132 as char] + "8"]
  {
    var b := "b=%20";
    var b' := "b=%" + [132 as char] + "8";
    EscapeExampleDigits(b, b');
    EscapeExampleKey(b);
  }

  // The steps of the example take the body as a parameter, so that each
  // unfolds the decoder only as far as it needs.

  /** The escape at index 2 rewrites indices 3 and 4; the pair is stored at the end. */
  lemma EscapeExampleDigits(b: string, b': string)
    requires b == "b=%20" && b' == "b=%" + [132 as char] + "8"
    ensures EscapesComplete(b[2..])
    ensures DecodeFrom(b, 2, 2, "b", map[]).post == map["b" := "%" + [132 as char] + "8"]
  {
    var d := EscapeDigits('2', '0');
    assert d == [132 as char, '8'];
    assert b' == b[3 := d[0]][4 := d[1]];
    assert b[2..][3..] == [];
    assert DecodeFrom(b, 2, 2, "b", map[]) == DecodeFrom(b', 5, 2, "b", map[]);
    DecodeAtEnd(b', 2, "b", map[]);
    assert b' == "b=" + ("%" + [132 as char] + "8");
    assert b'[2..] == "%" + [132 as char] + "8";
  }

  /** The key `b` is read first. */
  lemma EscapeExampleKey(b: string)
    requires b == "b=%20" && EscapesComplete(b[2..])
    ensures EscapesComplete(b)
    ensures DecodeForm(b, map[]) == DecodeFrom(b, 2, 2, "b", map[])
  {
    assert b[0..1] == "b" && b[1] == '=';
    KeyStep(b, 0, "b", "", map[]);
    assert b[0..] == b;
  }

  /** A key `k` read from a pair start `i` up to its `=`. */
  lemma KeyStep(b: string, i: nat, k: string, key: string, post: map<string, string>)
    requires PlainText(k) && i + |k| < |b| && b[i..i + |k|] == k && b[i + |k|] == '='
    requires EscapesComplete(b[i + |k| + 1..])
    ensures EscapesComplete(b[i..])
    ensures DecodeFrom(b, i, i, key, post) == DecodeFrom(b, i + |k| + 1, i + |k| + 1, k, post)
  {
    var eq := i + |k|;
    assert b[eq..][1..] == b[eq + 1..];
    DecodeAtEquals(b, eq, i, key, post);
    forall x | i <= x < eq ensures !IsDelimiter(b[x]) {
      assert b[x] == k[x - i];
    }
    SkipPlainAnywhere(b, i, eq, i, key, post);
  }
}
