/**
 Serialisation of a response head and body (`HttpClientHandler.WriteResponse`), the
 keep-alive decision taken after it, and a parser that inverts the serialiser.

 The writer's `WriteLineAsync` ends a line with the platform's line terminator, which is a
 parameter (`newline`) here; only the blank line between head and body is spelled out by the
 source as CR LF. Output is modelled as the sequence of characters handed to the writer,
 before text encoding.
 */
module ResponseWriter {
  import opened Wrappers
  import Decimal

  /** The blank line written straight to the base stream (`CrLfBuffer`). */
  const CrLf: string := "\r\n"

  /** The fixed start of every status line. */
  const StatusPrefix: string := "HTTP/1.1 "

  /** One header as enumerated from `response.Headers`: name and value. */
  type Header = (string, string)

  /** A member of the status-code enum: its integer value and its identifier (`ToString()`). */
  datatype StatusCode = StatusCode(value: Decimal.Int32, name: string)

  /** What `WriteBody` does with the writer: it hands over `text` and returns, or it hands over
      `text` and then raises. */
  datatype Body = Complete(text: string) | Interrupted(text: string)

  /** An `IHttpResponse`: status, headers in enumeration order, the close override, and what
      `WriteBody` does. */
  datatype Response = Response(code: StatusCode, headers: seq<Header>, closeConnection: bool, body: Body)

  /** The context's cookie ledger: whether it was touched, and what `ToCookieData()` yields. */
  datatype Cookies = Cookies(touched: bool, data: string)

  function StatusLine(code: StatusCode, newline: string): string {
    StatusPrefix + Decimal.FromInt(code.value) + " " + code.name + newline
  }

  function HeaderLine(h: Header, newline: string): string {
    h.0 + ": " + h.1 + newline
  }

  function HeaderBlock(headers: seq<Header>, newline: string): string
    decreases |headers|
  {
    if headers == [] then "" else HeaderLine(headers[0], newline) + HeaderBlock(headers[1..], newline)
  }

  function CookieFragment(cookies: Cookies): string {
    if cookies.touched then cookies.data else ""
  }

  /** Everything `WriteResponse` hands to the stream, in the order it does so; when `WriteBody`
      raises, this is what was handed over before the exception left `WriteResponse`. */
  function WriteResponse(response: Response, cookies: Cookies, newline: string): string {
    StatusLine(response.code, newline) + HeaderBlock(response.headers, newline)
      + CookieFragment(cookies) + CrLf + response.body.text
  }

  /** The close test after writing: a non-keep-alive request or the response's override. */
  predicate ShouldClose(keepAlive: bool, response: Response) {
    !keepAlive || response.closeConnection
  }

  // ---------------------------------------------------------------------------------------
  // A reader for what the writer produces.

  /** The two line terminators a .NET platform uses for `WriteLineAsync`. */
  predicate PlatformNewline(newline: string) {
    newline == "\r\n" || newline == "\n"
  }

  /** Text holding no line-break character. */
  predicate Clean(s: string) {
    forall i :: 0 <= i < |s| ==> s[i] != '\r' && s[i] != '\n'
  }

  /** A header the reader can recover: name and value without line breaks, name without ':'. */
  predicate ValidHeader(h: Header) {
    && Clean(h.0) && Clean(h.1)
    && forall i :: 0 <= i < |h.0| ==> h.0[i] != ':'
  }

  predicate ValidHeaders(headers: seq<Header>) {
    forall i :: 0 <= i < |headers| ==> ValidHeader(headers[i])
  }

  /** A response whose head the reader can recover. */
  predicate ValidResponse(response: Response) {
    Clean(response.code.name) && ValidHeaders(response.headers)
  }

  /** What a reader recovers from the wire: code, status name, header list, body. */
  datatype Message = Message(code: int, name: string, headers: seq<Header>, body: string)

  /** Position of the first occurrence of `pattern` in `s` at or after `from`. */
  function Find(s: string, pattern: string, from: nat): (r: Option<nat>)
    requires from <= |s|
    ensures r.Some? ==> from <= r.value && r.value + |pattern| <= |s|
    decreases |s| - from
  {
    if from + |pattern| > |s| then None
    else if s[from..from + |pattern|] == pattern then Some(from)
    else Find(s, pattern, from + 1)
  }

  /** Splits `s` at the first occurrence of `separator`, dropping the separator. */
  function SplitOnce(s: string, separator: string): (r: Option<(string, string)>)
    ensures r.Some? ==> |r.value.1| + |separator| <= |s|
  {
    match Find(s, separator, 0)
    case None => None
    case Some(i) => Some((s[..i], s[i + |separator|..]))
  }

  function ParseStatusLine(line: string): Option<(int, string)> {
    if |line| < |StatusPrefix| || line[..|StatusPrefix|] != StatusPrefix then None
    else
      match SplitOnce(line[|StatusPrefix|..], " ")
      case None => None
      case Some((digits, name)) =>
        match Decimal.ParseInt(digits)
        case None => None
        case Some(code) => Some((code, name))
  }

  /** Reads header lines up to the blank CR LF line; returns the headers and what follows. */
  function ParseHeaders(s: string, newline: string): Option<(seq<Header>, string)>
    requires newline != ""
    decreases |s|
  {
    if |s| >= |CrLf| && s[..|CrLf|] == CrLf then Some(([], s[|CrLf|..]))
    else
      match SplitOnce(s, newline)
      case None => None
      case Some((line, rest)) =>
        match SplitOnce(line, ": ")
        case None => None
        case Some((name, value)) =>
          match ParseHeaders(rest, newline)
          case None => None
          case Some((headers, body)) => Some(([(name, value)] + headers, body))
  }

  function ParseResponse(wire: string, newline: string): Option<Message>
    requires newline != ""
  {
    match SplitOnce(wire, newline)
    case None => None
    case Some((statusLine, rest)) =>
      match ParseStatusLine(statusLine)
      case None => None
      case Some((code, name)) =>
        match ParseHeaders(rest, newline)
        case None => None
        case Some((headers, body)) => Some(Message(code, name, headers, body))
  }

  // ---------------------------------------------------------------------------------------
  // Lemmas

  lemma CleanAppend(a: string, b: string)
    requires Clean(a) && Clean(b)
    ensures Clean(a + b)
  {

  }

  lemma CleanAvoidsNewline(a: string, newline: string)
    requires Clean(a) && PlatformNewline(newline)
    ensures forall i :: 0 <= i < |a| ==> a[i] != newline[0]
  {
  }

  lemma Associate(a: string, b: string, c: string)
    ensures (a + b) + c == a + (b + c)
  {
  }

  /** In `a + pattern + b`, the first occurrence of `pattern` is right after `a` when no
      character of `a` starts the pattern. */
  lemma {:induction false} FindAfter(a: string, pattern: string, b: string, from: nat)
    requires pattern != []
    requires from <= |a|
    requires forall i :: 0 <= i < |a| ==> a[i] != pattern[0]
    ensures Find(a + pattern + b, pattern, from) == Some(|a|)
    decreases |a| - from
  {
    var s := a + pattern + b;
    assert s[|a|..|a| + |pattern|] == pattern;
    if from < |a| {
      assert s[from..from + |pattern|][0] == a[from];
      FindAfter(a, pattern, b, from + 1);
    }
  }

  lemma SplitOnceAfter(a: string, separator: string, b: string)
    requires separator != []
    requires forall i :: 0 <= i < |a| ==> a[i] != separator[0]
    ensures SplitOnce(a + separator + b, separator) == Some((a, b))
  {
    FindAfter(a, separator, b, 0);
    var s := a + separator + b;
    assert s[..|a|] == a;
    assert s[|a| + |separator|..] == b;
  }

  /** The header block of a concatenation is the concatenation of the header blocks. */
  lemma {:induction false} HeaderBlockAppend(hs: seq<Header>, cs: seq<Header>, newline: string)
    ensures HeaderBlock(hs + cs, newline) == HeaderBlock(hs, newline) + HeaderBlock(cs, newline)
    decreases |hs|
  {
    if hs != [] {
      assert (hs + cs)[1..] == hs[1..] + cs;
      HeaderBlockAppend(hs[1..], cs, newline);
    } else {
      assert hs + cs == cs;
    }
  }

  /** Reading one header line in front of `rest` yields that header in front of what `rest` yields. */
  lemma ParseHeaderLine(h: Header, rest: string, newline: string)
    requires PlatformNewline(newline)
    requires ValidHeader(h)
    ensures ParseHeaders(HeaderLine(h, newline) + rest, newline)
      == match ParseHeaders(rest, newline)
         case None => None
         case Some((headers, body)) => Some(([h] + headers, body))
  {
    var line := h.0 + ": " + h.1;
    var s := HeaderLine(h, newline) + rest;
    assert s == line + newline + rest;
    assert s[0] == line[0] != '\r';
    CleanAppend(h.0, ": ");
    CleanAppend(h.0 + ": ", h.1);
    CleanAvoidsNewline(line, newline);
    SplitOnceAfter(line, newline, rest);
    SplitOnceAfter(h.0, ": ", h.1);
  }

  /** Reading a header block followed by the blank line gives back every header, once, in
      order, and leaves exactly what came after the blank line. */
  lemma {:induction false} ParseHeadersRoundTrip(headers: seq<Header>, newline: string, body: string)
    requires PlatformNewline(newline)
    requires ValidHeaders(headers)
    ensures ParseHeaders(HeaderBlock(headers, newline) + CrLf + body, newline) == Some((headers, body))
    decreases |headers|
  {
    var s := HeaderBlock(headers, newline) + CrLf + body;
    if headers == [] {
      assert s == CrLf + body;
      assert s[|CrLf|..] == body;
    } else {
      var rest := HeaderBlock(headers[1..], newline) + CrLf + body;
      assert s == HeaderLine(headers[0], newline) + rest;
      assert ValidHeaders(headers[1..]) by {
        forall i | 0 <= i < |headers[1..]| ensures ValidHeader(headers[1..][i]) {
          assert headers[1..][i] == headers[i + 1];
        }
      }
      ParseHeadersRoundTrip(headers[1..], newline, body);
      ParseHeaderLine(headers[0], rest, newline);
      assert [headers[0]] + headers[1..] == headers;
    }
  }

  /** The status line without its terminator is clean and reads back as code and name. */
  lemma ParseStatusLineRoundTrip(code: StatusCode)
    requires Clean(code.name)
    ensures Clean(StatusPrefix + Decimal.FromInt(code.value) + " " + code.name)
    ensures ParseStatusLine(StatusPrefix + Decimal.FromInt(code.value) + " " + code.name)
      == Some((code.value as int, code.name))
  {
    var digits := Decimal.FromInt(code.value);
    var line := StatusPrefix + digits + " " + code.name;
    assert Clean(digits + " ");
    CleanAppend(StatusPrefix, digits + " ");
    CleanAppend(StatusPrefix + (digits + " "), code.name);
    assert StatusPrefix + (digits + " ") + code.name == line;
    assert line[..|StatusPrefix|] == StatusPrefix;
    assert line[|StatusPrefix|..] == digits + " " + code.name;
    SplitOnceAfter(digits, " ", code.name);
    Decimal.IntRoundTrip(code.value);
  }

  /**
   The serialiser's round trip: reading back what `WriteResponse` wrote recovers the status
   code, the status name, every header exactly once in enumeration order, and the body. When
   the cookie ledger is touched its fragment sits after the headers and before the blank
   line, so a fragment made of header lines `cookieLines` is read as headers following the
   response's own; when untouched, nothing is added.
   */
  lemma WriteResponseRoundTrip(response: Response, cookies: Cookies, cookieLines: seq<Header>, newline: string)
    requires PlatformNewline(newline)
    requires ValidResponse(response)
    requires ValidHeaders(cookieLines)
    requires cookies.touched ==> cookies.data == HeaderBlock(cookieLines, newline)
    ensures ParseResponse(WriteResponse(response, cookies, newline), newline)
      == Some(Message(response.code.value, response.code.name,
                      response.headers + (if cookies.touched then cookieLines else []),
                      response.body.text))
  {
    var code := response.code;
    var extra := if cookies.touched then cookieLines else [];
    var all := response.headers + extra;
    HeaderBlockAppend(response.headers, extra, newline);
    assert CookieFragment(cookies) == HeaderBlock(extra, newline);
    assert ValidHeaders(all) by {
      forall i | 0 <= i < |all| ensures ValidHeader(all[i]) {
        if i >= |response.headers| {
          assert all[i] == cookieLines[i - |response.headers|];
        }
      }
    }
    var line := StatusPrefix + Decimal.FromInt(code.value) + " " + code.name;
    var rest := HeaderBlock(all, newline) + CrLf + response.body.text;
    var wire := WriteResponse(response, cookies, newline);
    assert wire == line + newline + rest by {
      var sl := StatusLine(code, newline);
      var hb := HeaderBlock(response.headers, newline);
      var cf := CookieFragment(cookies);
      assert sl == line + newline;
      assert hb + cf == HeaderBlock(all, newline);
      Associate(sl, hb, cf);
      Associate(sl, hb + cf, CrLf);
      Associate(sl, hb + cf + CrLf, response.body.text);
    }
    ParseStatusLineRoundTrip(code);
    CleanAvoidsNewline(line, newline);
    SplitOnceAfter(line, newline, rest);
    assert SplitOnce(wire, newline) == Some((line, rest));
    assert ParseStatusLine(line) == Some((code.value as int, code.name));
    ParseHeadersRoundTrip(all, newline, response.body.text);
    assert ParseHeaders(rest, newline) == Some((all, response.body.text));
  }

  /** With no cookie fragment, a response is recovered from its wire form: two valid responses
      with the same wire text agree on code, name, headers and body text. */
  lemma WriteResponseInjective(r1: Response, r2: Response, cookies: Cookies, newline: string)
    requires PlatformNewline(newline)
    requires ValidResponse(r1) && ValidResponse(r2)
    requires !cookies.touched
    requires WriteResponse(r1, cookies, newline) == WriteResponse(r2, cookies, newline)
    ensures r1.code == r2.code && r1.headers == r2.headers && r1.body.text == r2.body.text
  {
    WriteResponseRoundTrip(r1, cookies, [], newline);
    WriteResponseRoundTrip(r2, cookies, [], newline);
    assert r1.headers + [] == r1.headers;
    assert r2.headers + [] == r2.headers;
  }

  /** The cookie fragment is written iff the ledger is touched, between the header block and
      the blank line; nothing else in the output depends on the ledger. */
  lemma CookieFragmentPlacement(response: Response, cookies: Cookies, newline: string)
    ensures var plain := WriteResponse(response, cookies.(touched := false), newline);
      var at := |StatusLine(response.code, newline)| + |HeaderBlock(response.headers, newline)|;
      && at <= |plain|
      && plain[at..] == CrLf + response.body.text
      && WriteResponse(response, cookies, newline)
         == if cookies.touched then plain[..at] + cookies.data + plain[at..] else plain
  {

  }

  lemma ExampleStatusLine()
    ensures StatusLine(StatusCode(200, "OK"), CrLf) == "HTTP/1.1 200 OK\r\n"
  {

  }

  lemma ExampleHeaderBlock()
    ensures HeaderBlock([("Content-Type", "text/plain"), ("X-Foo", "bar")], CrLf)
      == "Content-Type: text/plain\r\n" + "X-Foo: bar\r\n"
  {

  }

  /** The worked example: a 200 response with two headers and body "hi", CR LF lines. */
  lemma PlainTextExample()
    ensures WriteResponse(
              Response(StatusCode(200, "OK"), [("Content-Type", "text/plain"), ("X-Foo", "bar")], false, Complete("hi")),
              Cookies(false, ""), CrLf)
            == "HTTP/1.1 200 OK\r\n" + "Content-Type: text/plain\r\n" + "X-Foo: bar\r\n" + "\r\n" + "hi"
  {
    ExampleStatusLine();
    ExampleHeaderBlock();
  }
}
