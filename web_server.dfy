/**
 * The request matching of the web server (web-server/src/bin/main.rs):
 * `match_request` answers a request whose bytes start with the request line
 * `GET / HTTP/1.1` with the hello page and anything else with the 404 page.
 * The two pages, which the server reads from files, are parameters, and so
 * are the bytes a connection delivers.
 *
 * Beside the server's own decision the module holds the message formats it
 * speaks, after sections 3 and 4 of RFC 9112 (HTTP/1.1): a parser for a
 * request line and a formatter and parser for a response without header
 * fields. The lemmas relate `MatchRequest` to them.
 */
module WebServer {
  import opened Wrappers
  import opened Slices

  newtype byte = x: int | 0 <= x < 256

  /** The bytes of a text whose characters are all ASCII, one byte per character. */
  function Ascii(s: string): (r: seq<byte>)
    requires forall i :: 0 <= i < |s| ==> s[i] as int < 128
    ensures |r| == |s|
    ensures forall i :: 0 <= i < |s| ==> r[i] as int == s[i] as int
  {
    seq(|s|, i requires 0 <= i < |s| => s[i] as int as byte)
  }

  const SP: byte := 32
  const CR: byte := 13
  const LF: byte := 10
  const CrLf: seq<byte> := [CR, LF]

  /** The size of the buffer `handle_connection` reads a request into. */
  const BufferSize := 512

  /** The one request line the server answers with its hello page. */
  const ValidRequest := Ascii("GET / HTTP/1.1\r\n")

  /** The response head for the hello page (note the space after `OK`). */
  const OkHead := "HTTP/1.1 200 OK \r\n\r\n"

  /** The response head for every other request. */
  const NotFoundHead := "HTTP/1.1 404 NOT FOUND\r\n\r\n"

  // ---------------------------------------------------------------------
  // Request lines (section 3 of RFC 9112)
  // ---------------------------------------------------------------------

  /** `method SP request-target SP HTTP-version`, as bytes. */
  datatype RequestLine = RequestLine(methodToken: seq<byte>, target: seq<byte>, version: seq<byte>)

  /** A request line the format can carry: no part holds a space or a CR, and method and target are not empty. */
  predicate WellFormedRequestLine(l: RequestLine) {
    && l.methodToken != [] && l.target != []
    && SP !in l.methodToken && SP !in l.target && SP !in l.version
    && CR !in l.methodToken && CR !in l.target && CR !in l.version
  }

  /** A request line as it is sent: its three parts separated by spaces, then CRLF. */
  function RequestLineBytes(l: RequestLine): seq<byte> {
    l.methodToken + [SP] + l.target + [SP] + l.version + CrLf
  }

  /** The request line a client sends to fetch `/` over HTTP/1.1. */
  const RootRequest := RequestLine(Ascii("GET"), Ascii("/"), Ascii("HTTP/1.1"))

  /**
   * Reads the request line at the start of `buffer`: everything up to the
   * first CRLF, split at its first two spaces. A line holding a bare CR, an
   * empty method or target, or a third space is refused; tokens are not
   * checked beyond that.
   */
  function ParseRequestLine(buffer: seq<byte>): (r: Option<RequestLine>)
    ensures r.Some? ==> WellFormedRequestLine(r.value) && StartsWith(buffer, RequestLineBytes(r.value))
  {
    match IndexOf(buffer, CrLf)
    case None => None
    case Some(k) =>
      var line := buffer[..k];
      match IndexOf(line, [SP])
      case None => None
      case Some(i) =>
        var rest := line[i + 1..];
        match IndexOf(rest, [SP])
        case None => None
        case Some(j) =>
          var l := RequestLine(line[..i], rest[..j], rest[j + 1..]);
          if CR in line || l.methodToken == [] || l.target == [] || SP in l.version then None
          else
            FirstOfSingle(line, SP, i);
            FirstOfSingle(rest, SP, j);
            assert buffer[..k + 2] == line + CrLf by {
              assert buffer[k..k + 2] == CrLf;
            }
            RequestLineParts(buffer, line, i, j);
            Some(l)
  }

  /** A line split at the first space of it and at the first space after that. */
  lemma RequestLineParts(buffer: seq<byte>, line: seq<byte>, i: nat, j: nat)
    requires StartsWith(buffer, line + CrLf)
    requires i < |line| && line[i] == SP && SP !in line[..i]
    requires j < |line[i + 1..]| && line[i + 1..][j] == SP && SP !in line[i + 1..][..j]
    ensures var rest := line[i + 1..];
      var l := RequestLine(line[..i], rest[..j], rest[j + 1..]);
      StartsWith(buffer, RequestLineBytes(l))
  {
    var rest := line[i + 1..];
    var l := RequestLine(line[..i], rest[..j], rest[j + 1..]);
    assert rest == l.target + [SP] + l.version;
    assert line == l.methodToken + [SP] + rest;
  }

  /** Every well-formed request line at the start of a buffer is read back as it was sent. */
  lemma RequestLineRoundTrip(l: RequestLine, rest: seq<byte>)
    requires WellFormedRequestLine(l)
    ensures ParseRequestLine(RequestLineBytes(l) + rest) == Some(l)
  {
    var buffer := RequestLineBytes(l) + rest;
    var after := l.target + [SP] + l.version;
    var line := l.methodToken + [SP] + after;
    var k := |line|;
    assert buffer == line + CrLf + rest;
    assert CR !in line;
    assert buffer[..k] == line;
    assert buffer[k..k + 2] == CrLf;
    FirstOccurrence(buffer, CrLf, k);
    LineSplits(l);
  }

  /** The two spaces of a well-formed request line are the first ones of their parts. */
  lemma LineSplits(l: RequestLine)
    requires WellFormedRequestLine(l)
    ensures var after := l.target + [SP] + l.version; var line := l.methodToken + [SP] + after;
      && IndexOf(line, [SP]) == Some(|l.methodToken|) && line[|l.methodToken| + 1..] == after
      && IndexOf(after, [SP]) == Some(|l.target|)
      && line[..|l.methodToken|] == l.methodToken
      && after[..|l.target|] == l.target && after[|l.target| + 1..] == l.version
  {
    var after := l.target + [SP] + l.version;
    var line := l.methodToken + [SP] + after;
    var i := |l.methodToken|;
    assert line[..i] == l.methodToken;
    assert line[i..i + 1] == [SP];
    FirstOccurrence(line, [SP], i);
    var j := |l.target|;
    assert after[..j] == l.target;
    assert after[j..j + 1] == [SP];
    FirstOccurrence(after, [SP], j);
  }

  /** The bytes of `RootRequest`, sent as a request line, are exactly `ValidRequest`. */
  lemma RootRequestBytes()
    ensures WellFormedRequestLine(RootRequest)
    ensures RequestLineBytes(RootRequest) == ValidRequest
  {
  }

  // ---------------------------------------------------------------------
  // Responses (section 4 of RFC 9112), without header fields
  // ---------------------------------------------------------------------

  /** A status line and a body: `HTTP-version SP status-code SP reason-phrase`. */
  datatype Response = Response(version: string, status: nat, reason: string, body: string)

  predicate IsDigit(c: char) {
    '0' <= c <= '9'
  }

  /** `"HTTP/" DIGIT "." DIGIT` */
  predicate IsHttpVersion(v: string) {
    |v| == 8 && v[..5] == "HTTP/" && IsDigit(v[5]) && v[6] == '.' && IsDigit(v[7])
  }

  /** A response the format can carry: a valid version, a three-digit code and a one-line reason. */
  predicate WellFormedResponse(resp: Response) {
    IsHttpVersion(resp.version) && resp.status < 1000 && '\r' !in resp.reason && '\n' !in resp.reason
  }

  function DigitChar(d: nat): (c: char)
    requires d < 10
    ensures IsDigit(c)
  {
    ('0' as int + d) as char
  }

  function DigitValue(c: char): (d: nat)
    requires IsDigit(c)
    ensures d < 10
  {
    c as int - '0' as int
  }

  /** A status code as three decimal digits, with leading zeros. */
  function StatusDigits(code: nat): (r: string)
    requires code < 1000
    ensures |r| == 3 && IsDigit(r[0]) && IsDigit(r[1]) && IsDigit(r[2])
  {
    [DigitChar(code / 100), DigitChar(code % 100 / 10), DigitChar(code % 10)]
  }

  /** The value of three decimal digits. */
  function StatusValue(digits: string): (code: nat)
    requires |digits| == 3 && IsDigit(digits[0]) && IsDigit(digits[1]) && IsDigit(digits[2])
    ensures code < 1000
  {
    100 * DigitValue(digits[0]) + 10 * DigitValue(digits[1]) + DigitValue(digits[2])
  }

  lemma StatusDigitsRoundTrip(code: nat)
    requires code < 1000
    ensures StatusValue(StatusDigits(code)) == code
  {
  }

  lemma StatusValueRoundTrip(digits: string)
    requires |digits| == 3 && IsDigit(digits[0]) && IsDigit(digits[1]) && IsDigit(digits[2])
    ensures StatusDigits(StatusValue(digits)) == digits
  {
    var a, b, c := DigitValue(digits[0]), DigitValue(digits[1]), DigitValue(digits[2]);
    var v := 100 * a + 10 * b + c;
    assert v / 100 == a && v % 100 / 10 == b && v % 10 == c;
    assert DigitChar(a) == digits[0] && DigitChar(b) == digits[1] && DigitChar(c) == digits[2];
  }

  /** The status line of a response, without its CRLF. */
  function StatusLine(resp: Response): string
    requires WellFormedResponse(resp)
  {
    resp.version + " " + StatusDigits(resp.status) + " " + resp.reason
  }

  /** A response as sent: status line, CRLF, the empty line that ends the (absent) header fields, body. */
  function FormatResponse(resp: Response): string
    requires WellFormedResponse(resp)
  {
    StatusLine(resp) + "\r\n\r\n" + resp.body
  }

  /** Reads a status line: version, space, three digits, space, reason. */
  function ParseStatusLine(line: string): (r: Option<(string, nat, string)>)
    ensures r.Some? ==> var resp := Response(r.value.0, r.value.1, r.value.2, "");
      WellFormedResponse(resp) && line == StatusLine(resp)
  {
    if |line| >= 13 && IsHttpVersion(line[..8]) && line[8] == ' '
      && IsDigit(line[9]) && IsDigit(line[10]) && IsDigit(line[11]) && line[12] == ' '
      && '\r' !in line[13..] && '\n' !in line[13..]
    then
      StatusValueRoundTrip(line[9..12]);
      assert line == line[..8] + " " + line[9..12] + " " + line[13..];
      Some((line[..8], StatusValue(line[9..12]), line[13..]))
    else None
  }

  /**
   * Reads a response: the status line ends at the first CRLF, a second CRLF
   * must follow at once (a response with header fields is refused), and the
   * rest is the body.
   */
  function ParseResponse(s: string): (r: Option<Response>)
    ensures r.Some? ==> WellFormedResponse(r.value) && s == FormatResponse(r.value)
  {
    match IndexOf(s, "\r\n")
    case None => None
    case Some(k) =>
      if !StartsWith(s[k + 2..], "\r\n") then None
      else
        match ParseStatusLine(s[..k])
        case None => None
        case Some(st) =>
          var resp := Response(st.0, st.1, st.2, s[k + 4..]);
          assert s == s[..k] + "\r\n\r\n" + s[k + 4..] by {
            assert s[k..k + 2] == "\r\n";
            assert s[k + 2..][..2] == "\r\n";
          }
          Some(resp)
  }

  /** A status line holds no CR: the version, digits and spaces are not CR, and the reason has none. */
  lemma StatusLineHasNoCr(resp: Response)
    requires WellFormedResponse(resp)
    ensures '\r' !in StatusLine(resp)
  {
    var v := resp.version;
    assert v == v[..5] + [v[5], v[6], v[7]];
    assert '\r' !in v;
  }

  /** The first CRLF of a response ends its status line. */
  lemma StatusLineEndsAtFirstCrLf(line: string, body: string)
    requires '\r' !in line
    ensures var s := line + "\r\n\r\n" + body;
      IndexOf(s, "\r\n") == Some(|line|) && s[..|line|] == line
      && StartsWith(s[|line| + 2..], "\r\n") && s[|line| + 4..] == body
  {
    var s := line + "\r\n\r\n" + body;
    var k := |line|;
    assert s[..k] == line;
    assert s[k..k + 2] == "\r\n";
    FirstOccurrence(s, "\r\n", k);
    assert s[k + 2..][..2] == "\r\n";
  }

  /** Every well-formed response is read back as it was sent, whatever its body holds. */
  lemma ResponseRoundTrip(resp: Response)
    requires WellFormedResponse(resp)
    ensures ParseResponse(FormatResponse(resp)) == Some(resp)
  {
    var line := StatusLine(resp);
    StatusLineHasNoCr(resp);
    StatusLineEndsAtFirstCrLf(line, resp.body);
    assert line[..8] == resp.version;
    assert line[9..12] == StatusDigits(resp.status);
    assert line[13..] == resp.reason;
    StatusDigitsRoundTrip(resp.status);
  }

  /** The blank line (`"\r\n\r\n"`) first occurs right after the status line. */
  lemma BlankLineEndsStatusLine(line: string, body: string)
    requires '\r' !in line
    ensures var s := line + "\r\n\r\n" + body;
      IndexOf(s, "\r\n\r\n") == Some(|line|) && s[|line| + 4..] == body
  {
    var s := line + "\r\n\r\n" + body;
    var k := |line|;
    assert s[..k] == line;
    assert s[k..k + 4] == "\r\n\r\n";
    FirstOccurrence(s, "\r\n\r\n", k);
  }

  // ---------------------------------------------------------------------
  // The server's decision
  // ---------------------------------------------------------------------

  const Http11 := "HTTP/1.1"

  /** What the hello page is sent as. */
  function HelloResponse(helloPage: string): Response {
    Response(Http11, 200, "OK ", helloPage)
  }

  /** What the 404 page is sent as. */
  function NotFoundResponse(notFoundPage: string): Response {
    Response(Http11, 404, "NOT FOUND", notFoundPage)
  }

  /** The status line of the hello page. */
  lemma HelloStatusLine(helloPage: string)
    ensures WellFormedResponse(HelloResponse(helloPage))
    ensures StatusLine(HelloResponse(helloPage)) == "HTTP/1.1 200 OK "
  {
    assert StatusDigits(200) == "200";
  }

  /** The status line of the 404 page. */
  lemma NotFoundStatusLine(notFoundPage: string)
    ensures WellFormedResponse(NotFoundResponse(notFoundPage))
    ensures StatusLine(NotFoundResponse(notFoundPage)) == "HTTP/1.1 404 NOT FOUND"
  {
    assert IsHttpVersion(Http11);
    assert '\r' !in "NOT FOUND" && '\n' !in "NOT FOUND";
    assert StatusDigits(404) == "404";
  }

  /** The hello head is the format of a well-formed status line. */
  lemma HelloIsFormatted(helloPage: string)
    ensures WellFormedResponse(HelloResponse(helloPage))
    ensures OkHead + helloPage == FormatResponse(HelloResponse(helloPage))
  {
    HelloStatusLine(helloPage);
    assert OkHead == "HTTP/1.1 200 OK " + "\r\n\r\n";
  }

  /** The 404 head is the format of a well-formed status line. */
  lemma NotFoundIsFormatted(notFoundPage: string)
    ensures WellFormedResponse(NotFoundResponse(notFoundPage))
    ensures NotFoundHead + notFoundPage == FormatResponse(NotFoundResponse(notFoundPage))
  {
    NotFoundStatusLine(notFoundPage);
    assert NotFoundHead == "HTTP/1.1 404 NOT FOUND" + "\r\n\r\n";
  }

  /**
   * `match_request`: the hello page when the buffer starts with the bytes of
   * `GET / HTTP/1.1` and CRLF, the 404 page otherwise. Read as HTTP, the
   * answer is exactly one of the two responses and carries the chosen page
   * unmodified as its body.
   */
  function MatchRequest(buffer: seq<byte>, helloPage: string, notFoundPage: string): (r: string)
    ensures ParseResponse(r)
      == Some(if StartsWith(buffer, ValidRequest) then HelloResponse(helloPage) else NotFoundResponse(notFoundPage))
  {
    HelloIsFormatted(helloPage);
    NotFoundIsFormatted(notFoundPage);
    ResponseRoundTrip(HelloResponse(helloPage));
    ResponseRoundTrip(NotFoundResponse(notFoundPage));
    if StartsWith(buffer, ValidRequest) then
      OkHead + helloPage
    else
      NotFoundHead + notFoundPage
  }

  /** The hello page is served exactly to a request whose request line is `GET / HTTP/1.1`. */
  lemma ServesHelloExactlyForRoot(buffer: seq<byte>)
    ensures StartsWith(buffer, ValidRequest) <==> ParseRequestLine(buffer) == Some(RootRequest)
  {
    RootRequestBytes();
    if StartsWith(buffer, ValidRequest) {
      assert buffer == ValidRequest + buffer[|ValidRequest|..];
      RequestLineRoundTrip(RootRequest, buffer[|ValidRequest|..]);
    }
  }

  /** Any other well-formed request line, whatever follows it, is answered with the 404 page. */
  lemma OtherRequestsNotFound(l: RequestLine, rest: seq<byte>, helloPage: string, notFoundPage: string)
    requires WellFormedRequestLine(l) && l != RootRequest
    ensures ParseResponse(MatchRequest(RequestLineBytes(l) + rest, helloPage, notFoundPage))
      == Some(NotFoundResponse(notFoundPage))
  {
    RequestLineRoundTrip(l, rest);
    ServesHelloExactlyForRoot(RequestLineBytes(l) + rest);
  }

  /** The answer depends on the first `|ValidRequest|` (16) bytes of the buffer only. */
  lemma DecidedByPrefix(a: seq<byte>, b: seq<byte>, helloPage: string, notFoundPage: string)
    requires |a| >= |ValidRequest| && |b| >= |ValidRequest|
    requires a[..|ValidRequest|] == b[..|ValidRequest|]
    ensures MatchRequest(a, helloPage, notFoundPage) == MatchRequest(b, helloPage, notFoundPage)
  {
  }

  /** Bytes after the first 16 do not change the answer. */
  lemma TrailingBytesIgnored(buffer: seq<byte>, extra: seq<byte>, helloPage: string, notFoundPage: string)
    requires |buffer| >= |ValidRequest|
    ensures MatchRequest(buffer + extra, helloPage, notFoundPage) == MatchRequest(buffer, helloPage, notFoundPage)
  {
    assert (buffer + extra)[..|ValidRequest|] == buffer[..|ValidRequest|];
  }

  /** A buffer shorter than the request line gets the 404 page. */
  lemma ShortBufferNotFound(buffer: seq<byte>, helloPage: string, notFoundPage: string)
    requires |buffer| < |ValidRequest|
    ensures ParseResponse(MatchRequest(buffer, helloPage, notFoundPage)) == Some(NotFoundResponse(notFoundPage))
  {
  }

  /** The body is what follows the first blank line (`"\r\n\r\n"`) of the response. */
  lemma BodyFollowsFirstBlankLine(buffer: seq<byte>, helloPage: string, notFoundPage: string)
    ensures var r := MatchRequest(buffer, helloPage, notFoundPage);
      var page := if StartsWith(buffer, ValidRequest) then helloPage else notFoundPage;
      exists k :: IndexOf(r, "\r\n\r\n") == Some(k) && r[k + 4..] == page
  {
    var resp := if StartsWith(buffer, ValidRequest) then HelloResponse(helloPage) else NotFoundResponse(notFoundPage);
    HelloIsFormatted(helloPage);
    NotFoundIsFormatted(notFoundPage);
    StatusLineHasNoCr(resp);
    BlankLineEndsStatusLine(StatusLine(resp), resp.body);
  }

  /**
   * The buffer `handle_connection` hands to `match_request`: 512 zero bytes
   * over which one read has copied the bytes it `received`.
   */
  function ReceivedBuffer(received: seq<byte>): (r: seq<byte>)
    requires |received| <= BufferSize
    ensures |r| == BufferSize
    ensures r[..|received|] == received
    ensures forall i :: |received| <= i < BufferSize ==> r[i] == 0
  {
    received + seq(BufferSize - |received|, _ => 0)
  }

  /**
   * The zero padding of the buffer neither makes nor breaks a match: the
   * hello page is served exactly when the bytes received start with the
   * request line, even when fewer than 16 bytes arrived.
   */
  lemma PaddingDoesNotDecide(received: seq<byte>, helloPage: string, notFoundPage: string)
    requires |received| <= BufferSize
    ensures StartsWith(ReceivedBuffer(received), ValidRequest) <==> StartsWith(received, ValidRequest)
    ensures ParseResponse(MatchRequest(ReceivedBuffer(received), helloPage, notFoundPage))
      == Some(if StartsWith(received, ValidRequest) then HelloResponse(helloPage) else NotFoundResponse(notFoundPage))
  {
    var buffer := ReceivedBuffer(received);
    var n := |ValidRequest|;
    if StartsWith(received, ValidRequest) {
      assert buffer[..n] == received[..n];
    } else if |received| >= n {
      assert buffer[..n] == received[..n];
    } else {
      assert buffer[|received|] == 0;
      assert ValidRequest[|received|] != 0;
      assert buffer[..n][|received|] == buffer[|received|];
    }
  }
}
