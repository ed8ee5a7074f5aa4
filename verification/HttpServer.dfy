/** `HttpServer::handleClient` and `HttpConnection` of src/posix/server.hpp: parses one request out of
    one read and prints the response of its handler. */
module HttpServer {
  import opened Text
  import Form

  const BUFFER_SIZE: nat := 4096

  /** How the handling of one connection ends. */
  datatype Outcome =
    | Dispatched(route: string, payload: string, known: bool)  // a handler ran; `known` if the route has one
    | ReadError
    | EmptyRequest
    | MethodNotFound
    | Crashed      // substr past the end: an exception leaves a noexcept function
    | Panicked     // iop_panic or iop_assert

  // ---------- the request, as a whole text ----------

  /** How many characters before the path are taken for the method and a space.  The names are looked
      for in the whole text, in this order. */
  function MethodSkip(request: string): (skip: Option<nat>)
    ensures skip == None <==> !Contains(request, "POST") && !Contains(request, "GET") && !Contains(request, "OPTIONS")
  {
    if Contains(request, "POST") then Some(5)
    else if Contains(request, "GET") then Some(4)
    else if Contains(request, "OPTIONS") then Some(8)
    else None
  }

  function UpToSpace(s: string): string {
    if Find(s, " ") == NPOS then s else s[..Find(s, " ")]
  }

  /** The loop that drops header lines: the payload, or nothing if a line is cut. */
  function DropLines(s: string): Option<string>
    decreases |s|
  {
    if s == "" then Some("")
    else if Find(s, CRLF) == NPOS then None
    else if Find(s, CRLF) == Find(s, BLANK) then Some(s[Find(s, CRLF) + 4..])
    else DropLines(s[Find(s, CRLF) + 2..])
  }

  function ParseRequest(routes: set<string>, request: string): Outcome {
    match MethodSkip(request)
    case None => MethodNotFound
    case Some(skip) =>
      if |request| < skip then Crashed
      else if Find(request, CRLF) == NPOS then Panicked
      else
        var route := UpToSpace(request[skip..]);
        match DropLines(request[Find(request, CRLF) + 2..])
        case None => Panicked
        case Some(payload) => Dispatched(route, payload, route in routes)
  }

  /** What the line-dropping loop does, without the loop: the payload is what follows the first blank
      line; without a blank line it is empty if the last line is whole, and the loop panics if not. */
  lemma {:induction false} DropLinesExactly(s: string)
    ensures DropLines(s) == if Find(s, BLANK) != NPOS then Some(s[Find(s, BLANK) + 4..])
                            else if s == "" || EndsWith(s, CRLF) then Some("")
                            else None
    decreases |s|
  {
    if Find(s, CRLF) == NPOS {
      NoLineEnd(s);
    } else if Find(s, CRLF) != Find(s, BLANK) {
      hide Find, EndsWith;
      DropLinesExactly(s[Find(s, CRLF) + 2..]);
      BlankKept(s);
      LastLineEnds(s, Find(s, CRLF));
    }
  }

  lemma BlankHasLineEnd(s: string)
    requires Find(s, BLANK) != NPOS
    ensures 0 <= Find(s, CRLF) <= Find(s, BLANK)
  {
    CrlfAt(s, Find(s, BLANK));
  }

  lemma JustLineEnd(s: string)
    requires s == CRLF
    ensures EndsWith(s, CRLF) && Find(s, BLANK) == NPOS
  {
  }

  lemma RightBehindRequestLine(request: string)
    requires Find(request, BLANK) == Find(request, CRLF) >= 0
    ensures var i := Find(request, CRLF);
            DropLines(request[i + 2..]) == Some(request[i + 4..]) <==> request[i + 4..] == ""
  {
    var i := Find(request, CRLF);
    var rest, body := request[i + 2..], request[i + 4..];
    CrlfAt(request, i);
    CrlfAt(request, i + 2);
    DropLinesExactly(rest);
    hide DropLines, FindFrom;
    if body == "" {
      assert rest == CRLF;
      JustLineEnd(rest);
    }
  }

  /** In a request with a blank line, the payload is everything after the first one exactly when a header
      line stands between the request line and the blank line, or nothing follows it.  (Right behind the
      request line, the loop sees only the second half of the blank line and drops it as a line.) */
  lemma PayloadExactly(request: string)
    requires Find(request, BLANK) != NPOS
    ensures Find(request, CRLF) != NPOS
    ensures var i, q := Find(request, CRLF), Find(request, BLANK);
            DropLines(request[i + 2..]) == Some(request[q + 4..]) <==> q != i || request[q + 4..] == ""
  {
    BlankHasLineEnd(request);
    DropLinesExactly(request[Find(request, CRLF) + 2..]);
    hide DropLines, Find, EndsWith;
    if Find(request, BLANK) != Find(request, CRLF) {
      BlankKept(request);
    } else {
      RightBehindRequestLine(request);
    }
  }

  /** A request without header lines: the server panics instead of seeing the payload "x". */
  lemma PayloadLost(routes: set<string>)
    ensures ParseRequest(routes, "GET / HTTP/1.0\r\n\r\nx") == Panicked
  {
    var t, rest := "GET / HTTP/1.0\r\n\r\nx", "\r\nx";
    hide FindFrom, DropLines;
    assert t[0..3] == "GET";
    assert At(t, "GET", 0);
    CrlfAt(t, 14);
    forall j: nat | j < 14 ensures !At(t, CRLF, j) {
      CrlfAt(t, j);
    }
    FindIs(t, CRLF, 14);
    assert t[16..] == rest;
    assert rest[|rest| - 2..][1] == 'x';
    DropLinesExactly(rest);
  }

  /** A text that holds a name has at least its length, and is the name if it has just that. */
  lemma NameAlone(request: string, name: string)
    ensures Contains(request, name) ==> |request| >= |name| && (|request| == |name| ==> request == name)
    ensures request == name ==> Contains(request, name)
  {
    hide FindFrom;
    if request == name {
      assert request[0..|name|] == name;
      assert At(request, name, 0);
    }
  }

  /** None of the names holds another, or a line end. */
  lemma ShortNames()
    ensures !Contains("GET", "POST") && !Contains("OPTIONS", "POST") && !Contains("OPTIONS", "GET")
  {
    hide FindFrom;
    forall j: nat ensures !At("OPTIONS", "POST", j) && !At("OPTIONS", "GET", j) {
      if j + 4 <= 7 {
        assert "OPTIONS"[j..j + 4][0] == "OPTIONS"[j] && "OPTIONS"[j..j + 4][1] == "OPTIONS"[j + 1];
      }
      if j + 3 <= 7 {
        assert "OPTIONS"[j..j + 3][0] == "OPTIONS"[j];
      }
    }
  }

  /** How a request text ends up.  Without one of the three names there is no dispatch, whatever else it holds;
      a text that is no more than one of them is cut too short; any other needs a line end, and behind the
      first one nothing, whole lines or a blank line. */
  lemma OutcomeExactly(routes: set<string>, request: string)
    ensures var r := ParseRequest(routes, request);
            var named := Contains(request, "POST") || Contains(request, "GET") || Contains(request, "OPTIONS");
            var i := Find(request, CRLF);
            (r == MethodNotFound <==> !named)
            && (r == Crashed <==> request in {"POST", "GET", "OPTIONS"})
            && (r.Dispatched? <==>
                named && i != NPOS
                && var rest := request[i + 2..]; (rest == "" || EndsWith(rest, CRLF) || Contains(rest, BLANK)))
            && (r.Dispatched? || r in {MethodNotFound, Crashed, Panicked})
  {
    hide DropLines, UpToSpace, FindFrom, EndsWith;
    NameAlone(request, "POST");
    NameAlone(request, "GET");
    NameAlone(request, "OPTIONS");
    ShortNames();
    if Find(request, CRLF) != NPOS {
      DropLinesExactly(request[Find(request, CRLF) + 2..]);
      CrlfAt(request, Find(request, CRLF));
    }
  }

  // ---------- the connection ----------

  function CodeText(code: nat): Option<string> {
    if code == 200 then Some("OK")
    else if code == 302 then Some("Found")
    else if code == 404 then Some("Not Found")
    else None
  }

  lemma KnownCodes(code: nat)
    ensures CodeText(code).Some? <==> code in {200, 302, 404}
  {
  }

  function LengthLine(contentLength: Option<nat>): string {
    if contentLength.None? then "" else "Content-Length: " + Decimal(contentLength.value) + CRLF
  }

  function StatusLine(code: nat, text: string): string { "HTTP/1.0 " + Decimal(code) + " " + text + CRLF }

  function TypeLine(contentType: string): string {
    "Content-Type: " + contentType + "; charset=ISO-8859-5\r\n"
  }

  /** The response that `send` prints. */
  function ResponseText(code: nat, text: string, contentType: string, headers: string, contentLength: Option<nat>,
                        content: string): string {
    StatusLine(code, text) + TypeLine(contentType) + headers + LengthLine(contentLength) + CRLF + content
  }

  lemma Regroup(a: string, b: string, c: string, d: string)
    ensures a + b + c + d == a + (b + c + d)
  {
  }

  lemma CodeDigits()
    ensures Decimal(200) == "200" && Decimal(302) == "302" && Decimal(404) == "404"
  {
    assert Decimal(20) == "20" && Decimal(30) == "30" && Decimal(40) == "40";
  }

  /** The status line of each code. */
  lemma StatusLines()
    ensures StatusLine(200, CodeText(200).value) == "HTTP/1.0 200 OK\r\n"
    ensures StatusLine(302, CodeText(302).value) == "HTTP/1.0 302 Found\r\n"
    ensures StatusLine(404, CodeText(404).value) == "HTTP/1.0 404 Not Found\r\n"
  {
    CodeDigits();
    hide Decimal;
  }

  lemma TypeLinePrinted()
    ensures TypeLine("text/plain") == "Content-Type: text/plain; charset=ISO-8859-5\r\n"
  {
    assert "Content-Type: " + "text/plain" == "Content-Type: text/plain";
  }

  lemma LengthLinePrinted()
    ensures LengthLine(Some(9)) == "Content-Length: 9\r\n" && LengthLine(None) == ""
  {
    assert Decimal(9) == "9";
    hide Decimal;
    assert "Content-Length: " + "9" == "Content-Length: 9";
  }

  /** The response of the default handler of unknown routes, with a length and a header more. */
  lemma NotFoundPrinted()
    ensures ResponseText(404, CodeText(404).value, "text/plain", HeaderLines([("a", "b")]), Some(9), "Not Found")
            == "HTTP/1.0 404 Not Found\r\n" + "Content-Type: text/plain; charset=ISO-8859-5\r\n" + "a: b\r\n"
               + "Content-Length: 9\r\n" + "\r\n" + "Not Found"
  {
    StatusLines();
    TypeLinePrinted();
    LengthLinePrinted();
    assert HeaderLines([("a", "b")]) == "a: b\r\n";
    hide StatusLine, CodeText, TypeLine, LengthLine, HeaderLines;
    assert CRLF == "\r\n";
  }

  class HttpConnection {
    var currentClient: bool
    var currentHeaders: string
    var currentPayload: string
    var currentContentLength: Option<nat>
    var currentRoute: string
    var sent: string

    /** The headers given to `SendHeader` since the last reset. */
    ghost var headers: seq<(string, string)>

    ghost predicate Valid()
      reads this
    {
      currentHeaders == HeaderLines(headers)
    }

    constructor ()
      ensures Valid() && headers == [] && currentClient && currentPayload == "" && currentRoute == "" && sent == ""
      ensures currentContentLength == None
    {
      currentClient, currentHeaders, currentPayload, currentRoute, sent := true, "", "", "", "";
      currentContentLength, headers := None, [];
    }

    method Reset()
      modifies this
      ensures Valid() && headers == [] && !currentClient && currentPayload == "" && currentContentLength == None
      ensures currentRoute == old(currentRoute) && sent == old(sent)
    {
      currentHeaders, currentPayload, currentContentLength := "", "", None;
      headers := [];
      currentClient := false;
    }

    method SendHeader(name: string, value: string)
      requires Valid()
      modifies this`currentHeaders, this`headers
      ensures Valid() && headers == old(headers) + [(name, value)]
    {
      HeaderLinesSnoc(headers, name, value);
      headers := headers + [(name, value)];
      currentHeaders := currentHeaders + (name + ": " + value + CRLF);
    }

    method SetContentLength(contentLength: nat)
      modifies this`currentContentLength
      ensures currentContentLength == Some(contentLength)
    {
      currentContentLength := Some(contentLength);
    }

    /** The socket write; it must accept at least one byte. */
    method Write(msg: string) returns (ok: bool)
      modifies this`sent
      ensures ok <==> msg != ""
      ensures sent == old(sent) + msg
    {
      sent := sent + msg;
      ok := |msg| > 0;
    }

    /** `Write`, when `text` has been written since the output was `before`. */
    method WriteMore(msg: string, ghost before: string, ghost text: string) returns (ok: bool)
      requires sent == before + text
      modifies this`sent
      ensures ok <==> msg != ""
      ensures sent == before + (text + msg)
    {
      ok := Write(msg);
    }

    /** `send`; `ok` is false when it panics. */
    method Send(code: nat, contentType: string, content: string) returns (ok: bool)
      requires Valid()
      modifies this`sent
      ensures ok <==> currentClient && code in {200, 302, 404} && contentType != ""
      ensures sent == old(sent) +
                if ok then
                  ResponseText(code, CodeText(code).value, contentType, HeaderLines(headers), currentContentLength,
                               content)
                else if currentClient && CodeText(code).Some? then
                  StatusLine(code, CodeText(code).value) + "Content-Type: "
                else ""
    {
      hide HeaderLines, Decimal;
      assert sent + "" == sent;
      KnownCodes(code);
      if !currentClient || CodeText(code).None? {
        return false;
      }
      ok := SendHead(code, CodeText(code).value, contentType);
      if !ok {
        return;
      }
      ghost var before, text := old(sent), StatusLine(code, CodeText(code).value) + TypeLine(contentType);
      hide StatusLine, TypeLine;
      if |currentHeaders| > 0 {
        var _ := WriteMore(currentHeaders, before, text);
      } else {
        assert text + currentHeaders == text;
      }
      text := text + currentHeaders;
      if currentContentLength.Some? {
        WriteLength(currentContentLength.value, before, text);
      } else {
        assert text + LengthLine(currentContentLength) == text;
      }
      text := text + LengthLine(currentContentLength);
      hide LengthLine;
      var _ := WriteMore(CRLF, before, text);
      text := text + CRLF;
      if |content| > 0 {
        var _ := WriteMore(content, before, text);
      } else {
        assert text + content == text;
      }
      ok := true;
    }

    method WriteLength(contentLength: nat, ghost before: string, ghost text: string)
      requires sent == before + text
      modifies this`sent
      ensures sent == before + (text + LengthLine(Some(contentLength)))
    {
      hide Decimal;
      var _ := Write("Content-Length: ");
      var _ := Write(Decimal(contentLength));
      var _ := Write(CRLF);
    }

    /** The status line and the content type line. */
    method SendHead(code: nat, codeText: string, contentType: string) returns (ok: bool)
      requires codeText != ""
      modifies this`sent
      ensures ok <==> contentType != ""
      ensures sent == old(sent) + (StatusLine(code, codeText) + if ok then TypeLine(contentType) else "Content-Type: ")
    {
      hide Decimal;
      ghost var before := sent;
      WriteStatus(code, codeText);
      ghost var text := StatusLine(code, codeText);
      hide StatusLine;
      var _ := WriteMore("Content-Type: ", before, text);
      ok := WriteMore(contentType, before, text + "Content-Type: ");
      if !ok {
        assert text + "Content-Type: " + contentType == text + "Content-Type: ";
        return;
      }
      var _ := WriteMore("; charset=ISO-8859-5\r\n", before, text + "Content-Type: " + contentType);
      Regroup(text, "Content-Type: ", contentType, "; charset=ISO-8859-5\r\n");
    }

    method WriteStatus(code: nat, codeText: string)
      modifies this`sent
      ensures sent == old(sent) + StatusLine(code, codeText)
    {
      hide Decimal;
      ghost var before, text := sent, "";
      var _ := WriteMore("HTTP/1.0 ", before, text);
      text := "HTTP/1.0 ";
      var _ := WriteMore(Decimal(code), before, text);
      text := text + Decimal(code);
      var _ := WriteMore(" ", before, text);
      text := text + " ";
      var _ := WriteMore(codeText, before, text);
      text := text + codeText;
      var _ := WriteMore(CRLF, before, text);
    }

    method Arg(name: string, beyond: char) returns (r: Option<string>)
      ensures r == Form.ArgOf(currentPayload, name)
    {
      ghost var top;
      r, top := Form.Arg(currentPayload, name, beyond);
    }
  }

  // ---------- the server ----------

  /** What one read brings of a request. */
  function OneRead(text: string): (s: string)
    ensures s <= text && |s| == (if |text| < 4096 then |text| else 4096)
  {
    if |text| <= BUFFER_SIZE then text else text[..BUFFER_SIZE]
  }

  class HttpServer {
    var router: set<string>
    var isHandlingRequest: bool

    constructor ()
      ensures router == {} && !isHandlingRequest
    {
      router, isHandlingRequest := {}, false;
    }

    method On(uri: string)
      modifies this`router
      ensures router == old(router) + {uri}
    {
      router := router + {uri};
    }

    /** `memmove(buffer, buffer + n, len)` */
    static method DropFront(buffer: array<char>, n: nat, len: nat)
      requires n + len <= buffer.Length
      modifies buffer
      ensures buffer[..len] == old(buffer[n..n + len])
    {
      forall i | 0 <= i < len {
        buffer[i] := buffer[n + i];
      }
    }

    /** The loop over the header lines; it leaves the payload at the front of the buffer. */
    static method DropHeaderLines(buffer: array<char>, len0: nat) returns (ok: bool, len: nat)
      requires len0 <= buffer.Length
      modifies buffer
      ensures len <= buffer.Length
      ensures DropLines(old(buffer[..len0])) == if ok then Some(buffer[..len]) else None
    {
      hide Find;
      len := len0;
      var isPayload := false;
      while len > 0 && !isPayload
        invariant len <= buffer.Length
        invariant DropLines(old(buffer[..len0])) == if isPayload then Some(buffer[..len]) else DropLines(buffer[..len])
        decreases if isPayload then 0 else 1, len
      {
        var buff := buffer[..len];
        var newlineIndex := Find(buff, CRLF);
        if newlineIndex == NPOS {
          return false, len;
        } else if newlineIndex == Find(buff, BLANK) {
          isPayload := true;
          len := len - (newlineIndex + 4);
          DropFront(buffer, newlineIndex + 4, len);
          assert buffer[..len] == buff[newlineIndex + 4..];
        } else {
          len := len - (newlineIndex + 2);
          DropFront(buffer, newlineIndex + 2, len);
          assert buffer[..len] == buff[newlineIndex + 2..];
        }
      }
      ok := true;
    }

    /** From the bytes of the read to the call of the handler, which sees the route and the payload that
        the connection then holds. */
    method ParseAndDispatch(conn: HttpConnection, buffer: array<char>, len0: nat) returns (r: Outcome)
      requires len0 <= buffer.Length && conn.currentPayload == ""
      modifies buffer, conn`currentRoute, conn`currentPayload
      ensures r == ParseRequest(router, old(buffer[..len0]))
      ensures r.Dispatched? ==> conn.currentRoute == r.route && conn.currentPayload == r.payload
    {
      hide Find, DropLines;
      var buff, len := buffer[..len0], len0;
      var skip;
      if Find(buff, "POST") != NPOS {
        skip := 5;
      } else if Find(buff, "GET") != NPOS {
        skip := 4;
      } else if Find(buff, "OPTIONS") != NPOS {
        skip := 8;
      } else {
        return MethodNotFound;
      }
      if len < skip {
        return Crashed;
      }
      conn.currentRoute := UpToSpace(buff[skip..]);
      var newlineIndex := Find(buff, CRLF);
      if newlineIndex == NPOS {
        return Panicked;
      }
      len := len - (newlineIndex + 2);
      DropFront(buffer, newlineIndex + 2, len);
      assert buffer[..len] == buff[newlineIndex + 2..];
      var ok;
      ok, len := DropHeaderLines(buffer, len);
      if !ok {
        return Panicked;
      }
      conn.currentPayload := conn.currentPayload + buffer[..len];
      assert conn.currentPayload == buffer[..len];
      r := Dispatched(conn.currentRoute, conn.currentPayload, conn.currentRoute in router);
    }

    /** `handleClient`, once a connection is accepted; `request` is what its read brings, if it succeeds. */
    method HandleClient(conn: HttpConnection, request: Option<string>) returns (r: Outcome)
      requires request.Some? ==> |request.value| <= BUFFER_SIZE
      requires conn.currentPayload == ""
      modifies this`isHandlingRequest, conn
      ensures old(isHandlingRequest) ==> r == Panicked
      ensures !old(isHandlingRequest) ==>
                r == match request
                     case None => ReadError
                     case Some(text) => if text == "" then EmptyRequest else ParseRequest(router, text)
      ensures !r.Panicked? && !r.Crashed? ==>
                !isHandlingRequest && !conn.currentClient && conn.Valid() && conn.headers == []
                && conn.currentPayload == "" && conn.currentContentLength == None
      ensures r.Dispatched? ==> conn.currentRoute == r.route
      ensures conn.sent == old(conn.sent)
    {
      hide ParseRequest, HeaderLines;
      if isHandlingRequest {
        return Panicked;
      }
      isHandlingRequest := true;
      if request.None? {
        r := ReadError;
      } else {
        var buffer := new char[BUFFER_SIZE](_ => '\0');
        var len := |request.value|;
        forall i | 0 <= i < len {
          buffer[i] := request.value[i];
        }
        assert buffer[..len] == request.value;
        if len == 0 {
          r := EmptyRequest;
        } else {
          r := ParseAndDispatch(conn, buffer, len);
          if r.Panicked? || r.Crashed? {
            return;
          }
        }
      }
      conn.Reset();
      isHandlingRequest := false;
    }
  }
}
