/** The two programs against each other: the server reads what the client prints (section 5 of
    RFC 1945), and the client reads what the server prints (section 6). */
module RoundTrip {
  import opened Text
  import Client = HttpClient
  import Server = HttpServer

  // ---------- lines ----------

  /** A line is found whole if it has no CRLF in it; a CR at its end does no harm. */
  lemma LineFound(line: string, rest: string)
    requires !Contains(line, CRLF)
    ensures Find(line + CRLF + rest, CRLF) == |line|
  {
    hide FindFrom;
    var t := line + CRLF + rest;
    assert t[|line|..|line| + 2] == CRLF;
    forall j: nat | j < |line| ensures !At(t, CRLF, j) {
      CrlfAt(t, j);
      CrlfAt(line, j);
    }
    FindIs(t, CRLF, |line|);
  }

  /** Behind a line, a blank line comes next exactly when the rest starts with a CRLF. */
  lemma BlankNext(line: string, rest: string)
    requires !Contains(line, CRLF)
    ensures Find(line + CRLF + rest, BLANK) == |line| <==> At(rest, CRLF, 0)
  {
    hide FindFrom;
    var t, n := line + CRLF + rest, |line|;
    LineFound(line, rest);
    CrlfAt(t, n);
    assert t[n + 2..] == rest;
    AtShift(t, CRLF, n + 2, 0);
    if At(rest, CRLF, 0) {
      forall j: nat | j < n ensures !At(t, BLANK, j) {
        CrlfAt(t, j);
      }
      FindIs(t, BLANK, n);
    }
  }

  predicate CrlfFree(headers: seq<(string, string)>) {
    forall i :: 0 <= i < |headers| ==> !Contains(headers[i].0, CRLF) && !Contains(headers[i].1, CRLF)
  }

  lemma JoinedLine(name: string, value: string)
    requires !Contains(name, CRLF) && !Contains(value, CRLF)
    ensures !Contains(name + ": " + value, CRLF)
  {
    hide FindFrom;
    var line, i := name + ": " + value, Find(name + ": " + value, CRLF);
    if i != NPOS {
      CrlfAt(line, i);
      if i + 2 <= |name| {
        CrlfAt(name, i);
      } else if i >= |name| + 2 {
        CrlfAt(value, i - |name| - 2);
      }
    }
  }

  /** The text of a header section, the blank line and what follows it. */
  function Section(headers: seq<(string, string)>, data: string): string { HeaderLines(headers) + CRLF + data }

  function Line(header: (string, string)): string { header.0 + ": " + header.1 }

  lemma SectionParts(headers: seq<(string, string)>, data: string)
    ensures headers == [] ==> Section(headers, data) == CRLF + data
    ensures headers != [] ==> Section(headers, data) == Line(headers[0]) + CRLF + Section(headers[1..], data)
  {
    if headers != [] {
      var h, more := HeaderLine(headers[0].0, headers[0].1), HeaderLines(headers[1..]);
      assert h == Line(headers[0]) + CRLF;
      assert (h + more) + CRLF + data == h + (more + CRLF + data);
    }
  }

  /** A section starts with a CRLF only if it has no header lines. */
  lemma SectionStart(headers: seq<(string, string)>, data: string)
    requires CrlfFree(headers)
    ensures At(Section(headers, data), CRLF, 0) <==> headers == []
    ensures headers == [] ==> Section(headers, data)[2..] == data
  {
    SectionParts(headers, data);
    hide Section;
    if headers == [] {
      CrlfAt(CRLF + data, 0);
    } else {
      JoinedLine(headers[0].0, headers[0].1);
      LineFound(Line(headers[0]), Section(headers[1..], data));
    }
  }

  // ---------- the request ----------

  /** One turn of the server's loop on a whole line. */
  lemma DropOne(line: string, rest: string)
    requires !Contains(line, CRLF)
    ensures Server.DropLines(line + CRLF + rest)
            == if At(rest, CRLF, 0) then Some(rest[2..]) else Server.DropLines(rest)
  {
    hide Find;
    var t := line + CRLF + rest;
    LineFound(line, rest);
    BlankNext(line, rest);
    assert t[|line| + 2..] == rest;
    if At(rest, CRLF, 0) {
      assert t[|line| + 4..] == rest[2..];
    }
  }

  /** The server's loop drops the header lines and stops behind the blank line. */
  lemma {:induction false} LinesDropped(headers: seq<(string, string)>, data: string)
    requires headers != [] && CrlfFree(headers)
    ensures Server.DropLines(Section(headers, data)) == Some(data)
    decreases |headers|
  {
    SectionParts(headers, data);
    JoinedLine(headers[0].0, headers[0].1);
    SectionStart(headers[1..], data);
    hide Section, Server.DropLines, Find;
    DropOne(Line(headers[0]), Section(headers[1..], data));
    if |headers| > 1 {
      LinesDropped(headers[1..], data);
    }
  }

  /** No method name that the server looks for earlier occurs in the text. */
  predicate NoEarlierName(requestMethod: string, text: string) {
    match requestMethod
    case "POST" => true
    case "GET" => !Contains(text, "POST")
    case _ => !Contains(text, "POST") && !Contains(text, "GET")
  }

  predicate KnownMethod(requestMethod: string) { requestMethod in {"POST", "GET", "OPTIONS"} }

  /** A path that does not break the request line. */
  predicate IsPath(path: string) { !Contains(path, CRLF) }

  function RequestLine(requestMethod: string, path: string): string { requestMethod + " " + path + " HTTP/1.0" }

  function LengthHeader(len: nat): (string, string) { ("Content-Length", Decimal(len)) }

  lemma HeadIs(requestMethod: string, path: string, len: nat)
    ensures Client.HeadText(requestMethod, path, len)
            == (RequestLine(requestMethod, path) + CRLF) + HeaderLine("Content-Length", Decimal(len))
  {
    hide Decimal;
    var front, d := requestMethod + " " + path, Decimal(len);
    assert " HTTP/1.0" + CRLF == " HTTP/1.0\r\n";
    assert front + (" HTTP/1.0" + CRLF) == (front + " HTTP/1.0") + CRLF;
    assert "Content-Length" + ": " == "Content-Length: ";
    var line := front + " HTTP/1.0" + CRLF;
    assert line + "Content-Length: " + d + CRLF == line + ("Content-Length: " + d + CRLF);
  }

  lemma JoinRegroup(a: string, b: string, c: string, d: string, e: string)
    ensures (a + b) + c + d + e == a + ((b + c) + d + e)
  {
  }

  lemma RequestParts(requestMethod: string, path: string, headers: seq<(string, string)>, data: string)
    ensures Client.RequestText(requestMethod, path, headers, data)
            == RequestLine(requestMethod, path) + CRLF + Section([LengthHeader(|data|)] + headers, data)
  {
    hide Find, Decimal;
    var first := LengthHeader(|data|);
    HeadIs(requestMethod, path, |data|);
    assert HeaderLine(first.0, first.1) == HeaderLine("Content-Length", Decimal(|data|));
    hide LengthHeader, HeaderLine, Client.HeadText, RequestLine;
    assert ([first] + headers)[1..] == headers;
    assert HeaderLines([first] + headers) == HeaderLine(first.0, first.1) + HeaderLines(headers);
    hide HeaderLines;
    JoinRegroup(RequestLine(requestMethod, path) + CRLF, HeaderLine(first.0, first.1), HeaderLines(headers), CRLF,
                data);
  }

  lemma NoReturn(s: string)
    requires '\r' !in s
    ensures !Contains(s, CRLF)
  {
    if Find(s, CRLF) != NPOS {
      CrlfAt(s, Find(s, CRLF));
    }
  }

  lemma LengthHeaderIsLine(len: nat)
    ensures CrlfFree([LengthHeader(len)])
  {
    hide Find, Contains, Decimal;
    NoReturn(Decimal(len));
    NoReturn("Content-Length");
  }

  lemma RequestLineHasNoLineEnd(requestMethod: string, path: string)
    requires KnownMethod(requestMethod) && IsPath(path)
    ensures !Contains(RequestLine(requestMethod, path), CRLF)
  {
    hide FindFrom;
    var line, n := RequestLine(requestMethod, path), |requestMethod| + 1;
    var i := Find(line, CRLF);
    if i != NPOS {
      CrlfAt(line, i);
      if n <= i && i + 2 <= n + |path| {
        CrlfAt(path, i - n);
      }
    }
  }

  /** Dropping `skip` characters of a request and reading up to the next space. */
  lemma RouteAfter(front: string, route: string, rest: string)
    requires ' ' !in route && rest != "" && rest[0] == ' '
    ensures Server.UpToSpace((front + route + rest)[|front|..]) == route
  {
    hide FindFrom;
    var t, n := route + rest, |route|;
    assert (front + route + rest)[|front|..] == t;
    assert t[n..n + 1] == " ";
    forall j: nat | j < n ensures !At(t, " ", j) {
      assert t[j..j + 1] == [route[j]];
    }
    FindIs(t, " ", n);
  }

  lemma FrontContained(front: string, rest: string)
    ensures Contains(front + rest, front)
  {
    assert (front + rest)[0..|front|] == front;
    assert At(front + rest, front, 0);
  }

  /** The number of characters the server takes for method and space is right exactly when no earlier
      method name is in the way. */
  lemma SkipExactly(requestMethod: string, rest: string)
    requires KnownMethod(requestMethod)
    ensures var text := requestMethod + rest;
            Server.MethodSkip(text) == Some(
              if NoEarlierName(requestMethod, text) then |requestMethod| + 1
              else if Contains(text, "POST") then 5 else 4)
  {
    hide Contains;
    FrontContained(requestMethod, rest);
  }

  lemma WrongGetRoute(path: string, rest: string)
    requires ' ' !in path && |rest| > 1 && rest[0] == ' ' && rest[1] == 'H'
    ensures var route := Server.UpToSpace(("GET" + " " + path + rest)[5..]);
            if path == "" then route != "" else route == path[1..]
  {
    if path == "" {
      hide FindFrom;
      assert ("GET" + " " + path + rest)[5..] == rest[1..];
      assert |rest[1..]| > 0 && rest[1..][0..1] == "H";
    } else {
      assert "GET" + " " + path + rest == ("GET " + [path[0]]) + path[1..] + rest;
      RouteAfter("GET " + [path[0]], path[1..], rest);
    }
  }

  lemma WrongOptionsRoute(path: string, rest: string)
    ensures Server.UpToSpace(("OPTIONS" + " " + path + rest)[5..]) == "NS"
    ensures Server.UpToSpace(("OPTIONS" + " " + path + rest)[4..]) == "ONS"
  {
    var more := " " + path + rest;
    assert "OPTIONS" + " " + path + rest == "OPTIO" + "NS" + more;
    assert "OPTIONS" + " " + path + rest == "OPTI" + "ONS" + more;
    RouteAfter("OPTIO", "NS", more);
    RouteAfter("OPTI", "ONS", more);
  }

  /** What is left of "OPTIONS" when the server takes it for an earlier name. */
  function RestOfOptions(text: string): string { if Contains(text, "POST") then "NS" else "ONS" }

  /** The server takes the right route from the text: it reads a path up to its first space. */
  predicate RoutedRight(requestMethod: string, path: string, text: string) {
    ' ' !in path
    && (NoEarlierName(requestMethod, text) || (requestMethod == "OPTIONS" && path == RestOfOptions(text)))
  }

  lemma RouteHasNoSpace(s: string)
    ensures ' ' !in Server.UpToSpace(s)
  {
    hide FindFrom;
    var route := Server.UpToSpace(s);
    forall j | 0 <= j < |route| ensures route[j] != ' ' {
      assert !At(s, " ", j);
      assert s[j..j + 1] == [s[j]];
    }
  }

  // ---------- requests that one read cuts ----------

  lemma {:induction false} HeaderLinesEnd(headers: seq<(string, string)>)
    requires headers != []
    ensures EndsWith(HeaderLines(headers), CRLF)
  {
    var last := headers[|headers| - 1];
    HeaderLinesSnoc(headers[..|headers| - 1], last.0, last.1);
    assert headers[..|headers| - 1] + [last] == headers;
    hide HeaderLines;
    var front, line := HeaderLines(headers[..|headers| - 1]), HeaderLine(last.0, last.1);
    assert line[|line| - 2..] == CRLF;
    assert (front + line)[|front + line| - 2..] == line[|line| - 2..];
  }

  lemma DropLinesFromBlank(s: string)
    ensures Find(s, BLANK) != NPOS ==> Server.DropLines(s) == Some(s[Find(s, BLANK) + 4..])
  {
    Server.DropLinesExactly(s);
  }

  /** The first blank line of a section is the one behind its header lines. */
  lemma SectionBlank(headers: seq<(string, string)>, data: string)
    requires headers != [] && CrlfFree(headers)
    ensures var s := Section(headers, data); |s| >= |data| + 4 && Find(s, BLANK) == |s| - |data| - 4
    ensures var s := Section(headers, data); s[|s| - |data|..] == data
  {
    hide FindFrom, HeaderLines, CrlfFree;
    var s, lines := Section(headers, data), HeaderLines(headers);
    HeaderLinesEnd(headers);
    LinesDropped(headers, data);
    DropLinesFromBlank(s);
    var i := |lines| - 2;
    assert lines[i..] == CRLF && s[i..i + 2] == lines[i..] && s[i + 2..i + 4] == CRLF;
    assert At(s, CRLF, i) && At(s, CRLF, i + 2);
    CrlfAt(s, i);
  }

  lemma BlankInCut(s: string, m: nat, i: nat)
    requires At(s, BLANK, i) && i + 4 <= m <= |s|
    ensures At(s[..m], BLANK, i) && s[..m][i + 4..] == s[i + 4..m]
  {
    assert s[..m][i..i + 4] == s[i..i + 4];
  }

  /** What the server's loop makes of the first `m` characters of a text with a blank line. */
  lemma PrefixDropped(s: string, m: nat)
    requires m <= |s| && Find(s, BLANK) != NPOS
    ensures var q := Find(s, BLANK) + 4;
            Server.DropLines(s[..m])
            == if m >= q then Some(s[q..m]) else if m == 0 || EndsWith(s[..m], CRLF) then Some("") else None
  {
    var cut, i := s[..m], Find(s, BLANK);
    assert s == cut + s[m..];
    Server.DropLinesExactly(cut);
    hide FindFrom, Server.DropLines, EndsWith;
    if m >= i + 4 {
      BlankInCut(s, m, i);
    }
    if Find(cut, BLANK) != NPOS {
      FindExtend(cut, s[m..], BLANK);
    }
  }

  /** A prefix that does not hold the request line is not dispatched. */
  lemma LineCut(routes: set<string>, line: string, rest: string, n: nat)
    requires !Contains(line, CRLF) && n < |line| + 2
    ensures var s := (line + CRLF + rest)[..n]; !Server.ParseRequest(routes, s).Dispatched? && !EndsWith(s, CRLF)
  {
    hide FindFrom, Server.DropLines, Server.UpToSpace, EndsWith;
    var t := line + CRLF + rest;
    LineFound(line, rest);
    assert t == t[..n] + t[n..];
    if Find(t[..n], CRLF) != NPOS {
      FindExtend(t[..n], t[n..], CRLF);
    }
    NoLineEnd(t[..n]);
  }

  /** A prefix that holds the request line is dispatched with what its loop leaves of the section. */
  lemma LineKept(routes: set<string>, line: string, rest: string, n: nat, skip: nat)
    requires !Contains(line, CRLF) && |line| + 2 <= n <= |line + CRLF + rest|
    requires Server.MethodSkip((line + CRLF + rest)[..n]) == Some(skip) && skip <= n
    ensures var s := (line + CRLF + rest)[..n];
            Server.ParseRequest(routes, s)
            == match Server.DropLines(rest[..n - |line| - 2])
               case None => Server.Panicked
               case Some(payload) =>
                 Server.Dispatched(Server.UpToSpace(s[skip..]), payload, Server.UpToSpace(s[skip..]) in routes)
  {
    hide FindFrom, Server.DropLines, Server.UpToSpace, Server.MethodSkip;
    var t, m := line + CRLF + rest, n - |line| - 2;
    assert t[..n] == line + CRLF + rest[..m];
    LineFound(line, rest[..m]);
    assert (line + CRLF + rest[..m])[|line| + 2..] == rest[..m];
  }

  /** The route that the server takes from a request, or from a prefix that holds the path. */
  lemma RouteExactly(requestMethod: string, path: string, rest: string)
    requires KnownMethod(requestMethod) && IsPath(path) && |rest| > 1 && rest[0] == ' ' && rest[1] == 'H'
    ensures var s := requestMethod + " " + path + rest; var skip := Server.MethodSkip(s);
            skip.Some? && skip.value <= |s|
            && (Server.UpToSpace(s[skip.value..]) == path <==> RoutedRight(requestMethod, path, s))
  {
    hide Find, Contains, Server.MethodSkip, Server.UpToSpace;
    var s := requestMethod + " " + path + rest;
    assert s == requestMethod + (" " + path + rest);
    SkipExactly(requestMethod, " " + path + rest);
    RouteHasNoSpace(s[Server.MethodSkip(s).value..]);
    if ' ' in path {
    } else if NoEarlierName(requestMethod, s) {
      RouteAfter(requestMethod + " ", path, rest);
    } else if requestMethod == "GET" {
      WrongGetRoute(path, rest);
    } else {
      WrongOptionsRoute(path, rest);
    }
  }

  lemma SplitAll(first: (string, string), headers: seq<(string, string)>)
    requires CrlfFree([first]) && CrlfFree(headers)
    ensures CrlfFree([first] + headers)
  {
    hide Contains;
    assert [first][0] == first;
  }

  /** A prefix that holds the request line holds the method and the path. */
  lemma PrefixShape(requestMethod: string, path: string, section: string, n: nat) returns (rest: string)
    requires |RequestLine(requestMethod, path)| + 2 <= n <= |RequestLine(requestMethod, path) + CRLF + section|
    ensures |rest| > 1 && rest[0] == ' ' && rest[1] == 'H'
    ensures (RequestLine(requestMethod, path) + CRLF + section)[..n] == requestMethod + " " + path + rest
  {
    var front, line := requestMethod + " " + path, RequestLine(requestMethod, path);
    var s := (line + CRLF + section)[..n];
    assert s[..|front|] == front;
    rest := s[|front|..];
    assert rest[0] == " HTTP/1.0"[0] && rest[1] == " HTTP/1.0"[1];
  }

  /** Behind the request line, a prefix ends with a CRLF when the part of the section in it is empty or does. */
  lemma PrefixEnds(line: string, section: string, n: nat)
    requires !Contains(line, CRLF) && |line| + 2 <= n <= |line + CRLF + section|
    ensures var m := n - |line| - 2;
            EndsWith((line + CRLF + section)[..n], CRLF) <==> m == 0 || EndsWith(section[..m], CRLF)
  {
    hide FindFrom;
    var m := n - |line| - 2;
    assert (line + CRLF + section)[..n] == line + CRLF + section[..m];
    LineFound(line, section[..m]);
    LastLineEnds(line + CRLF + section[..m], |line|);
    assert (line + CRLF + section[..m])[|line| + 2..] == section[..m];
  }

  /** What the server makes of the first `n` characters of a printed request. */
  lemma PrefixParsed(routes: set<string>, requestMethod: string, path: string, headers: seq<(string, string)>,
                     data: string, n: nat)
    requires KnownMethod(requestMethod) && IsPath(path) && CrlfFree(headers)
    requires n <= |Client.RequestText(requestMethod, path, headers, data)|
    ensures var text := Client.RequestText(requestMethod, path, headers, data);
            var s, outcome := text[..n], Server.ParseRequest(routes, text[..n]);
            |text| > |data|
            && if n >= |text| - |data| then
                 outcome.Dispatched? && outcome.payload == data[..n - (|text| - |data|)]
                 && outcome.known == (outcome.route in routes)
                 && (outcome.route == path <==> RoutedRight(requestMethod, path, s))
               else if EndsWith(s, CRLF) then
                 outcome.Dispatched? && outcome.payload == "" && outcome.known == (outcome.route in routes)
                 && (outcome.route == path <==> RoutedRight(requestMethod, path, s))
               else !outcome.Dispatched?
  {
    hide FindFrom, Client.RequestText, Server.ParseRequest, Server.UpToSpace, Server.MethodSkip;
    hide Section, Server.DropLines, RoutedRight, RequestLine, EndsWith, LengthHeader;
    var all, line := [LengthHeader(|data|)] + headers, RequestLine(requestMethod, path);
    var text, section := Client.RequestText(requestMethod, path, headers, data), Section(all, data);
    RequestParts(requestMethod, path, headers, data);
    LengthHeaderIsLine(|data|);
    SplitAll(LengthHeader(|data|), headers);
    RequestLineHasNoLineEnd(requestMethod, path);
    SectionBlank(all, data);
    if n < |line| + 2 {
      LineCut(routes, line, section, n);
    } else {
      var m := n - |line| - 2;
      var rest := PrefixShape(requestMethod, path, section, n);
      RouteExactly(requestMethod, path, rest);
      LineKept(routes, line, section, n, Server.MethodSkip(text[..n]).value);
      PrefixDropped(section, m);
      PrefixEnds(line, section, n);
      assert m >= |section| - |data| ==> section[|section| - |data|..m] == data[..m - (|section| - |data|)];
    }
  }

  /** A server that reads only the first `n` characters of a printed request still dispatches on its path with
      its data exactly when it takes the right route and the cut removes nothing but header lines, and these
      as a whole: there must be no data then. */
  lemma RequestCutExactly(routes: set<string>, requestMethod: string, path: string, headers: seq<(string, string)>,
                          data: string, n: nat)
    requires KnownMethod(requestMethod) && IsPath(path) && CrlfFree(headers)
    requires n <= |Client.RequestText(requestMethod, path, headers, data)|
    ensures var text := Client.RequestText(requestMethod, path, headers, data);
            Server.ParseRequest(routes, text[..n]) == Server.Dispatched(path, data, path in routes)
            <==> RoutedRight(requestMethod, path, text[..n])
                 && (n == |text| || (data == "" && EndsWith(text[..n], CRLF)))
  {
    hide Client.RequestText, Server.ParseRequest, RoutedRight, CrlfFree, IsPath, EndsWith;
    PrefixParsed(routes, requestMethod, path, headers, data, n);
    var text := Client.RequestText(requestMethod, path, headers, data);
    if n == |text| {
      assert data[..|data|] == data;
    }
  }

  /** A cut inside the data is silent: the server dispatches with the part of the data that it has read. */
  lemma DataCut(routes: set<string>, requestMethod: string, path: string, headers: seq<(string, string)>,
                data: string, n: nat)
    requires KnownMethod(requestMethod) && IsPath(path) && CrlfFree(headers)
    requires var text := Client.RequestText(requestMethod, path, headers, data);
             |text| - |data| <= n <= |text| && RoutedRight(requestMethod, path, text[..n])
    ensures var text := Client.RequestText(requestMethod, path, headers, data);
            Server.ParseRequest(routes, text[..n])
            == Server.Dispatched(path, data[..n - (|text| - |data|)], path in routes)
  {
    hide Client.RequestText, Server.ParseRequest, CrlfFree, IsPath, RoutedRight;
    PrefixParsed(routes, requestMethod, path, headers, data, n);
  }

  /** These conditions are exact, up to two paths: a path with a space is cut there, and with an earlier method
      name anywhere in the text, even in the data, the server takes the wrong number of characters for the
      method and dispatches on another route, unless the path is what it then leaves of the method. */
  lemma RequestReadExactly(routes: set<string>, requestMethod: string, path: string, headers: seq<(string, string)>,
                           data: string)
    requires KnownMethod(requestMethod) && IsPath(path) && CrlfFree(headers)
    ensures var text := Client.RequestText(requestMethod, path, headers, data);
            Server.ParseRequest(routes, text) == Server.Dispatched(path, data, path in routes)
            <==> RoutedRight(requestMethod, path, text)
  {
    hide Client.RequestText, Server.ParseRequest, RoutedRight, CrlfFree, IsPath;
    var text := Client.RequestText(requestMethod, path, headers, data);
    RequestCutExactly(routes, requestMethod, path, headers, data, |text|);
    assert text[..|text|] == text;
  }

  /** The server dispatches a printed request on its path with its data, whatever the headers and their
      order, if no method name that it looks for first occurs in the text. */
  lemma RequestRoundTrip(routes: set<string>, requestMethod: string, path: string, headers: seq<(string, string)>,
                         data: string)
    requires KnownMethod(requestMethod) && IsPath(path) && ' ' !in path && CrlfFree(headers)
    requires NoEarlierName(requestMethod, Client.RequestText(requestMethod, path, headers, data))
    ensures Server.ParseRequest(routes, Client.RequestText(requestMethod, path, headers, data))
            == Server.Dispatched(path, data, path in routes)
  {
    hide Client.RequestText, Server.ParseRequest, CrlfFree, IsPath, NoEarlierName;
    RequestReadExactly(routes, requestMethod, path, headers, data);
  }

  lemma LongHead()
    ensures |Client.HeadText("POST", "/a", 5000)| == 40
  {
    assert Decimal(5000) == Decimal(500) + [Digit(0)];
    assert Decimal(500) == Decimal(50) + [Digit(0)];
    assert Decimal(50) == Decimal(5) + [Digit(0)];
    hide Decimal;
  }

  /** A POST of 5000 bytes: the one read brings 4096 characters, 42 of them before the data. */
  lemma LongPost(routes: set<string>, data: string)
    requires |data| == 5000
    ensures Server.ParseRequest(routes, Client.RequestText("POST", "/a", [], data)[..Server.BUFFER_SIZE])
            == Server.Dispatched("/a", data[..4054], "/a" in routes)
  {
    hide Server.ParseRequest;
    NoReturn("/a");
    LongHead();
    hide Decimal;
    var text := Client.RequestText("POST", "/a", [], data);
    assert |text| == 5042;
    hide Client.RequestText;
    DataCut(routes, "POST", "/a", [], data, Server.BUFFER_SIZE);
  }

  lemma PostFound(text: string)
    requires EndsWith(text, "POST")
    ensures Server.MethodSkip(text) == Some(5)
  {
    assert text[|text| - 4..|text|] == text[|text| - 4..];
    assert At(text, "POST", |text| - 4);
  }

  lemma RequestEndsWithData(requestMethod: string, path: string, headers: seq<(string, string)>, data: string)
    ensures EndsWith(Client.RequestText(requestMethod, path, headers, data), data)
  {
  }

  /** With "POST" in the data of a GET, the first character of the path is lost. */
  lemma PostInData(routes: set<string>)
    ensures Server.ParseRequest(routes, Client.RequestText("GET", "/a", [], "POST"))
            == Server.Dispatched("a", "POST", "a" in routes)
  {
    hide Find, Client.RequestText, Server.ParseRequest, Server.UpToSpace, Server.DropLines, Server.MethodSkip;
    var line, section := RequestLine("GET", "/a"), Section([LengthHeader(4)], "POST");
    var text := line + CRLF + section;
    NoReturn("/a");
    RequestParts("GET", "/a", [], "POST");
    assert [LengthHeader(4)] + [] == [LengthHeader(4)];
    hide LengthHeader, Section, RequestLine;
    RequestEndsWithData("GET", "/a", [], "POST");
    PostFound(text);
    RequestLineHasNoLineEnd("GET", "/a");
    assert text[..|text|] == text && section[..|section|] == section;
    LineKept(routes, line, section, |text|, 5);
    LengthHeaderIsLine(4);
    LinesDropped([LengthHeader(4)], "POST");
    var rest := PrefixShape("GET", "/a", section, |text|);
    WrongGetRoute("/a", rest);
    assert "/a"[1..] == "a";
  }
}
