/** The response round trip (section 6 of RFC 1945): what the server's `send` prints is what the
    client's response loop returns. */
module ResponseTrip {
  import opened Text
  import opened ResponseGrammar
  import opened RoundTrip
  import opened HeaderLookup
  import Client = HttpClient
  import Server = HttpServer

  function TypeHeader(contentType: string): (string, string) { ("Content-Type", contentType + "; charset=ISO-8859-5") }

  function LengthHeaders(contentLength: Option<nat>): seq<(string, string)> {
    if contentLength.None? then [] else [LengthHeader(contentLength.value)]
  }

  /** All the header lines that `send` prints, its own and those of the handler. */
  function AllHeaders(contentType: string, headers: seq<(string, string)>, contentLength: Option<nat>)
    : seq<(string, string)>
  {
    [TypeHeader(contentType)] + headers + LengthHeaders(contentLength)
  }

  function Status(code: nat, text: string): string { "HTTP/1.0 " + Decimal(code) + " " + text }

  lemma TypeLineIs(contentType: string)
    ensures Server.TypeLine(contentType) == HeaderLines([TypeHeader(contentType)])
  {
    var h := TypeHeader(contentType);
    assert HeaderLines([h]) == HeaderLine(h.0, h.1);
    assert "Content-Type" + ": " == "Content-Type: ";
    assert "; charset=ISO-8859-5" + CRLF == "; charset=ISO-8859-5\r\n";
    var front := "Content-Type: " + contentType;
    assert "Content-Type: " + (contentType + "; charset=ISO-8859-5") + CRLF == front + ("; charset=ISO-8859-5" + CRLF);
  }

  lemma LengthLineIs(contentLength: Option<nat>)
    ensures Server.LengthLine(contentLength) == HeaderLines(LengthHeaders(contentLength))
  {
    if contentLength.Some? {
      var h := LengthHeader(contentLength.value);
      assert HeaderLines([h]) == HeaderLine(h.0, h.1);
      assert "Content-Length" + ": " == "Content-Length: ";
    }
  }

  lemma JoinParts(a: string, b: string, c: string, d: string, e: string, f: string)
    ensures a + b + c + d + e + f == a + ((b + c + d) + e + f)
  {
  }

  lemma ResponseParts(code: nat, text: string, contentType: string, headers: seq<(string, string)>,
                      contentLength: Option<nat>, content: string)
    ensures Server.ResponseText(code, text, contentType, HeaderLines(headers), contentLength, content)
            == Status(code, text) + CRLF + Section(AllHeaders(contentType, headers, contentLength), content)
  {
    TypeLineIs(contentType);
    LengthLineIs(contentLength);
    var t, l := [TypeHeader(contentType)], LengthHeaders(contentLength);
    hide Server.TypeLine, Server.LengthLine, TypeHeader, LengthHeaders, Decimal;
    assert Server.StatusLine(code, text) == Status(code, text) + CRLF;
    hide Server.StatusLine, Status;
    HeaderLinesConcat(t + headers, l);
    HeaderLinesConcat(t, headers);
    hide HeaderLines;
    JoinParts(Status(code, text) + CRLF, HeaderLines(t), HeaderLines(headers), HeaderLines(l), CRLF, content);
  }

  /** Which responses `send` can print and the client can read back: a known code, and no CRLF inside
      the content type or the headers. */
  predicate Printable(code: nat, contentType: string, headers: seq<(string, string)>) {
    Server.CodeText(code).Some? && contentType != "" && !Contains(contentType, CRLF) && CrlfFree(headers)
  }

  lemma TypeHasNoLineEnd(contentType: string)
    requires !Contains(contentType, CRLF)
    ensures !Contains(contentType + "; charset=ISO-8859-5", CRLF)
  {
    hide FindFrom;
    var t := contentType + "; charset=ISO-8859-5";
    var i := Find(t, CRLF);
    if i != NPOS {
      CrlfAt(t, i);
      if i + 2 <= |contentType| {
        CrlfAt(contentType, i);
      }
    }
  }

  lemma AllCrlfFree(contentType: string, headers: seq<(string, string)>, contentLength: Option<nat>)
    requires !Contains(contentType, CRLF) && CrlfFree(headers)
    ensures CrlfFree(AllHeaders(contentType, headers, contentLength))
  {
    hide Find, Decimal;
    NoReturn("Content-Type");
    TypeHasNoLineEnd(contentType);
    if contentLength.Some? {
      LengthHeaderIsLine(contentLength.value);
    }
    hide Contains, LengthHeader;
  }

  // ---------- the status line ----------

  lemma AtoiOfDecimal(n: nat)
    ensures Atoi(Decimal(n)) == n
  {
    DecimalReadsBack(n, "");
    assert Decimal(n) + "" == Decimal(n);
    var d := Decimal(n);
    assert IsDigit(d[0]);
    hide Decimal, ReadDigits;
    assert SkipWhite(d) == d;
  }

  lemma {:induction false} CStrSkips(s: string, t: string)
    requires '\0' !in s
    ensures CStr(s + t) == s + CStr(t)
  {
    if s == "" {
      assert s + t == t;
    } else {
      assert s == [s[0]] + s[1..] && (s + t)[1..] == s[1..] + t;
      CStrSkips(s[1..], t);
    }
  }

  lemma FirstSpace(d: string, rest: string)
    requires ' ' !in d
    ensures Find(d + " " + rest, " ") == |d|
  {
    hide FindFrom;
    var view := d + " " + rest;
    assert view[|d|..|d| + 1] == " ";
    forall j: nat | j < |d| ensures !At(view, " ", j) {
      assert view[j..j + 1] == [d[j]];
    }
    FindIs(view, " ", |d|);
  }

  lemma StatusCodeRead(code: nat, text: string, rest: string)
    requires code > 0
    ensures StatusCode(Status(code, text) + rest) == Some(code as int)
  {
    AtoiOfDecimal(code);
    hide Atoi, Find;
    var d, t, tail := Decimal(code), Status(code, text) + rest, text + rest;
    hide Decimal;
    assert t == "HTTP/1.0 " + ((d + " ") + tail);
    hide Status;
    assert t[9..] == (d + " ") + tail;
    CStrSkips(d + " ", tail);
    FirstSpace(d, CStr(tail));
    assert (d + " " + CStr(tail))[..|d|] == d;
  }

  lemma NewlineEndsStatus(code: nat, text: string, rest: string)
    requires '\n' !in text
    ensures Find(Status(code, text) + CRLF + rest, "\n") == |Status(code, text)| + 1
    ensures (Status(code, text) + CRLF + rest)[|Status(code, text)| + 2..] == rest
  {
    var d := Decimal(code);
    hide Decimal, FindFrom;
    var s := Status(code, text);
    var t, n := s + CRLF + rest, |s| + 1;
    assert '\n' !in s;
    assert t[n..n + 1] == "\n";
    forall j: nat | j < n ensures !At(t, "\n", j) {
      assert t[j..j + 1] == [if j < |s| then s[j] else '\r'];
    }
    FindIs(t, "\n", n);
  }

  // ---------- the header section ----------

  lemma NotEmptyLine(header: (string, string))
    ensures Line(header) != ""
  {
  }

  lemma {:induction false} SectionAfterBlank(headers: seq<(string, string)>, content: string)
    requires CrlfFree(headers)
    ensures AfterBlank(Section(headers, content)) == Some(content)
    decreases |headers|
  {
    SectionStart(headers, content);
    if headers != [] {
      var line, rest := Line(headers[0]), Section(headers[1..], content);
      SectionParts(headers, content);
      JoinedLine(headers[0].0, headers[0].1);
      hide Section, Line, Find;
      LineFound(line, rest);
      assert line != "" by { NotEmptyLine(headers[0]); }
      assert (line + CRLF + rest)[|line| + 2..] == rest;
      AfterBlankStep(line + CRLF + rest);
      hide AfterBlank;
      SectionAfterBlank(headers[1..], content);
    }
  }

  // ---------- the round trip ----------

  lemma CodeTextIsPlain(code: nat)
    requires Server.CodeText(code).Some?
    ensures '\n' !in Server.CodeText(code).value && code > 0
  {
  }

  lemma StatusRegroup(a: string, b: string, c: string)
    ensures a + b + c == a + (b + c)
  {
  }

  /** The client parses what `send` printed into the same code and the same content. */
  lemma ResponseParses(keys: seq<string>, code: nat, contentType: string, headers: seq<(string, string)>,
                       contentLength: Option<nat>, content: string)
    requires Printable(code, contentType, headers)
    ensures var response := Server.ResponseText(code, Server.CodeText(code).value, contentType, HeaderLines(headers),
                                                contentLength, content);
            Parse(keys, response).Some?
            && Parse(keys, response).value.code == code
            && Parse(keys, response).value.parsed.payload == Some(content)
            && response[Find(response, "\n") + 1..] == Section(AllHeaders(contentType, headers, contentLength), content)
  {
    var text := Server.CodeText(code).value;
    var all := AllHeaders(contentType, headers, contentLength);
    CodeTextIsPlain(code);
    ResponseParts(code, text, contentType, headers, contentLength, content);
    AllCrlfFree(contentType, headers, contentLength);
    hide Server.ResponseText, Server.CodeText, AllHeaders, Section, Status, Parse, Find, AfterBlank, StatusCode;
    hide CrlfFree;
    SectionAfterBlank(all, content);
    NewlineEndsStatus(code, text, Section(all, content));
    StatusCodeRead(code, text, CRLF + Section(all, content));
    StatusRegroup(Status(code, text), CRLF, Section(all, content));
    ParsesExactly(keys, Status(code, text) + CRLF + Section(all, content));
  }

  /** The value of the first header of this name, in any casing. */
  function FirstHeader(headers: seq<(string, string)>, name: string): Option<string> {
    if headers == [] then None
    else if SameSpelling(headers[0].0, name) then Some(headers[0].1)
    else FirstHeader(headers[1..], name)
  }

  function ValueOf(header: (string, string), name: string): Option<string> {
    if |name| <= |Line(header)| then Some(Value(name, Line(header))) else None
  }

  /** What the client takes: the rest of the first header line whose name starts with this one, in any casing. */
  function Taken(headers: seq<(string, string)>, name: string): Option<string> {
    if headers == [] then None
    else if StartsLike(headers[0].0, name) then ValueOf(headers[0], name)
    else Taken(headers[1..], name)
  }

  /** The first name that starts with this one, if any, is this one. */
  predicate RightHeader(headers: seq<(string, string)>, name: string) {
    headers == []
    || (if StartsLike(headers[0].0, name) then SameSpelling(headers[0].0, name) else RightHeader(headers[1..], name))
  }

  lemma WholeName(header: (string, string), name: string)
    requires SameSpelling(header.0, name)
    ensures StartsLike(header.0, name) && |name| == |header.0|
  {
    assert header.0[..|name|] == header.0;
  }

  lemma PrintedValue(header: (string, string), name: string)
    requires |name| == |header.0|
    ensures ValueOf(header, name) == Some(SkipSpaces(header.1))
  {
    hide SkipSpaces, SkipColon;
    assert Line(header)[|name|..] == ":" + (" " + header.1);
    ColonGone(" " + header.1);
    SkipOne(header.1);
  }

  lemma {:induction false} TakenRight(headers: seq<(string, string)>, name: string)
    requires RightHeader(headers, name)
    ensures Taken(headers, name) == FirstHeader(headers, name).Map(SkipSpaces)
  {
    if headers != [] {
      hide Value, SkipSpaces, StartsLike;
      if SameSpelling(headers[0].0, name) {
        WholeName(headers[0], name);
        PrintedValue(headers[0], name);
      } else {
        TakenRight(headers[1..], name);
      }
    }
  }

  /** A printed header line starts with a name exactly if its own name does. */
  lemma StartOfLine(header: (string, string), name: string)
    requires ':' !in name
    ensures StartsLike(Line(header), name) <==> StartsLike(header.0, name)
  {
    var line, n := Line(header), |header.0|;
    assert line[n] == ':' && line[..n] == header.0;
    if |name| <= n {
      assert line[..|name|] == header.0[..|name|];
    } else if |name| <= |line| {
      assert line[..|name|][n] == ':' && !SameLetter(':', name[n]);
    }
  }

  lemma NoLines(content: string)
    ensures LinesOf(Section([], content)) == []
  {
    SectionStart([], content);
  }

  lemma FirstOfSection(headers: seq<(string, string)>, content: string)
    requires headers != [] && CrlfFree(headers)
    ensures LinesOf(Section(headers, content)) == [Line(headers[0])] + LinesOf(Section(headers[1..], content))
  {
    var line, rest := Line(headers[0]), Section(headers[1..], content);
    SectionParts(headers, content);
    JoinedLine(headers[0].0, headers[0].1);
    LineFound(line, rest);
    NotEmptyLine(headers[0]);
    hide Section, Line, Find, CrlfFree;
    var s := line + CRLF + rest;
    assert s[..|line|] == line && s[|line| + 2..] == rest;
  }

  lemma CrlfFreeTail(headers: seq<(string, string)>)
    requires headers != [] && CrlfFree(headers)
    ensures CrlfFree(headers[1..])
  {
  }

  lemma {:induction false} SectionLines(headers: seq<(string, string)>, content: string, name: string)
    requires CrlfFree(headers) && ':' !in name
    ensures FirstStarting(LinesOf(Section(headers, content)), name) == Taken(headers, name)
    decreases |headers|
  {
    if headers == [] {
      NoLines(content);
    } else {
      CrlfFreeTail(headers);
      SectionLines(headers[1..], content, name);
      FirstOfSection(headers, content);
      StartOfLine(headers[0], name);
      hide Section, Line, StartsLike, Value, LinesOf, CrlfFree;
    }
  }

  /** The name, in this spelling, is one of those wanted, in any spelling. */
  predicate Wanted(wanted: seq<string>, asked: string) {
    '\0' !in asked && ':' !in asked && exists i :: 0 <= i < |wanted| && SameSpelling(asked, wanted[i])
  }

  lemma SpellingWanted(wanted: seq<string>, asked: string) returns (w: string)
    requires Wanted(wanted, asked)
    ensures w in wanted && SameSpelling(asked, w) && '\0' !in w
  {
    var i :| 0 <= i < |wanted| && SameSpelling(asked, wanted[i]);
    w := wanted[i];
    SpellingKeeps(asked, w, '\0');
  }

  /** Asked for in any spelling, a collected header has what the first printed header line that starts with
      it holds; if that is a header of that name, this is its value without leading spaces, and there is none
      exactly when the server printed no such header. */
  lemma ResponseHeaderTravels(wanted: seq<string>, asked: string, code: nat, contentType: string,
                              headers: seq<(string, string)>, contentLength: Option<nat>, content: string)
    requires Printable(code, contentType, headers) && Wanted(wanted, asked)
    ensures var response := Server.ResponseText(code, Server.CodeText(code).value, contentType, HeaderLines(headers),
                                                contentLength, content);
            var all := AllHeaders(contentType, headers, contentLength);
            Parse(LowerAll(wanted), response).Some?
            && var found := Client.Rendered(Parse(LowerAll(wanted), response).value).Header(asked);
               found == Taken(all, asked)
               && (RightHeader(all, asked) ==> found == FirstHeader(all, asked).Map(SkipSpaces))
  {
    var all := AllHeaders(contentType, headers, contentLength);
    var w := SpellingWanted(wanted, asked);
    ResponseParses(LowerAll(wanted), code, contentType, headers, contentLength, content);
    AllCrlfFree(contentType, headers, contentLength);
    hide Server.ResponseText, Server.CodeText, AllHeaders, Section, Parse, Find, CrlfFree, LowerAll, LinesOf;
    hide Client.Rendered, Client.Outcome.Header, HeaderLines, Wanted;
    hide RightLine, RightHeader, SameSpelling, Lower, SkipSpaces, FirstHeader, FirstNamed, FirstStarting, Taken;
    SectionLines(all, content, asked);
    if RightHeader(all, asked) {
      TakenRight(all, asked);
    }
    HeaderIgnoresCase(wanted,
                      Server.ResponseText(code, Server.CodeText(code).value, contentType, HeaderLines(headers),
                                          contentLength, content),
                      w, asked);
  }

  const ETAGS := "HTTP/1.0 200 OK" + CRLF + ETAGS_SECTION
  const ETAGS_SECTION := "etags: 1" + CRLF + ("etag: 2" + CRLF + CRLF)

  lemma StatusOk()
    ensures Status(200, "OK") == "HTTP/1.0 200 OK"
  {
    assert Decimal(200) == "200" by { assert Decimal(20) == "20"; }
    hide Decimal;
  }

  lemma BlankNow()
    ensures Find(CRLF, CRLF) == 0 && CRLF[2..] == ""
  {
    assert CRLF[0..2] == CRLF;
  }

  lemma EtagsCollected()
    ensures CollectLine(["etag"], "etags: 1", map[]) == map["etag" := "s: 1"]
    ensures CollectLine(["etag"], "etag: 2", map["etag" := "s: 1"]) == map["etag" := "s: 1"]
  {
    CStrWhole("etag");
    assert Lower("etag") == "etag";
    assert "etags: 1"[..4] == "etag" && "etags: 1"[4..] == "s: 1";
    assert "etag: 2"[..4] == "etag";
    hide CStr, Lower;
  }

  lemma EtagsSection()
    ensures ParseHeaders(["etag"], map[], ETAGS_SECTION)
            == Some(Parsed(map["etag" := "s: 1"], Some("")))
  {
    var first, second := "etags: 1", "etag: 2";
    var rest := second + CRLF + CRLF;
    hide Find, ParseHeaders, CollectLine;
    NoReturn(first);
    NoReturn(second);
    LineFound(first, rest);
    LineFound(second, CRLF);
    EtagsCollected();
    FirstOfHeaders(["etag"], map[], first + CRLF + rest);
    assert (first + CRLF + rest)[..|first|] == first && (first + CRLF + rest)[|first| + 2..] == rest;
    FirstOfHeaders(["etag"], map["etag" := "s: 1"], rest);
    assert rest[..|second|] == second && rest[|second| + 2..] == CRLF;
    BlankNow();
    FirstOfHeaders(["etag"], map["etag" := "s: 1"], CRLF);
  }

  lemma EtagsParsed()
    ensures Parse(["etag"], ETAGS) == Some(Message(200, Parsed(map["etag" := "s: 1"], Some(""))))
  {
    StatusOk();
    var status, section := Status(200, "OK"), ETAGS_SECTION;
    hide Status, Find, StatusCode, ParseHeaders;
    StatusRegroup(status, CRLF, section);
    StatusCodeRead(200, "OK", CRLF + section);
    NewlineEndsStatus(200, "OK", section);
    EtagsSection();
  }

  /** Why a name that extends a key must not come first: the value of "etag" is taken from "etags". */
  lemma LongerNameTaken()
    ensures Parse(["etag"], ETAGS).Some?
    ensures Client.Rendered(Parse(["etag"], ETAGS).value).Header("etag") == Some("s: 1")
  {
    EtagsParsed();
    hide Parse;
    assert Lower("etag") == "etag";
  }

  const TAGGED := "HTTP/1.0 200 OK" + CRLF + TAGGED_SECTION
  const TAGGED_SECTION := "ETag: 7" + CRLF + CRLF

  lemma TagMatches()
    ensures Matches("etag", "ETag: 7") && CStr("etag") == "etag"
  {
    CStrWhole("etag");
    hide CStr;
    assert "ETag: 7"[..4] == "ETag" && Lower("ETag") == "etag";
  }

  lemma TagValue()
    ensures Value("etag", "ETag: 7") == "7"
  {
    hide SkipSpaces, SkipColon;
    assert "ETag: 7"[4..] == ":" + (" " + "7");
    ColonGone(" " + "7");
    SkipOne("7");
    SkipNone("7");
  }

  lemma TagCollected()
    ensures CollectLine(["etag"], "ETag: 7", map[]) == map["etag" := "7"]
  {
    TagMatches();
    TagValue();
    hide CStr, Lower, Matches, Value;
    assert ["etag"][..0] == [];
  }

  lemma TaggedSection()
    ensures ParseHeaders(["etag"], map[], TAGGED_SECTION) == Some(Parsed(map["etag" := "7"], Some("")))
  {
    var line := "ETag: 7";
    hide Find, ParseHeaders, CollectLine;
    NoReturn(line);
    LineFound(line, CRLF);
    TagCollected();
    FirstOfHeaders(["etag"], map[], TAGGED_SECTION);
    assert TAGGED_SECTION[..|line|] == line && TAGGED_SECTION[|line| + 2..] == CRLF;
    BlankNow();
    FirstOfHeaders(["etag"], map["etag" := "7"], CRLF);
  }

  lemma TaggedParsed()
    ensures Parse(["etag"], TAGGED) == Some(Message(200, Parsed(map["etag" := "7"], Some(""))))
  {
    StatusOk();
    var status := Status(200, "OK");
    hide Status, Find, StatusCode, ParseHeaders;
    StatusRegroup(status, CRLF, TAGGED_SECTION);
    StatusCodeRead(200, "OK", CRLF + TAGGED_SECTION);
    NewlineEndsStatus(200, "OK", TAGGED_SECTION);
    TaggedSection();
  }

  /** A name in another casing is found. */
  lemma CasingIgnored()
    ensures Parse(["etag"], TAGGED).Some?
    ensures Client.Rendered(Parse(["etag"], TAGGED).value).Header("ETAG") == Some("7")
  {
    TaggedParsed();
    hide Parse;
    assert Lower("ETAG") == "etag";
  }

  // ---------- cuts ----------

  lemma {:induction false} StatusCodeKept(chunks: seq<string>, k: nat)
    requires 1 <= k <= |chunks| && StatusCode(chunks[0]).Some?
    ensures StatusCode(Concat(chunks[..k])).Some?
  {
    hide StatusCode;
    ConcatNext(chunks, k - 1);
    if k > 1 {
      StatusCodeKept(chunks, k - 1);
      StatusCodeExtends(Concat(chunks[..k - 1]), chunks[k - 1]);
    }
  }

  lemma EndsLine(s: string)
    requires EndsWith(s, CRLF)
    ensures Find(s, "\n") != NPOS
    ensures var body := s[Find(s, "\n") + 1..]; body == "" || EndsWith(body, CRLF)
  {
    hide FindFrom;
    var n := |s|;
    assert s[n - 2..][0] == '\r' && s[n - 2..][1] == '\n';
    assert s[n - 1..n] == "\n";
    assert At(s, "\n", n - 1);
    var i := Find(s, "\n");
    assert s[i..i + 1][0] == '\n';
    if i + 1 < n {
      assert i != n - 2;
      assert s[i + 1..][n - i - 3..] == s[n - 2..];
    }
  }

  /** Reads that end at line ends, or anywhere in the payload, are aligned: it is enough that the first
      one brings the status line and that every one ends with a CRLF or behind the blank line. */
  lemma CutsAtLineEnds(keys: seq<string>, chunks: seq<string>)
    requires chunks != [] && Client.Terminated(chunks[0]) && StatusCode(chunks[0]).Some?
    requires forall k :: 1 <= k <= |chunks| ==>
                           var part := Concat(chunks[..k]);
                           EndsWith(part, CRLF)
                           || (Find(part, "\n") != NPOS && AfterBlank(part[Find(part, "\n") + 1..]).Some?)
    ensures Client.LineAligned(keys, chunks)
  {
    hide StatusCode, Find, AfterBlank, Parse;
    forall k | 1 <= k <= |chunks| ensures Parse(keys, Concat(chunks[..k])).Some? {
      var part := Concat(chunks[..k]);
      StatusCodeKept(chunks, k);
      ParsesExactly(keys, part);
      if EndsWith(part, CRLF) {
        EndsLine(part);
      }
    }
  }

  const CUT_FRONT := "HTTP/1.0 200 OK\r\na"
  const CUT_BACK := ": b\r\n\r\n"

  lemma JustLetter()
    ensures !EndsWith("a", CRLF) && AfterBlank("a") == None
  {
  }

  lemma WholeHeader()
    ensures EndsWith("a: b\r\n\r\n", CRLF)
  {
    var s := "a: b\r\n\r\n";
    assert s[|s| - 2..] == CRLF;
  }

  lemma FrontVersusWhole(keys: seq<string>)
    ensures Parse(keys, CUT_FRONT).None? && Parse(keys, CUT_FRONT + CUT_BACK).Some?
  {
    var header := "a: b\r\n\r\n";
    StatusOk();
    var status := Status(200, "OK");
    assert CUT_FRONT == status + CRLF + "a" && CUT_FRONT + CUT_BACK == status + CRLF + header;
    hide Decimal, Status, Find, StatusCode, AfterBlank, Parse, EndsWith;
    NewlineEndsStatus(200, "OK", "a");
    NewlineEndsStatus(200, "OK", header);
    StatusRegroup(status, CRLF, header);
    StatusCodeRead(200, "OK", CRLF + header);
    JustLetter();
    WholeHeader();
    ParsesExactly(keys, CUT_FRONT);
    ParsesExactly(keys, CUT_FRONT + CUT_BACK);
  }

  /** A response that parses when it comes in one piece, and a cut inside a header line that stops the client. */
  lemma SplitHeaderLine(keys: seq<string>)
    ensures Client.LineAligned(keys, [CUT_FRONT + CUT_BACK]) && !Client.LineAligned(keys, [CUT_FRONT, CUT_BACK])
  {
    var whole, cut := [CUT_FRONT + CUT_BACK], [CUT_FRONT, CUT_BACK];
    FrontVersusWhole(keys);
    hide Parse;
    ConcatNext(whole, 0);
    ConcatNext(cut, 0);
    assert Concat(cut[..1]) == CUT_FRONT;
    assert Concat(whole[..1]) == CUT_FRONT + CUT_BACK;
  }

  // ---------- end to end ----------

  /** A handler answers and the client reads, with the bytes cut anywhere between lines. */
  method Exchange(conn: Server.HttpConnection, code: nat, contentType: string, content: string,
                  socket: Client.Socket, wanted: seq<string>)
    returns (r: Client.Outcome)
    requires conn.Valid() && conn.currentClient && conn.sent == "" && Printable(code, contentType, conn.headers)
    requires Client.ValidKeys(LowerAll(wanted)) && !socket.failing
    requires Client.AreReads(socket.incoming) && Client.LineAligned(LowerAll(wanted), socket.incoming)
    requires Concat(socket.incoming)
             == Server.ResponseText(code, Server.CodeText(code).value, contentType, HeaderLines(conn.headers),
                                    conn.currentContentLength, content)
    modifies conn, socket
    ensures conn.sent == Concat(old(socket.incoming))
    ensures r.Returned? && r.code == code && r.payload == content
    ensures var all := AllHeaders(contentType, old(conn.headers), old(conn.currentContentLength));
            forall asked :: Wanted(wanted, asked) ==>
              r.Header(asked) == Taken(all, asked)
              && (RightHeader(all, asked) ==> r.Header(asked) == FirstHeader(all, asked).Map(SkipSpaces))
  {
    hide Server.ResponseText, Server.CodeText, Parse, Client.LineAligned, HeaderLines, Concat, Contains, CrlfFree;
    hide Client.Outcome.Header, Wanted, RightHeader, Taken, Lower, FirstHeader, LowerAll, AllHeaders;
    ResponseParses(LowerAll(wanted), code, contentType, conn.headers, conn.currentContentLength, content);
    ghost var headers, contentLength := conn.headers, conn.currentContentLength;
    Server.KnownCodes(code);
    var sent := conn.Send(code, contentType, content);
    ghost var discarded, taken;
    r, discarded, taken := Client.ReadResponse(socket, LowerAll(wanted));
    ghost var all := AllHeaders(contentType, headers, contentLength);
    forall asked | Wanted(wanted, asked)
      ensures r.Header(asked) == Taken(all, asked)
      ensures RightHeader(all, asked) ==> r.Header(asked) == FirstHeader(all, asked).Map(SkipSpaces)
    {
      ResponseHeaderTravels(wanted, asked, code, contentType, headers, contentLength, content);
    }
  }

  lemma RequestNotEmpty(requestMethod: string, path: string, headers: seq<(string, string)>, data: string)
    ensures |Client.RequestText(requestMethod, path, headers, data)| > |data|
  {
  }

  /** A client asks and the server, whose one read brings 4096 characters at most, dispatches: on the path
      with the data exactly when it takes the right route and the request fits that read, or only whole
      header lines do not and there is no data. */
  method Ask(session: Client.Session, socket: Client.Socket, requestMethod: string, data: string,
             server: Server.HttpServer, conn: Server.HttpConnection)
    returns (r: Server.Outcome, ghost order: seq<(string, string)>)
    requires Client.ValidKeys(session.headersToCollect) && Client.AreReads(socket.incoming) && socket.outgoing == ""
    requires KnownMethod(requestMethod) && IsPath(Client.PathOf(session.uri))
    requires forall k :: k in session.headers ==> !Contains(k, CRLF) && !Contains(session.headers[k], CRLF)
    requires !server.isHandlingRequest && conn.currentPayload == ""
    modifies socket, server, conn
    ensures Client.IsOrderOf(order, session.headers)
    ensures var path := Client.PathOf(session.uri);
            var text := Client.RequestText(requestMethod, path, order, data);
            var s := Server.OneRead(text);
            r == Server.ParseRequest(old(server.router), s)
            && (r == Server.Dispatched(path, data, path in old(server.router))
                <==> RoutedRight(requestMethod, path, s) && (s == text || (data == "" && EndsWith(s, CRLF))))
    ensures var path := Client.PathOf(session.uri);
            var text := Client.RequestText(requestMethod, path, order, data);
            var s := Server.OneRead(text);
            |data| <= |text| && (|text| - |data| <= |s| && RoutedRight(requestMethod, path, s) ==>
              r == Server.Dispatched(path, data[..|s| - (|text| - |data|)], path in old(server.router)))
  {
    hide Client.RequestText, Client.PathOf, Contains, Server.ParseRequest, Client.LineAligned, Parse, NoEarlierName;
    hide RoutedRight, EndsWith, IsPath;
    var outcome;
    outcome, order := session.SendRequest(socket, requestMethod, data, true);
    ghost var path := Client.PathOf(session.uri);
    assert CrlfFree(order);
    hide CrlfFree;
    var text := socket.outgoing;
    assert text == Client.RequestText(requestMethod, path, order, data);
    var s := Server.OneRead(text);
    assert s == text[..|s|];
    RequestNotEmpty(requestMethod, path, order, data);
    RequestCutExactly(server.router, requestMethod, path, order, data, |s|);
    if |text| - |data| <= |s| && RoutedRight(requestMethod, path, s) {
      DataCut(server.router, requestMethod, path, order, data, |s|);
    }
    r := server.HandleClient(conn, Some(s));
  }
}
