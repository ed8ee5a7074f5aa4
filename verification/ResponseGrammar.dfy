/** What `Session::sendRequest` of src/openssl/client.hpp makes of a response, described on the whole
    response text, with no buffer and no reads. */
module ResponseGrammar {
  import opened Text

  type Headers = map<string, string>

  /** How far a response has been read: the headers collected, and the payload once the blank line
      has been seen. */
  datatype Parsed = Parsed(headers: Headers, payload: Option<string>)

  datatype Message = Message(code: int, parsed: Parsed)

  // ---------- one header line ----------

  function SkipSpaces(s: string): (t: string)
    ensures |t| <= |s| && t == s[|s| - |t|..]
    ensures t == "" || t[0] != ' '
    ensures forall i :: 0 <= i < |s| - |t| ==> s[i] == ' '
  {
    if s != "" && s[0] == ' ' then SkipSpaces(s[1..]) else s
  }

  function SkipColon(s: string): string {
    if s != "" && s[0] == ':' then s[1..] else s
  }

  lemma SkipOne(s: string)
    ensures SkipSpaces(" " + s) == SkipSpaces(s)
  {
    assert (" " + s)[1..] == s;
  }

  lemma SkipNone(s: string)
    requires s == "" || s[0] != ' '
    ensures SkipSpaces(s) == s
  {
  }

  lemma ColonGone(s: string)
    ensures SkipColon(":" + s) == s
  {
    assert (":" + s)[1..] == s;
  }

  /** A line belongs to a key when it starts with it, in any casing; no colon is asked for. */
  predicate Matches(key: string, line: string) {
    |key| <= |line| && Lower(line[..|key|]) == CStr(key)
  }

  function Value(key: string, line: string): string
    requires |key| <= |line|
  {
    SkipSpaces(SkipColon(line[|key|..]))
  }

  /** `emplace`: the first value of a key stays. */
  function Emplace(headers: Headers, key: string, value: string): Headers {
    if key in headers then headers else headers[key := value]
  }

  function CollectKey(key: string, line: string, headers: Headers): Headers {
    if Matches(key, line) then Emplace(headers, CStr(key), Value(key, line)) else headers
  }

  function CollectLine(keys: seq<string>, line: string, headers: Headers): Headers {
    if keys == [] then headers
    else CollectKey(keys[|keys| - 1], line, CollectLine(keys[..|keys| - 1], line, headers))
  }

  // ---------- the header lines ----------

  /** Reads header lines up to the blank line or the end of `s`; `None` if the last line is cut. */
  function ParseHeaders(keys: seq<string>, headers: Headers, s: string): Option<Parsed>
    decreases |s|
  {
    if s == "" then Some(Parsed(headers, None))
    else if Find(s, CRLF) == 0 then Some(Parsed(headers, Some(s[2..])))
    else if Find(s, CRLF) == NPOS then None
    else
      var i := Find(s, CRLF);
      ParseHeaders(keys, CollectLine(keys, s[..i], headers), s[i + 2..])
  }

  /** The state after `s` says all that is needed to read on. */
  function Resume(keys: seq<string>, p: Parsed, t: string): Option<Parsed> {
    match p.payload
    case None => ParseHeaders(keys, p.headers, t)
    case Some(payload) => Some(Parsed(p.headers, Some(payload + t)))
  }

  lemma FirstOfHeaders(keys: seq<string>, headers: Headers, s: string)
    requires s != ""
    ensures var i := Find(s, CRLF);
            ParseHeaders(keys, headers, s)
            == if i == 0 then Some(Parsed(headers, Some(s[2..])))
               else if i == NPOS then None
               else ParseHeaders(keys, CollectLine(keys, s[..i], headers), s[i + 2..])
  {
  }

  lemma NoHeaders(keys: seq<string>, headers: Headers)
    ensures ParseHeaders(keys, headers, "") == Some(Parsed(headers, None))
  {
  }

  lemma {:induction false} ParseHeadersResumes(keys: seq<string>, headers: Headers, s: string, t: string)
    requires ParseHeaders(keys, headers, s).Some?
    ensures ParseHeaders(keys, headers, s + t) == Resume(keys, ParseHeaders(keys, headers, s).value, t)
    decreases |s|
  {
    hide ParseHeaders, CollectLine, FindFrom;
    if s == "" {
      NoHeaders(keys, headers);
      assert s + t == t;
    } else {
      FirstOfHeaders(keys, headers, s);
      FirstOfHeaders(keys, headers, s + t);
      FindExtend(s, t, CRLF);
      var i := Find(s, CRLF);
      if i == 0 {
        assert (s + t)[2..] == s[2..] + t;
      } else {
        assert (s + t)[..i] == s[..i] && (s + t)[i + 2..] == s[i + 2..] + t;
        ParseHeadersResumes(keys, CollectLine(keys, s[..i], headers), s[i + 2..], t);
      }
    }
  }

  // ---------- the status line ----------

  predicate IsSpace(c: char) { c == ' ' || '\t' <= c <= '\r' }

  function SkipWhite(s: string): string {
    if s != "" && IsSpace(s[0]) then SkipWhite(s[1..]) else s
  }

  /** `atoi`, for numbers that fit an `int`. */
  function Atoi(s: string): int {
    var t := SkipWhite(s);
    if t == "" then 0
    else if t[0] == '-' then -(ReadDigits(t[1..], 0) as int)
    else if t[0] == '+' then ReadDigits(t[1..], 0)
    else ReadDigits(t, 0)
  }

  /** The white space of the C locale. */
  lemma Spaces(c: char)
    ensures IsSpace(c) <==> c in [' ', '\t', '\n', 11 as char, 12 as char, '\r']
  {
  }

  lemma {:induction false} SkipWhiteOver(white: string, rest: string)
    requires forall i :: 0 <= i < |white| ==> IsSpace(white[i])
    requires rest == "" || !IsSpace(rest[0])
    ensures SkipWhite(white + rest) == rest
  {
    if white == "" {
      assert white + rest == rest;
    } else {
      assert (white + rest)[1..] == white[1..] + rest;
      SkipWhiteOver(white[1..], rest);
    }
  }

  /** `atoi` of white space, a number with or without a sign, and whatever does not go on with a digit. */
  lemma AtoiReads(white: string, n: nat, rest: string)
    requires forall i :: 0 <= i < |white| ==> IsSpace(white[i])
    requires rest == "" || !IsDigit(rest[0])
    ensures Atoi(white + (Decimal(n) + rest)) == n
    ensures Atoi(white + ("+" + (Decimal(n) + rest))) == n
    ensures Atoi(white + ("-" + (Decimal(n) + rest))) == 0 - n
  {
    DecimalReadsBack(n, rest);
    var number := Decimal(n) + rest;
    assert IsDigit(number[0]);
    hide Decimal, ReadDigits;
    SkipWhiteOver(white, number);
    SkipWhiteOver(white, "+" + number);
    SkipWhiteOver(white, "-" + number);
    assert ("+" + number)[1..] == number && ("-" + number)[1..] == number;
  }

  /** And of what holds no number there. */
  lemma AtoiOfNothing(white: string, rest: string)
    requires forall i :: 0 <= i < |white| ==> IsSpace(white[i])
    requires rest == "" || (!IsSpace(rest[0]) && rest[0] !in "+-" && !IsDigit(rest[0]))
    ensures Atoi(white + rest) == 0
  {
    SkipWhiteOver(white, rest);
  }

  /** The length of "HTTP/1.1 ". */
  const STATUS_AT: nat := 9

  /** The number between the version and the next space, looked for up to the first NUL.  `None` when
      the text is too short, has no such space, or has no positive number there. */
  function StatusCode(s: string): Option<int> {
    if |s| < STATUS_AT + 1 then None
    else
      var view := CStr(s[STATUS_AT..]);
      var codeEnd := Find(view, " ");
      if codeEnd == NPOS then None
      else if Atoi(view[..codeEnd]) <= 0 then None
      else Some(Atoi(view[..codeEnd]))
  }

  /** The whole response: a status line up to the first newline, then the header lines. */
  function Parse(keys: seq<string>, s: string): Option<Message> {
    if StatusCode(s).None? || Find(s, "\n") == NPOS then None
    else
      match ParseHeaders(keys, map[], s[Find(s, "\n") + 1..])
      case None => None
      case Some(parsed) => Some(Message(StatusCode(s).value, parsed))
  }

  function ResumeMessage(keys: seq<string>, m: Message, t: string): Option<Message> {
    match Resume(keys, m.parsed, t)
    case None => None
    case Some(parsed) => Some(m.(parsed := parsed))
  }

  lemma {:induction false} CStrExtend(s: string, t: string)
    ensures CStr(s) <= CStr(s + t)
  {
    if s != "" && s[0] != '\0' {
      CStrExtend(s[1..], t);
      assert (s + t)[1..] == s[1..] + t;
    }
  }

  lemma StatusCodeExtends(s: string, t: string)
    requires StatusCode(s).Some?
    ensures StatusCode(s + t) == StatusCode(s)
  {
    hide Atoi, CStr;
    var v, v' := CStr(s[STATUS_AT..]), CStr((s + t)[STATUS_AT..]);
    assert (s + t)[STATUS_AT..] == s[STATUS_AT..] + t;
    CStrExtend(s[STATUS_AT..], t);
    assert v' == v + v'[|v|..];
    FindExtend(v, v'[|v|..], " ");
    assert v'[..Find(v, " ")] == v[..Find(v, " ")];
  }

  /** A response that parses so far parses on from there, whatever comes next. */
  lemma ParseResumes(keys: seq<string>, s: string, t: string)
    requires Parse(keys, s).Some?
    ensures Parse(keys, s + t) == ResumeMessage(keys, Parse(keys, s).value, t)
  {
    hide StatusCode, ParseHeaders;
    var i := Find(s, "\n") + 1;
    StatusCodeExtends(s, t);
    FindExtend(s, t, "\n");
    assert (s + t)[i..] == s[i..] + t;
    ParseHeadersResumes(keys, map[], s[i..], t);
  }

  // ---------- which texts parse ----------

  /** The text after the first blank line, if there is one. */
  function AfterBlank(s: string): Option<string> {
    if At(s, CRLF, 0) then Some(s[2..])
    else if Find(s, BLANK) != NPOS then Some(s[Find(s, BLANK) + 4..])
    else None
  }

  lemma AfterBlankStep(s: string)
    requires Find(s, CRLF) > 0
    ensures AfterBlank(s) == AfterBlank(s[Find(s, CRLF) + 2..])
  {
    hide FindFrom;
    var i := Find(s, CRLF);
    var rest := s[i + 2..];
    BlankAfterLine(s);
    CrlfAt(s, i);
    AtShift(s, CRLF, i + 2, 0);
    if At(rest, CRLF, 0) {
      assert At(s, BLANK, i);
      assert rest[2..] == s[i + 4..];
    } else if Find(rest, BLANK) != NPOS {
      assert rest[Find(rest, BLANK) + 4..] == s[Find(s, BLANK) + 4..];
    }
  }

  /** A header section parses exactly when it holds a blank line or ends with its last line; what
      follows the first blank line is the payload. */
  lemma {:induction false} HeadersComplete(keys: seq<string>, headers: Headers, s: string)
    ensures ParseHeaders(keys, headers, s).Some? <==> s == "" || EndsWith(s, CRLF) || AfterBlank(s).Some?
    ensures ParseHeaders(keys, headers, s).Some? ==> ParseHeaders(keys, headers, s).value.payload == AfterBlank(s)
    decreases |s|
  {
    var i := Find(s, CRLF);
    if i > 0 {
      hide AfterBlank, Find;
      HeadersComplete(keys, CollectLine(keys, s[..i], headers), s[i + 2..]);
      AfterBlankStep(s);
      LastLineEnds(s, i);
    } else if s == "" {
      NoLineEnd(s);
    } else if i == NPOS {
      NoLineEnd(s);
    }
  }

  /** A caller can tell from the text alone whether a response, or the part of one read so far, parses:
      it needs a status line with a positive code, and after it nothing, or whole lines, or a blank line. */
  lemma ParsesExactly(keys: seq<string>, s: string)
    ensures Parse(keys, s).Some? <==>
              StatusCode(s).Some? && Find(s, "\n") != NPOS
              && var body := s[Find(s, "\n") + 1..];
                 (body == "" || EndsWith(body, CRLF) || AfterBlank(body).Some?)
    ensures Parse(keys, s).Some? ==>
              Parse(keys, s).value.code == StatusCode(s).value
              && Parse(keys, s).value.parsed.payload == AfterBlank(s[Find(s, "\n") + 1..])
  {
    hide StatusCode, ParseHeaders, AfterBlank;
    if Find(s, "\n") != NPOS {
      HeadersComplete(keys, map[], s[Find(s, "\n") + 1..]);
    }
  }
}
