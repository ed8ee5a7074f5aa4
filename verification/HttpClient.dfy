/** `Session::sendRequest` of src/openssl/client.hpp: prints a request to a socket and parses the
    response out of a fixed buffer, as the reads bring it. */
module HttpClient {
  import opened Text
  import opened ResponseGrammar

  const BUFFER_SIZE: nat := 8192

  /** How `sendRequest` ends. */
  datatype Outcome =
    | Returned(headers: Headers, payload: string, code: int)  // the final return
    | NoResponse(code: int)                                   // nothing was read at all
    | IoError                                                 // Response(NetworkStatus::IO_ERROR)
    | Panicked                                                // iop_panic
    | Overread                                                // the status view runs past the buffer
  {
    /** `Response::header`. */
    function Header(key: string): Option<string> {
      if Returned? && Lower(key) in headers then Some(headers[Lower(key)]) else None
    }
  }

  /** A connection.  `incoming` is what each coming read would find; after the last of them, reads
      fail if `failing`, and report the end of the stream otherwise. */
  class Socket {
    var incoming: seq<string>
    const failing: bool
    var outgoing: string

    constructor (incoming: seq<string>, failing: bool)
      ensures this.incoming == incoming && this.failing == failing && outgoing == ""
    {
      this.incoming, this.failing, outgoing := incoming, failing, "";
    }

    method Send(msg: string)
      modifies this`outgoing
      ensures outgoing == old(outgoing) + msg
    {
      outgoing := outgoing + msg;
    }

    /** `Send`, when `text` has been sent since the output was `before`. */
    method SendMore(msg: string, ghost before: string, ghost text: string)
      requires outgoing == before + text
      modifies this`outgoing
      ensures outgoing == before + (text + msg)
    {
      Send(msg);
    }

    /** Reads at most `len` bytes into `buffer` at `at`; a negative result is an error. */
    method Recv(buffer: array<char>, at: nat, len: nat) returns (n: int)
      requires at + len <= buffer.Length
      modifies this`incoming, buffer
      ensures old(incoming) == [] ==> n == (if failing then -1 else 0) && incoming == []
      ensures old(incoming) != [] && |old(incoming)[0]| <= len ==>
                n == |old(incoming)[0]| && incoming == old(incoming)[1..]
      ensures old(incoming) != [] && |old(incoming)[0]| > len ==>
                n == len && incoming == [old(incoming)[0][len..]] + old(incoming)[1..]
      ensures old(incoming) == [] ==> buffer[..] == old(buffer[..])
      ensures old(incoming) != [] ==>
                buffer[..] == old(buffer[..at]) + old(incoming)[0][..n] + old(buffer[at + n..])
    {
      if incoming == [] {
        return if failing then -1 else 0;
      }
      var chunk := incoming[0];
      var k := if |chunk| <= len then |chunk| else len;
      forall i | 0 <= i < k {
        buffer[at + i] := chunk[i];
      }
      incoming := (if k == |chunk| then [] else [chunk[k..]]) + incoming[1..];
      return k;
    }
  }

  /** From `size` on, the buffer is NUL. */
  ghost predicate Clean(buffer: array<char>, size: nat)
    reads buffer
  {
    buffer.Length == BUFFER_SIZE && size <= BUFFER_SIZE && forall i :: size <= i < BUFFER_SIZE ==> buffer[i] == '\0'
  }

  /** `shiftChars`: drops the first `start` bytes and keeps the next `end`, by a `memmove` and a `memset`. */
  method ShiftChars(buffer: array<char>, start: nat, end: nat)
    requires buffer.Length == BUFFER_SIZE && start + end <= BUFFER_SIZE
    modifies buffer
    ensures buffer[..end] == old(buffer[start..start + end])
    ensures Clean(buffer, end)
  {
    forall i | 0 <= i < end {
      buffer[i] := buffer[start + i];
    }
    forall i | end <= i < BUFFER_SIZE {
      buffer[i] := '\0';
    }
  }

  method Clear(buffer: array<char>)
    requires buffer.Length == BUFFER_SIZE
    modifies buffer
    ensures Clean(buffer, 0)
  {
    forall i | 0 <= i < BUFFER_SIZE {
      buffer[i] := '\0';
    }
  }

  /** No match of the key can reach into the end of a line.  A key with a NUL never matches. */
  predicate ValidKey(key: string) { '\0' in key || (!Contains(key, CRLF) && !EndsWith(key, "\r")) }

  predicate ValidKeys(keys: seq<string>) { forall i :: 0 <= i < |keys| ==> ValidKey(keys[i]) }

  /** One turn of the loop over the collected keys, on the whole view of the buffer. */
  function CollectView(key: string, buff: string, headers: Headers): Headers {
    if |buff| < |key| + 2 then headers
    else if Lower(buff[..|key|]) != CStr(key) then headers
    else
      var valueView := SkipSpaces(SkipColon(buff[|key|..]));
      var end := Find(valueView, CRLF);
      Emplace(headers, CStr(key), if end == NPOS then valueView else valueView[..end])
  }

  lemma {:induction false} SpacesThen(s: string, t: string)
    requires t != "" && t[0] != ' '
    ensures SkipSpaces(s + t) == SkipSpaces(s) + t
  {
    if s == "" {
      assert s + t == t;
    } else {
      assert (s + t)[1..] == s[1..] + t;
      SpacesThen(s[1..], t);
    }
  }

  lemma ColonThen(s: string, t: string)
    requires t != "" && t[0] != ':'
    ensures SkipColon(s + t) == SkipColon(s) + t
  {
    if s == "" {
      assert s + t == t;
    } else {
      assert (s + t)[1..] == s[1..] + t;
    }
  }

  lemma ColonThenSpaces(s: string, t: string)
    requires t != "" && t[0] == '\r'
    ensures SkipSpaces(SkipColon(s + t)) == SkipSpaces(SkipColon(s)) + t
    ensures var v := SkipSpaces(SkipColon(s)); |v| <= |s| && v == s[|s| - |v|..]
  {
    ColonThen(s, t);
    SpacesThen(SkipColon(s), t);
  }

  lemma ValueInView(key: string, buff: string)
    requires |key| <= Find(buff, CRLF)
    ensures var line := buff[..Find(buff, CRLF)];
            var view := SkipSpaces(SkipColon(buff[|key|..]));
            Find(view, CRLF) == |Value(key, line)| && view[..Find(view, CRLF)] == Value(key, line)
  {
    hide SkipSpaces, SkipColon;
    var i := Find(buff, CRLF);
    var rest, lineView := buff[i..], buff[..i][|key|..];
    CrlfAt(buff, i);
    FindShift(buff, CRLF, |key|);
    assert buff[|key|..] == lineView + rest;
    ColonThenSpaces(lineView, rest);
    var value := SkipSpaces(SkipColon(lineView));
    FindShift(lineView + rest, CRLF, |lineView| - |value|);
    assert (lineView + rest)[|lineView| - |value|..] == value + rest;
  }

  lemma ShortLine(key: string, buff: string)
    requires ValidKey(key) && 0 <= Find(buff, CRLF) < |key| <= |buff|
    ensures Lower(buff[..|key|]) != CStr(key)
  {
    hide CStr, FindFrom;
    var i := Find(buff, CRLF);
    CrlfAt(buff, i);
    CrlfAt(key, i);
    var lowered := Lower(buff[..|key|]);
    assert lowered[i] == '\r' && (i + 1 < |key| ==> lowered[i + 1] == '\n');
    if i + 1 == |key| {
      assert key[i..] == [key[i]];
    }
    assert |CStr(key)| == |key| ==> CStr(key) == key;
  }

  /** Looking at the whole view is looking at its first line: a match cannot reach into the CRLF, and
      skipping spaces stops at the CRLF at the latest. */
  lemma ViewIsLine(key: string, buff: string, headers: Headers)
    requires ValidKey(key) && Find(buff, CRLF) >= 0
    ensures CollectView(key, buff, headers) == CollectKey(key, buff[..Find(buff, CRLF)], headers)
  {
    hide SkipSpaces, SkipColon, CStr, Find, Emplace, Lower;
    var i := Find(buff, CRLF);
    if |key| <= i {
      CrlfAt(buff, i);
      assert buff[..|key|] == buff[..i][..|key|];
      ValueInView(key, buff);
    } else if |buff| >= |key| + 2 {
      ShortLine(key, buff);
    }
  }

  /** A view in which a key that is not valid matches beyond its first line. */
  lemma KeyOverLineEnd(key: string) returns (buff: string)
    requires !ValidKey(key)
    ensures key <= buff && |buff| >= |key| + 2 && 0 <= Find(buff, CRLF) < |key|
  {
    hide FindFrom;
    if Contains(key, CRLF) {
      buff := key + CRLF;
      FindExtend(key, CRLF, CRLF);
    } else {
      buff := key + "\n\n";
      assert key[|key| - 1..][0] == '\r';
      CrlfAt(buff, |key| - 1);
    }
  }

  lemma OverLineEnd(key: string, buff: string)
    requires Lower(key) == key && '\0' !in key
    requires key <= buff && |buff| >= |key| + 2 && 0 <= Find(buff, CRLF) < |key|
    ensures CollectView(key, buff, map[]) != CollectKey(key, buff[..Find(buff, CRLF)], map[])
  {
    hide Find, SkipSpaces, SkipColon;
    CStrWhole(key);
    assert buff[..|key|] == key;
  }

  /** That the whole view and its first line collect alike is true of exactly these keys. */
  lemma ViewIsLineExactly(key: string)
    requires Lower(key) == key
    ensures ValidKey(key)
            <==> forall buff, headers :: Find(buff, CRLF) >= 0 ==>
                   CollectView(key, buff, headers) == CollectKey(key, buff[..Find(buff, CRLF)], headers)
  {
    hide CollectView, CollectKey, Find;
    if ValidKey(key) {
      forall buff, headers | Find(buff, CRLF) >= 0
        ensures CollectView(key, buff, headers) == CollectKey(key, buff[..Find(buff, CRLF)], headers)
      {
        ViewIsLine(key, buff, headers);
      }
    } else {
      var buff := KeyOverLineEnd(key);
      OverLineEnd(key, buff);
    }
  }

  /** The loop over the collected keys, for the header line at the front of the view. */
  method CollectHeaders(keys: seq<string>, buff: string, headers: Headers) returns (responseHeaders: Headers)
    requires ValidKeys(keys) && Find(buff, CRLF) >= 0
    ensures responseHeaders == CollectLine(keys, buff[..Find(buff, CRLF)], headers)
  {
    hide Find, SkipSpaces, CStr, Lower;
    ghost var line := buff[..Find(buff, CRLF)];
    responseHeaders := headers;
    for i := 0 to |keys|
      invariant responseHeaders == CollectLine(keys[..i], line, headers)
    {
      var key := keys[i];
      ViewIsLine(key, buff, responseHeaders);
      assert keys[..i + 1][..i] == keys[..i];
      if |buff| < |key| + 2 { continue; }
      var headerKey := Lower(buff[..|key|]);
      if headerKey != CStr(key) { continue; }
      var valueView := SkipSpaces(SkipColon(buff[|key|..]));
      var end := Find(valueView, CRLF);
      var value := if end == NPOS then valueView else valueView[..end];
      responseHeaders := Emplace(responseHeaders, CStr(key), value);
    }
    assert keys[..|keys|] == keys;
  }

  lemma Rejoin(front: string, s: string, k: nat)
    requires k <= |s|
    ensures (front + s[..k]) + s[k..] == front + s
  {
  }

  /** The loop over the header lines in the buffer.  It ends at the blank line, with `isPayload`, or
      when the buffer is used up; a line that is cut makes it fail. */
  method ReadHeaderLines(buffer: array<char>, size0: nat, keys: seq<string>, headers: Headers)
    returns (ok: bool, size: nat, isPayload: bool, responseHeaders: Headers, ghost discarded: string)
    requires Clean(buffer, size0) && ValidKeys(keys)
    modifies buffer
    ensures Clean(buffer, size)
    ensures ok <==> ParseHeaders(keys, headers, old(buffer[..size0])).Some?
    ensures ok ==> ParseHeaders(keys, headers, old(buffer[..size0]))
                   == Some(Parsed(responseHeaders, if isPayload then Some(buffer[..size]) else None))
    ensures ok && !isPayload ==> size == 0
    ensures discarded + buffer[..size] == old(buffer[..size0])
  {
    hide Find, CollectLine, ParseHeaders;
    size, isPayload, responseHeaders := size0, false, headers;
    discarded := "";
    while size > 0 && !isPayload
      invariant Clean(buffer, size)
      invariant ParseHeaders(keys, headers, old(buffer[..size0]))
                == if isPayload then Some(Parsed(responseHeaders, Some(buffer[..size])))
                   else ParseHeaders(keys, responseHeaders, buffer[..size])
      invariant discarded + buffer[..size] == old(buffer[..size0])
      decreases if isPayload then 0 else 1, size
    {
      var buff := buffer[..size];
      var newline := Find(buff, CRLF);
      FirstOfHeaders(keys, responseHeaders, buff);
      if newline == 0 {
        Rejoin(discarded, buff, 2);
        size := size - 2;
        ShiftChars(buffer, 2, size);
        isPayload := true;
        assert buffer[..size] == buff[2..];
        discarded := discarded + buff[..2];
      } else if newline != NPOS {
        responseHeaders := CollectHeaders(keys, buff, responseHeaders);
        var startIndex := newline + 2;
        Rejoin(discarded, buff, startIndex);
        size := size - startIndex;
        ShiftChars(buffer, startIndex, size);
        assert buffer[..size] == buff[startIndex..];
        discarded := discarded + buff[..startIndex];
      } else {
        ok := false;
        return;
      }
    }
    NoHeaders(keys, responseHeaders);
    assert size == 0 ==> buffer[..size] == "";
    ok := true;
  }

  /** The status view is a C string: the bytes of the first read, or the NUL tail behind them, must end it. */
  predicate Terminated(chunk: string) {
    |chunk| < BUFFER_SIZE || '\0' in chunk[STATUS_AT..]
  }

  lemma {:induction false} CStrEnds(s: string)
    ensures '\0' in s <==> |CStr(s)| < |s|
  {
    if s != "" && s[0] != '\0' {
      CStrEnds(s[1..]);
      assert s == [s[0]] + s[1..];
    }
  }

  lemma {:induction false} CStrBefore(s: string, t: string)
    requires '\0' in s || (t != "" && t[0] == '\0')
    ensures CStr(s + t) == CStr(s)
  {
    if s == "" {
      assert s + t == t;
    } else if s[0] != '\0' {
      assert s == [s[0]] + s[1..] && (s + t)[1..] == s[1..] + t;
      CStrBefore(s[1..], t);
    }
  }

  lemma NothingEndsIt(buffer: array<char>, size: nat)
    requires Clean(buffer, size) && size > STATUS_AT && '\0' !in buffer[STATUS_AT..]
    ensures !Terminated(buffer[..size])
  {
    assert buffer[STATUS_AT..][BUFFER_SIZE - 1 - STATUS_AT] == buffer[BUFFER_SIZE - 1];
    if size == BUFFER_SIZE {
      assert buffer[..size][STATUS_AT..] == buffer[STATUS_AT..];
    }
  }

  lemma SomethingEndsIt(buffer: array<char>, size: nat)
    requires Clean(buffer, size) && size > STATUS_AT && '\0' in buffer[STATUS_AT..]
    ensures Terminated(buffer[..size])
    ensures '\0' in buffer[..size][STATUS_AT..] || (size < BUFFER_SIZE && buffer[size..][0] == '\0')
  {
    if size == BUFFER_SIZE {
      assert buffer[..size][STATUS_AT..] == buffer[STATUS_AT..];
    }
  }

  /** Reads the status line at the front of the buffer and drops it. */
  method ReadStatusLine(buffer: array<char>, size0: nat) returns (failure: Option<Outcome>, size: nat, status: int)
    requires Clean(buffer, size0) && size0 > STATUS_AT && Find(buffer[..size0], "\n") != NPOS
    modifies buffer
    ensures Clean(buffer, size)
    ensures failure.Some? ==> failure.value == if Terminated(old(buffer[..size0])) then IoError else Overread
    ensures var c := old(buffer[..size0]);
            if failure.None? then
              Terminated(c) && StatusCode(c) == (if status > 0 then Some(status) else None)
              && buffer[..size] == c[Find(c, "\n") + 1..]
            else !Terminated(c) || StatusCode(c).None?
  {
    hide Find, Atoi, CStr;
    ghost var c := buffer[..size0];
    size := size0;
    var statusStr := CStr(buffer[STATUS_AT..]);
    CStrEnds(buffer[STATUS_AT..]);
    assert buffer[STATUS_AT..] == c[STATUS_AT..] + buffer[size0..];
    if |statusStr| == BUFFER_SIZE - STATUS_AT {
      NothingEndsIt(buffer, size0);
      return Some(Overread), size, 0;
    }
    SomethingEndsIt(buffer, size0);
    CStrBefore(c[STATUS_AT..], buffer[size0..]);
    var codeEnd := Find(statusStr, " ");
    if codeEnd == NPOS {
      return Some(IoError), size, 0;
    }
    status := Atoi(statusStr[..codeEnd]);
    var newlineIndex := Find(buffer[..size], "\n") + 1;
    size := size - newlineIndex;
    ShiftChars(buffer, newlineIndex, size);
    failure := None;
  }

  /** How the loop ends on a read that it cannot parse. */
  function FailureOn(firstLine: bool, chunk: string): (r: Outcome)
    ensures r in {IoError, Panicked, Overread}
    ensures r == Panicked <==> !Contains(chunk, "\n")
    ensures r == Overread <==> Contains(chunk, "\n") && firstLine && |chunk| >= 8192 && '\0' !in chunk[9..]
  {
    if Find(chunk, "\n") == NPOS then Panicked
    else if firstLine && !Terminated(chunk) then Overread
    else IoError
  }

  lemma JoinParts(s: string, k: nat, middle: string, end: string)
    requires k <= |s| && middle + end == s[k..]
    ensures (s[..k] + middle) + end == s
  {
  }

  lemma NewlineInCrlf(buff: string)
    requires Find(buff, "\n") == NPOS
    ensures Find(buff, CRLF) == NPOS
  {
    var i := Find(buff, CRLF);
    if i != NPOS {
      CrlfAt(buff, i);
      assert At(buff, "\n", i + 1);
    }
  }

  lemma TooShort(buff: string)
    requires |buff| < STATUS_AT + 1
    ensures StatusCode(buff).None? && Terminated(buff)
  {
  }

  /** What one turn of the main loop makes of the bytes just read, up to the payload. */
  method ParseChunk(buffer: array<char>, size0: nat, keys: seq<string>, firstLine: bool, isPayload0: bool,
                    headers: Headers, status0: int)
    returns (failure: Option<Outcome>, size: nat, isPayload: bool, responseHeaders: Headers, status: int,
             ghost discarded: string)
    requires Clean(buffer, size0) && size0 > 0 && ValidKeys(keys)
    requires firstLine ==> !isPayload0 && headers == map[]
    requires !firstLine ==> status0 > 0
    modifies buffer
    ensures Clean(buffer, size)
    ensures failure.Some? ==> failure.value == FailureOn(firstLine, old(buffer[..size0]))
    ensures failure.None? ==> discarded + buffer[..size] == old(buffer[..size0])
    ensures failure.None? && !isPayload ==> size == 0
    ensures !firstLine && isPayload0 ==>
              failure.None? && isPayload && responseHeaders == headers && status == status0
              && discarded == "" && size == size0
    ensures !firstLine && !isPayload0 ==>
              ParseHeaders(keys, headers, old(buffer[..size0]))
              == (if failure.Some? then None
                  else Some(Parsed(responseHeaders, if isPayload then Some(buffer[..size]) else None)))
              && (failure.None? ==> status == status0)
    ensures firstLine ==>
              var c := old(buffer[..size0]);
              if failure.None? then
                Terminated(c)
                && Parse(keys, c)
                   == Some(Message(status, Parsed(responseHeaders, if isPayload then Some(buffer[..size]) else None)))
              else !Terminated(c) || Parse(keys, c).None?
  {
    hide StatusCode, Find, CollectLine, Terminated, ParseHeaders;
    size, isPayload, responseHeaders, status := size0, isPayload0, headers, status0;
    discarded := "";
    var buff := buffer[..size];
    FirstOfHeaders(keys, headers, buff);
    if !firstLine && !isPayload && Find(buff, CRLF) == 0 {
      isPayload := true;
      size := size - 2;
      ShiftChars(buffer, 2, size);
      assert buffer[..size] == buff[2..];
      discarded := buff[..2];
    }
    if !isPayload && Find(buff, "\n") == NPOS {
      NewlineInCrlf(buff);
      return Some(Panicked), size, isPayload, responseHeaders, status, discarded;
    }
    if firstLine && size < STATUS_AT + 1 {
      TooShort(buff);
      return Some(IoError), size, isPayload, responseHeaders, status, discarded;
    }
    if firstLine {
      failure, size, status := ReadStatusLine(buffer, size);
      if failure.Some? {
        return failure, size, isPayload, responseHeaders, status, discarded;
      }
      discarded := buff[..Find(buff, "\n") + 1];
    }
    if status <= 0 {
      return Some(IoError), size, isPayload, responseHeaders, status, discarded;
    }
    if !isPayload {
      var ok;
      ghost var dropped;
      ok, size, isPayload, responseHeaders, dropped := ReadHeaderLines(buffer, size, keys, responseHeaders);
      JoinParts(buff, |discarded|, dropped, buffer[..size]);
      discarded := discarded + dropped;
      if !ok {
        return Some(IoError), size, isPayload, responseHeaders, status, discarded;
      }
    }
    failure := None;
  }

  /** What a read can bring: at least one byte and at most a buffer. */
  predicate AreReads(chunks: seq<string>) {
    forall i :: 0 <= i < |chunks| ==> 1 <= |chunks[i]| <= BUFFER_SIZE
  }

  /** The boundary after each of the first `k` reads leaves a response whose lines are all complete, and
      the status view of the first read ends. */
  ghost predicate AlignedUpTo(keys: seq<string>, chunks: seq<string>, k: nat)
    requires k <= |chunks|
  {
    (k > 0 ==> Terminated(chunks[0])) && forall j :: 1 <= j <= k ==> Parse(keys, Concat(chunks[..j])).Some?
  }

  ghost predicate LineAligned(keys: seq<string>, chunks: seq<string>) {
    chunks != [] && AlignedUpTo(keys, chunks, |chunks|)
  }

  /** Read `k`, counted from 0, is the first that splits a line. */
  ghost predicate FailsAt(keys: seq<string>, chunks: seq<string>, k: nat)
    requires k <= |chunks|
  {
    k < |chunks| && AlignedUpTo(keys, chunks, k) && !AlignedUpTo(keys, chunks, k + 1)
  }

  lemma AlignedNext(keys: seq<string>, chunks: seq<string>, k: nat)
    requires k < |chunks| && AlignedUpTo(keys, chunks, k)
    ensures AlignedUpTo(keys, chunks, k + 1)
            <==> (k == 0 ==> Terminated(chunks[0])) && Parse(keys, Concat(chunks[..k + 1])).Some?
  {
    hide Parse, Terminated;
  }

  /** Either every read is aligned, or one of them is the first that is not. */
  lemma {:induction false} AlignedOrFails(keys: seq<string>, chunks: seq<string>, k: nat)
    requires k <= |chunks| && AlignedUpTo(keys, chunks, k)
    ensures AlignedUpTo(keys, chunks, |chunks|) <==> forall n :: k <= n <= |chunks| ==> !FailsAt(keys, chunks, n)
    decreases |chunks| - k
  {
    hide Parse, Terminated;
    if k < |chunks| && AlignedUpTo(keys, chunks, k + 1) {
      AlignedOrFails(keys, chunks, k + 1);
      assert !FailsAt(keys, chunks, k);
    } else if k < |chunks| {
      assert FailsAt(keys, chunks, k);
    }
  }

  function Rendered(m: Message): Outcome {
    Returned(m.parsed.headers, m.parsed.payload.GetOr(""), m.code)
  }

  lemma ResumesAfter(keys: seq<string>, s: string, t: string, code: int, p: Parsed)
    requires Parse(keys, s) == Some(Message(code, p))
    ensures p.payload.Some? ==> Parse(keys, s + t) == Some(Message(code, Parsed(p.headers, Some(p.payload.value + t))))
    ensures p.payload.None? ==>
              Parse(keys, s + t) == (match ParseHeaders(keys, p.headers, t)
                                     case None => None
                                     case Some(parsed) => Some(Message(code, parsed)))
  {
    hide Parse, ParseHeaders;
    ParseResumes(keys, s, t);
  }

  lemma PositiveCode(keys: seq<string>, s: string)
    ensures Parse(keys, s).Some? ==> Parse(keys, s).value.code > 0
  {
  }

  /** How far the main loop is, between two reads. */
  datatype Progress = Progress(firstLine: bool, status: int, headers: Headers, isPayload: bool, payload: string) {

    /** It holds all that matters of the bytes received so far. */
    ghost predicate Holds(keys: seq<string>, received: string) {
      if firstLine then received == "" && !isPayload && payload == "" && headers == map[]
      else
        status > 0 && (!isPayload ==> payload == "")
        && Parse(keys, received) == Some(Message(status, Parsed(headers, if isPayload then Some(payload) else None)))
    }
  }

  /** At most one of the two in the middle is there: a payload has no header bytes after it. */
  lemma ConcatAssociates(d: string, p: string, dropped: string, more: string)
    requires p == "" || dropped == ""
    ensures (d + p) + (dropped + more) == (d + dropped) + (p + more)
  {
  }

  method KeepPayload(buffer: array<char>, size: nat, isPayload: bool, payload: string) returns (responsePayload: string)
    requires Clean(buffer, size) && (!isPayload ==> size == 0)
    modifies buffer
    ensures Clean(buffer, 0)
    ensures responsePayload == payload + old(buffer[..size])
  {
    responsePayload := payload;
    if isPayload && size > 0 {
      responsePayload := responsePayload + buffer[..size];
      Clear(buffer);
    } else {
      assert payload + buffer[..0] == payload;
    }
  }

  /** One turn of the main loop, on the bytes just read. */
  method Turn(buffer: array<char>, size0: nat, keys: seq<string>, p: Progress,
              ghost received: string, ghost discarded0: string)
    returns (failure: Option<Outcome>, q: Progress, ghost discarded: string)
    requires Clean(buffer, size0) && size0 > 0 && ValidKeys(keys)
    requires p.Holds(keys, received) && discarded0 + p.payload == received
    modifies buffer
    ensures failure.Some? ==> failure.value == FailureOn(p.firstLine, old(buffer[..size0]))
    ensures var c := old(buffer[..size0]);
            failure.Some? <==> (p.firstLine && !Terminated(c)) || Parse(keys, received + c).None?
    ensures failure.None? ==>
              Clean(buffer, 0) && !q.firstLine && q.Holds(keys, received + old(buffer[..size0]))
              && discarded + q.payload == received + old(buffer[..size0])
  {
    hide Parse, ParseHeaders, Terminated;
    ghost var c := buffer[..size0];
    if !p.firstLine {
      ResumesAfter(keys, received, c, p.status, Parsed(p.headers, if p.isPayload then Some(p.payload) else None));
    } else {
      assert received + c == c;
    }
    var size, isPayload, responseHeaders, status;
    ghost var dropped;
    failure, size, isPayload, responseHeaders, status, dropped :=
      ParseChunk(buffer, size0, keys, p.firstLine, p.isPayload, p.headers, p.status);
    q := p;
    if failure.Some? {
      return failure, p, discarded0;
    }
    discarded := discarded0 + dropped;
    ghost var more := buffer[..size];
    var responsePayload := KeepPayload(buffer, size, isPayload, p.payload);
    assert p.payload == "" ==> p.payload + more == more;
    assert dropped == "" ==> dropped + more == more;
    PositiveCode(keys, received + c);
    q := Progress(false, status, responseHeaders, isPayload, responsePayload);
    ConcatAssociates(discarded0, p.payload, dropped, more);
  }

  lemma AlignedBefore(keys: seq<string>, chunks: seq<string>, k: nat)
    requires k <= |chunks|
    ensures AlignedUpTo(keys, chunks, |chunks|) ==> AlignedUpTo(keys, chunks, k)
  {
    hide Parse, Terminated;
  }

  lemma NothingYet(keys: seq<string>, chunks: seq<string>, p: Progress)
    requires p.firstLine && !p.isPayload && p.payload == "" && p.headers == map[]
    ensures p.Holds(keys, "") && AlignedUpTo(keys, chunks, 0)
  {
  }

  lemma FinalProgress(keys: seq<string>, p: Progress, received: string)
    requires p.Holds(keys, received) && !p.firstLine
    ensures Parse(keys, received).Some?
    ensures Rendered(Parse(keys, received).value) == Returned(p.headers, p.payload, p.status)
  {
  }

  /** The response loop of `sendRequest`.  Every run that reaches the final return has parsed the bytes
      as a whole, however they were cut, and runs reach it exactly when no cut splits a line. */
  method ReadResponse(socket: Socket, keys: seq<string>)
    returns (r: Outcome, ghost discarded: string, ghost taken: nat)
    requires ValidKeys(keys) && AreReads(socket.incoming)
    modifies socket`incoming
    ensures var chunks := old(socket.incoming);
            r.Returned? <==> !socket.failing && LineAligned(keys, chunks)
    ensures var chunks := old(socket.incoming);
            r.Returned? ==> Some(r) == Parse(keys, Concat(chunks)).Map(Rendered)
                            && discarded + r.payload == Concat(chunks)
    ensures r.NoResponse? <==> old(socket.incoming) == [] && !socket.failing
    ensures r.NoResponse? ==> r.code == 1000
    ensures var chunks := old(socket.incoming);
            taken <= |chunks|
            && if FailsAt(keys, chunks, taken) then r == FailureOn(taken == 0, chunks[taken])
               else taken == |chunks| && (socket.failing ==> r == IoError)
  {
    hide Parse, Terminated, Progress.Holds, AlignedUpTo, FailureOn;
    var buffer := new char[BUFFER_SIZE](_ => '\0');
    var p := Progress(true, 1000, map[], false, "");
    NothingYet(keys, socket.incoming, p);
    discarded := "";
    var size := 0;
    ghost var chunks, k := socket.incoming, 0;
    while true
      invariant size == 0 && Clean(buffer, 0) && fresh(buffer)
      invariant 0 <= k <= |chunks| && socket.incoming == chunks[k..]
      invariant p.firstLine <==> k == 0
      invariant p.firstLine ==> p.status == 1000
      invariant p.Holds(keys, Concat(chunks[..k]))
      invariant AlignedUpTo(keys, chunks, k)
      invariant discarded + p.payload == Concat(chunks[..k])
      decreases |chunks| - k
    {
      var signedSize := 0;
      if size < BUFFER_SIZE {
        signedSize := socket.Recv(buffer, size, BUFFER_SIZE - size);
        if signedSize < 0 {
          return IoError, discarded, k;
        }
      }
      size := size + signedSize;
      if p.firstLine && size == 0 {
        return NoResponse(p.status), discarded, k;
      }
      if size == 0 {
        break;
      }
      assert buffer[..size] == chunks[k];
      ConcatNext(chunks, k);
      AlignedNext(keys, chunks, k);
      var failure;
      failure, p, discarded := Turn(buffer, size, keys, p, Concat(chunks[..k]), discarded);
      if failure.Some? {
        AlignedBefore(keys, chunks, k + 1);
        return failure.value, discarded, k;
      }
      k := k + 1;
      size := 0;
    }
    assert chunks[..k] == chunks;
    FinalProgress(keys, p, Concat(chunks));
    r, taken := Returned(p.headers, p.payload, p.status), k;
  }

  /** Two connections that deliver the same bytes, cut differently: if both runs reach the final return,
      they return the same status, headers and payload, and a run that does not stops with an error. */
  method ReadTwice(one: Socket, other: Socket, keys: seq<string>) returns (r: Outcome, r': Outcome)
    requires ValidKeys(keys) && one != other && AreReads(one.incoming) && AreReads(other.incoming)
    requires Concat(one.incoming) == Concat(other.incoming)
    modifies one`incoming, other`incoming
    ensures r.Returned? && r'.Returned? ==> r == r'
    ensures !r.Returned? && old(one.incoming) != [] ==> r in {IoError, Panicked, Overread}
    ensures !r'.Returned? && old(other.incoming) != [] ==> r' in {IoError, Panicked, Overread}
  {
    hide Parse, LineAligned;
    ghost var d, d', n, n';
    r, d, n := ReadResponse(one, keys);
    r', d', n' := ReadResponse(other, keys);
  }

  // ---------- the request ----------

  function HeadText(requestMethod: string, path: string, len: nat): string {
    requestMethod + " " + path + " HTTP/1.0\r\n" + "Content-Length: " + Decimal(len) + CRLF
  }

  function RequestText(requestMethod: string, path: string, headers: seq<(string, string)>, data: string): string {
    HeadText(requestMethod, path, |data|) + HeaderLines(headers) + CRLF + data
  }

  lemma HeadPrinted()
    requires Decimal(2) == "2"
    ensures HeadText("POST", "/a", 2) == "POST /a HTTP/1.0\r\n" + "Content-Length: 2\r\n"
  {
    hide Decimal;
    assert "POST" + " " + "/a" + " HTTP/1.0\r\n" == "POST /a HTTP/1.0\r\n";
    assert "Content-Length: " + "2" + CRLF == "Content-Length: 2\r\n";
  }

  /** A whole request, as it is sent. */
  lemma RequestPrinted()
    ensures RequestText("POST", "/a", [("k", "v")], "hi")
            == "POST /a HTTP/1.0\r\n" + "Content-Length: 2\r\n" + "k: v\r\n" + "\r\n" + "hi"
  {
    assert |"hi"| == 2 && Decimal(2) == "2";
    hide Decimal;
    HeadPrinted();
    assert HeaderLines([("k", "v")]) == "k: v\r\n";
    hide HeadText, HeaderLines;
    assert CRLF == "\r\n";
  }

  /** The headers of a map, each once, in some order: a hash map fixes none. */
  ghost predicate IsOrderOf(order: seq<(string, string)>, headers: Headers) {
    && (forall i :: 0 <= i < |order| ==> order[i].0 in headers && headers[order[i].0] == order[i].1)
    && (forall i, j :: 0 <= i < j < |order| ==> order[i].0 != order[j].0)
    && (forall k :: k in headers ==> exists i :: 0 <= i < |order| && order[i].0 == k)
  }

  lemma NothingSent(headers: Headers)
    ensures IsOrderOf([], headers - headers.Keys) && HeaderLines([]) == ""
  {
  }

  lemma OneMoreSent(order: seq<(string, string)>, headers: Headers, remaining: set<string>, key: string)
    requires key in remaining && remaining <= headers.Keys && IsOrderOf(order, headers - remaining)
    ensures IsOrderOf(order + [(key, headers[key])], headers - (remaining - {key}))
  {
    var order', sent := order + [(key, headers[key])], headers - (remaining - {key});
    assert order'[|order|].0 == key;
    forall k | k in sent ensures exists i :: 0 <= i < |order'| && order'[i].0 == k {
      if k != key {
        assert k in headers - remaining;
        var i :| 0 <= i < |order| && order[i].0 == k;
        assert order'[i].0 == k;
      }
    }
  }

  /** The path that is sent for a URI: its text from the first slash after the scheme on.  The slash is
      looked for behind "://" but counted from the start. */
  function PathOf(uri: string): string {
    var hostIndex := Find(uri, "://");
    var from := if hostIndex == NPOS then 0 else hostIndex + 3;
    var pathIndex := Find(CStr(uri[from..]), "/");
    if pathIndex == NPOS then "/" else CStr(uri[pathIndex..])
  }

  /** The text behind the first "://", or all of it. */
  function AfterScheme(uri: string): string {
    if Find(uri, "://") == NPOS then uri else uri[Find(uri, "://") + 3..]
  }

  /** The text from the first slash on, or a lone slash. */
  function FromSlash(s: string): string {
    if Find(s, "/") == NPOS then "/" else s[Find(s, "/")..]
  }

  /** The scheme brings a slash of its own, and something stands behind it. */
  lemma SlashOfScheme(uri: string)
    ensures Contains(uri, "://") ==>
              0 <= Find(uri, "/") <= Find(uri, "://") + 1 && Find(uri, "://") + 3 <= |uri|
  {
    hide FindFrom;
    var h := Find(uri, "://");
    if h != NPOS {
      assert uri[h..h + 3][1] == '/';
      assert uri[h + 1..h + 2] == "/";
      assert At(uri, "/", h + 1);
    }
  }

  lemma NoNulIn(s: string, k: nat)
    requires k <= |s| && '\0' !in s
    ensures '\0' !in s[k..]
  {
    forall j | 0 <= j < |s[k..]| ensures s[k..][j] != '\0' {
      assert s[k..][j] == s[k + j];
    }
  }

  lemma PathOfParts(uri: string)
    requires '\0' !in uri
    ensures var i := Find(AfterScheme(uri), "/"); PathOf(uri) == if i == NPOS then "/" else uri[i..]
    ensures !Contains(uri, "://") ==> AfterScheme(uri) == uri
  {
    hide FindFrom;
    var rest := AfterScheme(uri);
    assert uri[0..] == uri;
    NoNulIn(uri, |uri| - |rest|);
    CStrWhole(rest);
    var i := Find(rest, "/");
    if i != NPOS {
      NoNulIn(uri, i);
      CStrWhole(uri[i..]);
    }
  }

  /** For a URI whose scheme has been removed: the path sent is the text from the first slash on exactly
      when there is no "://" left, or the first slash behind it is as far from it as the first slash of all
      is from the start. */
  lemma PathOfStripped(uri: string)
    requires '\0' !in uri
    ensures PathOf(uri) == FromSlash(uri)
            <==> !Contains(uri, "://")
                 || (Contains(AfterScheme(uri), "/") && Find(AfterScheme(uri), "/") == Find(uri, "/"))
  {
    PathOfParts(uri);
    SlashOfScheme(uri);
    hide Find, PathOf;
    var p, f := Find(AfterScheme(uri), "/"), Find(uri, "/");
    if Contains(uri, "://") && p != NPOS {
      assert |uri[p..]| == |uri| - p && |uri[f..]| == |uri| - f;
    }
  }

  lemma SchemeInQuery()
    ensures Find("h:80/p?u=http://x/y", "://") == 13
  {
    hide FindFrom;
    var uri := "h:80/p?u=http://x/y";
    assert uri[13..16] == "://";
    forall j: nat | j < 13 ensures !At(uri, "://", j) {
      assert uri[j..j + 3][0] == uri[j] && uri[j..j + 3][1] == uri[j + 1];
    }
    FindIs(uri, "://", 13);
  }

  lemma SlashOfQuery()
    ensures Find("x/y", "/") == 1
  {
    hide FindFrom;
    assert "x/y"[1..2] == "/" && "x/y"[0..1] == "x";
    FindIs("x/y", "/", 1);
  }

  /** The session of "http://h:80/p?u=http://x/y" asks for a part of its port, its path and its query. */
  lemma UrlInQuery()
    ensures PathOf("h:80/p?u=http://x/y") == ":80/p?u=http://x/y"
  {
    hide PathOf, Find;
    var uri := "h:80/p?u=http://x/y";
    SchemeInQuery();
    SlashOfQuery();
    assert uri[16..] == "x/y" && uri[1..] == ":80/p?u=http://x/y";
    PathOfParts(uri);
  }

  class Session {
    const headersToCollect: seq<string>
    const uri: string
    var headers: Headers

    constructor (headersToCollect: seq<string>, uri: string)
      ensures this.headersToCollect == headersToCollect && this.uri == uri && headers == map[]
    {
      this.headersToCollect, this.uri, headers := headersToCollect, uri, map[];
    }

    method AddHeader(key: string, value: string)
      modifies this
      ensures headers == Emplace(old(headers), key, value)
    {
      headers := Emplace(headers, key, value);
    }

    method SetAuthorization(auth: string)
      modifies this
      ensures headers == if auth == "" then old(headers) else Emplace(old(headers), "Authorization", "Basic " + auth)
    {
      if |auth| == 0 {
        return;
      }
      headers := Emplace(headers, "Authorization", "Basic " + auth);
    }

    method SendHeaders(socket: Socket) returns (ghost order: seq<(string, string)>)
      modifies socket`outgoing
      ensures IsOrderOf(order, headers) && socket.outgoing == old(socket.outgoing) + HeaderLines(order)
    {
      hide HeaderLines, IsOrderOf;
      order := [];
      var remaining := headers.Keys;
      NothingSent(headers);
      while remaining != {}
        invariant remaining <= headers.Keys
        invariant IsOrderOf(order, headers - remaining)
        invariant socket.outgoing == old(socket.outgoing) + HeaderLines(order)
        decreases |remaining|
      {
        var key :| key in remaining;
        SendHeader(socket, key, headers[key], order);
        OneMoreSent(order, headers, remaining, key);
        order := order + [(key, headers[key])];
        remaining := remaining - {key};
      }
      assert headers - {} == headers;
    }

    static method SendHeader(socket: Socket, key: string, value: string, ghost order: seq<(string, string)>)
      modifies socket`outgoing
      ensures forall before :: old(socket.outgoing) == before + HeaderLines(order) ==>
                socket.outgoing == before + HeaderLines(order + [(key, value)])
    {
      hide HeaderLines;
      HeaderLinesSnoc(order, key, value);
      ghost var sent := socket.outgoing;
      socket.Send(key);
      socket.Send(": ");
      socket.Send(value);
      socket.Send(CRLF);
      assert socket.outgoing == sent + HeaderLine(key, value);
      hide HeaderLine;
    }

    /** `sendRequest`; `connected` tells whether the station has an address. */
    method SendRequest(socket: Socket, requestMethod: string, data: string, connected: bool)
      returns (r: Outcome, ghost order: seq<(string, string)>)
      requires ValidKeys(headersToCollect) && AreReads(socket.incoming)
      modifies socket
      ensures !connected ==> r == IoError && socket.outgoing == old(socket.outgoing)
      ensures connected ==>
                IsOrderOf(order, headers)
                && socket.outgoing == old(socket.outgoing) + RequestText(requestMethod, PathOf(uri), order, data)
                && (r.Returned? <==> !socket.failing && LineAligned(headersToCollect, old(socket.incoming)))
                && (r.Returned? ==> Some(r) == Parse(headersToCollect, Concat(old(socket.incoming))).Map(Rendered))
    {
      hide Parse, LineAligned, PathOf, HeaderLines, Concat, Decimal;
      order := [];
      if !connected {
        return IoError, order;
      }
      ghost var before := socket.outgoing;
      var path := PathOf(uri);
      SendHead(socket, requestMethod, path, |data|);
      ghost var head := HeadText(requestMethod, path, |data|);
      hide HeadText;
      order := SendHeaders(socket);
      socket.SendMore(CRLF, before, head + HeaderLines(order));
      socket.SendMore(data, before, head + HeaderLines(order) + CRLF);
      ghost var discarded, taken;
      r, discarded, taken := ReadResponse(socket, headersToCollect);
    }

    static method SendHead(socket: Socket, requestMethod: string, path: string, len: nat)
      modifies socket`outgoing
      ensures socket.outgoing == old(socket.outgoing) + HeadText(requestMethod, path, len)
    {
      hide Decimal;
      ghost var before, text := socket.outgoing, "";
      socket.SendMore(requestMethod, before, text);
      text := requestMethod;
      socket.SendMore(" ", before, text);
      text := text + " ";
      socket.SendMore(path, before, text);
      text := text + path;
      socket.SendMore(" HTTP/1.0\r\n", before, text);
      text := text + " HTTP/1.0\r\n";
      socket.SendMore("Content-Length: ", before, text);
      text := text + "Content-Length: ";
      socket.SendMore(Decimal(len), before, text);
      text := text + Decimal(len);
      socket.SendMore(CRLF, before, text);
    }
  }
}
