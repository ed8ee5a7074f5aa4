/** Header lookup from end to end: the keys given to `HTTPClient::headersToCollect`, the lines of the
    response and the key given to `Response::header` may differ in their casing. */
module HeaderLookup {
  import opened Text
  import opened ResponseGrammar
  import HttpClient

  function LowerAll(headers: seq<string>): seq<string> {
    if headers == [] then [] else LowerAll(headers[..|headers| - 1]) + [Lower(headers[|headers| - 1])]
  }

  lemma {:induction false} LowerAllHolds(headers: seq<string>)
    ensures |LowerAll(headers)| == |headers|
    ensures forall i :: 0 <= i < |headers| ==> LowerAll(headers)[i] == Lower(headers[i])
  {
    if headers != [] {
      LowerAllHolds(headers[..|headers| - 1]);
    }
  }

  class HTTPClient {
    var headersToCollect: seq<string>

    constructor ()
      ensures headersToCollect == []
    {
      headersToCollect := [];
    }

    method HeadersToCollect(headers: seq<string>)
      modifies this
      ensures headersToCollect == LowerAll(headers) && |headersToCollect| == |headers|
      ensures forall i :: 0 <= i < |headers| ==>
                SameSpelling(headersToCollect[i], headers[i]) && NoCapital(headersToCollect[i])
    {
      var keys := [];
      for i := 0 to |headers|
        invariant keys == LowerAll(headers[..i])
      {
        keys := keys + [Lower(headers[i])];
        assert headers[..i + 1][..i] == headers[..i];
      }
      assert headers[..|headers|] == headers;
      headersToCollect := keys;
      LowerAllHolds(headers);
      forall i | 0 <= i < |headers|
        ensures SameSpelling(headersToCollect[i], headers[i]) && NoCapital(headersToCollect[i])
      {
        LowerIs(headers[i], keys[i]);
      }
    }
  }

  /** The header lines of a response, up to the blank line. */
  function LinesOf(s: string): seq<string>
    decreases |s|
  {
    var i := Find(s, CRLF);
    if i <= 0 then [] else [s[..i]] + LinesOf(s[i + 2..])
  }

  /** The line, or name, starts with this name, in any casing. */
  predicate StartsLike(line: string, name: string) {
    |name| <= |line| && SameSpelling(line[..|name|], name)
  }

  /** The line is a header of exactly this name, in any casing. */
  predicate HasName(line: string, name: string) {
    |name| < |line| && StartsLike(line, name) && line[|name|] == ':'
  }

  /** The lines from the first that starts with the name on. */
  function FromStart(lines: seq<string>, name: string): seq<string> {
    if lines == [] || StartsLike(lines[0], name) then lines else FromStart(lines[1..], name)
  }

  /** What the code takes for the value: the rest of the first line that starts with the name. */
  function FirstStarting(lines: seq<string>, name: string): Option<string> {
    if lines == [] then None
    else if StartsLike(lines[0], name) then Some(Value(name, lines[0]))
    else FirstStarting(lines[1..], name)
  }

  /** The lines from the first header of this name on. */
  function FromName(lines: seq<string>, name: string): seq<string> {
    if lines == [] || HasName(lines[0], name) then lines else FromName(lines[1..], name)
  }

  /** What it should take: the value of the first header of this name, without its leading spaces. */
  function FirstNamed(lines: seq<string>, name: string): Option<string> {
    if lines == [] then None
    else if HasName(lines[0], name) then Some(SkipSpaces(lines[0][|name| + 1..]))
    else FirstNamed(lines[1..], name)
  }

  /** The first line that starts with the name, if any, is a header of that name. */
  predicate RightLine(lines: seq<string>, name: string) {
    FromStart(lines, name) == [] || HasName(FromStart(lines, name)[0], name)
  }

  lemma {:induction false} NameFrom(lines: seq<string>, name: string)
    ensures |FromName(lines, name)| <= |lines|
    ensures FromName(lines, name) != [] ==> HasName(FromName(lines, name)[0], name)
  {
    if lines != [] && !HasName(lines[0], name) {
      NameFrom(lines[1..], name);
    }
  }

  lemma ValueOfNamed(line: string, name: string)
    requires HasName(line, name)
    ensures Value(name, line) == SkipSpaces(line[|name| + 1..])
  {
    hide SkipSpaces, StartsLike;
    assert line[|name|..][1..] == line[|name| + 1..];
  }

  /** The line that the code takes is the one it should take exactly when it is a header of that name. */
  lemma {:induction false} RightLineExactly(lines: seq<string>, name: string)
    ensures FromStart(lines, name) == FromName(lines, name) <==> RightLine(lines, name)
    ensures RightLine(lines, name) ==> FirstStarting(lines, name) == FirstNamed(lines, name)
  {
    if lines != [] {
      RightLineExactly(lines[1..], name);
      NameFrom(lines, name);
      if HasName(lines[0], name) {
        ValueOfNamed(lines[0], name);
      }
    }
  }

  lemma StartsLikeBoth(line: string, name: string, other: string)
    requires SameSpelling(name, other)
    ensures StartsLike(line, name) <==> StartsLike(line, other)
    ensures |name| <= |line| ==> Value(name, line) == Value(other, line)
  {
    hide SkipSpaces, SkipColon, Lower;
    LowerSame(name, other);
    if |name| <= |line| {
      LowerSame(line[..|name|], name);
      LowerSame(line[..|name|], other);
    }
  }

  /** All spellings of a name are looked up alike. */
  lemma {:induction false} FirstStartingLike(lines: seq<string>, name: string, other: string)
    requires SameSpelling(name, other)
    ensures FirstStarting(lines, name) == FirstStarting(lines, other)
  {
    if lines != [] {
      StartsLikeBoth(lines[0], name, other);
      hide StartsLike, SameSpelling;
      FirstStartingLike(lines[1..], name, other);
    }
  }

  /** A key in lower case matches the lines that start with it in any casing. */
  lemma MatchesLike(key: string, line: string)
    requires Lower(key) == key && '\0' !in key
    ensures Matches(key, line) <==> StartsLike(line, key)
  {
    hide Lower, SameSpelling;
    CStrWhole(key);
    if |key| <= |line| {
      LowerSame(line[..|key|], key);
    }
  }

  lemma EmplaceAt(headers: Headers, name: string, value: string, key: string)
    ensures var r := Emplace(headers, name, value);
            if key in headers then key in r && r[key] == headers[key]
            else if name == key then key in r && r[key] == value
            else key !in r
  {
  }

  lemma MatchIsWhole(key: string, line: string)
    ensures Matches(key, line) ==> CStr(key) == key
  {
    if Matches(key, line) {
      assert |CStr(key)| == |key|;
    }
  }

  lemma CollectKeyAt(last: string, line: string, headers: Headers, key: string)
    requires '\0' !in key
    ensures var r := CollectKey(last, line, headers);
            if key in headers then key in r && r[key] == headers[key]
            else if last == key && Matches(key, line) then key in r && r[key] == Value(key, line)
            else key !in r
  {
    hide Lower, CStr, Value;
    MatchIsWhole(last, line);
    if Matches(last, line) {
      EmplaceAt(headers, last, Value(last, line), key);
    }
    CStrWhole(key);
  }

  /** What one line does to the entry of a key: only a match of that very key writes it, once. */
  lemma {:induction false} CollectLineAt(keys: seq<string>, line: string, headers: Headers, key: string)
    requires '\0' !in key
    ensures var r := CollectLine(keys, line, headers);
            if key in headers then key in r && r[key] == headers[key]
            else if key in keys && Matches(key, line) then key in r && r[key] == Value(key, line)
            else key !in r
  {
    if keys != [] {
      var last, rest := keys[|keys| - 1], keys[..|keys| - 1];
      CollectLineAt(rest, line, headers, key);
      CollectKeyAt(last, line, CollectLine(rest, line, headers), key);
      assert keys == rest + [last];
      hide Matches, CollectKey, Value;
    }
  }

  lemma FirstOfLines(s: string, key: string)
    requires Find(s, CRLF) > 0
    ensures var line, lines := s[..Find(s, CRLF)], LinesOf(s[Find(s, CRLF) + 2..]);
            LinesOf(s) == [line] + lines
            && FirstStarting(LinesOf(s), key)
               == if StartsLike(line, key) then Some(Value(key, line)) else FirstStarting(lines, key)
  {
    hide Find, StartsLike;
    var line, lines := s[..Find(s, CRLF)], LinesOf(s[Find(s, CRLF) + 2..]);
    var all := LinesOf(s);
    assert all == [line] + lines && all[1..] == lines && all[0] == line;
  }

  /** Collecting from a header section gives each key the rest of the first line that starts with it. */
  lemma {:induction false} CollectedFirst(keys: seq<string>, headers: Headers, s: string, key: string)
    requires ParseHeaders(keys, headers, s).Some? && key in keys && Lower(key) == key && '\0' !in key
    ensures var r := ParseHeaders(keys, headers, s).value.headers;
            if key in headers then key in r && r[key] == headers[key]
            else if FirstStarting(LinesOf(s), key).Some? then key in r && r[key] == FirstStarting(LinesOf(s), key).value
            else key !in r
    decreases |s|
  {
    var i := Find(s, CRLF);
    if i > 0 {
      var line, rest := s[..i], s[i + 2..];
      FirstOfLines(s, key);
      CollectLineAt(keys, line, headers, key);
      MatchesLike(key, line);
      hide CollectLine, Matches, StartsLike, Value, Find, LinesOf, Lower;
      CollectedFirst(keys, CollectLine(keys, line, headers), rest, key);
    }
  }

  lemma {:induction false} OnlyKeysCollected(keys: seq<string>, headers: Headers, s: string, name: string)
    requires ParseHeaders(keys, headers, s).Some? && '\0' !in name && name !in keys && name !in headers
    ensures name !in ParseHeaders(keys, headers, s).value.headers
    decreases |s|
  {
    var i := Find(s, CRLF);
    if i > 0 {
      CollectLineAt(keys, s[..i], headers, name);
      OnlyKeysCollected(keys, CollectLine(keys, s[..i], headers), s[i + 2..], name);
    }
  }

  lemma SpellingKeeps(s: string, t: string, c: char)
    requires SameSpelling(s, t) && c < 'A' && c !in s
    ensures c !in t && c !in Lower(t)
  {
    forall i | 0 <= i < |t| ensures t[i] != c && Lower(t)[i] != c {
      assert SameLetter(s[i], t[i]) && s[i] in s;
    }
  }

  lemma LowerTwice(s: string)
    ensures Lower(Lower(s)) == Lower(s)
  {
    assert forall i :: 0 <= i < |s| ==> Lower(Lower(s))[i] == Lower(s)[i];
  }

  /** `Response::header` on a response that was read: for every spelling `asked` of a collected name, the
      rest of the first line that starts with the name in whatever spelling.  If that line is a header of
      that name, this is the value of the first such header, and nothing exactly when there is none. */
  lemma HeaderIgnoresCase(wanted: seq<string>, response: string, w: string, asked: string)
    requires w in wanted && SameSpelling(asked, w) && '\0' !in w
    requires Parse(LowerAll(wanted), response).Some?
    ensures var lines, found := LinesOf(response[Find(response, "\n") + 1..]),
                                HttpClient.Rendered(Parse(LowerAll(wanted), response).value).Header(asked);
            found == FirstStarting(lines, asked)
            && (RightLine(lines, asked) ==> found == FirstNamed(lines, asked))
  {
    hide Find, ParseHeaders, StatusCode, FirstNamed, FirstStarting, RightLine, LowerAll, LinesOf;
    LowerAllHolds(wanted);
    var i :| 0 <= i < |wanted| && wanted[i] == w;
    assert LowerAll(wanted)[i] == Lower(w);
    SpellingKeeps(w, w, '\0');
    LowerTwice(w);
    LowerSame(asked, w);
    LowerSame(Lower(w), asked);
    hide SameSpelling, Lower;
    var section := response[Find(response, "\n") + 1..];
    CollectedFirst(LowerAll(wanted), map[], section, Lower(w));
    FirstStartingLike(LinesOf(section), Lower(w), asked);
    RightLineExactly(LinesOf(section), asked);
  }
}
