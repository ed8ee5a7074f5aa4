/** The operations of `std::string` and `std::string_view` that the parsers and printers share.
    A text is a sequence of `char`, one per byte. */
module Text {

  datatype Option<+T> = None | Some(value: T) {
    function GetOr(default: T): T {
      if Some? then value else default
    }

    function Map<U>(f: T -> U): Option<U> {
      if Some? then Option.Some(f(value)) else Option.None
    }
  }

  /** What a stream delivers in chunks, as a whole. */
  function Concat<T>(chunks: seq<seq<T>>): seq<T> {
    if chunks == [] then [] else Concat(chunks[..|chunks| - 1]) + chunks[|chunks| - 1]
  }

  lemma ConcatNext<T>(chunks: seq<seq<T>>, k: nat)
    requires k < |chunks|
    ensures Concat(chunks[..k + 1]) == Concat(chunks[..k]) + chunks[k]
    ensures k == 0 ==> Concat(chunks[..k + 1]) == chunks[0]
  {
    assert chunks[..k + 1][..k] == chunks[..k];
  }

  /** What `find` returns when there is no occurrence. */
  const NPOS: int := -1

  const CRLF: string := ['\r', '\n']

  /** The end of a line followed by an empty line. */
  const BLANK: string := ['\r', '\n', '\r', '\n']

  predicate At(s: string, p: string, i: nat) {
    i + |p| <= |s| && s[i..i + |p|] == p
  }

  function FindFrom(s: string, p: string, from: nat): (i: int)
    requires from <= |s| + 1
    ensures i == NPOS || (i >= from && At(s, p, i))
    ensures forall j: nat :: from <= j && (i == NPOS || j < i) ==> !At(s, p, j)
    decreases |s| + 1 - from
  {
    if from + |p| > |s| then NPOS
    else if s[from..from + |p|] == p then from
    else FindFrom(s, p, from + 1)
  }

  /** `s.find(p)`: the place of the first occurrence. */
  function Find(s: string, p: string): (i: int)
    ensures i == NPOS || (i >= 0 && At(s, p, i))
    ensures forall j: nat :: (i == NPOS || j < i) ==> !At(s, p, j)
  {
    FindFrom(s, p, 0)
  }

  lemma FindIs(s: string, p: string, i: nat)
    requires At(s, p, i) && forall j: nat :: j < i ==> !At(s, p, j)
    ensures Find(s, p) == i
  {
  }

  /** A text that goes on keeps its first occurrence. */
  lemma FindExtend(s: string, t: string, p: string)
    requires Find(s, p) != NPOS
    ensures Find(s + t, p) == Find(s, p)
  {
    var i := Find(s, p);
    assert (s + t)[i..i + |p|] == s[i..i + |p|];
    forall j: nat | j < i ensures !At(s + t, p, j) {
      assert !At(s, p, j);
      assert (s + t)[j..j + |p|] == s[j..j + |p|];
    }
    FindIs(s + t, p, i);
  }

  lemma AtShift(s: string, p: string, k: nat, i: nat)
    requires k <= |s|
    ensures At(s[k..], p, i) <==> At(s, p, k + i)
  {
    if k + i + |p| <= |s| {
      assert s[k..][i..i + |p|] == s[k + i..k + i + |p|];
    }
  }

  /** Dropping what lies before the first occurrence moves it to the front. */
  lemma FindShift(s: string, p: string, k: nat)
    requires k <= Find(s, p)
    ensures Find(s[k..], p) == Find(s, p) - k
  {
    hide FindFrom;
    var i := Find(s, p);
    AtShift(s, p, k, i - k);
    forall j: nat | j < i - k ensures !At(s[k..], p, j) {
      AtShift(s, p, k, j);
      assert !At(s, p, k + j);
    }
    hide At;
    FindIs(s[k..], p, i - k);
  }

  lemma CrlfAt(s: string, i: nat)
    ensures At(s, CRLF, i) <==> i + 2 <= |s| && s[i] == '\r' && s[i + 1] == '\n'
    ensures At(s, BLANK, i) <==> At(s, CRLF, i) && At(s, CRLF, i + 2)
  {
    if i + 2 <= |s| {
      assert s[i..i + 2] == [s[i], s[i + 1]];
    }
    if i + 4 <= |s| {
      assert s[i..i + 4] == [s[i], s[i + 1], s[i + 2], s[i + 3]];
      assert s[i + 2..i + 4] == [s[i + 2], s[i + 3]];
    }
  }

  /** Dropping the first line of a text, if it is not the one before the first blank line, leaves that
      blank line the first: occurrences of CRLF do not overlap. */
  lemma BlankAfterLine(s: string)
    requires Find(s, CRLF) >= 0
    ensures var i, p := Find(s, CRLF), Find(s, BLANK);
            p == i || (p == NPOS && !At(s, CRLF, i + 2) && Find(s[i + 2..], BLANK) == NPOS)
            || (p >= i + 2 && Find(s[i + 2..], BLANK) == p - (i + 2))
  {
    hide FindFrom;
    var i, p := Find(s, CRLF), Find(s, BLANK);
    CrlfAt(s, i);
    if p != NPOS {
      CrlfAt(s, p);
      if p > i {
        assert p != i + 1;
        FindShift(s, BLANK, i + 2);
      }
    } else {
      assert !At(s, BLANK, i);
      var q := Find(s[i + 2..], BLANK);
      if q != NPOS {
        AtShift(s, BLANK, i + 2, q);
      }
    }
  }

  predicate EndsWith(s: string, p: string) { |p| <= |s| && s[|s| - |p|..] == p }

  lemma NoLineEnd(s: string)
    requires Find(s, CRLF) == NPOS
    ensures !EndsWith(s, CRLF) && Find(s, BLANK) == NPOS && !At(s, CRLF, 0)
  {
    hide FindFrom;
    assert EndsWith(s, CRLF) <==> |s| >= 2 && At(s, CRLF, |s| - 2);
    if Find(s, BLANK) != NPOS {
      CrlfAt(s, Find(s, BLANK));
    }
  }

  /** Dropping a line that no blank line follows keeps the first blank line and what is behind it. */
  lemma BlankKept(s: string)
    requires Find(s, CRLF) >= 0 && Find(s, CRLF) != Find(s, BLANK)
    ensures var rest := s[Find(s, CRLF) + 2..];
            if Find(rest, BLANK) == NPOS then Find(s, BLANK) == NPOS
            else Find(s, BLANK) != NPOS && rest[Find(rest, BLANK) + 4..] == s[Find(s, BLANK) + 4..]
  {
    hide FindFrom;
    BlankAfterLine(s);
  }

  lemma LastLineEnds(s: string, i: nat)
    requires At(s, CRLF, i)
    ensures EndsWith(s, CRLF) <==> s[i + 2..] == "" || EndsWith(s[i + 2..], CRLF)
  {
    CrlfAt(s, i);
    var rest := s[i + 2..];
    if |rest| >= 2 {
      assert rest[|rest| - 2..] == s[|s| - 2..];
    } else if |rest| == 1 {
      assert s[|s| - 2..][0] == s[i + 1] == '\n';
    }
  }

  predicate Contains(s: string, p: string) { Find(s, p) != NPOS }

  /** The C string at the start of `s`: everything before the first NUL. */
  function CStr(s: string): (t: string)
    ensures t <= s && '\0' !in t
    ensures |t| < |s| ==> s[|t|] == '\0'
  {
    if s == "" || s[0] == '\0' then "" else [s[0]] + CStr(s[1..])
  }

  lemma {:induction false} CStrWhole(s: string)
    requires '\0' !in s
    ensures CStr(s) == s
  {
    if s != "" {
      assert s == [s[0]] + s[1..];
      CStrWhole(s[1..]);
    }
  }

  /** `std::tolower` of the C locale. */
  function ToLower(c: char): char {
    if 'A' <= c <= 'Z' then (c as int + 32) as char else c
  }

  function Lower(s: string): (t: string)
    ensures |t| == |s| && forall i :: 0 <= i < |s| ==> t[i] == ToLower(s[i])
  {
    seq(|s|, i requires 0 <= i < |s| => ToLower(s[i]))
  }

  /** The same letter of the alphabet, or the same character: capital letters stand 32 below small ones. */
  predicate SameLetter(c: char, d: char) {
    c == d || ('A' <= c <= 'Z' && d as int == c as int + 32) || ('A' <= d <= 'Z' && c as int == d as int + 32)
  }

  /** The same text up to the casing of its letters. */
  predicate SameSpelling(s: string, t: string) {
    |s| == |t| && forall i :: 0 <= i < |s| ==> SameLetter(s[i], t[i])
  }

  predicate NoCapital(s: string) { forall i :: 0 <= i < |s| ==> !('A' <= s[i] <= 'Z') }

  lemma LetterSame(c: char, d: char)
    ensures ToLower(c) == ToLower(d) <==> SameLetter(c, d)
  {
  }

  /** Two texts are the same in lower case exactly when they are spelled the same. */
  lemma LowerSame(s: string, t: string)
    ensures Lower(s) == Lower(t) <==> SameSpelling(s, t)
  {
    hide ToLower, SameLetter;
    if |s| == |t| {
      forall i | 0 <= i < |s| ensures Lower(s)[i] == Lower(t)[i] <==> SameLetter(s[i], t[i]) {
        LetterSame(s[i], t[i]);
      }
    }
  }

  /** Lower case is the one spelling without capitals. */
  lemma LowerIs(s: string, t: string)
    ensures t == Lower(s) <==> SameSpelling(t, s) && NoCapital(t)
  {
    if SameSpelling(t, s) && NoCapital(t) {
      assert forall i :: 0 <= i < |t| ==> SameLetter(t[i], s[i]) && t[i] == Lower(s)[i];
    }
  }

  predicate IsDigit(c: char) { '0' <= c <= '9' }

  function Digit(n: nat): (c: char)
    requires n < 10
    ensures IsDigit(c)
  {
    ('0' as int + n) as char
  }

  /** `std::to_string` of an unsigned number. */
  function Decimal(n: nat): (s: string)
    ensures |s| > 0 && forall i :: 0 <= i < |s| ==> IsDigit(s[i])
  {
    if n < 10 then [Digit(n)] else Decimal(n / 10) + [Digit(n % 10)]
  }

  /** The ten digits. */
  lemma Digits(c: char)
    ensures IsDigit(c) <==> c in "0123456789"
  {
  }

  /** No number but zero is printed with a leading zero. */
  lemma {:induction false} DecimalStart(n: nat)
    ensures Decimal(n)[0] == '0' <==> n == 0
    ensures |Decimal(n)| == 1 <==> n < 10
  {
    if n >= 10 {
      DecimalStart(n / 10);
    }
  }

  /** The number that the digits at the start of `s` make, after a number `n` already read. */
  function ReadDigits(s: string, n: nat): nat {
    if s != "" && IsDigit(s[0]) then ReadDigits(s[1..], 10 * n + (s[0] as nat - '0' as nat)) else n
  }

  lemma ReadOneDigit(d: nat, rest: string, n: nat)
    requires d < 10
    ensures ReadDigits([Digit(d)] + rest, n) == ReadDigits(rest, 10 * n + d)
  {
    assert ([Digit(d)] + rest)[1..] == rest;
  }

  /** Reading the digits of `n` and going on is going on from `n`. */
  lemma {:induction false} DecimalThen(n: nat, rest: string)
    ensures ReadDigits(Decimal(n) + rest, 0) == ReadDigits(rest, n)
  {
    if n < 10 {
      ReadOneDigit(n, rest, 0);
    } else {
      var last := [Digit(n % 10)];
      hide ReadDigits, Digit;
      DecimalThen(n / 10, last + rest);
      assert Decimal(n) + rest == Decimal(n / 10) + (last + rest);
      ReadOneDigit(n % 10, rest, n / 10);
    }
  }

  lemma {:induction false} DecimalReadsBack(n: nat, rest: string)
    requires rest == "" || !IsDigit(rest[0])
    ensures ReadDigits(Decimal(n) + rest, 0) == n
  {
    DecimalThen(n, rest);
  }

  // ---------- header lines, as both sides print them ----------

  function HeaderLine(name: string, value: string): string { name + ": " + value + CRLF }

  function HeaderLines(headers: seq<(string, string)>): string {
    if headers == [] then "" else HeaderLine(headers[0].0, headers[0].1) + HeaderLines(headers[1..])
  }

  lemma {:induction false} HeaderLinesConcat(x: seq<(string, string)>, y: seq<(string, string)>)
    ensures HeaderLines(x + y) == HeaderLines(x) + HeaderLines(y)
  {
    if x == [] {
      assert x + y == y;
    } else {
      hide HeaderLine;
      assert (x + y)[1..] == x[1..] + y;
      HeaderLinesConcat(x[1..], y);
    }
  }

  lemma HeaderLinesSnoc(headers: seq<(string, string)>, name: string, value: string)
    ensures HeaderLines(headers + [(name, value)]) == HeaderLines(headers) + HeaderLine(name, value)
  {
    hide HeaderLine;
    HeaderLinesConcat(headers, [(name, value)]);
    assert HeaderLines([(name, value)]) == HeaderLine(name, value);
  }
}
