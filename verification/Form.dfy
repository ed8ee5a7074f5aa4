/** `percentDecode` and `HttpConnection::arg` of src/posix/server.hpp: looking up a field of an
    `application/x-www-form-urlencoded` body (percent-encoding is section 2.1 of RFC 3986). */
module Form {
  import opened Text

  /** The value of a hexadecimal digit in either case, and -1 for any other character. */
  function HexValue(c: char): (v: int)
    ensures -1 <= v < 16
  {
    if '0' <= c <= '9' then c as int - '0' as int
    else if 'A' <= c <= 'F' then c as int - 'A' as int + 10
    else if 'a' <= c <= 'f' then c as int - 'a' as int + 10
    else -1
  }

  /** The digits, and no other character, have a value. */
  lemma HexDigits(c: char)
    ensures HexValue(c) >= 0 <==> c in "0123456789ABCDEFabcdef"
  {
  }

  /** The character of two hexadecimal digits. */
  function Unhex(v1: int, v2: int): char
    requires 0 <= v1 < 16 && 0 <= v2 < 16
  {
    (16 * v1 + v2) as char
  }

  function Prepend(c: char, s: Option<string>): Option<string> {
    match s case None => None case Some(t) => Some([c] + t)
  }

  /** Decodes a text on its own, never looking behind its end, up to the first NUL that is not part of
      an escape.  An escape that is cut or not hexadecimal leaves no value. */
  function Decoded(view: string): Option<string> {
    if view == "" || view[0] == '\0' then Some("")
    else if view[0] != '%' then Prepend(view[0], Decoded(view[1..]))
    else if |view| < 3 || HexValue(view[1]) < 0 || HexValue(view[2]) < 0 then None
    else Prepend(Unhex(HexValue(view[1]), HexValue(view[2])), Decoded(view[3..]))
  }

  /** `out` is what the loop has decoded before the rest. */
  function Append(out: string, rest: Option<string>): Option<string> {
    match rest case None => None case Some(t) => Some(out + t)
  }

  /** The loop comes to a `%` that is the last character of the view.  It reads both digits before it looks
      at either, so the second one lies two characters behind the view. */
  predicate PastEnd(view: string) {
    view != "" && view[0] != '\0'
    && if view[0] != '%' then PastEnd(view[1..])
       else |view| == 1
            || (|view| >= 3 && HexValue(view[1]) >= 0 && HexValue(view[2]) >= 0 && PastEnd(view[3..]))
  }

  /** That happens exactly when the view ends with a `%`, what is before it decodes, and no NUL stops the
      loop. */
  lemma {:induction false} PastEndExactly(view: string)
    ensures PastEnd(view)
            <==> view != "" && view[|view| - 1] == '%' && '\0' !in view && Decoded(view[..|view| - 1]).Some?
    decreases |view|
  {
    var n := |view|;
    if n > 1 && view[0] != '%' {
      assert view == [view[0]] + view[1..];
      PastEndExactly(view[1..]);
      assert view[..n - 1][1..] == view[1..][..n - 2];
    } else if n > 3 {
      assert view == view[..3] + view[3..] && view[..3] == [view[0], view[1], view[2]];
      PastEndExactly(view[3..]);
      assert view[..n - 1][3..] == view[3..][..n - 4];
    }
  }

  /** And then there is no value. */
  lemma {:induction false} PastEndIsNothing(view: string)
    requires PastEnd(view)
    ensures Decoded(view) == None
    decreases |view|
  {
    if view[0] != '%' {
      PastEndIsNothing(view[1..]);
    } else if |view| >= 3 {
      PastEndIsNothing(view[3..]);
    }
  }

  /** One turn of the loop, on what is left of the view. */
  lemma DecodeOne(mem: string, input: nat, end: nat)
    requires input <= end && end + 2 <= |mem| && mem[end] in {'&', '\0'}
    ensures HexValue(mem[end]) < 0
    ensures var rest := mem[input..end];
            if input == end || mem[input] == '\0' then Decoded(rest) == Some("") && !PastEnd(rest)
            else if mem[input] != '%' then
              Decoded(rest) == Prepend(mem[input], Decoded(mem[input + 1..end]))
              && PastEnd(rest) == PastEnd(mem[input + 1..end])
            else if HexValue(mem[input + 1]) < 0 || HexValue(mem[input + 2]) < 0 then
              Decoded(rest) == None && (PastEnd(rest) <==> input + 1 == end)
            else
              input + 3 <= end
              && Decoded(rest)
                 == Prepend(Unhex(HexValue(mem[input + 1]), HexValue(mem[input + 2])), Decoded(mem[input + 3..end]))
              && PastEnd(rest) == PastEnd(mem[input + 3..end])
  {
    var rest := mem[input..end];
    if input < end {
      assert rest[0] == mem[input] && rest[1..] == mem[input + 1..end];
      if |rest| >= 3 {
        assert rest[1] == mem[input + 1] && rest[2] == mem[input + 2] && rest[3..] == mem[input + 3..end];
      }
    }
  }

  lemma AppendNothing(out: string, rest: Option<string>)
    ensures Append("", rest) == rest && Append(out, Some("")) == Some(out)
  {
    assert rest.Some? ==> "" + rest.value == rest.value;
    assert out + "" == out;
  }

  lemma AppendOne(out: string, c: char, rest: Option<string>)
    ensures Append(out, Prepend(c, rest)) == Append(out + [c], rest)
  {
    if rest.Some? {
      assert out + ([c] + rest.value) == (out + [c]) + rest.value;
    }
  }

  /** `percentDecode` on the `len` characters at `start` of the memory `mem`.  It reads up to two
      characters behind the view before it looks at its end; behind the view there must be an `&` or a
      NUL, and the character after that one has no influence.  `top` is where its reading ends. */
  method PercentDecode(mem: string, start: nat, len: nat) returns (r: Option<string>, ghost top: nat)
    requires start + len + 2 <= |mem| && mem[start + len] in {'&', '\0'}
    ensures r == Decoded(mem[start..start + len])
    ensures top <= start + len + 2 && (top == start + len + 2 <==> PastEnd(mem[start..start + len]))
  {
    hide Decoded, PastEnd, HexValue;
    var out := "";
    var input, end := start, start + len;
    ghost var view := mem[start..end];
    AppendNothing("", Decoded(view));
    while true
      invariant start <= input <= end
      invariant Decoded(view) == Append(out, Decoded(mem[input..end]))
      invariant PastEnd(view) == PastEnd(mem[input..end])
      decreases end - input
    {
      ghost var rest := mem[input..end];
      DecodeOne(mem, input, end);
      var c := mem[input];
      input := input + 1;
      if !(c != '\0' && input - start <= len) {
        AppendNothing(out, Some(""));
        break;
      }
      if c == '%' {
        var v1 := HexValue(mem[input]);
        input := input + 1;
        var v2 := HexValue(mem[input]);
        input := input + 1;
        if v1 < 0 || v2 < 0 {
          return None, input;
        }
        c := Unhex(v1, v2);
      }
      AppendOne(out, c, Decoded(mem[input..end]));
      out := out + [c];
    }
    return Some(out), input;
  }

  lemma PrependAppend(c: char, out: string, rest: Option<string>)
    ensures Append([c] + out, rest) == Prepend(c, Append(out, rest))
  {
    if rest.Some? {
      assert ([c] + out) + rest.value == [c] + (out + rest.value);
    }
  }

  /** Decoding stops at a NUL that is not part of an escape, leaves no value at an escape that is cut or
      malformed, and goes on over everything else. */
  lemma {:induction false} DecodedGoesOn(front: string, rest: string)
    requires '\0' !in front && Decoded(front).Some?
    ensures Decoded(front + rest) == Append(Decoded(front).value, Decoded(rest))
    decreases |front|
  {
    var t := front + rest;
    if front == "" {
      assert t == rest;
      AppendNothing("", Decoded(rest));
    } else if front[0] != '%' {
      assert t[1..] == front[1..] + rest;
      DecodedGoesOn(front[1..], rest);
      PrependAppend(front[0], Decoded(front[1..]).value, Decoded(rest));
    } else {
      assert t[1] == front[1] && t[2] == front[2] && t[3..] == front[3..] + rest;
      assert front == front[..3] + front[3..];
      DecodedGoesOn(front[3..], rest);
      PrependAppend(Unhex(HexValue(front[1]), HexValue(front[2])), Decoded(front[3..]).value, Decoded(rest));
    }
  }

  lemma DecodedStops(front: string, rest: string)
    requires '\0' !in front && Decoded(front).Some?
    ensures Decoded(front + ("\0" + rest)) == Decoded(front)
    ensures |rest| < 2 || rest[0] !in "0123456789ABCDEFabcdef" || rest[1] !in "0123456789ABCDEFabcdef" ==>
              Decoded(front + ("%" + rest)) == None
  {
    DecodedGoesOn(front, "\0" + rest);
    DecodedGoesOn(front, "%" + rest);
    AppendNothing(Decoded(front).value, None);
    if |rest| >= 2 {
      HexDigits(rest[0]);
      HexDigits(rest[1]);
    }
    hide HexValue;
    assert Decoded("\0" + rest) == Some("");
  }

  // ---------- encoding ----------

  /** How an encoder renders one character: as it is, or escaped, with each digit in either case. */
  datatype Choice = Raw | Escape(upperHigh: bool, upperLow: bool)

  function HexDigit(n: nat, upper: bool): char
    requires n < 16
  {
    if n < 10 then ('0' as int + n) as char
    else if upper then ('A' as int + n - 10) as char
    else ('a' as int + n - 10) as char
  }

  function EncodeChar(c: char, choice: Choice): string
    requires choice.Raw? || c as int < 256
  {
    match choice
    case Raw => [c]
    case Escape(h, l) => ['%', HexDigit(c as nat / 16, h), HexDigit(c as nat % 16, l)]
  }

  /** An encoder may choose freely for each character, but escapes what `mustEscape` lists. */
  ghost predicate IsEncoder(value: string, choices: seq<Choice>, mustEscape: set<char>) {
    |choices| == |value|
    && forall i :: 0 <= i < |value| ==>
                     (choices[i].Raw? || value[i] as int < 256) && (value[i] in mustEscape ==> choices[i].Escape?)
  }

  function Encoded(value: string, choices: seq<Choice>): string
    requires |choices| == |value|
    requires forall i :: 0 <= i < |value| ==> choices[i].Raw? || value[i] as int < 256
  {
    if value == "" then "" else EncodeChar(value[0], choices[0]) + Encoded(value[1..], choices[1..])
  }

  lemma HexDigitReadsBack(n: nat, upper: bool)
    requires n < 16
    ensures HexValue(HexDigit(n, upper)) == n
    ensures HexDigit(n, upper) !in {'%', '&', '\0', '='}
  {
  }

  /** Decoding inverts every encoder that escapes at least `%` and NUL. */
  lemma {:induction false} DecodedUndoesEncoded(value: string, choices: seq<Choice>, mustEscape: set<char>)
    requires IsEncoder(value, choices, mustEscape) && {'%', '\0'} <= mustEscape
    ensures Decoded(Encoded(value, choices)) == Some(value)
  {
    if value != "" {
      var c, e, rest := value[0], EncodeChar(value[0], choices[0]), Encoded(value[1..], choices[1..]);
      assert '%' in mustEscape && '\0' in mustEscape;
      DecodedUndoesEncoded(value[1..], choices[1..], mustEscape);
      if choices[0].Escape? {
        HexDigitReadsBack(c as nat / 16, choices[0].upperHigh);
        HexDigitReadsBack(c as nat % 16, choices[0].upperLow);
        assert (e + rest)[3..] == rest;
      } else {
        assert (e + rest)[1..] == rest;
      }
      assert [c] + value[1..] == value;
    }
  }

  /** An encoder that escapes `&` leaves none in its output. */
  lemma {:induction false} NoRawAmpersand(value: string, choices: seq<Choice>, mustEscape: set<char>)
    requires IsEncoder(value, choices, mustEscape) && '&' in mustEscape
    ensures '&' !in Encoded(value, choices)
  {
    if value != "" {
      NoRawAmpersand(value[1..], choices[1..], mustEscape);
      if choices[0].Escape? {
        HexDigitReadsBack(value[0] as nat / 16, choices[0].upperHigh);
        HexDigitReadsBack(value[0] as nat % 16, choices[0].upperLow);
      }
    }
  }

  // ---------- looking a field up ----------

  /** The text at `k` up to the next `&`. */
  function FieldAt(payload: string, k: nat): string
    requires k <= |payload|
  {
    var view := payload[k..];
    if Find(view, "&") == NPOS then view else view[..Find(view, "&")]
  }

  /** Where `arg` finds the value: after `name=` at the start of the payload, or else after the first
      `&name=` anywhere. */
  function ValueAt(payload: string, name: string): (k: Option<nat>)
    ensures k.Some? ==> k.value <= |payload|
  {
    if Find(payload, name + "=") == 0 then Some(|name| + 1)
    else
      var index := Find(payload, "&" + name + "=");
      if index == NPOS then None else Some(index + |name| + (if index == 0 then 1 else 2))
  }

  function ArgOf(payload: string, name: string): Option<string> {
    match ValueAt(payload, name)
    case None => None
    case Some(k) => Decoded(FieldAt(payload, k))
  }

  /** The value that `arg` finds is the last field and ends with a `%` at which decoding arrives. */
  predicate ReadsPastNul(payload: string, name: string) {
    match ValueAt(payload, name)
    case None => false
    case Some(k) => !Contains(payload[k..], "&") && PastEnd(payload[k..])
  }

  /** `arg`.  The payload is a C++ string, so a NUL follows it; `beyond` is whatever comes next, and `top`
      is where the reading ends. */
  method Arg(payload: string, name: string, beyond: char) returns (r: Option<string>, ghost top: nat)
    ensures r == ArgOf(payload, name)
    ensures top > |payload| + 1 <==> ReadsPastNul(payload, name)
  {
    hide FindFrom, Decoded, PastEnd;
    var mem := payload + ['\0', beyond];
    var argEncodingLen := 1 + |name|;
    var index := Find(payload, name + "=");
    if index != 0 {
      index := Find(payload, "&" + name + "=");
    }
    if index == NPOS {
      return None, 0;
    }
    if index != 0 {
      argEncodingLen := argEncodingLen + 1;
    }
    var start := index + argEncodingLen;
    var view := payload[start..];
    var end := Find(view, "&");
    if end == NPOS {
      assert mem[start..start + |view|] == view;
      r, top := PercentDecode(mem, start, |view|);
    } else {
      assert view[end..end + 1] == "&";
      assert mem[start + end] == view[end];
      assert mem[start..start + end] == view[..end];
      r, top := PercentDecode(mem, start, end);
    }
  }

  /** A field of a form, with the choices its encoder makes for the value. */
  datatype Field = Field(key: string, value: string, choices: seq<Choice>)

  predicate IsKey(s: string) { '&' !in s && '=' !in s }

  ghost predicate ValidField(f: Field) { IsKey(f.key) && IsEncoder(f.value, f.choices, {'%', '&', '\0'}) }

  ghost predicate ValidFields(fs: seq<Field>) { forall i :: 0 <= i < |fs| ==> ValidField(fs[i]) }

  ghost function FieldText(f: Field): (text: string)
    requires ValidField(f)
    ensures text != ""
  {
    f.key + "=" + Encoded(f.value, f.choices)
  }

  /** The printed form. */
  ghost function FormText(fs: seq<Field>): string
    requires ValidFields(fs)
  {
    if fs == [] then ""
    else if |fs| == 1 then FieldText(fs[0])
    else FieldText(fs[0]) + "&" + FormText(fs[1..])
  }

  function FirstValue(fs: seq<Field>, name: string): Option<string> {
    if fs == [] then None else if fs[0].key == name then Some(fs[0].value) else FirstValue(fs[1..], name)
  }

  /** What follows the first field. */
  ghost function RestText(fs: seq<Field>): string
    requires fs != [] && ValidFields(fs)
  {
    if |fs| == 1 then "" else "&" + FormText(fs[1..])
  }

  lemma FormParts(fs: seq<Field>)
    requires fs != [] && ValidFields(fs)
    ensures FormText(fs) == fs[0].key + "=" + Encoded(fs[0].value, fs[0].choices) + RestText(fs)
    ensures '&' !in FieldText(fs[0])
  {
    NoRawAmpersand(fs[0].value, fs[0].choices, {'%', '&', '\0'});
  }

  /** A form starts with `name=` exactly when that is its first key. */
  lemma FirstKey(fs: seq<Field>, name: string)
    requires fs != [] && ValidFields(fs) && IsKey(name)
    ensures At(FormText(fs), name + "=", 0) <==> fs[0].key == name
  {
    FormParts(fs);
    hide FormText, RestText, Encoded;
    var t, key := FormText(fs), fs[0].key;
    assert t[|key|] == '=' && t[..|key|] == key;
    if At(t, name + "=", 0) {
      assert t[|name|] == (name + "=")[|name|] == '=';
      assert t[..|name|] == (name + "=")[..|name|] == name;
    }
    if key == name {
      assert t[..|name| + 1] == name + "=";
    }
  }

  lemma CutFront(key: string, e: string, rest: string)
    ensures (key + "=" + e + rest)[|key| + 1..] == e + rest
  {
  }

  lemma FieldEnds(e: string, rest: string)
    requires '&' !in e && (rest == "" || rest[0] == '&')
    ensures FieldAt(e + rest, 0) == e
  {
    hide FindFrom;
    var t := e + rest;
    assert t[0..] == t;
    forall j: nat | j < |e| ensures !At(t, "&", j) {
      assert j + 1 <= |t| ==> t[j..j + 1] == [e[j]];
    }
    if rest != "" {
      assert t[|e|..|e| + 1] == [rest[0]] == "&";
      FindIs(t, "&", |e|);
    } else {
      assert t == e;
    }
  }

  lemma FieldAtShift(t: string, n: nat, k: nat)
    requires n + k <= |t|
    ensures FieldAt(t, n + k) == FieldAt(t[n..], k)
  {
    assert t[n + k..] == t[n..][k..];
  }

  /** The field at the front reads as its value. */
  lemma FrontField(fs: seq<Field>)
    requires fs != [] && ValidFields(fs)
    ensures |fs[0].key| + 1 <= |FormText(fs)|
    ensures Decoded(FieldAt(FormText(fs), |fs[0].key| + 1)) == Some(fs[0].value)
  {
    FormParts(fs);
    var k, e := |fs[0].key| + 1, Encoded(fs[0].value, fs[0].choices);
    var rest := RestText(fs);
    DecodedUndoesEncoded(fs[0].value, fs[0].choices, {'%', '&', '\0'});
    NoRawAmpersand(fs[0].value, fs[0].choices, {'%', '&', '\0'});
    hide FormText, Encoded, Decoded, Find, FieldAt, IsEncoder, ValidField;
    CutFront(fs[0].key, e, rest);
    FieldAtShift(FormText(fs), k, 0);
    FieldEnds(e, rest);
  }

  lemma StartsWithAmpersand(t: string, name: string, k: nat)
    ensures At(t, "&" + name + "=", k) ==> t[k] == '&'
  {
    var p := "&" + name + "=";
    if At(t, p, k) {
      assert t[k..k + |p|][0] == p[0];
    }
  }

  lemma AtFront(t: string, n: nat, name: string)
    requires n < |t| && t[n] == '&'
    ensures At(t, "&" + name + "=", n) <==> At(t[n + 1..], name + "=", 0)
  {
    var q := name + "=";
    assert "&" + name + "=" == "&" + q;
    if n + 1 + |q| <= |t| {
      assert t[n..n + 1 + |q|] == [t[n]] + t[n + 1..][0..|q|];
      assert ("&" + q)[1..] == q;
    }
  }

  /** Where "&name=" occurs in `front & later`, if `front` has no `&`. */
  lemma OccursBehind(front: string, later: string, name: string)
    requires '&' !in front
    ensures var p, n, t := "&" + name + "=", |front|, front + ("&" + later);
            (forall k: nat :: k < n ==> !At(t, p, k))
            && (At(t, p, n) <==> At(later, name + "=", 0))
            && (forall k: nat :: k > n ==> (At(t, p, k) <==> At(later, p, k - n - 1)))
  {
    var p, n, t := "&" + name + "=", |front|, front + ("&" + later);
    assert t[n] == '&' && t[n + 1..] == later;
    forall k: nat | k < n ensures !At(t, p, k) {
      assert t[k] == front[k];
      StartsWithAmpersand(t, name, k);
    }
    AtFront(t, n, name);
    forall k: nat | k > n ensures At(t, p, k) <==> At(later, p, k - n - 1) {
      AtShift(t, p, n + 1, k - n - 1);
    }
  }

  lemma FindBehind(front: string, later: string, name: string)
    requires '&' !in front
    ensures var p, n, t := "&" + name + "=", |front|, front + ("&" + later);
            Find(t, p) == if At(later, name + "=", 0) then n
                          else if Find(later, p) == NPOS then NPOS else n + 1 + Find(later, p)
  {
    OccursBehind(front, later, name);
    hide Find, At;
    var p, n, t := "&" + name + "=", |front|, front + ("&" + later);
    var i, j := Find(t, p), Find(later, p);
    if At(later, name + "=", 0) {
      FindIs(t, p, n);
    } else if j != NPOS {
      FindIs(t, p, n + 1 + j);
    }
  }

  /** The same for a printed form: right behind its first field, or in the form that follows. */
  lemma LaterField(fs: seq<Field>, name: string)
    requires |fs| > 1 && ValidFields(fs) && IsKey(name)
    ensures var p, n := "&" + name + "=", |FieldText(fs[0])|;
            var i, j := Find(FormText(fs), p), Find(FormText(fs[1..]), p);
            i == if fs[1].key == name then n else if j == NPOS then NPOS else n + 1 + j
    ensures |FieldText(fs[0])| < |FormText(fs)|
    ensures FormText(fs)[|FieldText(fs[0])| + 1..] == FormText(fs[1..])
  {
    FormParts(fs);
    assert fs[1..][0] == fs[1];
    assert FormText(fs) == FieldText(fs[0]) + ("&" + FormText(fs[1..]));
    hide Find, Encoded, IsKey, At;
    FirstKey(fs[1..], name);
    hide FieldText, FormText;
    FindBehind(FieldText(fs[0]), FormText(fs[1..]), name);
  }

  /** Behind the first field, the search for "&name=" finds the first field of that name. */
  ghost predicate SearchFinds(fs: seq<Field>, name: string)
    requires fs != [] && ValidFields(fs)
  {
    var i, v := Find(FormText(fs), "&" + name + "="), FirstValue(fs[1..], name);
    if v == None then i == NPOS
    else 0 < i && i + |name| + 2 <= |FormText(fs)| && Decoded(FieldAt(FormText(fs), i + |name| + 2)) == v
  }

  lemma NoSecondField(t: string, name: string)
    requires '&' !in t
    ensures Find(t, "&" + name + "=") == NPOS
  {
    var p := "&" + name + "=";
    if Find(t, p) != NPOS {
      StartsWithAmpersand(t, name, Find(t, p));
    }
  }

  lemma OneField(fs: seq<Field>, name: string)
    requires |fs| == 1 && ValidFields(fs)
    ensures SearchFinds(fs, name)
  {
    FormParts(fs);
    hide Encoded, Decoded, Find;
    NoSecondField(FormText(fs), name);
  }

  lemma SearchStep(fs: seq<Field>, name: string)
    requires |fs| > 1 && ValidFields(fs) && IsKey(name) && SearchFinds(fs[1..], name)
    ensures SearchFinds(fs, name)
  {
    hide FormText, FieldText, Decoded, Find, FieldAt, Encoded, IsEncoder, IsKey;
    LaterField(fs, name);
    var n, later := |FieldText(fs[0])| + 1, FormText(fs[1..]);
    assert fs[1..][0] == fs[1];
    if fs[1].key == name {
      FrontField(fs[1..]);
      FieldAtShift(FormText(fs), n, |name| + 1);
    } else {
      var j := Find(later, "&" + name + "=");
      if j != NPOS {
        FieldAtShift(FormText(fs), n, j + |name| + 2);
      }
    }
  }

  lemma {:induction false} SearchFindsAlways(fs: seq<Field>, name: string)
    requires fs != [] && ValidFields(fs) && IsKey(name)
    ensures SearchFinds(fs, name)
    decreases |fs|
  {
    if |fs| == 1 {
      OneField(fs, name);
    } else {
      SearchFindsAlways(fs[1..], name);
      SearchStep(fs, name);
    }
    hide SearchFinds;
  }

  lemma EmptyForm(name: string)
    ensures Find(FormText([]), name + "=") == NPOS && Find(FormText([]), "&" + name + "=") == NPOS
  {
  }

  /** `arg(name)` on a printed form returns the value of the first field of that name, and nothing
      exactly when there is none. */
  lemma ArgUndoesForm(fs: seq<Field>, name: string)
    requires ValidFields(fs) && IsKey(name)
    ensures ArgOf(FormText(fs), name) == FirstValue(fs, name)
  {
    hide Decoded, Find, Encoded, FieldAt, FormText, IsKey;
    if fs == [] {
      EmptyForm(name);
    } else {
      FirstKey(fs, name);
      SearchFindsAlways(fs, name);
      if fs[0].key == name {
        FrontField(fs);
        FindIs(FormText(fs), name + "=", 0);
      }
    }
  }

  lemma LastField(payload: string, k: nat)
    requires k <= |payload|
    ensures !Contains(payload[k..], "&") ==> FieldAt(payload, k) == payload[k..]
  {
  }

  /** On a printed form, `arg` finds no value exactly when there is no field of that name, and never reads
      behind the NUL. */
  lemma FormReadInside(fs: seq<Field>, name: string)
    requires ValidFields(fs) && IsKey(name)
    ensures ValueAt(FormText(fs), name).None? <==> FirstValue(fs, name).None?
    ensures !ReadsPastNul(FormText(fs), name)
  {
    ArgUndoesForm(fs, name);
    hide Decoded, Encoded, FieldAt, FormText, IsKey, PastEnd;
    if fs == [] {
      EmptyForm(name);
    } else {
      FirstKey(fs, name);
      SearchFindsAlways(fs, name);
    }
    var k := ValueAt(FormText(fs), name);
    if k.Some? {
      if PastEnd(FormText(fs)[k.value..]) {
        PastEndIsNothing(FormText(fs)[k.value..]);
      }
      LastField(FormText(fs), k.value);
    }
  }

  /** A body on which the code reads one character behind the NUL of its string. */
  lemma PercentAtEnd()
    ensures ReadsPastNul("a=%", "a")
  {
    var payload := "a=%";
    hide FindFrom;
    assert payload[0..2] == "a" + "=";
    FindIs(payload, "a" + "=", 0);
    assert payload[2..] == "%" && "%"[0..1] == "%";
    assert !At("%", "&", 0);
  }

  /** The same lookup with the `&` always counted. */
  function IntendedArg(payload: string, name: string): Option<string> {
    if Find(payload, name + "=") == 0 then Decoded(FieldAt(payload, |name| + 1))
    else
      var index := Find(payload, "&" + name + "=");
      if index == NPOS then None else Decoded(FieldAt(payload, index + |name| + 2))
  }

  /** What `arg` is for, on any payload: of the fields between the `&`s, the value of the first one that starts
      with `name=`. */
  function FirstSplit(payload: string, name: string): Option<string>
    decreases |payload|
  {
    if At(payload, name + "=", 0) then Decoded(FieldAt(payload, |name| + 1))
    else if Find(payload, "&") == NPOS then None
    else FirstSplit(payload[Find(payload, "&") + 1..], name)
  }

  lemma NoAmpersand(s: string)
    requires Find(s, "&") == NPOS
    ensures '&' !in s
  {
    hide FindFrom;
    forall j | 0 <= j < |s| ensures s[j] != '&' {
      assert !At(s, "&", j);
      assert s[j..j + 1] == [s[j]];
    }
  }

  lemma AtFirstAmpersand(s: string)
    requires Find(s, "&") != NPOS
    ensures var i := Find(s, "&"); i < |s| && '&' !in s[..i] && s == s[..i] + ("&" + s[i + 1..])
  {
    hide FindFrom;
    var i := Find(s, "&");
    assert s[i..i + 1][0] == '&';
    forall j | 0 <= j < i ensures s[..i][j] != '&' {
      assert !At(s, "&", j);
      assert s[j..j + 1] == [s[j]];
    }
  }

  /** Behind the first `&`, the search goes on in what follows. */
  lemma SplitStep(payload: string, name: string, i: nat)
    requires i < |payload| && !At(payload, name + "=", 0)
    requires var p, later := "&" + name + "=", payload[i + 1..];
             Find(payload, p) == if At(later, name + "=", 0) then i
                                 else if Find(later, p) == NPOS then NPOS else i + 1 + Find(later, p)
    ensures IntendedArg(payload, name) == IntendedArg(payload[i + 1..], name)
  {
    hide FindFrom, Decoded, FieldAt;
    var p, later := "&" + name + "=", payload[i + 1..];
    if At(later, name + "=", 0) {
      FindIs(later, name + "=", 0);
      FieldAtShift(payload, i + 1, |name| + 1);
    } else if Find(later, p) != NPOS {
      FieldAtShift(payload, i + 1, Find(later, p) + |name| + 2);
    }
  }

  lemma {:induction false} IntendedIsFirst(payload: string, name: string)
    requires '&' !in name
    ensures IntendedArg(payload, name) == FirstSplit(payload, name)
    decreases |payload|
  {
    hide FindFrom, Decoded, FieldAt;
    var p, i := "&" + name + "=", Find(payload, "&");
    if At(payload, name + "=", 0) {
      FindIs(payload, name + "=", 0);
    } else if i == NPOS {
      NoAmpersand(payload);
      NoSecondField(payload, name);
    } else {
      var front, later := payload[..i], payload[i + 1..];
      IntendedIsFirst(later, name);
      AtFirstAmpersand(payload);
      FindBehind(front, later, name);
      SplitStep(payload, name, i);
    }
  }

  lemma PrependChanges(c: char, s: Option<string>)
    ensures Prepend(c, s) == s <==> s == None
  {
    if s.Some? {
      assert |[c] + s.value| != |s.value|;
    }
  }

  lemma {:induction false} AmpersandsOnly(payload: string, name: string, i: nat)
    requires At(payload, "&" + name + "=", 0) && name <= payload && i <= |name|
    ensures payload[i] == '&'
  {
    var p := "&" + name + "=";
    assert payload[0..|p|] == p && payload[i] == p[i];
    if i > 0 {
      assert p[i] == name[i - 1];
      AmpersandsOnly(payload, name, i - 1);
    }
  }

  /** A payload does not start with both "name=" and "&name=", whatever the name. */
  lemma NotBoth(payload: string, name: string)
    ensures !(At(payload, name + "=", 0) && At(payload, "&" + name + "=", 0))
  {
    var q := name + "=";
    assert q[|name|] == '=' && q[..|name|] == name;
    if At(payload, "&" + name + "=", 0) && name <= payload {
      AmpersandsOnly(payload, name, |name|);
    }
    assert At(payload, q, 0) ==> payload[..|q|] == q && payload[..|q|][..|name|] == payload[..|name|];
  }

  lemma FieldFromSign(payload: string, k: nat)
    requires k < |payload| && payload[k] == '='
    ensures FieldAt(payload, k) == "=" + FieldAt(payload, k + 1)
    ensures Decoded(FieldAt(payload, k)) == Prepend('=', Decoded(FieldAt(payload, k + 1)))
  {
    hide FindFrom;
    var view, rest := payload[k..], payload[k + 1..];
    assert view == "=" + rest && view[1..] == rest;
    assert !At(view, "&", 0);
    var i := Find(view, "&");
    if i != NPOS {
      FindShift(view, "&", 1);
    } else if Find(rest, "&") != NPOS {
      AtShift(view, "&", 1, Find(rest, "&"));
    }
    assert ("=" + FieldAt(payload, k + 1))[1..] == FieldAt(payload, k + 1);
  }

  /** `arg` is off exactly when "&name=" stands at the very start of the payload and the escapes behind it are
      well-formed: it does not count that `&`, and the value starts with the `=`. */
  lemma ArgExactly(payload: string, name: string)
    ensures ArgOf(payload, name) == IntendedArg(payload, name)
            <==> !At(payload, "&" + name + "=", 0) || Decoded(FieldAt(payload, |name| + 2)) == None
    ensures At(payload, "&" + name + "=", 0) ==> ArgOf(payload, name) == Prepend('=', IntendedArg(payload, name))
    ensures '&' !in name ==> IntendedArg(payload, name) == FirstSplit(payload, name)
  {
    hide Decoded, FindFrom, FieldAt, FirstSplit;
    if '&' !in name {
      IntendedIsFirst(payload, name);
    }
    var p := "&" + name + "=";
    if At(payload, p, 0) {
      assert payload[0..|p|] == p;
      assert payload[|name| + 1] == p[|name| + 1];
      FindIs(payload, p, 0);
      NotBoth(payload, name);
      FieldFromSign(payload, |name| + 1);
      assert ArgOf(payload, name) == Prepend('=', IntendedArg(payload, name));
      PrependChanges('=', IntendedArg(payload, name));
    } else {
      assert Find(payload, p) != 0;
    }
  }

  lemma AmpersandInFront()
    ensures At("&a=1", "&" + "a" + "=", 0) && Find("&a=1", "&" + "a" + "=") == 0
  {
    hide FindFrom;
    assert "&a=1"[0..3] == "&" + "a" + "=";
    FindIs("&a=1", "&" + "a" + "=", 0);
  }

  lemma OneDecoded()
    ensures FieldAt("&a=1", 3) == "1" && Decoded("1") == Some("1")
  {
    hide FindFrom;
    assert "&a=1"[3..] == "1" && "1"[0..1] == "1" && "1"[1..] == "";
    assert Decoded("") == Some("") && ['1'] + "" == "1";
  }

  lemma LeadingAmpersand()
    ensures ArgOf("&a=1", "a") == Some("=1")
  {
    hide ArgOf, Decoded, FieldAt, FindFrom;
    AmpersandInFront();
    ArgExactly("&a=1", "a");
    NotBoth("&a=1", "a");
    OneDecoded();
    assert ['='] + "1" == "=1";
  }

  /** A printed form never starts with an `&`. */
  lemma NoLeadingAmpersand(fs: seq<Field>)
    requires ValidFields(fs)
    ensures FormText(fs) == "" || FormText(fs)[0] != '&'
  {
    if fs != [] {
      FormParts(fs);
      hide FormText;
      assert FormText(fs)[0] == FieldText(fs[0])[0];
    }
  }
}
