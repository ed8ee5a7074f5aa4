/** `isPrintable`, `isAllPrintable` and `scapeNonPrintable` of src/string.cpp. */
module Escape {
  import opened Text

  /** `isPrintable`.  A `char` with the high bit set is negative or above 127, and not printable
      either way. */
  predicate IsPrintable(ch: char) { 32 <= ch as int <= 126 }

  predicate IsByte(ch: char) { ch as int < 256 }

  predicate AllPrintable(txt: string) { forall i :: 0 <= i < |txt| ==> IsPrintable(txt[i]) }

  predicate AllBytes(txt: string) { forall i :: 0 <= i < |txt| ==> IsByte(txt[i]) }

  method IsAllPrintable(txt: string) returns (r: bool)
    ensures r <==> AllPrintable(txt)
    ensures r <==> forall i :: 0 <= i < |txt| ==> ' ' <= txt[i] <= '~'
  {
    for i := 0 to |txt|
      invariant forall j :: 0 <= j < i ==> IsPrintable(txt[j])
    {
      if !IsPrintable(txt[i]) {
        return false;
      }
    }
    return true;
  }

  /** What stands for one byte in the escaped text. */
  function EscapeChar(ch: char): (s: string)
    ensures |s| > 0
  {
    if IsPrintable(ch) then [ch] else "<\\" + Decimal(ch as nat) + ">"
  }

  function Escaped(txt: string): string {
    if txt == "" then "" else EscapeChar(txt[0]) + Escaped(txt[1..])
  }

  /** `CowString`: a view of the argument, or a text of its own. */
  datatype CowString = View(text: string) | Owned(text: string)

  lemma EscapedNone()
    ensures Escaped("") == ""
  {
  }

  lemma EscapedOne(ch: char)
    ensures Escaped([ch]) == EscapeChar(ch)
  {
  }

  lemma ConcatRegroup(a: string, b: string, c: string, d: string)
    ensures a + (b + c + d) == a + b + c + d
  {
  }

  lemma {:induction false} EscapedConcat(x: string, y: string)
    ensures Escaped(x + y) == Escaped(x) + Escaped(y)
  {
    if x == "" {
      assert x + y == y;
    } else {
      assert (x + y)[1..] == x[1..] + y;
      EscapedConcat(x[1..], y);
    }
  }

  lemma EscapedSnoc(txt: string, ch: char)
    ensures IsPrintable(ch) ==> Escaped(txt + [ch]) == Escaped(txt) + [ch]
    ensures !IsPrintable(ch) ==> Escaped(txt + [ch]) == Escaped(txt) + "<\\" + Decimal(ch as nat) + ">"
  {
    EscapedOne(ch);
    EscapedConcat(txt, [ch]);
    hide Decimal, Escaped;
    if !IsPrintable(ch) {
      ConcatRegroup(Escaped(txt), "<\\", Decimal(ch as nat), ">");
    }
  }

  lemma {:induction false} PrintableUnchanged(txt: string)
    requires AllPrintable(txt)
    ensures Escaped(txt) == txt
  {
    if txt != "" {
      PrintableUnchanged(txt[1..]);
    }
  }

  method ScapeNonPrintable(txt: string) returns (r: CowString)
    ensures r.text == Escaped(txt)
    ensures r.View? <==> forall i :: 0 <= i < |txt| ==> ' ' <= txt[i] <= '~'
  {
    hide AllPrintable, IsPrintable;
    var all := IsAllPrintable(txt);
    if all {
      PrintableUnchanged(txt);
      return View(txt);
    }
    hide Decimal, Escaped, EscapeChar;
    var s := "";
    EscapedNone();
    for i := 0 to |txt|
      invariant s == Escaped(txt[..i])
    {
      EscapedSnoc(txt[..i], txt[i]);
      assert txt[..i + 1] == txt[..i] + [txt[i]];
      if IsPrintable(txt[i]) {
        s := s + [txt[i]];
      } else {
        s := s + "<\\";
        s := s + Decimal(txt[i] as nat);
        s := s + ">";
      }
    }
    assert txt[..|txt|] == txt;
    return Owned(s);
  }

  // ---------- properties of the escaped text ----------

  lemma DecimalOfByte(n: nat)
    requires n < 256
    ensures |Decimal(n)| <= 3
  {
    if n >= 100 {
      assert Decimal(n) == Decimal(n / 10) + [Digit(n % 10)];
      assert Decimal(n / 10) == Decimal(n / 10 / 10) + [Digit(n / 10 % 10)];
      assert Decimal(n / 10 / 10) == [Digit(n / 10 / 10)];
    }
  }

  lemma EscapeCharShape(ch: char)
    requires IsByte(ch)
    ensures AllPrintable(EscapeChar(ch)) && 1 <= |EscapeChar(ch)| <= 6
    ensures if IsPrintable(ch) then EscapeChar(ch) == [ch] else |EscapeChar(ch)| > 1
  {
    DecimalOfByte(ch as nat);
    hide Decimal;
  }

  /** The escaped text is printable, from as long as the text to six times as long, and longer exactly
      when something had to be escaped. */
  lemma {:induction false} EscapedShape(txt: string)
    requires AllBytes(txt)
    ensures AllPrintable(Escaped(txt))
    ensures |txt| <= |Escaped(txt)| <= 6 * |txt|
    ensures |Escaped(txt)| == |txt| <==> AllPrintable(txt)
  {
    if txt != "" {
      EscapedShape(txt[1..]);
      EscapeCharShape(txt[0]);
      assert AllPrintable(txt) <==> IsPrintable(txt[0]) && AllPrintable(txt[1..]);
      hide EscapeChar;
    }
  }

  /** Escaping changes nothing exactly on printable text, hence twice is once. */
  lemma EscapedFixpoints(txt: string)
    requires AllBytes(txt)
    ensures Escaped(txt) == txt <==> forall i :: 0 <= i < |txt| ==> ' ' <= txt[i] <= '~'
    ensures Escaped(Escaped(txt)) == Escaped(txt)
  {
    EscapedShape(txt);
    PrintableUnchanged(Escaped(txt));
    if AllPrintable(txt) {
      PrintableUnchanged(txt);
    }
  }

  // ---------- reading the text back ----------

  /** `s` starts with the escape of the non-printable byte `ch`. */
  predicate StartsWithEscape(s: string, ch: char) {
    IsByte(ch) && !IsPrintable(ch) && EscapeChar(ch) <= s
  }

  /** Reads a text from left to right, replacing every escape by its byte. */
  ghost function Unescaped(s: string): string {
    if s == "" then ""
    else if ch :| StartsWithEscape(s, ch) then [ch] + Unescaped(s[|EscapeChar(ch)|..])
    else [s[0]] + Unescaped(s[1..])
  }

  /** Some part of the text could be taken for an escape. */
  ghost predicate HoldsEscape(txt: string) {
    exists i, ch :: 0 <= i <= |txt| && StartsWithEscape(txt[i..], ch)
  }

  /** An escape is `<`, then characters other than `<`, and its byte can be told from it. */
  lemma EscapeIsReadable(s: string, ch: char)
    requires StartsWithEscape(s, ch)
    ensures s[0] == '<' && s[1] == '\\' && '<' !in EscapeChar(ch)[1..]
    ensures ReadDigits(s[2..], 0) == ch as nat
  {
    hide Decimal, ReadDigits;
    var d, n := Decimal(ch as nat), |EscapeChar(ch)|;
    DecimalReadsBack(ch as nat, ">" + s[n..]);
    assert s == EscapeChar(ch) + s[n..];
    assert s[2..] == d + (">" + s[n..]);
    assert EscapeChar(ch) == "<" + ("\\" + d + ">");
  }

  /** Raw text in the escaped text comes from the same raw text, as every escape starts with `<`. */
  lemma {:induction false} RawPrefix(p: string, txt: string)
    requires AllBytes(txt) && p <= Escaped(txt) && '<' !in p
    ensures p <= txt
  {
    if p != "" {
      if IsPrintable(txt[0]) {
        RawPrefix(p[1..], txt[1..]);
      } else {
        assert StartsWithEscape(Escaped(txt), txt[0]);
        EscapeIsReadable(Escaped(txt), txt[0]);
      }
    }
  }

  lemma SkipEscape(txt: string, ch: char)
    requires StartsWithEscape(txt, ch)
    ensures var n := |EscapeChar(ch)|; Escaped(txt) == EscapeChar(ch) + Escaped(txt[n..])
  {
    var e, n := EscapeChar(ch), |EscapeChar(ch)|;
    EscapeCharShape(ch);
    assert txt == e + txt[n..];
    EscapedConcat(e, txt[n..]);
    PrintableUnchanged(e);
  }

  lemma PrintableFirst(txt: string)
    requires txt != "" && IsPrintable(txt[0])
    ensures Escaped(txt) == [txt[0]] + Escaped(txt[1..]) && Escaped(txt)[1..] == Escaped(txt[1..])
  {
  }

  /** At a printable character, the escaped text starts with an escape only if the text itself does. */
  lemma EscapeWasThere(txt: string, ch: char)
    requires AllBytes(txt) && txt != "" && IsPrintable(txt[0])
    ensures StartsWithEscape(Escaped(txt), ch) <==> StartsWithEscape(txt, ch)
  {
    hide EscapeChar, Escaped;
    var e := EscapeChar(ch);
    PrintableFirst(txt);
    if StartsWithEscape(Escaped(txt), ch) {
      EscapeIsReadable(Escaped(txt), ch);
      assert e[1..] <= Escaped(txt[1..]);
      RawPrefix(e[1..], txt[1..]);
      assert e == [txt[0]] + e[1..];
    }
    if StartsWithEscape(txt, ch) {
      SkipEscape(txt, ch);
    }
  }

  /** One reading step on the escaped text. */
  lemma UnescapedStep(txt: string)
    requires AllBytes(txt) && txt != ""
    ensures !IsPrintable(txt[0]) ==> Unescaped(Escaped(txt)) == [txt[0]] + Unescaped(Escaped(txt[1..]))
    ensures IsPrintable(txt[0]) && (forall ch :: !StartsWithEscape(txt, ch)) ==>
              Unescaped(Escaped(txt)) == [txt[0]] + Unescaped(Escaped(txt[1..]))
    ensures forall ch :: IsPrintable(txt[0]) && StartsWithEscape(txt, ch) ==>
              Unescaped(Escaped(txt)) == [ch] + Unescaped(Escaped(txt[|EscapeChar(ch)|..]))
  {
    var s := Escaped(txt);
    forall ch, ch' | StartsWithEscape(s, ch) && StartsWithEscape(s, ch') ensures ch == ch' {
      EscapeIsReadable(s, ch);
      EscapeIsReadable(s, ch');
    }
    if !IsPrintable(txt[0]) {
      assert StartsWithEscape(s, txt[0]) && s[|EscapeChar(txt[0])|..] == Escaped(txt[1..]);
    } else {
      forall ch ensures StartsWithEscape(s, ch) <==> StartsWithEscape(txt, ch) {
        EscapeWasThere(txt, ch);
      }
      assert s[1..] == Escaped(txt[1..]);
      forall ch | StartsWithEscape(txt, ch)
        ensures s[|EscapeChar(ch)|..] == Escaped(txt[|EscapeChar(ch)|..])
      {
        SkipEscape(txt, ch);
      }
    }
  }

  lemma HoldsEscapeStep(txt: string)
    requires txt != ""
    ensures HoldsEscape(txt) <==> (exists ch :: StartsWithEscape(txt, ch)) || HoldsEscape(txt[1..])
  {
    if exists ch :: StartsWithEscape(txt, ch) {
      assert txt[0..] == txt;
    }
    if HoldsEscape(txt[1..]) {
      var i, ch :| 0 <= i <= |txt| - 1 && StartsWithEscape(txt[1..][i..], ch);
      assert txt[1..][i..] == txt[i + 1..];
    }
    if HoldsEscape(txt) {
      var i, ch :| 0 <= i <= |txt| && StartsWithEscape(txt[i..], ch);
      if i > 0 {
        assert txt[1..][i - 1..] == txt[i..];
      } else {
        assert txt[0..] == txt;
      }
    }
  }

  lemma EscapeFits(txt: string, ch: char)
    requires StartsWithEscape(txt, ch)
    ensures IsPrintable(txt[0]) && 1 < |EscapeChar(ch)| <= |txt|
    ensures AllBytes(txt) ==> AllBytes(txt[|EscapeChar(ch)|..])
  {
    EscapeIsReadable(txt, ch);
    EscapeCharShape(ch);
  }

  /** Escaping can be undone exactly on the texts that hold nothing that looks like an escape. */
  lemma {:induction false} UnescapedUndoes(txt: string)
    requires AllBytes(txt)
    ensures |Unescaped(Escaped(txt))| <= |txt|
    ensures Unescaped(Escaped(txt)) == txt <==> !HoldsEscape(txt)
    ensures HoldsEscape(txt) ==> |Unescaped(Escaped(txt))| < |txt|
    decreases |txt|
  {
    if txt == "" {
      assert forall ch :: !StartsWithEscape(txt[0..], ch);
    } else {
      hide Escaped, Unescaped, HoldsEscape, StartsWithEscape, IsPrintable, EscapeChar;
      UnescapedStep(txt);
      HoldsEscapeStep(txt);
      UnescapedUndoes(txt[1..]);
      if ch :| StartsWithEscape(txt, ch) {
        EscapeIsReadable(txt, ch);
        EscapeFits(txt, ch);
        UnescapedUndoes(txt[|EscapeChar(ch)|..]);
      }
    }
  }

  /** The printable text of an escape and the byte that it stands for are escaped alike. */
  lemma TwoTextsOneEscape()
    ensures Escaped("<\\1>") == Escaped([1 as char]) == "<\\1>"
  {
    PrintableUnchanged("<\\1>");
    EscapedOne(1 as char);
    assert Decimal(1) == "1";
  }

  lemma EscapeOpens(txt: string, i: nat, ch: char)
    requires i <= |txt| && StartsWithEscape(txt[i..], ch)
    ensures At(txt, "<\\", i)
  {
    EscapeIsReadable(txt[i..], ch);
    EscapeFits(txt[i..], ch);
    hide EscapeChar, ReadDigits;
  }

  /** In particular on every text without the two characters that open an escape. */
  lemma UnescapedUndoesPlain(txt: string)
    requires AllBytes(txt) && !Contains(txt, "<\\")
    ensures Unescaped(Escaped(txt)) == txt
  {
    UnescapedUndoes(txt);
    hide Escaped, Unescaped, EscapeChar, StartsWithEscape;
    if HoldsEscape(txt) {
      var i, ch :| 0 <= i <= |txt| && StartsWithEscape(txt[i..], ch);
      EscapeOpens(txt, i, ch);
    }
  }
}
