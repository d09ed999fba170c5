// JSON text in its own terms: what the characters of RFC 4627 are read as, and
// what the writer's escapes stand for.
module JsonSyntax {
  import opened Common
  import opened Variants
  import opened JsonSpec
  import opened JsonGrammar
  import opened JsonValue
  import opened JsonWriter
  import opened JsonRoundTrip
  import N = IntToString
  import P = JsonParser

  // ---- strings ----

  // The two-character escapes of section 2.5.
  function ShortEscape(c: char): string {
    if c == '"' then "\\\""
    else if c == '\\' then "\\\\"
    else if c == '/' then "\\/"
    else if c as int == 8 then "\\b"
    else if c as int == 9 then "\\t"
    else if c as int == 10 then "\\n"
    else if c as int == 12 then "\\f"
    else if c as int == 13 then "\\r"
    else [c]
  }

  function Spelled(s: string): string { if s == "" then "" else ShortEscape(s[0]) + Spelled(s[1..]) }

  // A string spelled with these is read as itself, whatever follows it.
  lemma {:induction false} SpelledRead(s: string, rest: string)
    ensures ScanString(Spelled(s) + ("\"" + rest)) == Scanned(s, rest)
  {
    hide ScanString, ShortEscape;
    var after := "\"" + rest;
    if s == "" {
      ScanQuote(rest);
      assert "" + after == after;
    } else {
      var more := Spelled(s[1..]) + after;
      SpelledRead(s[1..], rest);
      assert Spelled(s) + after == ShortEscape(s[0]) + more;
      OneSpelled(s[0], more);
      assert s == [s[0]] + s[1..];
    }
  }

  lemma {:induction false} OneSpelled(c: char, more: string)
    ensures ScanString(ShortEscape(c) + more) == Prefix([c], ScanString(more))
  {
    hide ScanString;
    var e := ShortEscape(c);
    if |e| == 1 {
      PlainScanned(c, more);
    } else {
      assert e + more == "\\" + ([e[1]] + more);
      assert e[1] != 'u' && Escaped(e[1]) == [c];
      EscapeScanned(e[1], more);
    }
  }

  lemma {:induction false} PlainScanned(c: char, more: string)
    requires c != '"' && c != '\\'
    ensures ScanString([c] + more) == Prefix([c], ScanString(more))
  {
    assert ([c] + more)[1..] == more;
  }

  lemma {:induction false} EscapeScanned(d: char, more: string)
    requires d != 'u' && Escaped(d) != ""
    ensures ScanString("\\" + ([d] + more)) == Prefix(Escaped(d), ScanString(more))
  {
    hide Escaped;
    var cs := "\\" + ([d] + more);
    assert cs[0] == '\\' && cs[1] == d && cs[2..] == more;
  }

  // No other letter than these and u may follow a backslash.
  lemma {:induction false} OtherEscapeRefused(c: char, rest: string)
    requires c !in "\"\\/bfnrtu"
    ensures ScanString("\\" + ([c] + rest)) == ScanError
  {
    var cs := "\\" + ([c] + rest);
    assert cs[0] == '\\' && cs[1] == c;
  }

  // A string that is not closed is refused.
  lemma {:induction false} UnclosedRefused(cs: string)
    requires '"' !in cs
    ensures ScanString(cs) == ScanError
    decreases |cs|
  {
    if cs != "" {
      if cs[0] != '\\' {
        UnclosedRefused(cs[1..]);
      } else if |cs| > 1 {
        UnclosedRefused(cs[2..]);
        if |cs| >= 6 {
          UnclosedRefused(cs[6..]);
        }
      }
    }
  }

  const HEX := "0123456789abcdef"
  const UPPER_HEX := "0123456789ABCDEF"

  lemma {:induction false} HexValues(i: nat)
    requires i < 16
    ensures HexDigit(HEX[i]) && HexValue(HEX[i]) == i
    ensures HexDigit(UPPER_HEX[i]) && HexValue(UPPER_HEX[i]) == i
  {
    assert i == 0 || i == 1 || i == 2 || i == 3 || i == 4 || i == 5 || i == 6 || i == 7
      || i == 8 || i == 9 || i == 10 || i == 11 || i == 12 || i == 13 || i == 14 || i == 15;
  }

  // Only these are hexadecimal digits.
  lemma {:induction false} HexDigits(c: char)
    ensures HexDigit(c) ==> HEX[HexValue(c)] == c || UPPER_HEX[HexValue(c)] == c
  {
    if HexDigit(c) {
      var i := HexValue(c);
      assert i == 0 || i == 1 || i == 2 || i == 3 || i == 4 || i == 5 || i == 6 || i == 7
        || i == 8 || i == 9 || i == 10 || i == 11 || i == 12 || i == 13 || i == 14 || i == 15;
    }
  }

  // \u needs four of them.
  lemma {:induction false} BadCodeRefused(h: string, rest: string)
    requires |h| <= 4 && (|h| < 4 ==> rest == "")
    requires |h| == 4 ==> exists i :: 0 <= i < 4 && h[i] !in HEX && h[i] !in UPPER_HEX
    ensures ScanString("\\u" + (h + rest)) == ScanError
  {
    var cs := "\\u" + (h + rest);
    assert cs[0] == '\\' && cs[1] == 'u';
    if |h| == 4 {
      var i :| 0 <= i < 4 && h[i] !in HEX && h[i] !in UPPER_HEX;
      HexDigits(h[i]);
      assert cs[2..6] == h;
    }
  }

  // ---- white space, words and numbers ----

  lemma {:induction false} BlankSkipped(c: char, rest: string)
    requires c in " \t\r\n"
    ensures Tokenize([c] + rest) == Tokenize(rest)
  {
    assert ([c] + rest)[1..] == rest;
    assert NextToken([c] + rest) == NextToken(rest);
  }

  lemma {:induction false} WordRead(word: string, t: Token, rest: string)
    requires (word, t) in {("true", TrueTok), ("false", FalseTok), ("null", NullTok)}
    ensures Tokenize(word + rest) == Joined([t], Tokenize(rest))
  {
    var cs := word + rest;
    assert cs[0] == word[0] && word <= cs && cs[|word|..] == rest;
    ReadOne(cs, t, rest);
  }

  // What begins no token ends the reading.
  lemma {:induction false} Refused(cs: string)
    requires cs != "" && cs[0] !in " \t\r\n{}[]:,\"-0123456789"
    requires !("true" <= cs) && !("false" <= cs) && !("null" <= cs)
    ensures Tokenize(cs) == Tokens([], false)
  {
    assert NextToken(cs).LexError?;
  }

  const NUMBER_CHARS := "0123456789+-.eE"

  lemma {:induction false} NumberChars(c: char)
    ensures NumberChar(c) <==> c in NUMBER_CHARS
    ensures FractionChar(c) <==> c in ".eE"
    ensures Digit(c) <==> c in "0123456789"
  {
  }

  // A number is the longest run of its characters, and a double if it has a
  // point or an exponent.
  lemma {:induction false} NumberRead(text: string, rest: string)
    requires text != "" && text[0] in "-0123456789" && forall i | 0 <= i < |text| :: text[i] in NUMBER_CHARS
    requires rest == "" || rest[0] !in NUMBER_CHARS
    ensures var double := exists i :: 0 <= i < |text| && text[i] in ".eE";
      Tokenize(text + rest) == Joined([if double then DoubleTok(text) else IntTok(text)], Tokenize(rest))
  {
    hide NumberChar, FractionChar, Digit;
    forall i | 0 <= i < |text|
      ensures NumberChar(text[i]) && (FractionChar(text[i]) <==> text[i] in ".eE")
    {
      NumberChars(text[i]);
    }
    NumberChars(text[0]);
    if rest != "" {
      NumberChars(rest[0]);
    }
    ScanDigits(text, rest);
    NumberFirst(text, rest);
    HasFractionAt(text);
    ReadOne(text + rest, NumberToken(text), rest);
  }

  lemma {:induction false} NumberFirst(text: string, rest: string)
    requires text != "" && (text[0] == '-' || Digit(text[0])) && ScanNumber(text + rest) == Scanned(text, rest)
    ensures NextToken(text + rest) == Tok(NumberToken(text), rest)
  {
    assert (text + rest)[0] == text[0];
  }

  lemma {:induction false} HasFractionAt(text: string)
    ensures HasFraction(text) <==> exists i :: 0 <= i < |text| && FractionChar(text[i])
  {
  }

  // ---- integers ----

  function Distance(a: int, b: int): nat { if a < b then b - a else a - b }

  // A sign and digits are read as the nearest 64-bit integer, and what comes
  // after them is ignored.
  lemma {:induction false} IntegerRead(sign: string, digits: string, rest: string)
    requires sign == "" || sign == "+" || sign == "-"
    requires (forall i | 0 <= i < |digits| :: Digit(digits[i])) && (rest == "" || !Digit(rest[0]))
    requires sign == "" && digits == "" ==> rest == "" || (rest[0] != '+' && rest[0] != '-')
    ensures var n: int := N.ValueOf(digits, N.Dec);
      var x, r := if sign == "-" then -n else n, IntValue(sign + digits + rest);
      && -0x8000_0000_0000_0000 <= r <= 0x7FFF_FFFF_FFFF_FFFF
      && forall y | -0x8000_0000_0000_0000 <= y <= 0x7FFF_FFFF_FFFF_FFFF :: Distance(x, r) <= Distance(x, y)
  {
    var s, body := sign + digits + rest, digits + rest;
    LeadingOver(digits, rest);
    assert body[..|digits|] == digits;
    assert sign != "" ==> s[0] == sign[0] && s[1..] == body;
    assert sign == "" ==> s == body;
    if sign == "" && digits != "" {
      assert s[0] == digits[0];
    }
  }

  lemma {:induction false} LeadingOver(digits: string, rest: string)
    requires (forall i | 0 <= i < |digits| :: Digit(digits[i])) && (rest == "" || !Digit(rest[0]))
    ensures LeadingDigits(digits + rest) == |digits|
  {
    if digits == "" {
      assert digits + rest == rest;
    } else {
      assert (digits + rest)[1..] == digits[1..] + rest;
      LeadingOver(digits[1..], rest);
    }
  }

  // ---- the encoding ----

  // The first bytes of two ASCII characters in each encoding (section 3).
  lemma {:induction false} EncodingDetected(a: char, b: char, unset: Encoding)
    requires a != '\0' && b != '\0'
    ensures Detect([a, b], unset) == UTF8 == Detect([a], unset) && forall x, y :: Detect([a, b, x, y], unset) == UTF8
    ensures Detect(['\0', a, '\0', b], unset) == UTF16_BE && Detect([a, '\0', b, '\0'], unset) == UTF16_LE
    ensures Detect(['\0', '\0', '\0', a], unset) == UTF32_BE && Detect([a, '\0', '\0', '\0'], unset) == UTF32_LE
  {
  }

  // A text is taken for UTF-8 exactly if it is one byte, or its first two are
  // not NUL; for an empty one it depends on what the field held.
  lemma {:induction false} Utf8Exactly(b: string, unset: Encoding)
    ensures Detect(b, unset) == UTF8 <==>
      if b == "" then unset == UTF8 else |b| == 1 || (b[0] != '\0' && b[1] != '\0')
  {
  }

  // ---- a whole text ----

  // Exactly which texts are read as which value: a text without tokens as
  // none, and any other if its tokens spell a tree once the closing tokens
  // missing at its end are there.
  lemma {:induction false} ReadsExactly(text: string, unset: Encoding, v: Variant)
    ensures P.JsonValueOf(text, unset) == P.Got(v) <==>
      && (if text == "" then unset == UTF8 else |text| == 1 || (text[0] != '\0' && text[1] != '\0'))
      && Tokenize(text).ok
      && var ts := Tokenize(text).ts;
         if ts == [] then v == NoneV else exists t, k: nat :: SpelledWith(ts, t, k) && ToVariant(t) == v
  {
    hide Tokenize, ToVariant, ParseTokens, SpelledWith;
    var ts := Tokenize(text).ts;
    Utf8Exactly(P.First4(text), unset);
    if ts != [] {
      forall t, k: nat | SpelledWith(ts, t, k)
        ensures ParseTokens(ts) == Accepted(t)
      {
        AcceptsExactly(ts, t);
      }
      if ParseTokens(ts).Accepted? {
        AcceptsExactly(ts, ParseTokens(ts).tree);
      }
    }
  }

  // ---- what is written ----

  // The characters that are written as they are.
  lemma {:induction false} WrittenAsIs(c: char)
    ensures Escape([c]) == [c] <==> 32 <= c as int <= 126
  {
    assert [c][1..] == "" && Escape([c]) == EscapeChar(c) + "";
  }

  // Any other byte but line feed and carriage return is written by its number.
  lemma {:induction false} WrittenByNumber(c: char)
    requires c as int < 256 && !(32 <= c as int <= 126) && c != '\n' && c != '\r'
    ensures EscapeChar(c) == "\\x" + [HEX[c as int / 16], HEX[c as int % 16]]
  {
    hide HexOf;
    HexOfDigit(c as int / 16);
    HexOfDigit(c as int % 16);
    assert EscapeChar(c) == HexEscape(c);
    assert c as int % 256 == c as int;
  }

  lemma {:induction false} HexOfDigit(n: nat)
    requires n < 16
    ensures HexOf(n) == HEX[n]
  {
    assert n == 0 || n == 1 || n == 2 || n == 3 || n == 4 || n == 5 || n == 6 || n == 7
      || n == 8 || n == 9 || n == 10 || n == 11 || n == 12 || n == 13 || n == 14 || n == 15;
  }

  // None is written as a word that cannot be read, and a bool not at all.
  lemma {:induction false} NoneWritten(b: bool, rest: string)
    ensures Render(NoneV) == "nil" && Tokenize("nil" + rest) == Tokens([], false)
    ensures Render(ArrayV([BoolV(b), NoneV])) == "[,nil]"
  {
    var cs := "nil" + rest;
    assert cs[0] == 'n' && cs[1] == 'i' && "null"[1] == 'u';
    Refused(cs);
    var es := [BoolV(b), NoneV];
    assert es[1..] == [NoneV];
    assert RenderElems(es[1..]) == "nil";
    assert RenderElems(es) == "" + "," + RenderElems(es[1..]);
  }
}
