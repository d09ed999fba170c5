// What comes back from JSON text: the escapes the reader knows, and exactly
// which trees survive being written and read.
module JsonStrings {
  import opened Common
  import opened Variants
  import opened JsonSpec
  import opened JsonGrammar
  import opened JsonValue
  import opened JsonWriter
  import opened JsonRoundTrip
  import P = JsonParser

  // ---- escapes by number ----

  // The number four hexadecimal digits stand for.
  function Base16(h: string): nat {
    if h == "" then 0 else Base16(h[..|h| - 1]) * 16 + HexValue(h[|h| - 1])
  }

  lemma {:induction false} FourDigits(h: string)
    requires |h| == 4
    ensures CodeOf(h) == ((HexValue(h[0]) * 256 + HexValue(h[1])) * 256 + HexValue(h[2])) * 256 + HexValue(h[3])
    ensures Base16(h) == ((HexValue(h[0]) * 16 + HexValue(h[1])) * 16 + HexValue(h[2])) * 16 + HexValue(h[3])
  {
    var a, b, c := h[..3], h[..3][..2], h[..3][..2][..1];
    assert c[..0] == "";
    assert CodeOf(c) == HexValue(c[0]) && Base16(c) == HexValue(c[0]);
    assert CodeOf(b) == CodeOf(c) * 256 + HexValue(b[1]) && Base16(b) == Base16(c) * 16 + HexValue(b[1]);
    assert CodeOf(a) == CodeOf(b) * 256 + HexValue(a[2]) && Base16(a) == Base16(b) * 16 + HexValue(a[2]);
    assert CodeOf(h) == CodeOf(a) * 256 + HexValue(h[3]) && Base16(h) == Base16(a) * 16 + HexValue(h[3]);
  }

  // With eight bits a digit, only numbers of one digit are accepted, and those
  // with their value.
  lemma {:induction false} SmallCodes(h: string)
    requires |h| == 4 && forall i | 0 <= i < 4 :: HexDigit(h[i])
    ensures SmallCode(h) <==> h[0] == '0' && h[1] == '0' && h[2] == '0'
    ensures SmallCode(h) <==> Base16(h) < 16
    ensures SmallCode(h) ==> CodeOf(h) == Base16(h)
  {
    FourDigits(h);
    forall i | 0 <= i < 4
      ensures HexValue(h[i]) == 0 <==> h[i] == '0'
    {
      assert HexDigit(h[i]);
    }
  }

  // An escape with four digits reads as its character exactly if its number is
  // below 16, and is an error otherwise.
  lemma {:induction false} UnicodeEscape(h: string, rest: string)
    requires |h| == 4 && forall i | 0 <= i < 4 :: HexDigit(h[i])
    ensures ScanString("\\u" + (h + rest))
      == if Base16(h) < 16 then Prefix([Base16(h) as char], ScanString(rest)) else ScanError
  {
    SmallCodes(h);
    var cs := "\\u" + (h + rest);
    assert cs[0] == '\\' && cs[1] == 'u' && cs[2..6] == h && cs[6..] == rest;
  }

  // The letter A by its number is refused, whatever follows.
  lemma {:induction false} LetterRefused(rest: string)
    ensures ScanString("\\u0041" + rest) == ScanError
  {
    var h := "0041";
    assert forall i | 0 <= i < 4 :: HexDigit(h[i]);
    UnicodeEscape(h, rest);
    SmallCodes(h);
    assert "\\u0041" + rest == "\\u" + (h + rest);
  }

  // ---- what is read comes from the text ----

  // A string of these characters is read somewhere in the text.
  ghost predicate ReadIn(t: string, w: string) {
    exists q :: 0 <= q <= |t| && ScanString(t[q..]).Scanned? && ScanString(t[q..]).text == w
  }

  lemma {:induction false} ReadFurther(t: string, k: nat, w: string)
    requires k <= |t| && ReadIn(t[k..], w)
    ensures ReadIn(t, w)
  {
    var q :| 0 <= q <= |t[k..]| && ScanString(t[k..][q..]).Scanned? && ScanString(t[k..][q..]).text == w;
    DropTwice(t, k, q);
    assert ScanString(t[k + q..]).Scanned?;
  }

  // How many characters the first character of a string is read from.
  function StepLength(cs: string): (k: nat)
    requires cs != ""
  {
    if cs[0] != '\\' then 1 else if |cs| >= 2 && cs[1] == 'u' then 6 else 2
  }

  // A string is read character by character.
  lemma {:induction false} ScanStep(cs: string)
    requires ScanString(cs).Scanned? && ScanString(cs).text != ""
    ensures var k, s := StepLength(cs), ScanString(cs).text;
      k <= |cs| && ScanString(cs[k..]) == Scanned(s[1..], ScanString(cs).rest)
    ensures cs[0] != '\\' ==> ScanString(cs).text[0] == cs[0] != '"'
    ensures cs[0] == '\\' ==>
      && |cs| >= 2
      && (cs[1] == 'u' || Escaped(cs[1]) != "")
      && (cs[1] != 'u' ==> [ScanString(cs).text[0]] == Escaped(cs[1]))
      && (cs[1] == 'u' ==> ScanString(cs).text[0] != '\\')
  {
    var k := StepLength(cs);
    if cs[0] == '\\' && cs[1] == 'u' {
      CodesAreSmall(cs[2..6]);
      assert ScanString(cs) == Prefix([CodeOf(cs[2..6]) as char], ScanString(cs[6..]));
    } else if cs[0] == '\\' {
      assert ScanString(cs) == Prefix(Escaped(cs[1]), ScanString(cs[2..]));
    }
  }

  lemma {:induction false} CodesAreSmall(h: string)
    requires SmallCode(h)
    ensures CodeOf(h) < 16
  {
    assert forall i | 0 <= i < 4 :: HexDigit(h[i]);
    SmallCodes(h);
  }

  // The end of a string is read in the text, too.
  lemma {:induction false} TailRead(cs: string, p: nat)
    requires ScanString(cs).Scanned? && p <= |ScanString(cs).text|
    ensures ReadIn(cs, ScanString(cs).text[p..])
    decreases p
  {
    var s := ScanString(cs).text;
    if p == 0 {
      assert cs[0..] == cs && s[0..] == s;
    } else {
      hide ScanString;
      var k := StepLength(cs);
      ScanStep(cs);
      TailRead(cs[k..], p - 1);
      DropTwice(s, 1, p - 1);
      ReadFurther(cs, k, s[p..]);
    }
  }

  // What is left after a string or a number is an end of the text.
  lemma {:induction false} StringRest(cs: string)
    requires ScanString(cs).Scanned?
    ensures var k := |cs| - |ScanString(cs).rest|; 0 < k <= |cs| && ScanString(cs).rest == cs[k..]
    decreases |cs|
  {
    if ScanString(cs).text == "" && cs[0] == '"' {
    } else {
      NotEmpty(cs);
      var k := StepLength(cs);
      ScanStep(cs);
      StringRest(cs[k..]);
      DropTwice(cs, k, |cs[k..]| - |ScanString(cs).rest|);
    }
  }

  lemma {:induction false} NotEmpty(cs: string)
    requires ScanString(cs).Scanned? && cs[0] != '"'
    ensures ScanString(cs).text != ""
  {
  }

  lemma {:induction false} NumberRest(cs: string)
    ensures var s := ScanNumber(cs);
      && s.text + s.rest == cs && forall i | 0 <= i < |s.text| :: NumberChar(s.text[i])
  {
    hide NumberChar;
    if cs != "" && NumberChar(cs[0]) {
      NumberRest(cs[1..]);
      var first, more := [cs[0]], ScanNumber(cs[1..]);
      assert ScanNumber(cs) == Scanned(first + more.text, more.rest);
      Assoc(first, more.text, more.rest);
      assert cs == first + cs[1..];
      assert forall i | 1 <= i <= |more.text| :: (first + more.text)[i] == more.text[i - 1];
    } else {
      assert ScanNumber(cs) == Scanned("", cs) && "" + cs == cs;
    }
  }

  // A token is read from some place in the text, and what is after it is left.
  lemma {:induction false} TokenRead(cs: string)
    requires NextToken(cs).Tok?
    ensures var n := NextToken(cs); var k := |cs| - |n.rest|;
      && 0 < k <= |cs| && n.rest == cs[k..]
      && (n.t.Str? ==> forall p | 0 <= p <= |n.t.s| :: ReadIn(cs, n.t.s[p..]))
      && (n.t.DoubleTok? ==> IsDouble(n.t.text))
    decreases |cs|
  {
    hide ReadIn, ScanString, ScanNumber, IsDouble, HasFraction;
    if Space(cs[0]) {
      TokenRead(cs[1..]);
      BlankToken(cs);
    } else if cs[0] == '"' {
      StringToken(cs);
    } else if cs[0] == '-' || Digit(cs[0]) {
      NumberFirst(cs);
    } else {
      OtherToken(cs);
    }
  }

  lemma {:induction false} BlankToken(cs: string)
    requires cs != "" && NextToken(cs[1..]).Tok?
    requires var n := NextToken(cs[1..]); var k := |cs[1..]| - |n.rest|;
      && 0 < k <= |cs[1..]| && n.rest == cs[1..][k..]
      && (n.t.Str? ==> forall p | 0 <= p <= |n.t.s| :: ReadIn(cs[1..], n.t.s[p..]))
    ensures var n := NextToken(cs[1..]); var k := |cs| - |n.rest|;
      && 0 < k <= |cs| && n.rest == cs[k..]
      && (n.t.Str? ==> forall p | 0 <= p <= |n.t.s| :: ReadIn(cs, n.t.s[p..]))
  {
    hide ReadIn, NextToken;
    var n := NextToken(cs[1..]);
    DropTwice(cs, 1, |cs| - 1 - |n.rest|);
    if n.t.Str? {
      forall p | 0 <= p <= |n.t.s|
        ensures ReadIn(cs, n.t.s[p..])
      {
        ReadFurther(cs, 1, n.t.s[p..]);
      }
    }
  }

  lemma {:induction false} NumberFirst(cs: string)
    requires cs != "" && (cs[0] == '-' || Digit(cs[0]))
    ensures var s := ScanNumber(cs); var k := |cs| - |s.rest|;
      && 0 < k <= |cs| && s.rest == cs[k..]
      && (NumberToken(s.text).DoubleTok? ==> IsDouble(s.text) && NumberToken(s.text).text == s.text)
  {
    NumberRest(cs);
    var s := ScanNumber(cs);
    assert s.rest == cs[|s.text|..];
  }

  lemma {:induction false} OtherToken(cs: string)
    requires NextToken(cs).Tok? && !Space(cs[0]) && cs[0] != '"' && cs[0] != '-' && !Digit(cs[0])
    ensures var n := NextToken(cs); var k := |cs| - |n.rest|;
      0 < k <= |cs| && n.rest == cs[k..] && !n.t.Str? && !n.t.DoubleTok?
  {
  }

  lemma {:induction false} StringToken(cs: string)
    requires cs != "" && cs[0] == '"' && ScanString(cs[1..]).Scanned?
    ensures var s := ScanString(cs[1..]); var k := |cs| - |s.rest|;
      && 0 < k <= |cs| && s.rest == cs[k..]
      && forall p | 0 <= p <= |s.text| :: ReadIn(cs, s.text[p..])
  {
    hide ScanString, ReadIn;
    var s := ScanString(cs[1..]);
    StringRest(cs[1..]);
    DropTwice(cs, 1, |cs| - 1 - |s.rest|);
    forall p | 0 <= p <= |s.text|
      ensures ReadIn(cs, s.text[p..])
    {
      TailRead(cs[1..], p);
      ReadFurther(cs, 1, s.text[p..]);
    }
  }

  // Some string token ends like this.
  ghost predicate Known(ts: seq<Token>, w: string) {
    exists s, p :: Str(s) in ts && 0 <= p <= |s| && w == s[p..]
  }

  lemma {:induction false} TokensRead(cs: string)
    ensures var ts := Tokenize(cs).ts;
      && (forall w | Known(ts, w) :: ReadIn(cs, w))
      && (forall text | DoubleTok(text) in ts :: IsDouble(text))
    decreases |cs|
  {
    hide ReadIn, NextToken;
    if NextToken(cs).Tok? {
      var n := NextToken(cs);
      var k, ts, more := |cs| - |n.rest|, Tokenize(cs).ts, Tokenize(n.rest).ts;
      assert ts == [n.t] + more;
      TokenRead(cs);
      TokensRead(n.rest);
      forall w | Known(ts, w)
        ensures ReadIn(cs, w)
      {
        var s, p :| Str(s) in ts && 0 <= p <= |s| && w == s[p..];
        if Str(s) in more {
          assert Known(more, w);
          ReadFurther(cs, k, w);
        }
      }
    }
  }

  // ---- every string and double of a parsed value is a token ----

  ghost predicate From(v: Variant, ts: seq<Token>)
    decreases v
  {
    match v
    case StringV(s) => Str(s) in ts
    case DoubleV(text) => DoubleTok(text) in ts
    case ArrayV(es) => forall i | 0 <= i < |es| :: From(es[i], ts)
    case DictV(es) => forall i | 0 <= i < |es| :: FromEntry(es[i], ts)
    case _ => true
  }

  ghost predicate FromEntry(e: Entry, ts: seq<Token>)
    decreases e
  {
    Str(e.key) in ts && From(e.value, ts)
  }

  lemma {:induction false} FromSpell(t: Tree, ts: seq<Token>)
    requires forall k | k in Spell(t) :: k in ts
    ensures From(ToVariant(t), ts)
    decreases t, 0
  {
    match t
    case ObjectT(ms) =>
      assert forall k | k in SpellMembers(ms) :: k in Spell(t);
      FromMembers(ms, ts);
    case ArrayT(es) =>
      assert forall k | k in SpellElems(es) :: k in Spell(t);
      FromElems(es, ts);
    case StringT(s) => assert Str(s) in Spell(t);
    case DoubleT(text) => assert DoubleTok(text) in Spell(t);
    case IntT(_) =>
  }

  lemma {:induction false} FromMembers(ms: seq<Member>, ts: seq<Token>)
    requires forall k | k in SpellMembers(ms) :: k in ts
    ensures forall e | e in ToEntries(ms) :: FromEntry(e, ts)
    decreases ms, 0
  {
    if ms != [] {
      var init, last := ms[..|ms| - 1], ms[|ms| - 1];
      MembersParts(ms);
      FromMembers(init, ts);
      FromSpell(last.val, ts);
      PutKeys(ToEntries(init), last.key, ToVariant(last.val));
    }
  }

  lemma {:induction false} FromElems(es: seq<Tree>, ts: seq<Token>)
    requires forall k | k in SpellElems(es) :: k in ts
    ensures forall i | 0 <= i < |es| :: From(ToElems(es)[i], ts)
    decreases es, 0
  {
    if es != [] {
      ElemsParts(es);
      FromElems(es[..|es| - 1], ts);
      FromSpell(es[|es| - 1], ts);
    }
  }

  // The tokens of all but the last member, and of the last.
  lemma {:induction false} MembersParts(ms: seq<Member>)
    requires ms != []
    ensures var init, last := ms[..|ms| - 1], ms[|ms| - 1];
      && Str(last.key) in SpellMembers(ms)
      && (forall k | k in Spell(last.val) :: k in SpellMembers(ms))
      && (forall k | k in SpellMembers(init) :: k in SpellMembers(ms))
    decreases |ms|
  {
    if |ms| > 1 {
      var tail := ms[1..];
      MembersParts(tail);
      assert ms[..|ms| - 1][1..] == tail[..|tail| - 1] && ms[..|ms| - 1][0] == ms[0];
    }
  }

  lemma {:induction false} ElemsEnd(es: seq<Tree>)
    ensures ArrayEnd in SpellElems(es)
  {
    if |es| > 1 {
      ElemsEnd(es[1..]);
    }
  }

  lemma {:induction false} ElemsParts(es: seq<Tree>)
    requires es != []
    ensures var init, last := es[..|es| - 1], es[|es| - 1];
      && (forall k | k in Spell(last) :: k in SpellElems(es))
      && (forall k | k in SpellElems(init) :: k in SpellElems(es))
    decreases |es|
  {
    if |es| > 1 {
      var tail := es[1..];
      ElemsParts(tail);
      assert es[..|es| - 1][1..] == tail[..|tail| - 1] && es[..|es| - 1][0] == es[0];
      assert ArrayEnd in SpellElems(tail[..|tail| - 1]) by {
        ElemsEnd(tail[..|tail| - 1]);
      }
    }
  }

  // ---- where the backslashes of a written text come from ----

  // The text begins with the escaped end of some string, and its quote.
  ghost predicate Begun(u: string, ts: seq<Token>) {
    exists w :: Known(ts, w) && w != "" && Escape(w) + "\"" <= u
  }

  ghost predicate Written(t: string, ts: seq<Token>) {
    forall q | 0 <= q < |t| :: IsPrint(t[q]) && (t[q] == '\\' ==> Begun(t[q..], ts))
  }

  lemma {:induction false} WrittenBoth(a: string, b: string, ts: seq<Token>)
    requires Written(a, ts) && Written(b, ts)
    ensures Written(a + b, ts)
  {
    var t := a + b;
    forall q | 0 <= q < |t|
      ensures IsPrint(t[q]) && (t[q] == '\\' ==> Begun(t[q..], ts))
    {
      if q >= |a| {
        assert t[q] == b[q - |a|] && t[q..] == b[q - |a|..];
      } else {
        assert t[q] == a[q] && t[q..] == a[q..] + b;
        if a[q] == '\\' {
          var w :| Known(ts, w) && w != "" && Escape(w) + "\"" <= a[q..];
          assert Escape(w) + "\"" <= t[q..];
        }
      }
    }
  }

  lemma {:induction false} WrittenPlain(t: string, ts: seq<Token>)
    requires forall i | 0 <= i < |t| :: IsPrint(t[i]) && t[i] != '\\'
    ensures Written(t, ts)
  {
  }

  lemma {:induction false} EscapeFirst(w: string, after: string)
    requires w != ""
    ensures Escape(w) + after == EscapeChar(w[0]) + (Escape(w[1..]) + after)
  {
  }

  lemma {:induction false} EscapeCharWritten(c: char)
    ensures var e := EscapeChar(c);
      && 0 < |e| && (forall i | 0 <= i < |e| :: IsPrint(e[i])) && (forall i | 0 < i < |e| :: e[i] != '\\')
  {
  }

  lemma {:induction false} EscapedWritten(s: string, p: nat, ts: seq<Token>)
    requires Str(s) in ts && p <= |s|
    ensures Written(Escape(s[p..]) + "\"", ts)
    decreases |s| - p
  {
    hide EscapeChar, IsPrint;
    var w := s[p..];
    var t := Escape(w) + "\"";
    if p == |s| {
      assert t == "\"" && IsPrint('"') by {
        QuoteWritten();
      }
    } else {
      var e, more := EscapeChar(w[0]), Escape(w[1..]) + "\"";
      EscapedWritten(s, p + 1, ts);
      assert w[1..] == s[p + 1..];
      EscapeFirst(w, "\"");
      EscapeCharWritten(w[0]);
      assert Known(ts, w);
      forall q | 0 <= q < |t|
        ensures IsPrint(t[q]) && (t[q] == '\\' ==> Begun(t[q..], ts))
      {
        if q == 0 {
          assert t[0..] == t && t[0] == e[0];
        } else if q < |e| {
          assert t[q] == e[q];
        } else {
          assert t[q] == more[q - |e|] && t[q..] == more[q - |e|..];
        }
      }
    }
  }

  lemma {:induction false} QuoteWritten()
    ensures IsPrint('"')
  {
  }

  lemma {:induction false} QuotedWritten(s: string, ts: seq<Token>)
    requires Str(s) in ts
    ensures Written(Quote(s), ts)
  {
    hide Written, Escape;
    assert s[0..] == s;
    EscapedWritten(s, 0, ts);
    WrittenPlain("\"", ts);
    WrittenBoth("\"", Escape(s) + "\"", ts);
    assert "\"" + (Escape(s) + "\"") == Quote(s);
  }

  // Every backslash of a written tree begins the escaped end of a string in it.
  lemma {:induction false} RenderWritten(v: Variant, ts: seq<Token>)
    requires Sized(v) && From(v, ts)
    ensures Written(Render(v), ts)
    decreases v, 0
  {
    hide Written, FromEntry, IntText;
    match v
    case DictV(es) =>
      EntriesWritten(es, ts);
      Around("{", RenderEntries(es), "}", ts);
    case ArrayV(es) =>
      ElemsWritten(es, ts);
      Around("[", RenderElems(es), "]", ts);
    case StringV(s) => QuotedWritten(s, ts);
    case IntV(i) =>
      IntTextIsNumber(i);
      WrittenPlain(IntText(i), ts);
    case DoubleV(text) => WrittenPlain(text, ts);
    case NoneV => WrittenPlain("nil", ts);
    case BoolV(_) => WrittenPlain("", ts);
  }

  lemma {:induction false} Around(open: string, t: string, close: string, ts: seq<Token>)
    requires |open| == |close| == 1 && open[0] in "{[:," && close[0] in "}]:," && Written(t, ts)
    ensures Written(open + t + close, ts)
  {
    hide Written;
    WrittenPlain(open, ts);
    WrittenPlain(close, ts);
    WrittenBoth(open, t, ts);
    WrittenBoth(open + t, close, ts);
  }

  lemma {:induction false} EntriesWritten(es: seq<Entry>, ts: seq<Token>)
    requires forall i | 0 <= i < |es| :: Sized(es[i].value) && FromEntry(es[i], ts)
    ensures Written(RenderEntries(es), ts)
    decreases es, 0
  {
    hide Written, Quote;
    WrittenPlain("", ts);
    WrittenPlain(":", ts);
    WrittenPlain(",", ts);
    if es != [] {
      var e := es[0];
      QuotedWritten(e.key, ts);
      RenderWritten(e.value, ts);
      WrittenBoth(":", Render(e.value), ts);
      WrittenBoth(Quote(e.key), ":" + Render(e.value), ts);
      EntriesWritten(es[1..], ts);
      WrittenBoth(",", RenderEntries(es[1..]), ts);
      WrittenBoth(Pair(e), if |es| == 1 then "" else "," + RenderEntries(es[1..]), ts);
    }
  }

  lemma {:induction false} ElemsWritten(es: seq<Variant>, ts: seq<Token>)
    requires forall i | 0 <= i < |es| :: Sized(es[i]) && From(es[i], ts)
    ensures Written(RenderElems(es), ts)
    decreases es, 0
  {
    hide Written;
    WrittenPlain("", ts);
    WrittenPlain(",", ts);
    if es != [] {
      RenderWritten(es[0], ts);
      ElemsWritten(es[1..], ts);
      WrittenBoth(",", RenderElems(es[1..]), ts);
      WrittenBoth(Render(es[0]), if |es| == 1 then "" else "," + RenderElems(es[1..]), ts);
    }
  }

  // ---- no string that comes back holds a backslash ----

  function Backslashes(s: string): nat {
    if s == "" || s[0] != '\\' then 0 else 1 + Backslashes(s[1..])
  }

  // A backslash is read from two.
  lemma {:induction false} RunRead(cs: string)
    requires ScanString(cs).Scanned?
    ensures 2 * Backslashes(ScanString(cs).text) <= Backslashes(cs)
    decreases |cs|
  {
    var s := ScanString(cs).text;
    if s != "" && s[0] == '\\' {
      hide ScanString;
      ScanStep(cs);
      EscapedBackslash(cs[1]);
      DropTwice(cs, 1, 1);
      RunRead(cs[2..]);
      assert Backslashes(cs) == 1 + Backslashes(cs[1..]) && Backslashes(cs[1..]) == 1 + Backslashes(cs[1..][1..]);
    }
  }

  lemma {:induction false} EscapedBackslash(c: char)
    ensures Escaped(c) == "\\" <==> c == '\\'
  {
  }

  // An escape adds at most one backslash to those before it.
  lemma {:induction false} RunWritten(w: string, u: string)
    requires Escape(w) + "\"" <= u
    ensures Backslashes(u) <= Backslashes(w) + 1
    decreases |w|
  {
    if w != "" {
      EscapeFirst(w, "\"");
      EscapeHead(w, u);
      if w[0] == '\\' {
        RunWritten(w[1..], u[1..]);
      }
    }
  }

  predicate Named(c: char) { c == '\n' || c == '\r' || !IsPrint(c) }

  // What the escaped end of a string begins with.
  lemma {:induction false} EscapeHead(w: string, u: string)
    requires w != "" && Escape(w) + "\"" <= u
    ensures !Named(w[0]) ==> u[0] == w[0] && |u| > 1 && Escape(w[1..]) + "\"" <= u[1..]
    ensures Named(w[0]) ==> |u| > 2 && u[0] == '\\' && u[1] in "nrx"
    ensures w[0] == '\n' ==> u[1] == 'n'
    ensures w[0] == '\r' ==> u[1] == 'r'
    ensures Named(w[0]) && w[0] != '\n' && w[0] != '\r' ==> u[1] == 'x'
  {
    EscapeFirst(w, "\"");
    var e, more := EscapeChar(w[0]), Escape(w[1..]) + "\"";
    assert u[..|e|] == e by {
      assert (e + more)[..|e|] == e;
    }
    if !Named(w[0]) {
      assert (e + more)[1..] == more && u[1..][..|more|] == u[..|e + more|][1..];
    }
  }

  // Texts in which every backslash begins the end of some string, and every
  // string is read from the text itself.
  ghost predicate Circular(t: string, ts: seq<Token>) {
    Written(t, ts) && forall w | Known(ts, w) :: ReadIn(t, w)
  }

  lemma {:induction false} BackslashBegun(t: string, ts: seq<Token>, q: nat) returns (w: string)
    requires Written(t, ts) && q <= |t| && t[q..] != "" && t[q..][0] == '\\'
    ensures Known(ts, w) && w != "" && Escape(w) + "\"" <= t[q..]
  {
    assert t[q] == '\\' && Begun(t[q..], ts);
    w :| Known(ts, w) && w != "" && Escape(w) + "\"" <= t[q..];
  }

  // No two backslashes come one after the other: the longest run would need
  // one almost twice as long.
  lemma {:induction false} RunsAreShort(t: string, ts: seq<Token>, n: nat)
    requires Circular(t, ts) && forall w | Known(ts, w) :: Backslashes(w) <= n
    ensures forall w | Known(ts, w) :: Backslashes(w) <= 1
  {
    if n > 1 {
      forall w | Known(ts, w)
        ensures Backslashes(w) <= n - 1
      {
        hide Known, Escape, ScanString;
        var q :| 0 <= q <= |t| && ScanString(t[q..]).Scanned? && ScanString(t[q..]).text == w;
        RunRead(t[q..]);
        if Backslashes(w) > 0 {
          var x := BackslashBegun(t, ts, q);
          RunWritten(x, t[q..]);
        }
      }
      RunsAreShort(t, ts, n - 1);
    }
  }

  lemma {:induction false} RunsBounded(t: string, ts: seq<Token>)
    requires Circular(t, ts)
    ensures forall w | Known(ts, w) :: Backslashes(w) <= 1
  {
    hide Known, Written, ScanString;
    forall w | Known(ts, w)
      ensures Backslashes(w) <= |t|
    {
      var q :| 0 <= q <= |t| && ScanString(t[q..]).Scanned? && ScanString(t[q..]).text == w;
      RunRead(t[q..]);
      RunLength(t[q..]);
    }
    RunsAreShort(t, ts, |t|);
  }

  lemma {:induction false} RunLength(s: string)
    ensures Backslashes(s) <= |s|
  {
    if s != "" && s[0] == '\\' {
      RunLength(s[1..]);
    }
  }

  // A backslash is read where one was written as it is in front of an escape,
  // and the next character read is the letter of that escape.
  lemma {:induction false} BackslashRead(t: string, ts: seq<Token>, w: string) returns (x: string)
    requires Circular(t, ts) && (forall u | Known(ts, u) :: Backslashes(u) <= 1)
    requires Known(ts, w) && w != "" && w[0] == '\\'
    ensures Known(ts, x) && |x| > 1 && x[0] == '\\' && Named(x[1])
    ensures |w| > 1 && w[1] in "nrx"
  {
    hide Known, Written, Escape, ScanString;
    var q :| 0 <= q <= |t| && ScanString(t[q..]).Scanned? && ScanString(t[q..]).text == w;
    var cs := t[q..];
    ScanStep(cs);
    EscapedBackslash(cs[1]);
    assert cs[0] == '\\' && cs[1] == '\\' && ScanString(cs[2..]).text == w[1..];
    x := BackslashBegun(t, ts, q);
    EscapeHead(x, cs);
    assert x[0] == '\\';
    EscapedEnd(x[1..], cs[1..]);
    assert Backslashes(x) == 1 + Backslashes(x[1..]);
    EscapeHead(x[1..], cs[1..]);
    DropTwice(cs, 1, 1);
    PlainRead(cs[2..]);
  }

  lemma {:induction false} EscapedEnd(w: string, u: string)
    requires Escape(w) + "\"" <= u && u[0] != '"'
    ensures w != ""
  {
    assert Escape("") + "\"" == "\"";
  }

  lemma {:induction false} PlainRead(cs: string)
    requires cs != "" && cs[0] != '\\' && cs[0] != '"' && ScanString(cs).Scanned?
    ensures ScanString(cs).text != "" && ScanString(cs).text[0] == cs[0]
  {
  }

  lemma {:induction false} NoBackslash(t: string, ts: seq<Token>, w: string)
    requires Circular(t, ts) && Known(ts, w) && w != ""
    ensures w[0] != '\\'
  {
    hide Known, Circular;
    RunsBounded(t, ts);
    if w[0] == '\\' {
      var x := BackslashRead(t, ts, w);
      var y := BackslashRead(t, ts, x);
    }
  }

  // So every backslash of the text begins an escape, and only \n and \r can
  // be read: what is read is clean.
  lemma {:induction false} CleanRead(t: string, ts: seq<Token>, w: string)
    requires Circular(t, ts) && Known(ts, w) && w != ""
    ensures CleanChar(w[0])
  {
    hide Known, Escape, ScanString;
    var q :| 0 <= q <= |t| && ScanString(t[q..]).Scanned? && ScanString(t[q..]).text == w;
    var cs := t[q..];
    NoBackslash(t, ts, w);
    Nonempty(cs);
    ScanStep(cs);
    if cs[0] == '\\' {
      var x := BackslashBegun(t, ts, q);
      NoBackslash(t, ts, x);
      EscapeHead(x, cs);
    } else {
      assert t[q] == cs[0];
    }
  }

  lemma {:induction false} Nonempty(cs: string)
    requires ScanString(cs).Scanned?
    ensures cs != ""
  {
  }

  lemma {:induction false} CleanStrings(t: string, ts: seq<Token>, s: string)
    requires Circular(t, ts) && Str(s) in ts
    ensures Clean(s)
  {
    hide Circular;
    forall i | 0 <= i < |s|
      ensures CleanChar(s[i])
    {
      assert Known(ts, s[i..]);
      CleanRead(t, ts, s[i..]);
    }
  }

  lemma {:induction false} FromIsWritable(v: Variant, ts: seq<Token>)
    requires Sized(v) && From(v, ts)
    requires forall k | k in ts :: (k.Str? ==> Clean(k.s)) && (k.DoubleTok? ==> IsDouble(k.text))
    ensures Writable(v)
    decreases v
  {
    match v
    case StringV(s) => assert Str(s) in ts;
    case DoubleV(text) => assert DoubleTok(text) in ts;
    case ArrayV(es) =>
      forall i | 0 <= i < |es|
        ensures Writable(es[i])
      {
        FromIsWritable(es[i], ts);
      }
    case DictV(es) =>
      forall i | 0 <= i < |es|
        ensures Clean(es[i].key) && Writable(es[i].value)
      {
        assert FromEntry(es[i], ts) && Str(es[i].key) in ts;
        FromIsWritable(es[i].value, ts);
      }
    case _ =>
  }

  // ---- the main result ----

  // All tokens of the tree are in the text: the ones read again are, too.
  lemma {:induction false} ParsedFrom(ts: seq<Token>, t: Tree)
    requires ts != [] && ParseTokens(ts) == Accepted(t)
    ensures From(ToVariant(t), ts)
  {
    AcceptsExactly(ts, t);
    var k: nat :| SpelledWith(ts, t, k);
    FromSpell(t, ts);
  }

  // A tree is read back exactly when it holds no none and no bool, every
  // string and key is clean, and every double is printed with a fraction or an
  // exponent.
  lemma {:induction false} RoundTripExactly(v: Variant, garbage: Encoding)
    requires Sized(v) && WellFormed(v)
    ensures P.JsonValueOf(Render(v), garbage) == P.Got(v) <==> Spoken(v) && Writable(v)
  {
    hide Tokenize, Render, ToVariant, From, Written, Sized, Known, ReadIn;
    if Spoken(v) && Writable(v) {
      WrittenReadsBack(v, garbage);
    } else if P.JsonValueOf(Render(v), garbage) == P.Got(v) {
      OnlySpoken(v, garbage);
      var ts := Tokenize(Render(v)).ts;
      ParsedFrom(ts, ParseTokens(ts).tree);
      RenderWritten(v, ts);
      TokensRead(Render(v));
      forall k | k in ts
        ensures (k.Str? ==> Clean(k.s)) && (k.DoubleTok? ==> IsDouble(k.text))
      {
        if k.Str? {
          CleanStrings(Render(v), ts, k.s);
        } else if k.DoubleTok? {
          assert DoubleTok(k.text) in ts;
        }
      }
      FromIsWritable(v, ts);
    }
  }

  // So a string is read back as itself exactly when it is clean.
  lemma {:induction false} StringRoundTripExactly(s: string, garbage: Encoding)
    ensures P.JsonValueOf(Render(StringV(s)), garbage) == P.Got(StringV(s)) <==> Clean(s)
  {
    RoundTripExactly(StringV(s), garbage);
  }
}
