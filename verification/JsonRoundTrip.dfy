// What is written reads back: json_parse(json_write(v)) == v.
module JsonRoundTrip {
  import opened Common
  import opened Variants
  import opened JsonSpec
  import opened JsonGrammar
  import opened JsonValue
  import opened JsonWriter
  import P = JsonParser

  // The characters a written string brings back unchanged.
  predicate CleanChar(c: char) { (IsPrint(c) && c != '"' && c != '\\') || c == '\n' || c == '\r' }

  predicate Clean(s: string) { forall i | 0 <= i < |s| :: CleanChar(s[i]) }

  // What a stream prints for a double: digits, signs, a point, an exponent, or
  // the letters of inf and nan.
  predicate PrintedDouble(text: string) { forall i | 0 <= i < |text| :: NumberChar(text[i]) || text[i] in "infa" }

  // What the reader takes for a double.
  predicate IsDouble(text: string) {
    && text != "" && (text[0] == '-' || Digit(text[0]))
    && (forall i | 0 <= i < |text| :: NumberChar(text[i])) && HasFraction(text)
  }

  // Integers of 64 bits, and doubles as they are printed.
  ghost predicate Sized(v: Variant)
    decreases v
  {
    match v
    case IntV(i) => MIN64 <= i <= MAX64
    case DoubleV(text) => PrintedDouble(text)
    case ArrayV(es) => forall i | 0 <= i < |es| :: Sized(es[i])
    case DictV(es) => forall i | 0 <= i < |es| :: Sized(es[i].value)
    case _ => true
  }

  // Strings and keys clean, integers of 64 bits, doubles that are read as such.
  ghost predicate Writable(v: Variant)
    decreases v
  {
    match v
    case StringV(s) => Clean(s)
    case IntV(i) => MIN64 <= i <= MAX64
    case DoubleV(text) => IsDouble(text)
    case ArrayV(es) => forall i | 0 <= i < |es| :: Writable(es[i])
    case DictV(es) => forall i | 0 <= i < |es| :: Clean(es[i].key) && Writable(es[i].value)
    case NoneV => true
    case BoolV(_) => true
  }

  // No none and no bool at any depth.
  ghost predicate Spoken(v: Variant)
    decreases v
  {
    match v
    case NoneV => false
    case BoolV(_) => false
    case ArrayV(es) => forall i | 0 <= i < |es| :: Spoken(es[i])
    case DictV(es) => forall i | 0 <= i < |es| :: Spoken(es[i].value)
    case _ => true
  }

  function TreeOf(v: Variant): Tree
    decreases v, 0
  {
    match v
    case DictV(es) => ObjectT(MembersOf(es))
    case ArrayV(es) => ArrayT(TreesOf(es))
    case StringV(s) => StringT(s)
    case IntV(i) => IntT(IntText(i))
    case DoubleV(text) => DoubleT(text)
    case _ => StringT("")
  }

  function MembersOf(es: seq<Entry>): (ms: seq<Member>)
    ensures |ms| == |es|
    decreases es, 0
  {
    if es == [] then [] else [Member(es[0].key, TreeOf(es[0].value))] + MembersOf(es[1..])
  }

  function TreesOf(es: seq<Variant>): (ts: seq<Tree>)
    ensures |ts| == |es|
    decreases es, 0
  {
    if es == [] then [] else [TreeOf(es[0])] + TreesOf(es[1..])
  }

  // ---- reading tokens back ----

  predicate Stops(rest: string) { rest == "" || !NumberChar(rest[0]) }

  function Joined(ts: seq<Token>, more: Tokens): Tokens { Tokens(ts + more.ts, more.ok) }

  lemma {:induction false} JoinedTwice(a: seq<Token>, b: seq<Token>, t: Tokens)
    ensures Joined(a, Joined(b, t)) == Joined(a + b, t)
  {
    assert a + (b + t.ts) == (a + b) + t.ts;
  }

  lemma {:induction false} ReadOne(cs: string, t: Token, rest: string)
    requires NextToken(cs) == Tok(t, rest)
    ensures Tokenize(cs) == Joined([t], Tokenize(rest))
  {
  }

  lemma {:induction false} ScanEscaped(s: string, rest: string)
    requires Clean(s)
    ensures ScanString(Escape(s) + ("\"" + rest)) == Scanned(s, rest)
  {
    hide ScanString, EscapeChar;
    var after := "\"" + rest;
    if s == "" {
      ScanQuote(rest);
      assert "" + after == after;
    } else {
      var c := s[0];
      var more := Escape(s[1..]) + after;
      ScanEscaped(s[1..], rest);
      assert Escape(s) + after == EscapeChar(c) + more;
      ScanOne(c, more);
      assert s == [c] + s[1..];
    }
  }

  lemma {:induction false} ScanQuote(rest: string)
    ensures ScanString("\"" + rest) == Scanned("", rest)
  {
    assert ("\"" + rest)[1..] == rest;
  }

  lemma {:induction false} ScanOne(c: char, more: string)
    requires CleanChar(c)
    ensures ScanString(EscapeChar(c) + more) == Prefix([c], ScanString(more))
  {
    var cs := EscapeChar(c) + more;
    if c == '\n' || c == '\r' {
      assert cs[2..] == more;
    } else {
      assert cs[1..] == more;
    }
  }

  lemma {:induction false} ReadQuoted(s: string, rest: string)
    requires Clean(s)
    ensures Tokenize(Quote(s) + rest) == Joined([Str(s)], Tokenize(rest))
  {
    ScanEscaped(s, rest);
    var cs := Quote(s) + rest;
    assert cs[0] == '"' && cs[1..] == Escape(s) + ("\"" + rest);
    ReadOne(cs, Str(s), rest);
  }

  lemma {:induction false} ScanDigits(text: string, rest: string)
    requires (forall i | 0 <= i < |text| :: NumberChar(text[i])) && Stops(rest)
    ensures ScanNumber(text + rest) == Scanned(text, rest)
  {
    if text == "" {
      assert text + rest == rest;
    } else {
      ScanDigits(text[1..], rest);
      assert (text + rest)[1..] == text[1..] + rest;
      assert text == [text[0]] + text[1..];
    }
  }

  lemma {:induction false} NoFraction(text: string)
    requires forall i | 0 <= i < |text| :: !FractionChar(text[i])
    ensures !HasFraction(text)
  {
  }

  lemma {:induction false} ReadInt(i: int, rest: string)
    requires Stops(rest)
    ensures Tokenize(IntText(i) + rest) == Joined([IntTok(IntText(i))], Tokenize(rest))
  {
    var text := IntText(i);
    IntTextIsNumber(i);
    ScanDigits(text, rest);
    var cs := text + rest;
    assert cs[0] == text[0];
    NoFraction(text);
    assert NextToken(cs) == Tok(IntTok(text), rest);
    ReadOne(cs, IntTok(text), rest);
  }

  lemma {:induction false} ReadDouble(text: string, rest: string)
    requires IsDouble(text) && Stops(rest)
    ensures Tokenize(text + rest) == Joined([DoubleTok(text)], Tokenize(rest))
  {
    ScanDigits(text, rest);
    var cs := text + rest;
    assert cs[0] == text[0];
    assert NextToken(cs) == Tok(DoubleTok(text), rest);
    ReadOne(cs, DoubleTok(text), rest);
  }

  lemma {:induction false} ReadPunct(c: char, t: Token, rest: string)
    requires (c, t) in
      {('{', ObjectBegin), ('}', ObjectEnd), ('[', ArrayBegin), (']', ArrayEnd), (':', Colon), (',', Comma)}
    ensures Tokenize([c] + rest) == Joined([t], Tokenize(rest))
  {
    assert ([c] + rest)[1..] == rest;
    ReadOne([c] + rest, t, rest);
  }

  // A written value reads as the tokens of its tree, whatever follows it.
  lemma {:induction false} ReadBack(v: Variant, rest: string)
    requires Writable(v) && Spoken(v) && Stops(rest)
    ensures Tokenize(Render(v) + rest) == Joined(Spell(TreeOf(v)), Tokenize(rest))
    decreases v, 0
  {
    hide Tokenize, Joined, Stops, RenderEntries, RenderElems, Clean, IsDouble;
    match v
    case DictV(es) =>
      EntriesBack(es, rest);
      DictBack(es, rest);
    case ArrayV(es) =>
      ElemsBack(es, rest);
      ArrayBack(es, rest);
    case StringV(s) =>
      ReadQuoted(s, rest);
    case IntV(i) =>
      ReadInt(i, rest);
    case DoubleV(text) =>
      ReadDouble(text, rest);
  }

  lemma {:induction false} DictBack(es: seq<Entry>, rest: string)
    requires Tokenize(RenderEntries(es) + ("}" + rest)) == Joined(SpellMembers(MembersOf(es)), Tokenize(rest))
    ensures Tokenize(Render(DictV(es)) + rest) == Joined(Spell(TreeOf(DictV(es))), Tokenize(rest))
  {
    hide Tokenize, RenderEntries, SpellMembers, MembersOf;
    assert Render(DictV(es)) + rest == ['{'] + (RenderEntries(es) + ("}" + rest));
    ReadPunct('{', ObjectBegin, RenderEntries(es) + ("}" + rest));
    JoinedTwice([ObjectBegin], SpellMembers(MembersOf(es)), Tokenize(rest));
  }

  lemma {:induction false} ArrayBack(es: seq<Variant>, rest: string)
    requires Tokenize(RenderElems(es) + ("]" + rest)) == Joined(SpellElems(TreesOf(es)), Tokenize(rest))
    ensures Tokenize(Render(ArrayV(es)) + rest) == Joined(Spell(TreeOf(ArrayV(es))), Tokenize(rest))
  {
    hide Tokenize, RenderElems, SpellElems, TreesOf;
    assert Render(ArrayV(es)) + rest == ['['] + (RenderElems(es) + ("]" + rest));
    ReadPunct('[', ArrayBegin, RenderElems(es) + ("]" + rest));
    JoinedTwice([ArrayBegin], SpellElems(TreesOf(es)), Tokenize(rest));
  }

  lemma {:induction false} EntriesBack(es: seq<Entry>, rest: string)
    requires forall i | 0 <= i < |es| :: Clean(es[i].key) && Writable(es[i].value) && Spoken(es[i].value)
    ensures Tokenize(RenderEntries(es) + ("}" + rest)) == Joined(SpellMembers(MembersOf(es)), Tokenize(rest))
    decreases es, 0
  {
    var ms := MembersOf(es);
    ReadPunct('}', ObjectEnd, rest);
    if es == [] {
      assert "" + ("}" + rest) == "}" + rest;
    } else {
      var e := es[0];
      var tail := if |es| == 1 then "}" + rest else "," + (RenderEntries(es[1..]) + ("}" + rest));
      assert ms[1..] == MembersOf(es[1..]);
      assert Tokenize(tail) == Joined(MembersTail(ms), Tokenize(rest)) by {
        if |es| > 1 {
          EntriesBack(es[1..], rest);
          ReadPunct(',', Comma, RenderEntries(es[1..]) + ("}" + rest));
          JoinedTwice([Comma], SpellMembers(ms[1..]), Tokenize(rest));
        }
      }
      FirstEntry(es, rest);
      ReadBack(e.value, tail);
      PairBack(e, tail, MembersTail(ms), Tokenize(rest));
    }
  }

  lemma {:induction false} FirstEntry(es: seq<Entry>, rest: string)
    requires es != []
    ensures var tail := if |es| == 1 then "}" + rest else "," + (RenderEntries(es[1..]) + ("}" + rest));
      RenderEntries(es) + ("}" + rest) == Quote(es[0].key) + (":" + (Render(es[0].value) + tail))
  {
    var q, r, y := Quote(es[0].key), Render(es[0].value), "}" + rest;
    var x := if |es| == 1 then "" else "," + RenderEntries(es[1..]);
    assert RenderEntries(es) == (q + (":" + r)) + x;
    Nested(q, ":", r, x, y);
    if |es| > 1 {
      Assoc(",", RenderEntries(es[1..]), y);
    } else {
      assert x + y == y;
    }
  }

  lemma {:induction false} Nested(q: string, c: string, r: string, x: string, y: string)
    ensures ((q + (c + r)) + x) + y == q + (c + (r + (x + y)))
  {
    Assoc(q + (c + r), x, y);
    Assoc(q, c + r, x + y);
    Assoc(c, r, x + y);
  }

  lemma {:induction false} PairBack(e: Entry, tail: string, after: seq<Token>, more: Tokens)
    requires Clean(e.key) && Tokenize(tail) == Joined(after, more)
    requires Tokenize(Render(e.value) + tail) == Joined(Spell(TreeOf(e.value)), Tokenize(tail))
    ensures Tokenize(Quote(e.key) + (":" + (Render(e.value) + tail)))
      == Joined([Str(e.key), Colon] + (Spell(TreeOf(e.value)) + after), more)
  {
    hide Tokenize, Quote, Render, Spell, TreeOf, Clean;
    var v := Spell(TreeOf(e.value));
    ReadQuoted(e.key, ":" + (Render(e.value) + tail));
    ReadPunct(':', Colon, Render(e.value) + tail);
    JoinedTwice(v, after, more);
    assert Joined([Colon], Joined(v + after, more)) == Joined([Colon] + (v + after), more) by {
      JoinedTwice([Colon], v + after, more);
    }
    JoinedTwice([Str(e.key)], [Colon] + (v + after), more);
    assert [Str(e.key)] + ([Colon] + (v + after)) == [Str(e.key), Colon] + (v + after);
  }

  lemma {:induction false} ElemsBack(es: seq<Variant>, rest: string)
    requires forall i | 0 <= i < |es| :: Writable(es[i]) && Spoken(es[i])
    ensures Tokenize(RenderElems(es) + ("]" + rest)) == Joined(SpellElems(TreesOf(es)), Tokenize(rest))
    decreases es, 0
  {
    hide Tokenize, Joined, Render, RenderElems, Spell, SpellElems, TreeOf, Writable, Spoken, Stops;
    ReadPunct(']', ArrayEnd, rest);
    if es == [] {
      NoElems(rest);
    } else {
      FirstElem(es, rest);
      var ts := TreesOf(es);
      var tail := if |es| == 1 then "]" + rest else "," + (RenderElems(es[1..]) + ("]" + rest));
      if |es| > 1 {
        ElemsBack(es[1..], rest);
        ReadPunct(',', Comma, RenderElems(es[1..]) + ("]" + rest));
        JoinedTwice([Comma], SpellElems(ts[1..]), Tokenize(rest));
      }
      ReadBack(es[0], tail);
      JoinedTwice(Spell(ts[0]), ElemsTail(ts), Tokenize(rest));
    }
  }

  lemma {:induction false} NoElems(rest: string)
    ensures RenderElems([]) + ("]" + rest) == [']'] + rest && SpellElems(TreesOf([])) == [ArrayEnd]
  {
  }

  lemma {:induction false} FirstElem(es: seq<Variant>, rest: string)
    requires es != []
    ensures var tail := if |es| == 1 then "]" + rest else "," + (RenderElems(es[1..]) + ("]" + rest));
      RenderElems(es) + ("]" + rest) == Render(es[0]) + tail && Stops(tail)
    ensures var ts := TreesOf(es);
      ts[0] == TreeOf(es[0]) && ts[1..] == TreesOf(es[1..]) && SpellElems(ts) == Spell(ts[0]) + ElemsTail(ts)
  {
  }

  // ---- the tree's variant is the value ----

  lemma {:induction false} PutLast(es: seq<Entry>, e: Entry)
    requires Sorted(es + [e])
    ensures Put(es, e.key, e.value) == es + [e]
  {
    var all := es + [e];
    if es != [] {
      assert KeyLess(all[0].key, all[|es|].key);
      KeyLessIrreflexive(e.key);
      if KeyLess(e.key, es[0].key) {
        KeyLessTransitive(e.key, es[0].key, e.key);
      }
      assert all[1..] == es[1..] + [e];
      assert forall i, j | 0 <= i < j < |all[1..]| :: KeyLess(all[1..][i].key, all[1..][j].key);
      PutLast(es[1..], e);
    } else {
      assert e == Entry(e.key, e.value);
    }
  }

  lemma {:induction false} MembersOfAt(es: seq<Entry>, i: nat)
    requires i < |es|
    ensures MembersOf(es)[i] == Member(es[i].key, TreeOf(es[i].value))
    ensures MembersOf(es[..i]) == MembersOf(es)[..i]
  {
    if i > 0 {
      MembersOfAt(es[1..], i - 1);
      assert es[..i][1..] == es[1..][..i - 1];
      assert MembersOf(es)[..i] == [MembersOf(es)[0]] + MembersOf(es[1..])[..i - 1];
    }
  }

  lemma {:induction false} TreesOfAt(es: seq<Variant>, i: nat)
    requires i < |es|
    ensures TreesOf(es)[i] == TreeOf(es[i]) && TreesOf(es[..i]) == TreesOf(es)[..i]
  {
    if i > 0 {
      TreesOfAt(es[1..], i - 1);
      assert es[..i][1..] == es[1..][..i - 1];
      assert TreesOf(es)[..i] == [TreesOf(es)[0]] + TreesOf(es[1..])[..i - 1];
    }
  }

  lemma {:induction false} SameValue(v: Variant)
    requires Writable(v) && Spoken(v) && WellFormed(v)
    ensures ToVariant(TreeOf(v)) == v
    decreases v, 0
  {
    match v
    case DictV(es) =>
      assert forall i | 0 <= i < |es| :: WellFormed(v.Kid(i)) && v.Kid(i) == es[i].value;
      SameEntries(es, |es|);
      assert es[..|es|] == es;
    case ArrayV(es) =>
      assert forall i | 0 <= i < |es| :: WellFormed(v.Kid(i)) && v.Kid(i) == es[i];
      SameElems(es, |es|);
      assert es[..|es|] == es;
    case StringV(s) =>
    case DoubleV(text) =>
    case IntV(i) =>
      IntRoundTrip(i);
  }

  lemma {:induction false} SameEntries(es: seq<Entry>, n: nat)
    requires n <= |es| && Sorted(es)
    requires forall i | 0 <= i < |es| :: Writable(es[i].value) && Spoken(es[i].value) && WellFormed(es[i].value)
    ensures ToEntries(MembersOf(es[..n])) == es[..n]
    decreases es, 0, n
  {
    if n > 0 {
      SameEntries(es, n - 1);
      SameValue(es[n - 1].value);
      LastEntry(es, n);
    }
  }

  lemma {:induction false} LastEntry(es: seq<Entry>, n: nat)
    requires 0 < n <= |es| && Sorted(es)
    requires ToEntries(MembersOf(es[..n - 1])) == es[..n - 1]
    requires ToVariant(TreeOf(es[n - 1].value)) == es[n - 1].value
    ensures ToEntries(MembersOf(es[..n])) == es[..n]
  {
    hide ToVariant, TreeOf, Writable, Spoken, WellFormed, KeyLess;
    MembersOfAt(es[..n], n - 1);
    assert es[..n][..n - 1] == es[..n - 1] && es[..n] == es[..n - 1] + [es[n - 1]];
    PutLast(es[..n - 1], es[n - 1]);
  }

  lemma {:induction false} SameElems(es: seq<Variant>, n: nat)
    requires n <= |es|
    requires forall i | 0 <= i < |es| :: Writable(es[i]) && Spoken(es[i]) && WellFormed(es[i])
    ensures ToElems(TreesOf(es[..n])) == es[..n]
    decreases es, 0, n
  {
    hide ToVariant, TreeOf, Writable, Spoken, WellFormed;
    if n > 0 {
      SameElems(es, n - 1);
      SameValue(es[n - 1]);
      TreesOfAt(es[..n], n - 1);
      assert es[..n][..n - 1] == es[..n - 1] && es[..n] == es[..n - 1] + [es[n - 1]];
    }
  }

  // ---- the main result ----

  // Nothing written holds a NUL byte, so it is never taken for UTF-16 or 32.
  lemma {:induction false} RenderIsAscii(v: Variant)
    requires Writable(v) && Spoken(v)
    ensures Render(v) != "" && forall i | 0 <= i < |Render(v)| :: Render(v)[i] != '\0'
    decreases v, 0
  {
    match v
    case DictV(es) => EntriesAscii(es);
    case ArrayV(es) => ElemsAscii(es);
    case StringV(s) => EscapeAscii(s);
    case IntV(i) => IntTextIsNumber(i);
    case DoubleV(text) =>
  }

  lemma {:induction false} EscapeAscii(s: string)
    ensures forall i | 0 <= i < |Escape(s)| :: IsPrint(Escape(s)[i])
  {
    if s != "" {
      EscapeAscii(s[1..]);
    }
  }

  lemma {:induction false} EntriesAscii(es: seq<Entry>)
    requires forall i | 0 <= i < |es| :: Writable(es[i].value) && Spoken(es[i].value)
    ensures forall i | 0 <= i < |RenderEntries(es)| :: RenderEntries(es)[i] != '\0'
    decreases es, 0
  {
    if es != [] {
      EscapeAscii(es[0].key);
      RenderIsAscii(es[0].value);
      EntriesAscii(es[1..]);
    }
  }

  lemma {:induction false} ElemsAscii(es: seq<Variant>)
    requires forall i | 0 <= i < |es| :: Writable(es[i]) && Spoken(es[i])
    ensures forall i | 0 <= i < |RenderElems(es)| :: RenderElems(es)[i] != '\0'
    decreases es, 0
  {
    if es != [] {
      RenderIsAscii(es[0]);
      ElemsAscii(es[1..]);
    }
  }

  lemma {:induction false} NothingLeft()
    ensures Tokenize("") == Tokens([], true)
  {
  }

  lemma {:induction false} WrittenReadsBack(v: Variant, garbage: Encoding)
    requires Writable(v) && Spoken(v) && WellFormed(v)
    ensures P.JsonValueOf(Render(v), garbage) == P.Got(v)
  {
    hide Render, Spell, TreeOf, Tokenize, ToVariant, Writable, Spoken;
    var ts := Spell(TreeOf(v));
    RenderIsAscii(v);
    ReadBack(v, "");
    NothingLeft();
    assert Render(v) + "" == Render(v) && ts + [] == ts;
    assert Tokenize(Render(v)) == Tokens(ts, true);
    assert ts + Repeat(ts[|ts| - 1], 0) == ts;
    assert SpelledWith(ts, TreeOf(v), 0);
    AcceptsExactly(ts, TreeOf(v));
    SameValue(v);
  }

  // The parser makes no none and no bool out of tokens.
  lemma {:induction false} ParsedIsSpoken(t: Tree)
    ensures Spoken(ToVariant(t))
    decreases t, 0
  {
    match t
    case ObjectT(ms) => EntriesSpoken(ms);
    case ArrayT(es) => ElemsSpoken(es);
    case _ =>
  }

  lemma {:induction false} EntriesSpoken(ms: seq<Member>)
    ensures forall e :: e in ToEntries(ms) ==> Spoken(e.value)
    decreases ms, 0
  {
    if ms != [] {
      var init, last := ms[..|ms| - 1], ms[|ms| - 1];
      EntriesSpoken(init);
      ParsedIsSpoken(last.val);
      PutKeys(ToEntries(init), last.key, ToVariant(last.val));
    }
  }

  lemma {:induction false} ElemsSpoken(es: seq<Tree>)
    ensures forall i | 0 <= i < |es| :: Spoken(ToElems(es)[i])
    decreases es, 0
  {
    if es != [] {
      ElemsSpoken(es[..|es| - 1]);
      ParsedIsSpoken(es[|es| - 1]);
    }
  }

  // Nothing is read back that holds a none or a bool.
  lemma {:induction false} OnlySpoken(v: Variant, garbage: Encoding)
    requires P.JsonValueOf(Render(v), garbage) == P.Got(v)
    ensures Spoken(v) && Tokenize(Render(v)).ts != []
  {
    assert Tokenize("nil") == Tokens([], false);
    var ts := Tokenize(Render(v)).ts;
    if ts != [] {
      ParsedIsSpoken(ParseTokens(ts).tree);
    }
  }
}
