// What the XML writer writes is read back: the same events, up to the pieces
// character data comes in.
module XmlRoundTrip {
  import opened Common
  import opened XmlEvents
  import opened XmlWriter
  import B = XmlBuilder

  // ---- escaped text ----

  function PrependAll(s: string, t: Text): Text { if t.Text? then Text(s + t.value) else t }

  function Entity(c: char): string {
    if c == '"' then "&quot;" else if c == '\'' then "&apos;" else if c == '<' then "&lt;" else "&amp;"
  }

  // A character in one of its written forms.
  predicate Form(c: char, e: string) { (c != '&' && c != '<' && e == [c]) || (c in "\"'<&" && e == Entity(c)) }

  lemma {:induction false} DecodeOne(c: char, e: string, u: string)
    requires Form(c, e)
    ensures Decode(e + u) == Prepend(c, Decode(u))
  {
    var t := e + u;
    if e == [c] {
      assert t[1..] == u;
    } else if c == '<' {
      assert "&lt;" <= t && t[4..] == u;
    } else if c == '&' {
      assert t[1] == 'a' && t[2] == 'm' && "&amp;" <= t && t[5..] == u;
    } else if c == '"' {
      assert t[1] == 'q' && "&quot;" <= t && t[6..] == u;
    } else {
      assert t[1] == 'a' && t[2] == 'p' && "&apos;" <= t && t[6..] == u;
    }
  }

  // A pattern with '<' and '&' in it, and the entities for it.
  predicate EncodesBy(pattern: string, replacement: seq<string>) {
    && |pattern| == |replacement| && '<' in pattern && '&' in pattern
    && forall c | c in pattern :: c in "\"'<&" && replacement[IndexOf(pattern, c)] == Entity(c)
  }

  lemma {:induction false} BothEncode()
    ensures EncodesBy(ATTR_PATTERN, ATTR_REPLACEMENT) && EncodesBy(TEXT_PATTERN, TEXT_REPLACEMENT)
  {
    forall c | c in ATTR_PATTERN
      ensures ATTR_REPLACEMENT[IndexOf(ATTR_PATTERN, c)] == Entity(c)
    {
      var i := IndexOf(ATTR_PATTERN, c);
      assert i == 0 || i == 1 || i == 2 || i == 3;
    }
    forall c | c in TEXT_PATTERN
      ensures TEXT_REPLACEMENT[IndexOf(TEXT_PATTERN, c)] == Entity(c)
    {
      var i := IndexOf(TEXT_PATTERN, c);
      assert i == 0 || i == 1;
    }
    assert ATTR_PATTERN[2] == '<' && ATTR_PATTERN[3] == '&' && TEXT_PATTERN[0] == '<' && TEXT_PATTERN[1] == '&';
  }

  lemma {:induction false} FormOf(c: char, pattern: string, replacement: seq<string>)
    requires EncodesBy(pattern, replacement)
    ensures Form(c, if c in pattern then replacement[IndexOf(pattern, c)] else [c])
  {
  }

  lemma {:induction false} EncodedFirst(s: string, u: string, pattern: string, replacement: seq<string>)
    requires |pattern| == |replacement|
    ensures s == "" ==> Encoded(s, pattern, replacement) + u == u
    ensures s != "" ==>
      var e := if s[0] in pattern then replacement[IndexOf(pattern, s[0])] else [s[0]];
      Encoded(s, pattern, replacement) + u == e + (Encoded(s[1..], pattern, replacement) + u)
  {
  }

  lemma {:induction false} PrependFirst(s: string, t: Text)
    requires s != ""
    ensures PrependAll(s, t) == Prepend(s[0], PrependAll(s[1..], t))
  {
    assert s == [s[0]] + s[1..];
  }

  lemma {:induction false} DecodeEncoded(s: string, u: string, pattern: string, replacement: seq<string>)
    requires EncodesBy(pattern, replacement)
    ensures Decode(Encoded(s, pattern, replacement) + u) == PrependAll(s, Decode(u))
  {
    hide Decode, Form, Encoded;
    EncodedFirst(s, u, pattern, replacement);
    if s != "" {
      var e := if s[0] in pattern then replacement[IndexOf(pattern, s[0])] else [s[0]];
      FormOf(s[0], pattern, replacement);
      DecodeOne(s[0], e, Encoded(s[1..], pattern, replacement) + u);
      DecodeEncoded(s[1..], u, pattern, replacement);
      PrependFirst(s, Decode(u));
    }
  }

  lemma {:induction false} EntityFree(c: char)
    ensures Entity(c) != "" && forall i | 0 <= i < |Entity(c)| :: Entity(c)[i] !in "\"<"
  {
  }

  lemma {:induction false} CharFree(c: char, stop: string, pattern: string, replacement: seq<string>)
    requires EncodesBy(pattern, replacement) && forall d | d in stop :: d in pattern && d in "\"<"
    ensures var e := if c in pattern then replacement[IndexOf(pattern, c)] else [c];
      e != "" && forall i | 0 <= i < |e| :: e[i] !in stop
  {
    hide Entity, IndexOf;
    EntityFree(c);
  }

  predicate Free(e: string, stop: string) { forall i | 0 <= i < |e| :: e[i] !in stop }

  // Nothing encoded holds a quote or '<' if the pattern has it.
  lemma {:induction false} EncodedFree(s: string, stop: string, pattern: string, replacement: seq<string>)
    requires EncodesBy(pattern, replacement) && forall c | c in stop :: c in pattern && c in "\"<"
    ensures Free(Encoded(s, pattern, replacement), stop) && (s != "" ==> Encoded(s, pattern, replacement) != "")
  {
    if s != "" {
      EncodedFree(s[1..], stop, pattern, replacement);
      CharFree(s[0], stop, pattern, replacement);
      var e := if s[0] in pattern then replacement[IndexOf(pattern, s[0])] else [s[0]];
      FreeBoth(e, Encoded(s[1..], pattern, replacement), stop);
    }
  }

  lemma {:induction false} FreeBoth(a: string, b: string, stop: string)
    requires Free(a, stop) && Free(b, stop)
    ensures Free(a + b, stop)
  {
  }

  lemma {:induction false} UntilOver(a: string, b: string, stop: string)
    requires Free(a, stop)
    ensures Until(a + b, stop) == |a| + Until(b, stop)
  {
    if a == "" {
      assert a + b == b;
    } else {
      assert (a + b)[1..] == a[1..] + b;
      UntilOver(a[1..], b, stop);
    }
  }

  lemma {:induction false} NameRestOver(name: string, b: string)
    requires forall i | 0 <= i < |name| :: NameChar(name[i])
    requires b == "" || !NameChar(b[0])
    ensures NameRest(name + b) == |name|
  {
    if name == "" {
      assert name + b == b;
    } else {
      assert (name + b)[1..] == name[1..] + b;
      NameRestOver(name[1..], b);
    }
  }

  lemma {:induction false} NameLengthOver(name: string, b: string)
    requires IsName(name) && (b == "" || !NameChar(b[0]))
    ensures NameLength(name + b) == |name|
  {
    NameRestOver(name, b);
    assert (name + b)[0] == name[0];
  }

  // ---- tags ----

  predicate NamesOk(e: Event) {
    match e
    case Start(name, attrs) => IsName(name) && forall i | 0 <= i < |attrs| :: IsName(attrs[i].name)
    case End(name) => IsName(name)
    case CData(_) => true
  }

  lemma {:induction false} ValueBack(s: string, more: string)
    ensures Until(AttrText(s) + ("\"" + more), "\"<") == |AttrText(s)|
    ensures Decode(AttrText(s)) == Text(s)
  {
    var value := AttrText(s);
    BothEncode();
    EncodedFree(s, "\"<", ATTR_PATTERN, ATTR_REPLACEMENT);
    UntilOver(value, "\"" + more, "\"<");
    DecodeEncoded(s, "", ATTR_PATTERN, ATTR_REPLACEMENT);
    assert value + "" == value && s + "" == s;
  }

  lemma {:induction false} AttrBack(a: Attr, more: string)
    requires IsName(a.name)
    ensures ReadAttrs(" " + (a.name + ("=\"" + (AttrText(a.value) + ("\"" + more)))))
      == match ReadAttrs(more)
        case BadAttrs => BadAttrs
        case Attrs(attrs, rest) =>
          if XmlChars(a.value) && a.name !in NamesOf(attrs) then Attrs(NormalAttrs([a]) + attrs, rest) else BadAttrs
  {
    hide NamesOf, XmlChars, Blanks, LineEnds, Until, Decode, AttrText, NameLength;
    var value := AttrText(a.value);
    var tail := value + ("\"" + more);
    var t := " " + (a.name + ("=\"" + tail));
    assert t[1..] == a.name + ("=\"" + tail);
    NameLengthOver(a.name, "=\"" + tail);
    assert t[1..][..|a.name|] == a.name && t[1..][|a.name|..] == "=\"" + tail;
    assert ("=\"" + tail)[2..] == tail;
    ValueBack(a.value, more);
    assert tail[..|value|] == value && tail[|value|..] == "\"" + more;
    assert ("\"" + more)[1..] == more;
    assert NormalAttrs([a]) == [Attr(a.name, Blanks(LineEnds(a.value)))];
  }

  // No control characters in values, and no name twice.
  predicate LegalAttrs(attrs: seq<Attr>) {
    attrs == [] || (XmlChars(attrs[0].value) && attrs[0].name !in NamesOf(attrs[1..]) && LegalAttrs(attrs[1..]))
  }

  lemma {:induction false} NormalNames(attrs: seq<Attr>)
    ensures NamesOf(NormalAttrs(attrs)) == NamesOf(attrs)
  {
    if attrs != [] {
      var first := [Attr(attrs[0].name, Blanks(LineEnds(attrs[0].value)))];
      NormalNames(attrs[1..]);
      NamesOfBoth(first, NormalAttrs(attrs[1..]));
      NamesOfBoth([attrs[0]], attrs[1..]);
      assert [attrs[0]] + attrs[1..] == attrs;
      OneName(first[0]);
      OneName(attrs[0]);
    }
  }

  lemma {:induction false} OneName(a: Attr)
    ensures NamesOf([a]) == {a.name}
  {
    assert [a][0] in [a];
  }

  lemma {:induction false} NamesOfBoth(a: seq<Attr>, b: seq<Attr>)
    ensures NamesOf(a + b) == NamesOf(a) + NamesOf(b)
  {
    forall n | n in NamesOf(a) + NamesOf(b)
      ensures n in NamesOf(a + b)
    {
      if n in NamesOf(a) {
        var x :| x in a && x.name == n;
        assert x in a + b;
      } else {
        var x :| x in b && x.name == n;
        assert x in a + b;
      }
    }
  }

  lemma {:induction false} NoAttrs(rest: string)
    requires rest != "" && rest[0] != ' '
    ensures ReadAttrs(AttrsText([]) + rest) == Attrs([], rest)
  {
    assert "" + rest == rest;
  }

  lemma {:induction false} AttrsBack(attrs: seq<Attr>, rest: string)
    requires forall i | 0 <= i < |attrs| :: IsName(attrs[i].name)
    requires rest != "" && rest[0] != ' '
    ensures ReadAttrs(AttrsText(attrs) + rest)
      == if LegalAttrs(attrs) then Attrs(NormalAttrs(attrs), rest) else BadAttrs
  {
    hide AttrText, AttrsText, ReadAttrs, IsName, NamesOf, XmlChars, Blanks, LineEnds;
    if attrs == [] {
      NoAttrs(rest);
    } else {
      AttrsBack(attrs[1..], rest);
      AttrBack(attrs[0], AttrsText(attrs[1..]) + rest);
      AttrsSplit(attrs, rest);
      assert [attrs[0]][1..] == [];
      assert NormalAttrs([attrs[0]]) + NormalAttrs(attrs[1..]) == NormalAttrs(attrs);
      NormalNames(attrs[1..]);
    }
  }

  lemma {:induction false} AttrsSplit(attrs: seq<Attr>, rest: string)
    requires attrs != []
    ensures AttrsText(attrs) + rest
      == " " + (attrs[0].name + ("=\"" + (AttrText(attrs[0].value) + ("\"" + (AttrsText(attrs[1..]) + rest)))))
  {
    hide AttrText;
  }

  lemma {:induction false} StartParts(name: string, attrs: seq<Attr>, rest: string)
    requires NamesOk(Start(name, attrs)) && rest != "" && (rest[0] == '>' || rest[0] == '/')
    ensures var t := "<" + (name + (AttrsText(attrs) + rest));
      && |t| > 1 && t[0] == '<' && t[1] != '/' && NameLength(t[1..]) == |name| > 0
      && t[1..][..|name|] == name
      && ReadAttrs(t[1..][|name|..]) == if LegalAttrs(attrs) then Attrs(NormalAttrs(attrs), rest) else BadAttrs
  {
    hide NameLength, ReadAttrs;
    var tail := AttrsText(attrs) + rest;
    var t := "<" + (name + tail);
    assert t[1..] == name + tail && t[1] == name[0];
    AttrsBack(attrs, rest);
    AfterName(attrs, rest);
    NameLengthOver(name, tail);
    assert t[1..][|name|..] == tail;
  }

  lemma {:induction false} AfterName(attrs: seq<Attr>, rest: string)
    requires rest != "" && (rest[0] == '>' || rest[0] == '/')
    ensures var tail := AttrsText(attrs) + rest; tail != "" && !NameChar(tail[0])
  {
    hide AttrText;
  }

  lemma {:induction false} StartBack(name: string, attrs: seq<Attr>, rest: string)
    requires NamesOk(Start(name, attrs))
    ensures ReadBody("<" + (name + (AttrsText(attrs) + (">" + rest))))
      == if LegalAttrs(attrs) then Before([Start(name, NormalAttrs(attrs))], ReadBody(rest)) else BadXml
  {
    hide LegalAttrs, NormalAttrs, Forbidden, LineEnds, NameLength, ReadAttrs, AttrsText, Until, Decode, IsName;
    StartParts(name, attrs, ">" + rest);
    assert (">" + rest)[1..] == rest;
  }

  lemma {:induction false} EmptyBack(name: string, attrs: seq<Attr>, rest: string)
    requires NamesOk(Start(name, attrs))
    ensures ReadBody("<" + (name + (AttrsText(attrs) + ("/>" + rest))))
      == if LegalAttrs(attrs) then Before([Start(name, NormalAttrs(attrs)), End(name)], ReadBody(rest)) else BadXml
  {
    hide LegalAttrs, NormalAttrs, Forbidden, LineEnds, NameLength, ReadAttrs, AttrsText, Until, Decode, IsName;
    StartParts(name, attrs, "/>" + rest);
    assert ("/>" + rest)[2..] == rest;
  }

  lemma {:induction false} EndBack(name: string, rest: string)
    requires IsName(name)
    ensures ReadBody("</" + (name + (">" + rest))) == Before([End(name)], ReadBody(rest))
  {
    var tail := ">" + rest;
    var t := "</" + (name + tail);
    assert t[2..] == name + tail;
    NameLengthOver(name, tail);
    assert t[2..][..|name|] == name && t[2..][|name|..] == tail && tail[1..] == rest;
  }

  // ---- what must not stand in character data ----

  lemma {:induction false} ForbiddenBehind(a: string, b: string)
    requires Forbidden(b)
    ensures Forbidden(a + b)
  {
    if a == "" {
      assert a + b == b;
    } else {
      assert (a + b)[1..] == a[1..] + b;
      ForbiddenBehind(a[1..], b);
    }
  }

  lemma {:induction false} ForbiddenNotIn(a: string, b: string)
    requires ']' !in a && XmlChars(a)
    ensures Forbidden(a + b) <==> Forbidden(b)
  {
    if a == "" {
      assert a + b == b;
    } else {
      assert (a + b)[1..] == a[1..] + b && (a + b)[0] == a[0] != ']';
      ForbiddenNotIn(a[1..], b);
    }
  }

  lemma {:induction false} TextFirst(s: string)
    requires s != ""
    ensures ContentText(s)
      == (if s[0] == '<' then "&lt;" else if s[0] == '&' then "&amp;" else [s[0]]) + ContentText(s[1..])
  {
    assert TEXT_PATTERN == ['<', '&'];
  }

  // The escapes neither make nor hide a text that needs none.
  lemma {:induction false} PrefixKept(p: string, s: string)
    requires '<' !in p && '&' !in p
    ensures p <= ContentText(s) <==> p <= s
  {
    if p != "" && s != "" {
      hide ContentText;
      TextFirst(s);
      var t := ContentText(s);
      PrefixKept(p[1..], s[1..]);
      assert p == [p[0]] + p[1..] && s == [s[0]] + s[1..];
      assert s[0] != '<' && s[0] != '&' ==> t[1..] == ContentText(s[1..]);
    }
  }

  lemma {:induction false} ForbiddenKept(s: string)
    ensures Forbidden(ContentText(s)) <==> Forbidden(s)
  {
    if s != "" {
      TextFirst(s);
      ForbiddenKept(s[1..]);
      PrefixKept(SECTION_END, s);
      var rest := ContentText(s[1..]);
      if s[0] == '<' {
        ForbiddenNotIn("&lt;", rest);
      } else if s[0] == '&' {
        ForbiddenNotIn("&amp;", rest);
      } else {
        assert ([s[0]] + rest)[1..] == rest;
      }
    }
  }

  lemma {:induction false} TextJoined(a: string, b: string)
    ensures ContentText(a + b) == ContentText(a) + ContentText(b)
  {
    if a == "" {
      assert a + b == b;
    } else {
      assert (a + b)[1..] == a[1..] + b;
      TextJoined(a[1..], b);
    }
  }

  // ---- character data ----

  // The text some events begin with.
  function FirstText(es: seq<Event>): string { if es != [] && es[0].CData? then es[0].text else "" }

  // What can be read at all: no value holds a control character, and no text
  // one or the end of a section.
  predicate PlainEvent(e: Event) {
    match e
    case Start(_, attrs) => LegalAttrs(attrs)
    case End(_) => true
    case CData(text) => !Forbidden(text)
  }

  predicate Plain(es: seq<Event>) { forall i | 0 <= i < |es| :: PlainEvent(es[i]) }

  function Readable(es: seq<Event>): Read { if Plain(es) then Events(Normal(es)) else BadXml }

  lemma {:induction false} ReadableFirst(e: Event, es: seq<Event>)
    ensures Readable([e] + es) == if PlainEvent(e) then Before([NormalEvent(e)], Readable(es)) else BadXml
  {
    hide PlainEvent, NormalEvent;
    assert ([e] + es)[1..] == es;
    assert forall i | 0 <= i < |es| :: ([e] + es)[i + 1] == es[i];
    assert forall i | 1 <= i <= |es| :: ([e] + es)[i] == es[i - 1];
  }

  predicate TagOrEnd(rest: string) { rest == "" || rest[0] == '<' }

  lemma {:induction false} TextRead(t: string)
    requires t != "" && t[0] != '<'
    ensures var n := Until(t, "<");
      ReadBody(t) == match Decode(t[..n])
        case BadText => BadXml
        case Text(d) => if Forbidden(t[..n]) then BadXml else Before([CData(LineEnds(d))], ReadBody(t[n..]))
  {
    hide Decode, Until, NameLength, ReadAttrs, Forbidden, LineEnds;
  }

  lemma {:induction false} SegmentRead(text: string, rest: string)
    requires text != "" && TagOrEnd(rest)
    ensures ReadBody(ContentText(text) + rest)
      == if Forbidden(text) then BadXml else Before([CData(LineEnds(text))], ReadBody(rest))
  {
    hide Decode, Encoded, ReadBody, Forbidden, LineEnds;
    var e := ContentText(text);
    BothEncode();
    EncodedFree(text, "<", TEXT_PATTERN, TEXT_REPLACEMENT);
    UntilOver(e, rest, "<");
    assert (e + rest)[..|e|] == e && (e + rest)[|e|..] == rest && (e + rest)[0] == e[0];
    DecodeEncoded(text, "", TEXT_PATTERN, TEXT_REPLACEMENT);
    assert e + "" == e && text + "" == text;
    NoText();
    ForbiddenKept(text);
    TextRead(e + rest);
  }

  lemma {:induction false} NoText()
    ensures Decode("") == Text("")
  {
  }

  lemma {:induction false} NoContent()
    ensures ContentText("") == ""
  {
  }

  // Text in front of other text, which is empty in front of a tag.
  lemma {:induction false} TextBack(text: string, more: string, rest: string, es: seq<Event>)
    requires text != "" && TagOrEnd(rest) && more == FirstText(es)
    requires es != [] && es[0].CData? ==> es[0].text != ""
    requires ReadBody(ContentText(more) + rest) == Readable(es)
    ensures ReadBody(ContentText(text) + (ContentText(more) + rest)) == Readable(AddText(text, es))
  {
    hide ReadBody, ContentText, Forbidden, Readable, LineEnds;
    NoContent();
    TextJoined(text, more);
    assert ContentText(text) + (ContentText(more) + rest) == ContentText(text + more) + rest;
    SegmentRead(text + more, rest);
    var tail := if more == "" then es else es[1..];
    ReadableFirst(CData(text + more), tail);
    if more == "" {
      assert text + "" == text && "" + rest == rest;
    } else {
      assert es == [CData(more)] + tail;
      SegmentRead(more, rest);
      ReadableFirst(CData(more), tail);
      BeforeCancels([CData(LineEnds(more))], ReadBody(rest), Readable(tail));
      if Forbidden(more) {
        ForbiddenBehind(text, more);
      }
    }
  }

  lemma {:induction false} BeforeCancels(es: seq<Event>, a: Read, b: Read)
    ensures Before(es, a) == Before(es, b) ==> a == b
  {
    if Before(es, a) == Before(es, b) && a.Events? {
      assert (es + a.es)[|es|..] == a.es && (es + b.es)[|es|..] == b.es;
    }
  }

  // ---- the main result ----

  lemma {:induction false} OutputFirst(es: seq<Event>, t: Tags, o: Options)
    requires es != []
    ensures Output(es, t, o) == EventText(es[0], t, o) + Output(es[1..], AfterEvent(es[0], t, o), o)
  {
    hide EventText;
  }

  lemma {:induction false} TagFinish(e: Event, t: Tags, o: Options)
    requires !e.End? && t.inStart && !o.humanReadable && (t.started || !o.startDocument)
    ensures EventText(e, t, o) == ">" + EventText(e, Opened(t, o), o)
    ensures AfterEvent(e, t, o) == AfterEvent(e, Opened(t, o), o)
  {
    hide ContentText, AttrsText, Indentation;
    var u := Opened(t, o);
    assert Opened(u, o) == u && Opening(t, o) == ">" && Opening(u, o) == "";
  }

  // After an unfinished start tag, text and other starts first write its '>'.
  lemma {:induction false} TagFinished(es: seq<Event>, t: Tags, o: Options)
    requires es != [] && !es[0].End? && t.inStart && !o.humanReadable && (t.started || !o.startDocument)
    ensures Output(es, t, o) == ">" + Output(es, Opened(t, o), o)
  {
    hide Output, EventText, AfterEvent;
    OutputFirst(es, t, o);
    OutputFirst(es, Opened(t, o), o);
    TagFinish(es[0], t, o);
    Assoc(">", EventText(es[0], Opened(t, o), o), Output(es[1..], AfterEvent(es[0], t, o), o));
  }

  // Compact texts, with everything before the event written.
  lemma {:induction false} EndText(name: string, t: Tags, o: Options)
    requires !o.humanReadable
    ensures EventText(End(name), t, o) == if t.inStart then "/>" else "</" + (name + ">")
  {
  }

  lemma {:induction false} StartText(name: string, attrs: seq<Attr>, t: Tags, o: Options)
    requires !t.inStart && !o.humanReadable && (t.started || !o.startDocument)
    ensures EventText(Start(name, attrs), t, o) == "<" + (name + AttrsText(attrs))
  {
    hide AttrsText;
    assert Opening(t, o) == "" && Indentation(Opened(t, o).nest, o) == "";
  }

  lemma {:induction false} EndWritten(es: seq<Event>, t: Tags, o: Options)
    requires es != [] && es[0].End? && !o.humanReadable
    ensures Output(es, t, o)
      == if t.inStart then "/>" + Output(es[1..], t.(inStart := false), o)
         else "</" + (es[0].name + (">" + Output(es[1..], t.(nest := t.nest - 1), o)))
  {
    hide Output, EventText;
    OutputFirst(es, t, o);
    EndText(es[0].name, t, o);
    Regroup("</", es[0].name, ">", Output(es[1..], AfterEvent(es[0], t, o), o));
  }

  lemma {:induction false} StartWritten(es: seq<Event>, t: Tags, o: Options)
    requires es != [] && es[0].Start? && !t.inStart && !o.humanReadable && (t.started || !o.startDocument)
    ensures Output(es, t, o)
      == "<" + (es[0].name + (AttrsText(es[0].attrs) + Output(es[1..], AfterEvent(es[0], t, o), o)))
    ensures AfterEvent(es[0], t, o) == Tags(t.nest, true, t.started || o.startDocument)
  {
    hide Output, EventText, AttrsText;
    OutputFirst(es, t, o);
    StartText(es[0].name, es[0].attrs, t, o);
    Regroup("<", es[0].name, AttrsText(es[0].attrs), Output(es[1..], AfterEvent(es[0], t, o), o));
  }

  lemma {:induction false} TextWritten(es: seq<Event>, t: Tags, o: Options)
    requires es != [] && es[0].CData? && !t.inStart && !o.humanReadable && (t.started || !o.startDocument)
    ensures Output(es, t, o) == ContentText(es[0].text) + Output(es[1..], Opened(t, o), o)
  {
    hide Output, ContentText;
    OutputFirst(es, t, o);
    assert Opening(t, o) == "";
    assert EventText(es[0], t, o) == ContentText(es[0].text);
  }

  lemma {:induction false} MergedFirst(es: seq<Event>)
    requires es != []
    ensures Merged(es) == if es[0].CData? then AddText(es[0].text, Merged(es[1..])) else [es[0]] + Merged(es[1..])
  {
  }

  // Joined text is never empty.
  lemma {:induction false} MergedText(es: seq<Event>)
    ensures var ms := Merged(es); ms != [] && ms[0].CData? ==> ms[0].text != ""
  {
    if es != [] && es[0].CData? {
      MergedText(es[1..]);
    }
  }

  lemma {:induction false} NestFirst(names: seq<string>, es: seq<Event>)
    requires es != [] && Nest(Open(names), es) == Open([])
    ensures es[0].Start? ==> Nest(Open(names + [es[0].name]), es[1..]) == Open([]) && es[1..] != []
    ensures es[0].End? ==>
      names != [] && names[|names| - 1] == es[0].name && Nest(Open(names[..|names| - 1]), es[1..]) == Open([])
    ensures es[0].CData? ==> Nest(Open(names), es[1..]) == Open([])
  {
    NestFails(es[1..]);
  }

  // What is written begins with the text the events begin with.
  lemma {:induction false} Segment(es: seq<Event>, t: Tags, o: Options) returns (rest: string)
    requires !t.inStart && !o.humanReadable && (t.started || !o.startDocument)
    ensures TagOrEnd(rest) && Output(es, t, o) == ContentText(FirstText(Merged(es))) + rest
    decreases |es|
  {
    hide Output, Merged, ContentText, AttrsText;
    NoContent();
    rest := Output(es, t, o);
    assert rest == "" + rest;
    if es == [] {
      NoOutput(t, o);
    } else {
      MergedFirst(es);
      match es[0]
      case CData(text) => {
        TextWritten(es, t, o);
        rest := Segment(es[1..], Opened(t, o), o);
        var more := FirstText(Merged(es[1..]));
        TextJoined(text, more);
        assert FirstText(AddText(text, Merged(es[1..]))) == text + more by {
          assert "" + more == more && text + "" == text;
        }
        assert ContentText(text) + (ContentText(more) + rest) == ContentText(text + more) + rest;
      }
      case End(name) => EndWritten(es, t, o);
      case Start(name, attrs) => StartWritten(es, t, o);
    }
  }

  lemma {:induction false} NoOutput(t: Tags, o: Options)
    ensures Output([], t, o) == "" && Merged([]) == []
  {
  }

  // Text is read back if, joined to what it comes with, it is not forbidden.
  lemma {:induction false} TextEventBack(es: seq<Event>, t: Tags, o: Options)
    requires !t.inStart && !o.humanReadable && (t.started || !o.startDocument)
    requires es != [] && es[0].CData?
    requires ReadBody(Output(es[1..], Opened(t, o), o)) == Readable(Merged(es[1..]))
    ensures ReadBody(Output(es, t, o)) == Readable(Merged(es))
  {
    hide ReadBody, Output, Merged, ContentText, Forbidden, Readable;
    TextWritten(es, t, o);
    MergedFirst(es);
    if es[0].text == "" {
      NoContent();
      assert "" + Output(es[1..], Opened(t, o), o) == Output(es[1..], Opened(t, o), o);
    } else {
      var rest := Segment(es[1..], Opened(t, o), o);
      MergedText(es[1..]);
      TextBack(es[0].text, FirstText(Merged(es[1..])), rest, Merged(es[1..]));
    }
  }

  lemma {:induction false} BodyBack(es: seq<Event>, names: seq<string>, t: Tags, o: Options)
    requires !t.inStart && !o.humanReadable && (t.started || !o.startDocument)
    requires Nest(Open(names), es) == Open([]) && forall i | 0 <= i < |es| :: NamesOk(es[i])
    ensures ReadBody(Output(es, t, o)) == Readable(Merged(es))
    decreases |es|
  {
    hide ReadBody, Output, Merged, Nest, AttrsText, ContentText, IsName, Readable, NormalAttrs, LegalAttrs;
    if es == [] {
      Nothing(t, o);
    } else {
      NestFirst(names, es);
      match es[0]
      case CData(text) =>
        BodyBack(es[1..], names, Opened(t, o), o);
        TextEventBack(es, t, o);
      case End(name) =>
        var u := t.(nest := t.nest - 1);
        MergedFirst(es);
        EndWritten(es, t, o);
        BodyBack(es[1..], names[..|names| - 1], u, o);
        EndBack(name, Output(es[1..], u, o));
        ReadableFirst(es[0], Merged(es[1..]));
      case Start(name, attrs) =>
        StartTagBack(es, names, t, o);
    }
  }

  lemma {:induction false} Nothing(t: Tags, o: Options)
    ensures ReadBody(Output([], t, o)) == Readable(Merged([]))
  {
  }

  // A start tag is finished by what comes next.
  lemma {:induction false} StartTagBack(es: seq<Event>, names: seq<string>, t: Tags, o: Options)
    requires !t.inStart && !o.humanReadable && (t.started || !o.startDocument)
    requires es != [] && es[0].Start? && Nest(Open(names), es) == Open([])
    requires forall i | 0 <= i < |es| :: NamesOk(es[i])
    ensures ReadBody(Output(es, t, o)) == Readable(Merged(es))
    decreases |es|, 0
  {
    hide ReadBody, Output, Merged, Nest, AttrsText, ContentText, IsName, Readable, NormalAttrs, LegalAttrs;
    var name, rest := es[0].name, es[1..];
    NestFirst(names, es);
    StartWritten(es, t, o);
    var u := AfterEvent(es[0], t, o);
    if rest[0].End? {
      NestFirst(names + [name], rest);
      BodyBack(rest[1..], (names + [name])[..|names|], u.(inStart := false), o);
      EmptyElementBack(es, t, o);
    } else {
      TagFinished(rest, u, o);
      BodyBack(rest, names + [name], Opened(u, o), o);
      StartBack(name, es[0].attrs, Output(rest, Opened(u, o), o));
      MergedFirst(es);
      ReadableFirst(es[0], Merged(rest));
    }
  }

  lemma {:induction false} BeforeTwice(a: Event, b: Event, r: Read)
    ensures Before([a], Before([b], r)) == Before([a, b], r)
  {
    if r.Events? {
      assert [a] + ([b] + r.es) == [a, b] + r.es;
    }
  }

  lemma {:induction false} EmptyElementBack(es: seq<Event>, t: Tags, o: Options)
    requires !t.inStart && !o.humanReadable && (t.started || !o.startDocument)
    requires |es| >= 2 && NamesOk(es[0]) && es[0].Start? && es[1] == End(es[0].name)
    requires var u := AfterEvent(es[0], t, o).(inStart := false);
      ReadBody(Output(es[2..], u, o)) == Readable(Merged(es[2..]))
    ensures ReadBody(Output(es, t, o)) == Readable(Merged(es))
  {
    hide ReadBody, Output, Merged, AttrsText, IsName, Readable, NormalAttrs, LegalAttrs;
    var rest, u := es[1..], AfterEvent(es[0], t, o);
    assert rest[1..] == es[2..];
    StartWritten(es, t, o);
    EndWritten(rest, u, o);
    EmptyBack(es[0].name, es[0].attrs, Output(es[2..], u.(inStart := false), o));
    MergedFirst(es);
    MergedFirst(rest);
    ReadableFirst(es[0], [es[1]] + Merged(es[2..]));
    ReadableFirst(es[1], Merged(es[2..]));
    BeforeTwice(NormalEvent(es[0]), es[1], Readable(Merged(es[2..])));
  }

  // No body begins like the declaration.
  lemma {:induction false} NoHeader(es: seq<Event>, t: Tags, o: Options)
    requires !t.inStart && !o.humanReadable && (t.started || !o.startDocument)
    requires forall i | 0 <= i < |es| :: NamesOk(es[i])
    ensures !(HEADER <= Output(es, t, o))
    decreases |es|
  {
    hide Output, ContentText, AttrsText;
    if es == [] {
      NoOutput(t, o);
    } else {
      match es[0]
      case CData(text) => {
        TextWritten(es, t, o);
        NoContent();
        if text == "" {
          NoHeader(es[1..], Opened(t, o), o);
        } else {
          TextFirst(text);
          assert Output(es, t, o)[0] != '<' && HEADER[0] == '<';
        }
      }
      case End(name) => {
        EndWritten(es, t, o);
        assert Output(es, t, o)[1] == '/' && HEADER[1] == '?';
      }
      case Start(name, attrs) => {
        StartWritten(es, t, o);
        assert NamesOk(es[0]) && name == es[0].name;
        assert Output(es, t, o)[1] == name[0] && NameChar(name[0]) && HEADER[1] == '?';
      }
    }
  }

  // The first event brings the declaration, if it is asked for.
  lemma {:induction false} DeclaredText(e: Event, o: Options)
    requires !e.End? && !o.humanReadable && o.startDocument
    ensures var t, u := Tags(0, false, false), Tags(0, false, true);
      EventText(e, t, o) == HEADER + EventText(e, u, o) && AfterEvent(e, t, o) == AfterEvent(e, u, o)
  {
    hide ContentText, AttrsText, Indentation;
    var t, u := Tags(0, false, false), Tags(0, false, true);
    assert Opening(t, o) == HEADER && Opening(u, o) == "" && Opened(t, o) == u == Opened(u, o);
  }

  lemma {:induction false} Declared(es: seq<Event>, o: Options)
    requires Nest(Open([]), es) == Open([]) && !o.humanReadable && o.startDocument && es != []
    ensures Output(es, Tags(0, false, false), o) == HEADER + Output(es, Tags(0, false, true), o)
  {
    hide Output, EventText, AfterEvent, Nest;
    NestFirst([], es);
    var t, u := Tags(0, false, false), Tags(0, false, true);
    OutputFirst(es, t, o);
    OutputFirst(es, u, o);
    DeclaredText(es[0], o);
    Assoc(HEADER, EventText(es[0], u, o), Output(es[1..], AfterEvent(es[0], u, o), o));
  }

  // ---- documents ----

  lemma {:induction false} NormalAt(es: seq<Event>)
    ensures |Normal(es)| == |es| && forall i | 0 <= i < |es| :: Normal(es)[i] == NormalEvent(es[i])
  {
    if es != [] {
      NormalAt(es[1..]);
    }
  }

  lemma {:induction false} NormalPart(es: seq<Event>, a: nat, b: nat)
    requires a <= b <= |es|
    ensures |Normal(es)| == |es| && Normal(es)[a..b] == Normal(es[a..b])
  {
    NormalAt(es);
    NormalAt(es[a..b]);
  }

  lemma {:induction false} WhiteKept(e: Event)
    ensures White(NormalEvent(e)) <==> White(e)
  {
    if e.CData? {
      LineEndsWhite(e.text);
    }
  }

  predicate Blank(t: string) { forall i | 0 <= i < |t| :: t[i] in " \t\n\r" }

  lemma {:induction false} BlankFirst(t: string)
    requires t != ""
    ensures Blank(t) <==> t[0] in " \t\n\r" && Blank(t[1..])
  {
    assert forall i | 1 <= i < |t| :: t[i] == t[1..][i - 1];
  }

  lemma {:induction false} LineEndsWhite(t: string)
    ensures Blank(LineEnds(t)) <==> Blank(t)
  {
    hide Blank;
    if t == "" {
      assert LineEnds(t) == t;
    } else {
      BlankFirst(t);
      BlankFirst(LineEnds(t));
      if "\r\n" <= t {
        BlankFirst(t[1..]);
        DropTwice(t, 1, 1);
        LineEndsWhite(t[2..]);
        assert LineEnds(t)[1..] == LineEnds(t[2..]);
      } else {
        LineEndsWhite(t[1..]);
        assert LineEnds(t)[1..] == LineEnds(t[1..]);
      }
    }
  }

  lemma {:induction false} TrimKept(es: seq<Event>)
    ensures Trim(Normal(es)) == Normal(Trim(es))
  {
    hide White, NormalEvent, Normal;
    NormalAt(es);
    if es != [] {
      WhiteKept(es[0]);
      WhiteKept(es[|es| - 1]);
      var a := if White(es[0]) then 1 else 0;
      var b := if a < |es| && White(es[|es| - 1]) then |es| - 1 else |es|;
      NormalPart(es, a, b);
      assert Trim(es) == es[a..b] && Trim(Normal(es)) == Normal(es)[a..b];
    }
  }

  lemma {:induction false} ClosesKept(n: Nesting, es: seq<Event>)
    ensures ClosesAtEnd(n, Normal(es)) <==> ClosesAtEnd(n, es)
    decreases |es|
  {
    NormalAt(es);
    if es != [] {
      assert After(n, NormalEvent(es[0])) == After(n, es[0]);
      assert Normal(es)[1..] == Normal(es[1..]);
      ClosesKept(After(n, es[0]), es[1..]);
    }
  }

  // A compactly written document is read as its events, with adjacent character
  // data joined, empty data dropped, and white space as the reader sees it.
  // What the writer does not look at must be in order, or it is not XML: names
  // of attributes used once, no control characters, no "]]>" in text, and one
  // root element with nothing but white space around it.
  lemma {:induction false} DocumentReadsBack(es: seq<Event>, o: Options)
    requires Nest(Open([]), es) == Open([]) && forall i | 0 <= i < |es| :: NamesOk(es[i])
    requires !o.humanReadable
    ensures var ms := Merged(es);
      ReadDocument(Output(es, Tags(0, false, false), o))
      == if Plain(ms) && OneElement(Trim(ms)) then Events(Normal(Trim(ms))) else BadXml
  {
    hide ReadBody, Output, Merged, Nest, Plain, Trim, Normal, ClosesAtEnd;
    var text := Output(es, Tags(0, false, false), o);
    if o.startDocument && es != [] {
      Declared(es, o);
      assert text[|HEADER|..] == Output(es, Tags(0, false, true), o);
      BodyBack(es, [], Tags(0, false, true), o);
    } else if es == [] {
      NoOutput(Tags(0, false, false), o);
      Nothing(Tags(0, false, false), o);
    } else {
      BodyBack(es, [], Tags(0, false, false), o);
      NoHeader(es, Tags(0, false, false), o);
    }
    TrimKept(Merged(es));
    NormalAt(Trim(Merged(es)));
    ClosesKept(Open([]), Trim(Merged(es)));
  }

  // ---- what is read back unchanged ----

  lemma {:induction false} LineEndsSame(t: string)
    ensures '\r' !in LineEnds(t) && (LineEnds(t) == t <==> '\r' !in t)
  {
    if t != "" {
      if "\r\n" <= t {
        LineEndsSame(t[2..]);
        assert t[0] == '\r' && '\r' !in LineEnds(t);
      } else {
        LineEndsSame(t[1..]);
        assert t == [t[0]] + t[1..];
      }
    }
  }

  lemma {:induction false} BlanksSame(t: string)
    ensures '\t' !in Blanks(t) && '\n' !in Blanks(t) && ('\r' !in t ==> '\r' !in Blanks(t))
    ensures '\t' !in t && '\n' !in t ==> Blanks(t) == t
  {
    if t != "" {
      BlanksSame(t[1..]);
      assert t == [t[0]] + t[1..];
    }
  }

  predicate SameAttrs(attrs: seq<Attr>) {
    forall i | 0 <= i < |attrs| :: forall c | c in "\t\n\r" :: c !in attrs[i].value
  }

  lemma {:induction false} AttrsSame(attrs: seq<Attr>)
    ensures NormalAttrs(attrs) == attrs <==> SameAttrs(attrs)
  {
    if attrs != [] {
      var value := attrs[0].value;
      AttrsSame(attrs[1..]);
      LineEndsSame(value);
      BlanksSame(LineEnds(value));
      assert attrs == [attrs[0]] + attrs[1..];
      assert SameAttrs(attrs) <==> (forall c | c in "\t\n\r" :: c !in value) && SameAttrs(attrs[1..]) by {
        assert forall i | 1 <= i < |attrs| :: attrs[i] == attrs[1..][i - 1];
      }
    }
  }

  // No carriage return in a text, no white space but blanks in a value.
  predicate SameEvent(e: Event) {
    match e
    case Start(_, attrs) => SameAttrs(attrs)
    case End(_) => true
    case CData(text) => '\r' !in text
  }

  predicate Same(es: seq<Event>) { forall i | 0 <= i < |es| :: SameEvent(es[i]) }

  lemma {:induction false} EventSame(e: Event)
    ensures NormalEvent(e) == e <==> SameEvent(e)
  {
    match e
    case Start(_, attrs) => AttrsSame(attrs);
    case End(_) =>
    case CData(text) => LineEndsSame(text);
  }

  lemma {:induction false} NormalSame(es: seq<Event>)
    ensures Normal(es) == es <==> Same(es)
  {
    hide NormalEvent, SameEvent;
    if es != [] {
      EventSame(es[0]);
      NormalSame(es[1..]);
      assert es == [es[0]] + es[1..];
      assert forall i | 1 <= i < |es| :: es[i] == es[1..][i - 1];
    }
  }

  // ---- what the reader can give at all ----

  lemma {:induction false} NameIsRead(t: string)
    requires NameLength(t) > 0
    ensures IsName(t[..NameLength(t)])
  {
    NameRestIsRead(t);
  }

  lemma {:induction false} NameRestIsRead(t: string)
    ensures forall i | 0 <= i < NameRest(t) :: NameChar(t[i])
  {
    if t != "" && NameChar(t[0]) {
      NameRestIsRead(t[1..]);
      assert forall i | 1 <= i < NameRest(t) :: t[i] == t[1..][i - 1];
    }
  }

  lemma {:induction false} AttrNamesRead(t: string)
    ensures var r := ReadAttrs(t); r.Attrs? ==> forall i | 0 <= i < |r.attrs| :: IsName(r.attrs[i].name)
    decreases |t|
  {
    hide IsName, Decode, Until, NameLength, XmlChars, Blanks, LineEnds, NamesOf;
    if t != "" && t[0] == ' ' {
      var n := NameLength(t[1..]);
      var more := t[1..][n..];
      if n > 0 && "=\"" <= more {
        NameIsRead(t[1..]);
        var after := more[2..][Until(more[2..], "\"<")..];
        if after != "" {
          AttrNamesRead(after[1..]);
          var r, more := ReadAttrs(t), ReadAttrs(after[1..]);
          if r.Attrs? {
            assert r.attrs[0].name == t[1..][..n] && r.attrs[1..] == more.attrs;
            assert forall i | 0 < i < |r.attrs| :: r.attrs[i] == more.attrs[i - 1];
          }
        }
      }
    }
  }

  lemma {:induction false} UntilPositive(t: string)
    requires t != "" && t[0] != '<'
    ensures Until(t, "<") > 0
  {
  }

  lemma {:induction false} NamesRead(t: string)
    ensures ReadBody(t).Events? ==> forall i | 0 <= i < |ReadBody(t).es| :: NamesOk(ReadBody(t).es[i])
    decreases |t|
  {
    hide IsName, Decode, Until, NameLength, ReadAttrs, Forbidden, LineEnds;
    if t != "" {
      if t[0] != '<' {
        TextRead(t);
        UntilPositive(t);
        NamesRead(t[Until(t, "<")..]);
      } else if "</" <= t {
        var n := NameLength(t[2..]);
        var more := t[2..][n..];
        if n > 0 && more != "" {
          NameIsRead(t[2..]);
          NamesRead(more[1..]);
        }
      } else {
        var n := NameLength(t[1..]);
        var attrs := ReadAttrs(t[1..][n..]);
        if n > 0 && attrs.Attrs? {
          NameIsRead(t[1..]);
          AttrNamesRead(t[1..][n..]);
          assert IsName(t[1..][..n]);
          assert NamesOk(End(t[1..][..n]));
          assert NamesOk(Start(t[1..][..n], attrs.attrs));
          if ">" <= attrs.rest {
            NamesRead(attrs.rest[1..]);
          } else if "/>" <= attrs.rest {
            NamesRead(attrs.rest[2..]);
          }
        }
      }
    }
  }

  // A document as it is read: one element, and names that are names.
  predicate Sound(es: seq<Event>) { OneElement(es) && forall i | 0 <= i < |es| :: NamesOk(es[i]) }

  lemma {:induction false} ReadIsSound(t: string)
    ensures ReadDocument(t).Events? ==> Sound(ReadDocument(t).es)
  {
    hide ReadBody, NamesOk, White;
    NamesRead(if HEADER <= t then t[|HEADER|..] else t);
  }

  lemma {:induction false} ClosedNests(n: Nesting, es: seq<Event>)
    requires ClosesAtEnd(n, es)
    ensures Nest(n, es) == Open([])
    ensures n.Open? && n.names != [] ==> es[|es| - 1].End?
    decreases |es|
  {
    if |es| == 1 {
      assert es[1..] == [];
    } else {
      ClosedNests(After(n, es[0]), es[1..]);
    }
  }

  lemma {:induction false} NotTrimmed(es: seq<Event>)
    requires OneElement(es)
    ensures Trim(es) == es && Nest(Open([]), es) == Open([])
  {
    ClosedNests(Open([]), es);
    var m := After(Open([]), es[0]);
    assert m == Open([es[0].name]);
    ClosedNests(m, es[1..]);
  }

  lemma {:induction false} MergedNames(es: seq<Event>)
    ensures (forall i | 0 <= i < |es| :: NamesOk(es[i])) <==> forall e | e in Merged(es) :: NamesOk(e)
  {
    if es != [] {
      MergedNames(es[1..]);
      assert forall i | 1 <= i < |es| :: es[i] == es[1..][i - 1];
      var more := Merged(es[1..]);
      if es[0].CData? {
        if es[0].text != "" {
          if more != [] && more[0].CData? {
            assert forall e | e in more :: e == more[0] || e in more[1..];
          }
        }
      } else {
        assert es[0] in Merged(es);
        assert forall e | e in more :: e in Merged(es);
      }
    }
  }

  // ---- the main result ----

  // What comes back as it was written.
  predicate Proper(es: seq<Event>) { Sound(es) && Plain(es) && Same(es) }

  // Whatever events are written, in order or not: they come back, up to the
  // pieces of character data, exactly if they are a document.
  lemma {:induction false} DocumentBackExactly(es: seq<Event>, o: Options)
    requires !o.humanReadable
    ensures ReadDocument(Output(es, Tags(0, false, false), o)) == Events(Merged(es)) <==> Proper(Merged(es))
  {
    hide Output, Merged, ReadDocument, Nest, Plain, Same, Normal, OneElement, Trim, NamesOk;
    var text, ms := Output(es, Tags(0, false, false), o), Merged(es);
    ReadIsSound(text);
    if Sound(ms) {
      NotTrimmed(ms);
      MergedNests(Open([]), es);
      MergedNames(es);
      DocumentReadsBack(es, o);
      NormalSame(ms);
    }
  }

  // An attribute twice, and two roots: written, and not read back.
  lemma {:induction false} RepeatedNameRefused(name: string, a: Attr, b: Attr, o: Options)
    requires !o.humanReadable && a.name == b.name
    ensures var es := [Start(name, [a, b]), End(name)];
      ReadDocument(Output(es, Tags(0, false, false), o)) != Events(es) && Merged(es) == es
  {
    hide Output, ReadDocument, XmlChars;
    var es := [Start(name, [a, b]), End(name)];
    assert es[1..] == [End(name)] && es[1..][1..] == [] && Merged(es[1..]) == [End(name)] + [];
    assert [Start(name, [a, b])] + [End(name)] == es;
    assert [a, b][1..] == [b] && b in [b] && a.name in NamesOf([b]);
    assert !PlainEvent(es[0]);
    DocumentBackExactly(es, o);
  }

  lemma {:induction false} TwoRootsRefused(a: string, b: string, o: Options)
    requires !o.humanReadable
    ensures var es := [Start(a, []), End(a), Start(b, []), End(b)];
      ReadDocument(Output(es, Tags(0, false, false), o)) != Events(Merged(es))
  {
    hide Output, ReadDocument;
    var es := [Start(a, []), End(a), Start(b, []), End(b)];
    var ms := Merged(es);
    assert es[1..] == [End(a), Start(b, []), End(b)] && es[1..][1..] == [Start(b, []), End(b)];
    assert ms[0] == es[0] && ms[1..] == Merged(es[1..]) && ms[1..][0] == End(a);
    assert |ms[1..]| > 1 by {
      assert Merged(es[1..]) == [End(a)] + Merged(es[1..][1..]);
      assert Merged(es[1..][1..]) == [Start(b, [])] + Merged(es[1..][1..][1..]);
    }
    assert After(Open([]), ms[0]) == Open([a]) && After(Open([a]), End(a)) == Open([]);
    assert !ClosesAtEnd(Open([a]), ms[1..]);
    assert !OneElement(ms);
    DocumentBackExactly(es, o);
  }

  // Such a text can be written, and is not read back.
  lemma {:induction false} SectionEndRefused(name: string, o: Options)
    requires IsName(name) && !o.humanReadable
    ensures var es := [Start(name, []), CData(SECTION_END), End(name)];
      Nest(Open([]), es) == Open([]) && ReadDocument(Output(es, Tags(0, false, false), o)) == BadXml
  {
    var es := [Start(name, []), CData(SECTION_END), End(name)];
    OneTextNests(name, SECTION_END);
    assert Merged(es)[1] == CData(SECTION_END);
    DocumentReadsBack(es, o);
  }

  lemma {:induction false} OneTextNests(name: string, text: string)
    requires text != ""
    ensures var es := [Start(name, []), CData(text), End(name)];
      Nest(Open([]), es) == Open([]) && Merged(es) == es
  {
    hide Nest, Merged;
    var es := [Start(name, []), CData(text), End(name)];
    assert es[1..] == [CData(text), End(name)] && es[1..][1..] == [End(name)] && [End(name)][1..] == [];
    B.NestAppend(Open([]), [], Start(name, []));
    B.NestAppend(Open([]), [Start(name, [])], CData(text));
    B.NestAppend(Open([]), [Start(name, []), CData(text)], End(name));
    assert [] + [Start(name, [])] == [Start(name, [])];
    assert [Start(name, [])] + [CData(text)] == [Start(name, []), CData(text)];
    assert [Start(name, []), CData(text)] + [End(name)] == es;
    NestNothing(Open([]));
    MergedFirst(es);
    MergedFirst(es[1..]);
    MergedFirst([End(name)]);
    assert [End(name)] + [] == [End(name)] && [CData(text)] + [End(name)] == es[1..];
  }

  lemma {:induction false} NestNothing(n: Nesting)
    ensures Nest(n, []) == n && Merged([]) == []
  {
  }

  // Joining and dropping character data keeps the nesting.
  lemma {:induction false} MergedNests(n: Nesting, es: seq<Event>)
    ensures Nest(n, Merged(es)) == Nest(n, es)
    decreases |es|
  {
    if es != [] {
      MergedNests(After(n, es[0]), es[1..]);
      if es[0].CData? {
        var more := Merged(es[1..]);
        if es[0].text != "" && more != [] && more[0].CData? {
          assert AddText(es[0].text, more)[1..] == more[1..];
        } else if es[0].text != "" {
          assert AddText(es[0].text, more)[1..] == more;
        }
      } else {
        assert Merged(es)[1..] == Merged(es[1..]);
      }
    }
  }

  // From builder calls to text and back: what the calls mean comes back exactly
  // if it is a document.
  method BuildAndWrite(calls: seq<B.Call>, o: Options) returns (text: string)
    requires B.Legal(calls) && !o.humanReadable && forall e | e in B.Meaning(calls) :: Fits(e)
    ensures ReadDocument(text) == Events(Merged(B.Meaning(calls))) <==> Proper(Merged(B.Meaning(calls)))
  {
    hide ReadDocument, Merged, Nest, Output, B.Meaning, B.Legal, Fits, OneElement, Plain, Same, NamesOk;
    var b := B.Build(calls);
    var es := B.Meaning(calls);
    B.PendingInnermost(b.out, b.elementStack, b.state, b.openedTag, b.currentAttrs);
    text := WriteDocument(b.out, o);
    ReadIsSound(text);
    if b.state.TagOpened? {
      MergedNests(Open([]), es);
      if OneElement(Merged(es)) {
        NotTrimmed(Merged(es));
      }
    } else {
      assert b.out + [] == b.out;
      DocumentBackExactly(b.out, o);
    }
  }
}
