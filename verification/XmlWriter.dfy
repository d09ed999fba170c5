// The escaping of XML text in chunks, and the event writer on top of it
// (tinfra/xml_writer.cpp).
module XmlWriter {
  import opened XmlEvents

  // ---- escaping ----

  function IndexOf(pattern: string, c: char): (i: nat)
    requires c in pattern
    ensures i < |pattern| && pattern[i] == c
  {
    if pattern[0] == c then 0 else 1 + IndexOf(pattern[1..], c)
  }

  // Each character of the pattern gives way to its replacement.
  function Encoded(s: string, pattern: string, replacement: seq<string>): string
    requires |pattern| == |replacement|
  {
    if s == "" then ""
    else
      (if s[0] in pattern then replacement[IndexOf(pattern, s[0])] else [s[0]])
      + Encoded(s[1..], pattern, replacement)
  }

  lemma {:induction false} EncodedPlain(s: string, n: nat, pattern: string, replacement: seq<string>)
    requires |pattern| == |replacement| && n <= |s| && forall i | 0 <= i < n :: s[i] !in pattern
    ensures Encoded(s, pattern, replacement) == s[..n] + Encoded(s[n..], pattern, replacement)
  {
    if n > 0 {
      EncodedPlain(s[1..], n - 1, pattern, replacement);
      assert s[1..][n - 1..] == s[n..] && s[..n] == [s[0]] + s[1..][..n - 1];
    }
  }

  const INT_MAX := 0x7fff_ffff

  class ContentEncoder {
    const data: string
    const pattern: string
    const replacement: seq<string>
    var position: nat

    ghost predicate Valid()
      reads this
    {
      |pattern| == |replacement| && position <= |data| < INT_MAX
    }

    // What is still to come.
    ghost function Left(): string
      requires Valid()
      reads this
    {
      Encoded(data[position..], pattern, replacement)
    }

    constructor (data: string, pattern: string, replacement: seq<string>)
      requires |data| < INT_MAX && |pattern| == |replacement|
      ensures Valid() && Left() == Encoded(data, pattern, replacement)
    {
      this.data, this.pattern, this.replacement := data, pattern, replacement;
      position := 0;
      new;
      assert data[0..] == data;
    }

    predicate HasNext()
      reads this
    {
      position < |data|
    }

    // The next run of plain characters, or the next replacement.
    method Next() returns (chunk: string)
      requires Valid() && HasNext()
      modifies this
      ensures Valid() && position > old(position)
      ensures chunk + Left() == old(Left())
    {
      var current := data[position..];
      // find_first_of
      var first := 0;
      while first < |current| && current[first] !in pattern
        invariant first <= |current| && forall i | 0 <= i < first :: current[i] !in pattern
      {
        first := first + 1;
      }
      EncodedPlain(current, first, pattern, replacement);
      assert data[position + first..] == current[first..];
      if first == |current| {
        position := |data|;
        chunk := current;
      } else if first == 0 {
        position := position + 1;
        chunk := replacement[IndexOf(pattern, current[0])];
        assert data[position..] == current[1..];
      } else {
        chunk := current[..first];
        position := position + first;
      }
    }
  }

  method WriteEncoded(data: string, pattern: string, replacement: seq<string>) returns (out: string)
    requires |data| < INT_MAX && |pattern| == |replacement|
    ensures out == Encoded(data, pattern, replacement)
  {
    out := "";
    var encoder := new ContentEncoder(data, pattern, replacement);
    while encoder.HasNext()
      invariant fresh(encoder) && encoder.Valid() && out + encoder.Left() == Encoded(data, pattern, replacement)
      decreases |encoder.data| - encoder.position
    {
      var chunk := encoder.Next();
      out := out + chunk;
    }
  }

  const ATTR_PATTERN := "\"'<&"
  const ATTR_REPLACEMENT := ["&quot;", "&apos;", "&lt;", "&amp;"]
  const TEXT_PATTERN := "<&"
  const TEXT_REPLACEMENT := ["&lt;", "&amp;"]

  function AttrText(s: string): string { Encoded(s, ATTR_PATTERN, ATTR_REPLACEMENT) }

  function ContentText(s: string): string { Encoded(s, TEXT_PATTERN, TEXT_REPLACEMENT) }

  // ---- the text of an event ----

  datatype Options = Options(startDocument: bool, humanReadable: bool, indentationSize: nat, indentationCharacter: char)

  // tag_nest_, in_start_tag_ and xml_document_started_
  datatype Tags = Tags(nest: int, inStart: bool, started: bool)

  function Newline(o: Options): string { if o.humanReadable then "\n" else "" }

  function Indentation(nest: int, o: Options): string {
    if o.humanReadable then seq(if nest < 0 then 0 else o.indentationSize * nest, _ => o.indentationCharacter) else ""
  }

  // Before anything inside or after a start tag: the declaration once, and
  // the end of a start tag left open.
  function Opening(t: Tags, o: Options): string {
    (if o.startDocument && !t.started then HEADER else "") + if t.inStart then ">" + Newline(o) else ""
  }

  function Opened(t: Tags, o: Options): Tags {
    Tags(if t.inStart then t.nest + 1 else t.nest, false, t.started || o.startDocument)
  }

  function AttrsText(attrs: seq<Attr>): string {
    if attrs == [] then ""
    else " " + attrs[0].name + "=\"" + AttrText(attrs[0].value) + "\"" + AttrsText(attrs[1..])
  }

  function EventText(e: Event, t: Tags, o: Options): string {
    match e
    case Start(name, attrs) => Opening(t, o) + (Indentation(Opened(t, o).nest, o) + "<" + name + AttrsText(attrs))
    case End(name) =>
      (if t.inStart then "/>" else Indentation(t.nest - 1, o) + "</" + name + ">") + Newline(o)
    case CData(text) => Opening(t, o) + ContentText(text)
  }

  function AfterEvent(e: Event, t: Tags, o: Options): Tags {
    match e
    case Start(_, _) => Opened(t, o).(inStart := true)
    case End(_) => if t.inStart then t.(inStart := false) else t.(nest := t.nest - 1)
    case CData(_) => Opened(t, o)
  }

  function Output(es: seq<Event>, t: Tags, o: Options): string
    decreases |es|
  {
    if es == [] then "" else EventText(es[0], t, o) + Output(es[1..], AfterEvent(es[0], t, o), o)
  }

  // Everything the encoder is given fits its position counter.
  predicate Fits(e: Event) {
    match e
    case Start(_, attrs) => forall i | 0 <= i < |attrs| :: |attrs[i].value| < INT_MAX
    case End(_) => true
    case CData(text) => |text| < INT_MAX
  }

  class XmlStreamer {
    const options: Options
    var tagNest: int
    var inStartTag: bool
    var documentStarted: bool
    var out: string
    ghost var open: seq<string>  // the elements open

    ghost function State(): Tags
      reads this
    {
      Tags(tagNest, inStartTag, documentStarted)
    }

    // The nesting counter never underflows: it counts the open elements,
    // except for one whose start tag is not finished.
    ghost predicate Valid()
      reads this
    {
      tagNest + (if inStartTag then 1 else 0) == |open| && tagNest >= 0
    }

    constructor (options: Options)
      ensures Valid() && this.options == options
      ensures State() == Tags(0, false, false) && out == "" && open == []
    {
      this.options := options;
      tagNest, inStartTag, documentStarted := 0, false, false;
      out, open := "", [];
    }

    method MaybeNewline()
      modifies this`out
      ensures out == old(out) + Newline(options)
    {
      if options.humanReadable {
        out := out + ['\n'];
      } else {
        assert out == out + "";
      }
    }

    method MaybeIndent()
      requires tagNest >= 0
      modifies this`out
      ensures out == old(out) + Indentation(tagNest, options)
    {
      if options.humanReadable {
        var i, n := 0, options.indentationSize * tagNest;
        while i < n
          invariant i <= n
          invariant out == old(out) + seq(i, _ => options.indentationCharacter)
        {
          out := out + [options.indentationCharacter];
          i := i + 1;
        }
      } else {
        assert out == out + "";
      }
    }

    method EnsureTagStartClosed()
      requires Valid()
      modifies this`out, this`tagNest, this`inStartTag, this`documentStarted
      ensures Valid() && !inStartTag
      ensures out == old(out) + Opening(old(State()), options) && State() == Opened(old(State()), options)
    {
      if !documentStarted && options.startDocument {
        out := out + HEADER;
        documentStarted := true;
      }
      if inStartTag {
        out := out + ['>'];
        MaybeNewline();
        inStartTag := false;
        tagNest := tagNest + 1;
      }
    }

    method WriteAttr(a: Attr)
      requires |a.value| < INT_MAX
      modifies this`out
      ensures out == old(out) + (" " + a.name + "=\"" + AttrText(a.value) + "\"")
    {
      out := out + " ";
      out := out + a.name;
      out := out + "=\"";
      var value := WriteEncoded(a.value, ATTR_PATTERN, ATTR_REPLACEMENT);
      out := out + value;
      out := out + "\"";
    }

    method WriteAttrs(attrs: seq<Attr>)
      requires Fits(Start("", attrs))
      modifies this`out
      ensures out == old(out) + AttrsText(attrs)
    {
      var i := 0;
      while i < |attrs|
        invariant 0 <= i <= |attrs|
        invariant out + AttrsText(attrs[i..]) == old(out) + AttrsText(attrs)
      {
        assert attrs[i..][1..] == attrs[i + 1..];
        WriteAttr(attrs[i]);
        i := i + 1;
      }
      assert out == out + AttrsText(attrs[i..]);
    }

    method StartTag(name: string, attrs: seq<Attr>)
      requires Valid() && Fits(Start(name, attrs))
      modifies this
      ensures Valid() && open == old(open) + [name]
      ensures out == old(out) + EventText(Start(name, attrs), old(State()), options)
      ensures State() == AfterEvent(Start(name, attrs), old(State()), options)
    {
      hide AttrsText, Indentation, Opening, Encoded;
      EnsureTagStartClosed();
      MaybeIndent();
      out := out + "<";
      out := out + name;
      inStartTag := true;
      open := open + [name];
      ghost var head := Opening(old(State()), options) + (Indentation(tagNest, options) + "<" + name);
      assert out == old(out) + head;
      WriteAttrs(attrs);
      assert EventText(Start(name, attrs), old(State()), options) == head + AttrsText(attrs);
    }

    method CharData(text: string)
      requires Valid() && |text| < INT_MAX
      modifies this`out, this`tagNest, this`inStartTag, this`documentStarted
      ensures Valid()
      ensures out == old(out) + EventText(CData(text), old(State()), options)
      ensures State() == AfterEvent(CData(text), old(State()), options)
    {
      EnsureTagStartClosed();
      var chunk := WriteEncoded(text, TEXT_PATTERN, TEXT_REPLACEMENT);
      out := out + chunk;
    }

    method EndTag(name: string)
      requires Valid() && open != []
      modifies this
      ensures Valid() && open == old(open)[..|old(open)| - 1]
      ensures out == old(out) + EventText(End(name), old(State()), options)
      ensures State() == AfterEvent(End(name), old(State()), options)
    {
      open := open[..|open| - 1];
      if inStartTag {
        out := out + "/>";
        inStartTag := false;
      } else {
        tagNest := tagNest - 1;
        MaybeIndent();
        out := out + "</";
        out := out + name;
        out := out + ">";
      }
      MaybeNewline();
    }

    // One event that keeps the nesting.
    method Write(e: Event)
      requires Valid() && Fits(e) && After(Open(open), e).Open?
      modifies this
      ensures Valid() && Open(open) == After(Open(old(open)), e)
      ensures out == old(out) + EventText(e, old(State()), options)
      ensures State() == AfterEvent(e, old(State()), options)
    {
      match e
      case Start(name, attrs) => StartTag(name, attrs);
      case End(name) => EndTag(name);
      case CData(text) => CharData(text);
    }
  }

  lemma {:induction false} NestFails(es: seq<Event>)
    ensures Nest(Broken, es) == Broken
    decreases |es|
  {
    if es != [] {
      NestFails(es[1..]);
    }
  }

  // The first event of what is left to write.
  lemma {:induction false} NextEvent(n: Nesting, es: seq<Event>, i: nat, t: Tags, o: Options)
    requires i < |es| && Nest(n, es[i..]).Open?
    ensures After(n, es[i]).Open? && Nest(After(n, es[i]), es[i + 1..]).Open?
    ensures Output(es[i..], t, o) == EventText(es[i], t, o) + Output(es[i + 1..], AfterEvent(es[i], t, o), o)
  {
    assert es[i..][1..] == es[i + 1..];
    NestFails(es[i + 1..]);
  }

  lemma {:induction false} NoEvents(t: Tags, o: Options)
    ensures Output([], t, o) == ""
  {
  }

  // A whole well-nested document.
  method WriteDocument(es: seq<Event>, options: Options) returns (out: string)
    requires Nest(Open([]), es).Open? && forall i | 0 <= i < |es| :: Fits(es[i])
    ensures out == Output(es, Tags(0, false, false), options)
  {
    hide *;
    var w := new XmlStreamer(options);
    assert es[0..] == es;
    var i := 0;
    while i < |es|
      invariant 0 <= i <= |es| && fresh(w) && w.Valid() && w.options == options
      invariant Nest(Open(w.open), es[i..]).Open?
      invariant w.out + Output(es[i..], w.State(), options) == Output(es, Tags(0, false, false), options)
    {
      NextEvent(Open(w.open), es, i, w.State(), options);
      w.Write(es[i]);
      i := i + 1;
    }
    assert es[i..] == [];
    NoEvents(w.State(), options);
    out := w.out;
    assert out == out + "";
  }
}
