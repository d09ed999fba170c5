// Documents written for human readers: each tag on a line of its own, indented
// by its depth; and which characters are written as they are.
module XmlLayout {
  import opened Common
  import opened XmlEvents
  import opened XmlWriter
  import opened XmlRoundTrip

  function Line(depth: nat, content: string, o: Options): string {
    seq(depth * o.indentationSize, _ => o.indentationCharacter) + content + "\n"
  }

  // The lines of a document: an element without content on one line, any other
  // between a line for each of its tags. Text stands where it is.
  function Layout(es: seq<Event>, depth: nat, o: Options): string
    decreases |es|
  {
    if es == [] then ""
    else
      match es[0]
      case CData(text) => ContentText(text) + Layout(es[1..], depth, o)
      case End(name) =>
        var outer := if depth > 0 then depth - 1 else 0;
        Line(outer, "</" + name + ">", o) + Layout(es[1..], outer, o)
      case Start(name, attrs) =>
        if |es| > 1 && es[1].End? then Line(depth, "<" + name + AttrsText(attrs) + "/>", o) + Layout(es[2..], depth, o)
        else Line(depth, "<" + name + AttrsText(attrs) + ">", o) + Layout(es[1..], depth + 1, o)
  }

  predicate Indented(t: Tags, names: seq<string>, o: Options) {
    t.nest == |names| && o.humanReadable && (t.started || !o.startDocument)
  }

  lemma {:induction false} FinishedFirst(es: seq<Event>, t: Tags, o: Options)
    requires es != [] && !es[0].End? && t.inStart && o.humanReadable && (t.started || !o.startDocument)
    ensures Output(es, t, o) == ">\n" + Output(es, Opened(t, o), o)
  {
    hide Output, ContentText, AttrsText, Indentation;
    var u := Opened(t, o);
    OutputFirst(es, t, o);
    OutputFirst(es, u, o);
    assert Opened(u, o) == u && Opening(t, o) == ">\n" && Opening(u, o) == "";
    assert EventText(es[0], t, o) == ">\n" + EventText(es[0], u, o);
    Assoc(">\n", EventText(es[0], u, o), Output(es[1..], AfterEvent(es[0], t, o), o));
  }

  lemma {:induction false} IndentationIs(depth: nat, o: Options)
    requires o.humanReadable
    ensures Indentation(depth, o) == seq(depth * o.indentationSize, _ => o.indentationCharacter)
  {
    assert depth * o.indentationSize == o.indentationSize * depth;
  }

  lemma {:induction false} EndLine(es: seq<Event>, names: seq<string>, t: Tags, o: Options)
    requires Indented(t, names, o) && !t.inStart && names != [] && es != [] && es[0].End?
    ensures Output(es, t, o)
      == Line(|names| - 1, "</" + es[0].name + ">", o) + Output(es[1..], t.(nest := t.nest - 1), o)
  {
    hide Output, Indentation;
    OutputFirst(es, t, o);
    IndentationIs(|names| - 1, o);
    var i := Indentation(|names| - 1, o);
    Parts(i, "</", es[0].name, ">");
  }

  lemma {:induction false} Parts(a: string, b: string, c: string, d: string)
    ensures a + b + c + d == a + (b + c + d)
  {
  }

  // A start tag and what finishes it.
  lemma {:induction false} StartLine(es: seq<Event>, names: seq<string>, t: Tags, o: Options, finish: string,
          more: string)
    requires Indented(t, names, o) && !t.inStart && es != [] && es[0].Start?
    requires Output(es[1..], AfterEvent(es[0], t, o), o) == finish + "\n" + more
    ensures Output(es, t, o) == Line(|names|, "<" + es[0].name + AttrsText(es[0].attrs) + finish, o) + more
  {
    hide Output, Indentation, AttrsText;
    OutputFirst(es, t, o);
    IndentationIs(|names|, o);
    var i, name, attrs := Indentation(|names|, o), es[0].name, AttrsText(es[0].attrs);
    assert Opening(t, o) == "" && Opened(t, o).nest == |names|;
    assert EventText(es[0], t, o) == "" + (i + "<" + name + attrs);
    Rejoined(i, "<" + name + attrs, finish, more);
    Parts(i, "<", name, attrs);
  }

  lemma {:induction false} Rejoined(i: string, tag: string, finish: string, more: string)
    ensures ("" + (i + tag)) + (finish + "\n" + more) == (i + (tag + finish) + "\n") + more
  {
  }

  // A document for human readers is laid out like this.
  lemma {:induction false} LaidOut(es: seq<Event>, names: seq<string>, t: Tags, o: Options)
    requires Indented(t, names, o) && !t.inStart && Nest(Open(names), es) == Open([])
    ensures Output(es, t, o) == Layout(es, |names|, o)
    decreases |es|
  {
    hide Output, Nest, AttrsText, ContentText, Line, Indentation;
    if es == [] {
      NoOutput(t, o);
    } else {
      NestFirst(names, es);
      match es[0]
      case CData(text) => {
        OutputFirst(es, t, o);
        assert Opening(t, o) == "" && Opened(t, o).nest == t.nest;
        assert EventText(es[0], t, o) == ContentText(text);
        LaidOut(es[1..], names, Opened(t, o), o);
      }
      case End(name) => {
        EndLine(es, names, t, o);
        LaidOut(es[1..], names[..|names| - 1], t.(nest := t.nest - 1), o);
      }
      case Start(name, attrs) => StartLaidOut(es, names, t, o);
    }
  }

  lemma {:induction false} StartLaidOut(es: seq<Event>, names: seq<string>, t: Tags, o: Options)
    requires Indented(t, names, o) && !t.inStart && Nest(Open(names), es) == Open([]) && es != [] && es[0].Start?
    ensures Output(es, t, o) == Layout(es, |names|, o)
    decreases |es|, 0
  {
    hide Output, Nest, AttrsText, ContentText, Line, Indentation;
    NestFirst(names, es);
    var u, rest, inner := AfterEvent(es[0], t, o), es[1..], names + [es[0].name];
    if rest[0].End? {
      NestFirst(inner, rest);
      assert rest[1..] == es[2..] && inner[..|inner| - 1] == names;
      OutputFirst(rest, u, o);
      assert EventText(rest[0], u, o) == "/>" + "\n";
      LaidOut(es[2..], names, u.(inStart := false), o);
      StartLine(es, names, t, o, "/>", Output(es[2..], u.(inStart := false), o));
    } else {
      FinishedFirst(rest, u, o);
      LaidOut(rest, inner, Opened(u, o), o);
      assert ">\n" + Output(rest, Opened(u, o), o) == ">" + "\n" + Output(rest, Opened(u, o), o);
      StartLine(es, names, t, o, ">", Output(rest, Opened(u, o), o));
    }
  }

  // The whole document, from its first character.
  lemma {:induction false} DocumentLaidOut(es: seq<Event>, o: Options)
    requires Nest(Open([]), es) == Open([]) && o.humanReadable && es != []
    ensures Output(es, Tags(0, false, false), o)
      == (if o.startDocument then "<?xml version=\"1.0\" encoding=\"UTF-8\" ?>\n" else "") + Layout(es, 0, o)
  {
    hide Output, EventText, AfterEvent, Layout, Nest;
    var t, u := Tags(0, false, false), Tags(0, false, true);
    if o.startDocument {
      NestFirst([], es);
      OutputFirst(es, t, o);
      OutputFirst(es, u, o);
      DeclaredFirst(es[0], o);
      Assoc(HEADER, EventText(es[0], u, o), Output(es[1..], AfterEvent(es[0], u, o), o));
      LaidOut(es, [], u, o);
    } else {
      LaidOut(es, [], t, o);
      assert "" + Layout(es, 0, o) == Layout(es, 0, o);
    }
  }

  lemma {:induction false} DeclaredFirst(e: Event, o: Options)
    requires !e.End? && o.humanReadable && o.startDocument
    ensures var t, u := Tags(0, false, false), Tags(0, false, true);
      EventText(e, t, o) == HEADER + EventText(e, u, o) && AfterEvent(e, t, o) == AfterEvent(e, u, o)
  {
    hide ContentText, AttrsText, Indentation;
    var t, u := Tags(0, false, false), Tags(0, false, true);
    assert Opening(t, o) == HEADER && Opening(u, o) == "" && Opened(t, o) == u == Opened(u, o);
  }

  // ---- which characters are escaped ----

  lemma {:induction false} TextAsIs(s: string)
    ensures ContentText(s) == s <==> '<' !in s && '&' !in s
    ensures |ContentText(s)| >= |s|
  {
    if s != "" {
      hide ContentText;
      TextFirst(s);
      TextAsIs(s[1..]);
      assert s == [s[0]] + s[1..];
    } else {
      NoContent();
    }
  }

  lemma {:induction false} ValueFirst(s: string)
    requires s != ""
    ensures AttrText(s) == (if s[0] in "\"'<&" then Entity(s[0]) else [s[0]]) + AttrText(s[1..])
  {
    BothEncode();
  }

  lemma {:induction false} ValueAsIs(s: string)
    ensures AttrText(s) == s <==> '"' !in s && '\'' !in s && '<' !in s && '&' !in s
    ensures |AttrText(s)| >= |s|
  {
    if s != "" {
      hide AttrText;
      ValueFirst(s);
      ValueAsIs(s[1..]);
      assert s == [s[0]] + s[1..];
    } else {
      NoValue();
    }
  }

  lemma {:induction false} NoValue()
    ensures AttrText("") == ""
  {
  }
}
