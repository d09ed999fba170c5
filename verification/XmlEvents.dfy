// XML events, their nesting, and the text they are read back from. The reader
// is the reference grammar the writer is measured against; sections are those
// of XML 1.0.
module XmlEvents {

  datatype Attr = Attr(name: string, value: string)

  datatype Event = Start(name: string, attrs: seq<Attr>) | End(name: string) | CData(text: string)

  // ---- nesting ----

  // The elements open after some events; broken if an end fits no open element.
  datatype Nesting = Open(names: seq<string>) | Broken

  function After(n: Nesting, e: Event): Nesting {
    match n
    case Broken => Broken
    case Open(names) =>
      match e
      case Start(name, _) => Open(names + [name])
      case End(name) =>
        if names != [] && names[|names| - 1] == name then Open(names[..|names| - 1]) else Broken
      case CData(_) => n
  }

  function Nest(n: Nesting, es: seq<Event>): Nesting
    decreases |es|
  {
    if es == [] then n else Nest(After(n, es[0]), es[1..])
  }

  // ---- equality up to character data ----

  // Adjacent character data is one piece, and empty data is none.
  function AddText(text: string, es: seq<Event>): seq<Event> {
    if text == "" then es
    else if es != [] && es[0].CData? then [CData(text + es[0].text)] + es[1..]
    else [CData(text)] + es
  }

  function Merged(es: seq<Event>): seq<Event> {
    if es == [] then []
    else if es[0].CData? then AddText(es[0].text, Merged(es[1..]))
    else [es[0]] + Merged(es[1..])
  }

  // ---- the reference reader ----

  // Names (section 2.3); of the characters above 127, all are taken as letters.
  predicate NameStart(c: char) { 'a' <= c <= 'z' || 'A' <= c <= 'Z' || c == '_' || c == ':' || c > '\U{7f}' }

  predicate NameChar(c: char) { NameStart(c) || '0' <= c <= '9' || c == '-' || c == '.' }

  predicate IsName(s: string) { s != "" && NameStart(s[0]) && forall i | 0 <= i < |s| :: NameChar(s[i]) }

  datatype Text = Text(value: string) | BadText

  function Prepend(c: char, t: Text): Text { if t.Text? then Text([c] + t.value) else t }

  // Character data with the predefined entities, the only use of '&'
  // (section 4.6).
  function Decode(t: string): Text {
    if t == "" then Text("")
    else if t[0] != '&' then Prepend(t[0], Decode(t[1..]))
    else if "&lt;" <= t then Prepend('<', Decode(t[4..]))
    else if "&gt;" <= t then Prepend('>', Decode(t[4..]))
    else if "&amp;" <= t then Prepend('&', Decode(t[5..]))
    else if "&quot;" <= t then Prepend('"', Decode(t[6..]))
    else if "&apos;" <= t then Prepend('\'', Decode(t[6..]))
    else BadText
  }

  // Control characters are not part of any document (section 2.2).
  predicate XmlChar(c: char) { c >= ' ' || c in "\t\n\r" }

  predicate XmlChars(t: string) { forall i | 0 <= i < |t| :: XmlChar(t[i]) }

  // What must not stand in character data as it is (section 2.4).
  const SECTION_END := "]]>"

  predicate Forbidden(t: string) {
    t != "" && (SECTION_END <= t || !XmlChar(t[0]) || Forbidden(t[1..]))
  }

  // Every line end becomes a line feed (section 2.11). No entity stands for
  // one, so it makes no difference that this is done after decoding.
  function LineEnds(t: string): string {
    if t == "" then ""
    else if "\r\n" <= t then "\n" + LineEnds(t[2..])
    else (if t[0] == '\r' then "\n" else [t[0]]) + LineEnds(t[1..])
  }

  // In attribute values line ends and tabs become blanks (section 3.3.3).
  function Blanks(t: string): string {
    if t == "" then "" else (if t[0] == '\t' || t[0] == '\n' then " " else [t[0]]) + Blanks(t[1..])
  }

  function NormalAttrs(attrs: seq<Attr>): seq<Attr> {
    if attrs == [] then []
    else [Attr(attrs[0].name, Blanks(LineEnds(attrs[0].value)))] + NormalAttrs(attrs[1..])
  }

  function NormalEvent(e: Event): Event {
    match e
    case Start(name, attrs) => Start(name, NormalAttrs(attrs))
    case End(name) => e
    case CData(text) => CData(LineEnds(text))
  }

  // Events as a reader sees them.
  function Normal(es: seq<Event>): seq<Event> {
    if es == [] then [] else [NormalEvent(es[0])] + Normal(es[1..])
  }

  // How many characters come before the first of these.
  function Until(t: string, stop: string): (n: nat)
    ensures n <= |t|
  {
    if t == "" || t[0] in stop then 0 else 1 + Until(t[1..], stop)
  }

  function NameRest(t: string): (n: nat)
    ensures n <= |t|
  {
    if t == "" || !NameChar(t[0]) then 0 else 1 + NameRest(t[1..])
  }

  function NameLength(t: string): (n: nat)
    ensures n <= |t|
  {
    if t == "" || !NameStart(t[0]) then 0 else NameRest(t)
  }

  function NamesOf(attrs: seq<Attr>): set<string> { set a <- attrs :: a.name }

  datatype Attrs = Attrs(attrs: seq<Attr>, rest: string) | BadAttrs

  // Each attribute: a space, a name not used again (section 3.1), and a value
  // in double quotes.
  function ReadAttrs(t: string): (r: Attrs)
    ensures r.Attrs? ==> |r.rest| <= |t|
  {
    if t == "" || t[0] != ' ' then Attrs([], t)
    else
      var n := NameLength(t[1..]);
      var name, more := t[1..][..n], t[1..][n..];
      if n == 0 || !("=\"" <= more) then BadAttrs
      else
        var k := Until(more[2..], "\"<");
        var value, after := Decode(more[2..][..k]), more[2..][k..];
        if after == "" || after[0] != '"' || value.BadText? || !XmlChars(value.value) then BadAttrs
        else
          match ReadAttrs(after[1..])
          case BadAttrs => BadAttrs
          case Attrs(attrs, rest) =>
            if name in NamesOf(attrs) then BadAttrs
            else Attrs([Attr(name, Blanks(LineEnds(value.value)))] + attrs, rest)
  }

  datatype Read = Events(es: seq<Event>) | BadXml

  function Before(es: seq<Event>, r: Read): Read { if r.Events? then Events(es + r.es) else r }

  function ReadBody(t: string): Read
    decreases |t|
  {
    if t == "" then Events([])
    else if t[0] != '<' then
      var n := Until(t, "<");
      var text := Decode(t[..n]);
      if text.BadText? || Forbidden(t[..n]) then BadXml else Before([CData(LineEnds(text.value))], ReadBody(t[n..]))
    else if "</" <= t then
      var n := NameLength(t[2..]);
      var name, more := t[2..][..n], t[2..][n..];
      if n == 0 || more == "" || more[0] != '>' then BadXml else Before([End(name)], ReadBody(more[1..]))
    else
      var n := NameLength(t[1..]);
      var name := t[1..][..n];
      var attrs := ReadAttrs(t[1..][n..]);
      if n == 0 || attrs.BadAttrs? then BadXml
      else if ">" <= attrs.rest then Before([Start(name, attrs.attrs)], ReadBody(attrs.rest[1..]))
      else if "/>" <= attrs.rest then Before([Start(name, attrs.attrs), End(name)], ReadBody(attrs.rest[2..]))
      else BadXml
  }

  const HEADER := "<?xml version=\"1.0\" encoding=\"UTF-8\" ?>\n"

  // ---- documents ----

  // The elements open in n are closed, the outermost by the last event.
  predicate ClosesAtEnd(n: Nesting, es: seq<Event>)
    decreases |es|
  {
    && es != []
    && var m := After(n, es[0]);
       if |es| == 1 then m == Open([]) else m.Open? && m.names != [] && ClosesAtEnd(m, es[1..])
  }

  predicate OneElement(es: seq<Event>) { es != [] && es[0].Start? && ClosesAtEnd(Open([]), es) }

  predicate White(e: Event) { e.CData? && forall i | 0 <= i < |e.text| :: e.text[i] in " \t\n\r" }

  // White space around the root element is no part of the document.
  function Trim(es: seq<Event>): seq<Event> {
    var tail := if es != [] && White(es[0]) then es[1..] else es;
    if tail != [] && White(tail[|tail| - 1]) then tail[..|tail| - 1] else tail
  }

  // There is one root element, properly nested, and nothing else around it
  // (sections 2.1 and 3).
  function Whole(r: Read): Read {
    if r.Events? && OneElement(Trim(r.es)) then Events(Trim(r.es)) else BadXml
  }

  // A document: the declaration, which may be missing, and the root element.
  function ReadDocument(t: string): Read {
    Whole(ReadBody(if HEADER <= t then t[|HEADER|..] else t))
  }
}
