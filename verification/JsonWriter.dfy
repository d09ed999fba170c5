// Writing JSON: escaping, the renderer, and the writer with its stack of open
// containers and separator flag (tinfra/json.cpp, tinfra/json.h,
// tinfra/string.cpp).
module JsonWriter {
  import opened Common
  import opened Variants
  import opened JsonValue

  // ---- escape_c ----

  predicate IsPrint(c: char) { ' ' <= c <= '~' }

  function HexOf(n: nat): char
    requires n < 16
  {
    if n < 10 then '0' + n as char else 'a' + (n - 10) as char
  }

  // \x and two hexadecimal digits of the byte
  function HexEscape(c: char): string {
    "\\x" + [HexOf(c as int % 256 / 16), HexOf(c as int % 16)]
  }

  function EscapeChar(c: char): string {
    if c == '\n' then "\\n"
    else if c == '\r' then "\\r"
    else if !IsPrint(c) then HexEscape(c)
    else [c]
  }

  function Escape(s: string): string {
    if s == "" then "" else EscapeChar(s[0]) + Escape(s[1..])
  }

  // a.replace(i, 1, r)
  function ReplaceOne(a: string, i: nat, r: string): string
    requires i < |a|
  {
    a[..i] + r + a[i + 1..]
  }

  lemma {:induction false} ReplaceMiddle(done: string, c: char, rest: string, r: string)
    ensures ReplaceOne(done + ([c] + rest), |done|, r) == (done + r) + rest
  {
  }

  // Replaces characters where they stand; i runs over the growing text.
  method EscapeC(text: string) returns (a: string)
    ensures a == Escape(text)
  {
    a := text;
    var i := 0;
    ghost var done, rest := "", text;
    assert "" + text == text;
    while i < |a|
      invariant i == |done| && a == done + rest
      invariant done + Escape(rest) == Escape(text)
      decreases |rest|
    {
      var c := a[i];
      EscapeStep(done, rest, c);
      if c == '\n' {
        a := ReplaceOne(a, i, "\\n");
        i := i + 2;
      } else if c == '\r' {
        a := ReplaceOne(a, i, "\\r");
        i := i + 2;
      } else if !IsPrint(c) {
        var buf := HexEscape(c);
        a := ReplaceOne(a, i, buf);
        i := i + |buf|;
      } else {
        i := i + 1;
      }
      done, rest := done + EscapeChar(c), rest[1..];
    }
    EscapeEnd(done);
  }

  lemma {:induction false} EscapeStep(done: string, rest: string, c: char)
    requires rest != "" && c == rest[0]
    ensures ReplaceOne(done + rest, |done|, EscapeChar(c)) == (done + EscapeChar(c)) + rest[1..]
    ensures done + Escape(rest) == (done + EscapeChar(c)) + Escape(rest[1..])
    ensures EscapeChar(c) == [c] ==> done + rest == (done + EscapeChar(c)) + rest[1..]
  {
    hide EscapeChar;
    assert rest == [c] + rest[1..];
    ReplaceMiddle(done, c, rest[1..], EscapeChar(c));
    Assoc(done, EscapeChar(c), Escape(rest[1..]));
    Assoc(done, [c], rest[1..]);
  }

  lemma {:induction false} EscapeEnd(done: string)
    ensures done + Escape("") == done && done + "" == done
  {
  }

  // ---- the text of a variant ----

  function Quote(s: string): string { "\"" + Escape(s) + "\"" }

  // None is spelled nil, a bool not at all.
  function Render(v: Variant): string
    decreases v, 0
  {
    match v
    case DictV(es) => "{" + RenderEntries(es) + "}"
    case ArrayV(es) => "[" + RenderElems(es) + "]"
    case StringV(s) => Quote(s)
    case IntV(i) => IntText(i)
    case DoubleV(text) => text
    case NoneV => "nil"
    case BoolV(_) => ""
  }

  function RenderEntries(es: seq<Entry>): string
    decreases es, 0
  {
    if es == [] then ""
    else Pair(es[0]) + if |es| == 1 then "" else "," + RenderEntries(es[1..])
  }

  function Pair(e: Entry): string
    decreases e, 0
  {
    Quote(e.key) + (":" + Render(e.value))
  }

  function RenderElems(es: seq<Variant>): string
    decreases es, 0
  {
    if es == [] then "" else Render(es[0]) + if |es| == 1 then "" else "," + RenderElems(es[1..])
  }

  function Separator(needed: bool): string { if needed then "," else "" }

  lemma {:induction false} RenderEntriesAppend(es: seq<Entry>, e: Entry)
    ensures RenderEntries(es + [e]) == RenderEntries(es) + Separator(es != []) + Pair(e)
  {
    hide Pair;
    if es != [] {
      RenderEntriesAppend(es[1..], e);
      assert (es + [e])[1..] == es[1..] + [e];
    }
  }

  lemma {:induction false} RenderElemsAppend(es: seq<Variant>, e: Variant)
    ensures RenderElems(es + [e]) == RenderElems(es) + Separator(es != []) + Render(e)
  {
    hide Render;
    if es != [] {
      RenderElemsAppend(es[1..], e);
      assert (es + [e])[1..] == es[1..] + [e];
    }
  }

  lemma {:induction false} EntriesStep(base: string, es: seq<Entry>, i: nat)
    requires i < |es|
    ensures base + RenderEntries(es[..i]) + Separator(i > 0) + Pair(Entry(es[i].key, es[i].value))
      == base + RenderEntries(es[..i + 1])
  {
    RenderEntriesAppend(es[..i], es[i]);
    assert es[..i + 1] == es[..i] + [es[i]];
    assert es[i] == Entry(es[i].key, es[i].value);
    Flatten(base, RenderEntries(es[..i]), Separator(i > 0), Pair(es[i]));
  }

  lemma {:induction false} ElemsStep(base: string, es: seq<Variant>, i: nat)
    requires i < |es|
    ensures base + RenderElems(es[..i]) + Separator(i > 0) + Render(es[i]) == base + RenderElems(es[..i + 1])
  {
    RenderElemsAppend(es[..i], es[i]);
    assert es[..i + 1] == es[..i] + [es[i]];
    Flatten(base, RenderElems(es[..i]), Separator(i > 0), Render(es[i]));
  }

  // ---- the writer ----

  class Renderer {
    var out: string

    constructor ()
      ensures out == ""
    {
      out := "";
    }

    method Write(s: string)
      modifies this
      ensures out == old(out) + s
    {
      out := out + s;
    }

    method String(s: string)
      modifies this
      ensures out == old(out) + Quote(s)
    {
      var escaped := EscapeC(s);
      Write("\"");
      Write(escaped);
      Write("\"");
    }
  }

  datatype Container = OBJECT | ARRAY

  class Writer {
    const renderer: Renderer
    var stack: seq<Container>
    var needSeparator: bool

    constructor (r: Renderer)
      ensures renderer == r && stack == [] && !needSeparator
    {
      renderer := r;
      stack := [];
      needSeparator := false;
    }

    // begin and end of containers keep the stack in step with the brackets
    method BeginObject()
      modifies this, renderer
      ensures stack == old(stack) + [OBJECT] && renderer.out == old(renderer.out) + "{" && !needSeparator
    {
      stack := stack + [OBJECT];
      renderer.Write("{");
      needSeparator := false;
    }

    method BeginArray()
      modifies this, renderer
      ensures stack == old(stack) + [ARRAY] && renderer.out == old(renderer.out) + "[" && !needSeparator
    {
      stack := stack + [ARRAY];
      renderer.Write("[");
      needSeparator := false;
    }

    method EndObject()
      requires |stack| > 0 && stack[|stack| - 1].OBJECT?
      modifies this, renderer
      ensures stack == old(stack)[..|old(stack)| - 1] && renderer.out == old(renderer.out) + "}" && needSeparator
    {
      renderer.Write("}");
      stack := stack[..|stack| - 1];
      needSeparator := true;
    }

    method EndArray()
      requires |stack| > 0 && stack[|stack| - 1].ARRAY?
      modifies this, renderer
      ensures stack == old(stack)[..|old(stack)| - 1] && renderer.out == old(renderer.out) + "]" && needSeparator
    {
      renderer.Write("]");
      stack := stack[..|stack| - 1];
      needSeparator := true;
    }

    // A value where no name is expected.
    method Value(v: Variant)
      requires stack == [] || stack[|stack| - 1].ARRAY?
      modifies this, renderer
      ensures stack == old(stack) && needSeparator
      ensures renderer.out == old(renderer.out) + Separator(old(needSeparator)) + Render(v)
      decreases v, 2
    {
      hide Render;
      assert renderer.out + "" == renderer.out;
      if needSeparator {
        renderer.Write(",");
      }
      ValueImpl(v);
      needSeparator := true;
    }

    // A value with a name, inside an object.
    method NamedValue(name: string, v: Variant)
      requires stack != [] && stack[|stack| - 1].OBJECT?
      modifies this, renderer
      ensures stack == old(stack) && needSeparator
      ensures renderer.out == old(renderer.out) + Separator(old(needSeparator)) + Pair(Entry(name, v))
      decreases v, 2
    {
      ghost var sep := Separator(needSeparator);
      assert Pair(Entry(name, v)) == Quote(name) + (":" + Render(v));
      assert renderer.out + "" == renderer.out;
      if needSeparator {
        renderer.Write(",");
      }
      assert renderer.out == old(renderer.out) + sep;
      renderer.String(name);
      renderer.Write(":");
      ValueImpl(v);
      Flatten(old(renderer.out) + sep, Quote(name), ":", Render(v));
      needSeparator := true;
    }

    method ValueImpl(v: Variant)
      modifies this, renderer
      ensures stack == old(stack)
      ensures renderer.out == old(renderer.out) + Render(v)
      decreases v, 1
    {
      match v {
        case DictV(es) => Dict(es);
        case ArrayV(es) => Array(es);
        case StringV(s) => renderer.String(s);
        case IntV(i) => renderer.Write(IntText(i));
        case DoubleV(text) => renderer.Write(text);
        case NoneV => renderer.Write("nil");
        case BoolV(_) =>
      }
    }

    method Dict(es: seq<Entry>)
      modifies this, renderer
      ensures stack == old(stack)
      ensures renderer.out == old(renderer.out) + ("{" + RenderEntries(es) + "}")
      decreases es, 3
    {
      assert RenderEntries([]) == "";
      BeginObject();
      for i := 0 to |es|
        invariant stack == old(stack) + [OBJECT] && needSeparator == (i > 0)
        invariant renderer.out == (old(renderer.out) + "{") + RenderEntries(es[..i])
      {
        EntriesStep(old(renderer.out) + "{", es, i);
        NamedValue(es[i].key, es[i].value);
      }
      assert es[..|es|] == es;
      Flatten(old(renderer.out), "{", RenderEntries(es), "}");
      EndObject();
    }

    method Array(es: seq<Variant>)
      modifies this, renderer
      ensures stack == old(stack)
      ensures renderer.out == old(renderer.out) + ("[" + RenderElems(es) + "]")
      decreases es, 3
    {
      assert RenderElems([]) == "";
      BeginArray();
      for i := 0 to |es|
        invariant stack == old(stack) + [ARRAY] && needSeparator == (i > 0)
        invariant renderer.out == (old(renderer.out) + "[") + RenderElems(es[..i])
      {
        ElemsStep(old(renderer.out) + "[", es, i);
        Value(es[i]);
      }
      assert es[..|es|] == es;
      Flatten(old(renderer.out), "[", RenderElems(es), "]");
      EndArray();
    }
  }

  // json_write
  method JsonWrite(v: Variant) returns (text: string)
    ensures text == Render(v)
  {
    var renderer := new Renderer();
    var writer := new Writer(renderer);
    writer.Value(v);
    text := renderer.out;
  }
}
