// Ini files: the line parser, the reader that keeps track of sections, and
// the writer (tinfra/inifile.cpp, strip in tinfra/string.cpp).
module IniFile {
  import opened Common
  import opened Streams

  // ---- searching, as the string class does ----

  function FirstNotOf(s: string, set_: string, from: nat): (n: nat)
    requires from <= |s|
    ensures from <= n <= |s| && (n < |s| ==> s[n] !in set_) && forall i | from <= i < n :: s[i] in set_
    decreases |s| - from
  {
    if from == |s| || s[from] !in set_ then from else FirstNotOf(s, set_, from + 1)
  }

  // One past the last character not in the set; 0 if there is none.
  function EndNotOf(s: string, set_: string): (n: nat)
    ensures n <= |s| && (n > 0 ==> s[n - 1] !in set_) && forall i | n <= i < |s| :: s[i] in set_
  {
    if s == "" || s[|s| - 1] !in set_ then |s| else EndNotOf(s[..|s| - 1], set_)
  }

  function Find(s: string, c: char): (n: nat)
    ensures n <= |s| && (n < |s| ==> s[n] == c) && forall i | 0 <= i < n :: s[i] != c
  {
    if s == "" || s[0] == c then 0 else 1 + Find(s[1..], c)
  }

  const WHITESPACE := " \t\r\n\U{0b}"

  function Strip(s: string): string {
    var start := FirstNotOf(s, WHITESPACE, 0);
    if start == |s| then "" else
    assert start < EndNotOf(s, WHITESPACE);
    s[start..EndNotOf(s, WHITESPACE)]
  }

  // ---- lines ----

  datatype Entry =
    | Empty
    | Comment(text: string)
    | Section(name: string)
    | KeyValue(name: string, value: string)
    | Invalid(line: string)

  // The value after the '=' at position eq. Where the line has only blanks and
  // line ends after it, the length computed for the value is negative and
  // stands for the rest of the line.
  function Value(line: string, eq: nat): string
    requires eq < |line|
  {
    var begin := FirstNotOf(line, " \t=", eq);
    var end := EndNotOf(line, " \r\n\t");
    if begin == |line| then ""
    else if begin <= end then line[begin..end]
    else line[begin..]
  }

  function ParseLine(line: string): Entry {
    if line == "" then Empty
    else if line[0] == ';' || line[0] == '#' then Comment(line[1..])
    else if line[0] == '[' then
      var end := Find(line, ']');
      if end == |line| then Invalid(line) else Section(line[1..end])
    else
      var eq := Find(line, '=');
      if eq == |line| then Invalid(line) else KeyValue(Strip(line[..eq]), Value(line, eq))
  }

  function FirstLine(text: string): string { text[..Find(text, '\n')] }

  function AfterLine(text: string): string { if Find(text, '\n') < |text| then text[Find(text, '\n') + 1..] else "" }

  datatype Full = Full(section: string, name: string, value: string)

  // All entries of a text, each with the section it is in.
  function Entries(section: string, text: string): seq<Full>
    decreases |text|
  {
    if text == "" then []
    else
      match ParseLine(FirstLine(text))
      case Section(name) => Entries(name, AfterLine(text))
      case KeyValue(name, value) => [Full(section, name, value)] + Entries(section, AfterLine(text))
      case _ => Entries(section, AfterLine(text))
  }

  // ---- the parser and the reader ----

  lemma {:induction false} Longer(line: string, c: char, rest: string)
    ensures (line + [c]) + rest == line + ([c] + rest)
  {
  }

  class Parser {
    const input: InputStream
    const cell: array<char>

    ghost predicate Valid()
      reads this, input, cell
    {
      input.Valid() && cell.Length == 1
    }

    ghost function Text(): string
      requires Valid()
      reads this, input, cell
    {
      input.Unread()
    }

    constructor (input: InputStream)
      requires input.Valid()
      ensures Valid() && fresh(cell) && this.input == input && Text() == input.Unread()
    {
      this.input := input;
      cell := new char[1];
    }

    method ReadChar() returns (r: Option<char>)
      requires Valid()
      modifies input, cell
      ensures Valid()
      ensures match r
        case None => old(Text()) == "" && Text() == ""
        case Some(c) => old(Text()) == [c] + Text()
    {
      var n := input.Read(cell, 0, 1);
      r := if n == 0 then None else Some(cell[0]);
    }

    method ReadLine() returns (ok: bool, line: string)
      requires Valid()
      modifies input, cell
      ensures Valid()
      ensures ok <==> old(Text()) != ""
      ensures ok ==> line == FirstLine(old(Text())) && Text() == AfterLine(old(Text()))
      ensures !ok ==> Text() == ""
    {
      hide *;
      ok, line := false, "";
      ghost var text := Text();
      while true
        invariant Valid() && line + Text() == text && '\n' !in line
        invariant ok <==> line != ""
        decreases |Text()|
      {
        ghost var before := Text();
        var c := ReadChar();
        if c.None? {
          LineEnd(line, "");
          return;
        }
        ok := true;
        if c.value == '\n' {
          LineEnd(line, before);
          return;
        }
        Longer(line, c.value, Text());
        line := line + [c.value];
      }
    }

    method FetchNext() returns (r: Option<Entry>)
      requires Valid()
      modifies input, cell
      ensures Valid()
      ensures r.None? <==> old(Text()) == ""
      ensures r.Some? ==> r.value == ParseLine(FirstLine(old(Text()))) && Text() == AfterLine(old(Text()))
      ensures r.None? ==> Text() == ""
    {
      var ok, line := ReadLine();
      r := if ok then Some(ParseLine(line)) else None;
    }
  }

  lemma {:induction false} LineEnd(line: string, rest: string)
    requires '\n' !in line && (rest == "" || rest[0] == '\n')
    ensures FirstLine(line + rest) == line && AfterLine(line + rest) == if rest == "" then "" else rest[1..]
  {
    var text := line + rest;
    var n := Find(text, '\n');
    assert n <= |line| ==> n == |line|;
    assert forall i | 0 <= i < |line| :: text[i] == line[i];
    assert text[..|line|] == line;
  }

  class Reader {
    const p: Parser
    var section: string
    var line: nat

    constructor (p: Parser)
      ensures this.p == p && section == "" && line == 0
    {
      this.p := p;
      section, line := "", 0;
    }

    // The next entry, after any number of other lines.
    method FetchNext() returns (r: Option<Full>)
      requires p.Valid()
      modifies this, p.input, p.cell
      ensures p.Valid()
      ensures match r
        case None => Entries(old(section), old(p.Text())) == [] && p.Text() == ""
        case Some(e) => Entries(old(section), old(p.Text())) == [e] + Entries(section, p.Text())
    {
      while true
        invariant p.Valid() && Entries(section, p.Text()) == Entries(old(section), old(p.Text()))
        decreases |p.Text()|
      {
        var e := p.FetchNext();
        if e.None? {
          return None;
        }
        line := line + 1;
        match e.value {
          case Section(name) => section := name;
          case KeyValue(name, value) => return Some(Full(section, name, value));
          case _ =>
        }
      }
    }
  }

  // Everything a text holds, read entry by entry.
  method ReadAll(input: InputStream) returns (all: seq<Full>)
    requires input.Valid()
    modifies input
    ensures all == Entries("", old(input.Unread()))
  {
    hide *;
    var p := new Parser(input);
    var reader := new Reader(p);
    all := [];
    ghost var want := Entries("", p.Text());
    var e := reader.FetchNext();
    while e.Some?
      invariant fresh(p.cell) && fresh(reader) && reader.p == p && p.input == input && p.Valid()
      invariant want == all + match e case None => [] case Some(x) => [x] + Entries(reader.section, p.Text())
      decreases e.Some?, |Entries(reader.section, p.Text())|
    {
      all := all + [e.value];
      e := reader.FetchNext();
    }
  }
}
