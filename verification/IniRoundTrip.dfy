// What the ini writer writes is read back, and exactly when
// (tinfra/inifile.cpp).
module IniRoundTrip {
  import opened IniFile
  import opened Common
  import opened Streams

  // ---- the writer ----

  datatype Item = SectionItem(name: string) | EntryItem(name: string, value: string) | CommentItem(text: string)

  function ItemLine(i: Item): string {
    match i
    case SectionItem(name) => "[" + name + "]"
    case EntryItem(name, value) => name + " = " + value
    case CommentItem(text) => "; " + text
  }

  function Written(items: seq<Item>): string {
    if items == [] then "" else ItemLine(items[0]) + "\n" + Written(items[1..])
  }

  class Writer {
    var out: string

    constructor ()
      ensures out == ""
    {
      out := "";
    }

    method Section(name: string)
      modifies this
      ensures out == old(out) + ItemLine(SectionItem(name)) + "\n"
    {
      out := out + ("[" + name + "]\n");
    }

    method Entry(name: string, value: string)
      modifies this
      ensures out == old(out) + ItemLine(EntryItem(name, value)) + "\n"
    {
      out := out + (name + " = " + value + "\n");
    }

    method Comment(text: string)
      modifies this
      ensures out == old(out) + ItemLine(CommentItem(text)) + "\n"
    {
      out := out + ("; " + text + "\n");
    }

    method Write(item: Item)
      modifies this
      ensures out == old(out) + ItemLine(item) + "\n"
    {
      match item
      case SectionItem(name) => Section(name);
      case EntryItem(name, value) => Entry(name, value);
      case CommentItem(text) => Comment(text);
    }
  }

  lemma {:induction false} WrittenStep(items: seq<Item>, i: nat)
    requires i <= |items|
    ensures Written(items[i..]) == if i == |items| then "" else ItemLine(items[i]) + "\n" + Written(items[i + 1..])
  {
    if i < |items| {
      assert items[i..][1..] == items[i + 1..];
    }
  }

  method WriteAll(items: seq<Item>) returns (out: string)
    ensures out == Written(items)
  {
    hide ItemLine, Written;
    var w := new Writer();
    var i := 0;
    assert items[0..] == items;
    while i < |items|
      invariant 0 <= i <= |items| && fresh(w)
      invariant w.out + Written(items[i..]) == Written(items)
    {
      WrittenStep(items, i);
      w.Write(items[i]);
      i := i + 1;
    }
    WrittenStep(items, i);
    out := w.out;
    assert out + "" == out;
  }

  // ---- what the items mean ----

  function Meaning(section: string, items: seq<Item>): seq<Full>
    decreases |items|
  {
    if items == [] then []
    else
      match items[0]
      case SectionItem(name) => Meaning(name, items[1..])
      case EntryItem(name, value) => [Full(section, name, value)] + Meaning(section, items[1..])
      case CommentItem(_) => Meaning(section, items[1..])
  }

  // No blank at either end, and no beginning of a comment or a section.
  predicate NameOk(s: string) {
    && '\n' !in s && '=' !in s
    && (s != "" ==> s[0] !in " \t\r\n\U{0b};#[" && s[|s| - 1] !in " \t\r\n\U{0b}")
  }

  // No blank or '=' in front, and no blank or line end behind; or only those,
  // beginning with a carriage return.
  predicate ValueOk(s: string) {
    '\n' !in s
    && (s != "" ==> s[0] !in " \t=" && (s[|s| - 1] !in " \r\n\t" || forall i | 0 <= i < |s| :: s[i] in " \r\n\t"))
  }

  predicate ItemOk(i: Item) {
    match i
    case SectionItem(name) => '\n' !in name && ']' !in name
    case EntryItem(name, value) => NameOk(name) && ValueOk(value)
    case CommentItem(text) => '\n' !in text
  }

  // ---- one line ----

  lemma {:induction false} EndNotOfIs(s: string, set_: string, n: nat)
    requires n <= |s| && (n > 0 ==> s[n - 1] !in set_) && forall i | n <= i < |s| :: s[i] in set_
    ensures EndNotOf(s, set_) == n
  {
    var m := EndNotOf(s, set_);
  }

  lemma {:induction false} FirstNotOfIs(s: string, set_: string, from: nat, n: nat)
    requires from <= n <= |s| && (n < |s| ==> s[n] !in set_) && forall i | from <= i < n :: s[i] in set_
    ensures FirstNotOf(s, set_, from) == n
  {
  }

  // A written entry line, by its characters.
  predicate EntryLine(line: string, n: nat, value: string) {
    && |line| == n + 3 + |value| && line[n] == ' ' && line[n + 1] == '=' && line[n + 2] == ' '
    && forall i | 0 <= i < |value| :: line[n + 3 + i] == value[i]
  }

  lemma {:induction false} ValueShort(line: string, n: nat, value: string)
    requires EntryLine(line, n, value) && value != "" && value[0] in " \t="
    ensures Value(line, n + 1) != value
  {
    hide FirstNotOf, EndNotOf;
    var begin := FirstNotOf(line, " \t=", n + 1);
    assert line[n + 3 + 0] == value[0];
    assert begin > n + 3 by {
      assert forall i | n + 1 <= i <= n + 3 :: line[i] in " \t=";
    }
  }

  lemma {:induction false} ValueTrimmed(line: string, n: nat, value: string)
    requires EntryLine(line, n, value) && value != "" && value[0] !in " \t="
    ensures Value(line, n + 1) == value <==>
      value[|value| - 1] !in " \r\n\t" || forall i | 0 <= i < |value| :: value[i] in " \r\n\t"
  {
    hide FirstNotOf, EndNotOf;
    assert line[n + 3 + 0] == value[0] && line[n + 3 + (|value| - 1)] == value[|value| - 1];
    FirstNotOfIs(line, " \t=", n + 1, n + 3);
    assert line[n + 3..] == value;
    if value[|value| - 1] !in " \r\n\t" {
      EndNotOfIs(line, " \r\n\t", |line|);
    } else if forall i | 0 <= i < |value| :: value[i] in " \r\n\t" {
      EndNotOfIs(line, " \r\n\t", n + 2);
    } else {
      var i :| 0 <= i < |value| && value[i] !in " \r\n\t";
      assert line[n + 3 + i] !in " \r\n\t";
      assert n + 3 + i < EndNotOf(line, " \r\n\t") < |line|;
    }
  }

  // The value of a written entry line comes back exactly when it is in order.
  lemma {:induction false} ValueBack(line: string, n: nat, value: string)
    requires EntryLine(line, n, value) && '\n' !in value
    ensures Value(line, n + 1) == value <==> ValueOk(value)
  {
    hide FirstNotOf, EndNotOf, Value;
    if value == "" {
      EmptyValue(line, n);
    } else if value[0] in " \t=" {
      ValueShort(line, n, value);
    } else {
      ValueTrimmed(line, n, value);
    }
  }

  lemma {:induction false} EmptyValue(line: string, n: nat)
    requires EntryLine(line, n, "")
    ensures Value(line, n + 1) == ""
  {
    FirstNotOfIs(line, " \t=", n + 1, n + 3);
  }

  lemma {:induction false} EntryLineIs(name: string, value: string)
    ensures EntryLine(ItemLine(EntryItem(name, value)), |name|, value)
    ensures ItemLine(EntryItem(name, value))[..|name|] == name
  {
    var line := name + " = " + value;
    assert line[|name|..] == " = " + value;
  }

  // ---- the name ----

  lemma {:induction false} StripIs(s: string, a: nat, b: nat)
    requires a < b <= |s| && s[a] !in WHITESPACE && s[b - 1] !in WHITESPACE
    requires forall i | 0 <= i < a || b <= i < |s| :: s[i] in WHITESPACE
    ensures Strip(s) == s[a..b]
  {
    FirstNotOfIs(s, WHITESPACE, 0, a);
    EndNotOfIs(s, WHITESPACE, b);
  }

  lemma {:induction false} StripBlank(s: string)
    requires forall i | 0 <= i < |s| :: s[i] in WHITESPACE
    ensures Strip(s) == ""
  {
    FirstNotOfIs(s, WHITESPACE, 0, |s|);
  }

  lemma {:induction false} Stripped(s: string) returns (a: nat, b: nat)
    ensures a <= b <= |s| && Strip(s) == s[a..b]
    ensures a < b ==> s[a] !in WHITESPACE && s[b - 1] !in WHITESPACE
    ensures forall i | 0 <= i < a || b <= i < |s| :: s[i] in WHITESPACE
  {
    a, b := FirstNotOf(s, WHITESPACE, 0), EndNotOf(s, WHITESPACE);
    if a == |s| {
      b := a;
    } else {
      assert a < b;
    }
  }

  // Exactly what has no white space at its ends is left alone.
  lemma {:induction false} StripSame(s: string)
    ensures Strip(s) == s <==>
      s == "" || (s[0] !in " \t\r\n\U{0b}" && s[|s| - 1] !in " \t\r\n\U{0b}")
  {
    hide Strip, FirstNotOf, EndNotOf;
    var a, b := Stripped(s);
    if s != "" {
      if s[0] !in WHITESPACE && s[|s| - 1] !in WHITESPACE {
        StripIs(s, 0, |s|);
        assert s[0..|s|] == s;
      } else {
        assert a > 0 || b < |s|;
        assert |s[a..b]| < |s|;
      }
    }
  }

  // The blank the writer puts behind a name makes no difference.
  lemma {:induction false} StripSpace(s: string)
    ensures Strip(s + " ") == Strip(s)
  {
    hide Strip, FirstNotOf, EndNotOf;
    var a, b := Stripped(s);
    var t := s + " ";
    assert t[|s|] in WHITESPACE && forall i | 0 <= i < |s| :: t[i] == s[i];
    if a < b {
      StripIs(t, a, b);
      assert t[a..b] == s[a..b];
    } else {
      StripBlank(t);
    }
  }

  lemma {:induction false} StripTwice(s: string)
    ensures Strip(Strip(s)) == Strip(s) && forall c | c in Strip(s) :: c in s
  {
    hide Strip, FirstNotOf, EndNotOf;
    var a, b := Stripped(s);
    var t := s[a..b];
    if a < b {
      StripIs(t, 0, |t|);
      assert t[0..|t|] == t;
    } else {
      StripBlank(t);
      assert t == "";
    }
  }

  lemma {:induction false} FindIs(s: string, c: char, n: nat)
    requires n < |s| && s[n] == c && c !in s[..n]
    ensures Find(s, c) == n
  {
    forall i | 0 <= i < n
      ensures s[i] != c
    {
      assert s[..n][i] == s[i];
    }
  }

  lemma {:induction false} EntryParsed(name: string, value: string)
    requires '=' !in name
    ensures var line := ItemLine(EntryItem(name, value));
      if name != "" && name[0] in ";#[" then !ParseLine(line).KeyValue?
      else ParseLine(line) == KeyValue(Strip(name), Value(line, |name| + 1))
  {
    hide Strip, Value, Find;
    var line, n := ItemLine(EntryItem(name, value)), |name|;
    EntryLineIs(name, value);
    assert line[..n + 1] == name + " ";
    FindIs(line, '=', n + 1);
    StripSpace(name);
    assert name != "" ==> line[0] == name[0];
    assert name == "" ==> line[0] == ' ';
  }

  // ---- all other lines ----

  // The kinds of lines, by their first character.
  lemma {:induction false} LineKinds(x: string, y: string)
    ensures ParseLine("") == Empty
    ensures ParseLine(";" + x) == Comment(x) == ParseLine("#" + x)
    ensures ']' !in x ==> ParseLine("[" + x) == Invalid("[" + x) && ParseLine("[" + (x + ("]" + y))) == Section(x)
    ensures x != "" && x[0] !in ";#[" && '=' !in x ==> ParseLine(x) == Invalid(x)
  {
    assert (";" + x)[1..] == x && ("#" + x)[1..] == x;
    if ']' !in x {
      var line := "[" + (x + ("]" + y));
      assert line[..|x| + 1] == "[" + x && line[1..|x| + 1] == x && line[|x| + 1] == ']';
      FindIs(line, ']', |x| + 1);
    }
  }

  predicate Only(s: string, chars: string) { forall i | 0 <= i < |s| :: s[i] in chars }

  // White space around a name and around a value makes no difference, nor do
  // further equals signs.
  lemma {:induction false} AnySpacing(a: string, name: string, b: string, c: string, value: string, d: string)
    requires NameOk(name) && name != "" && Only(a, " \t\r\U{0b}") && Only(b, " \t\r\U{0b}")
    requires value != "" && value[0] !in " \t=" && value[|value| - 1] !in " \r\n\t"
    requires Only(c, " \t=") && Only(d, " \r\n\t")
    ensures ParseLine((a + name + b) + ("=" + (c + value + d))) == KeyValue(name, value)
  {
    hide Find, Strip, Value, FirstNotOf, EndNotOf;
    var left := a + name + b;
    var line := left + ("=" + (c + value + d));
    assert line[|left|] == '=' && line[..|left|] == left && line[0] == left[0];
    NameAlone(a, name, b);
    assert left[0] == if a == "" then name[0] else a[0];
    FindIs(line, '=', |left|);
    ValueAlone(left, c, value, d);
  }

  lemma {:induction false} NameAlone(a: string, name: string, b: string)
    requires NameOk(name) && name != "" && Only(a, " \t\r\U{0b}") && Only(b, " \t\r\U{0b}")
    ensures Strip(a + name + b) == name && '=' !in a + name + b
  {
    hide Strip, FirstNotOf, EndNotOf;
    var s, m, n := a + name + b, |a|, |a| + |name|;
    assert s[m..n] == name && s[m] == name[0] && s[n - 1] == name[|name| - 1];
    forall i | 0 <= i < m || n <= i < |s|
      ensures s[i] in WHITESPACE && s[i] != '='
    {
      assert s[i] == if i < m then a[i] else b[i - n];
    }
    assert forall i | m <= i < n :: s[i] == name[i - m];
    StripIs(s, m, n);
  }

  lemma {:induction false} ValueAlone(left: string, c: string, value: string, d: string)
    requires value != "" && value[0] !in " \t=" && value[|value| - 1] !in " \r\n\t"
    requires Only(c, " \t=") && Only(d, " \r\n\t")
    ensures Value(left + ("=" + (c + value + d)), |left|) == value
  {
    hide FirstNotOf, EndNotOf;
    var line := left + ("=" + (c + value + d));
    var m := |left| + 1 + |c|;
    var n := m + |value|;
    assert line[m..n] == value && line[m] == value[0] && line[n - 1] == value[|value| - 1];
    forall i | |left| <= i < m
      ensures line[i] in " \t="
    {
      assert i > |left| ==> line[i] == c[i - |left| - 1];
    }
    forall i | n <= i < |line|
      ensures line[i] in " \r\n\t"
    {
      assert line[i] == d[i - n];
    }
    FirstNotOfIs(line, " \t=", |left|, m);
    EndNotOfIs(line, " \r\n\t", n);
  }

  // ---- a whole text ----

  // The last line need not be ended.
  lemma {:induction false} LastLine(section: string, line: string)
    requires line != "" && '\n' !in line
    ensures Entries(section, line) == Entries(section, line + "\n")
  {
    hide ParseLine, FirstLine, AfterLine;
    LineEnd(line, "");
    LineEnd(line, "\n");
    assert line + "" == line && "\n"[1..] == "";
  }

  lemma {:induction false} OneLine(section: string, line: string, rest: string)
    requires '\n' !in line
    ensures var text := line + "\n" + rest;
      Entries(section, text) == match ParseLine(line)
        case Section(name) => Entries(name, rest)
        case KeyValue(name, value) => [Full(section, name, value)] + Entries(section, rest)
        case _ => Entries(section, rest)
  {
    hide ParseLine, FirstLine, AfterLine;
    LineEnd(line, "\n" + rest);
    assert line + "\n" + rest == line + ("\n" + rest) && ("\n" + rest)[1..] == rest;
  }

  lemma {:induction false} ItemParsed(i: Item)
    requires ItemOk(i)
    ensures '\n' !in ItemLine(i)
    ensures match i
      case SectionItem(name) => ParseLine(ItemLine(i)) == Section(name)
      case EntryItem(name, value) => ParseLine(ItemLine(i)) == KeyValue(name, value)
      case CommentItem(_) => ParseLine(ItemLine(i)).Comment?
  {
    hide Strip, Value, Find;
    if i.EntryItem? {
      StripSame(i.name);
    }
    match i
    case SectionItem(name) =>
      var line := ItemLine(i);
      assert line[..|name| + 1] == "[" + name && line[1..|name| + 1] == name;
      FindIs(line, ']', |name| + 1);
    case EntryItem(name, value) =>
      EntryParsed(name, value);
      EntryLineIs(name, value);
      ValueBack(ItemLine(i), |name|, value);
    case CommentItem(_) =>
  }

  // Reading what was written gives the same entries, each in its section.
  lemma {:induction false} ReadsBack(section: string, items: seq<Item>)
    requires forall i | 0 <= i < |items| :: ItemOk(items[i])
    ensures Entries(section, Written(items)) == Meaning(section, items)
    decreases |items|
  {
    hide ParseLine, FirstLine, AfterLine, ItemLine, ItemOk;
    if items != [] {
      ItemParsed(items[0]);
      OneLine(section, ItemLine(items[0]), Written(items[1..]));
      ReadsBack(if items[0].SectionItem? then items[0].name else section, items[1..]);
    }
  }

  // ---- exactly when an entry comes back ----

  lemma {:induction false} LineFacts(line: string)
    requires '\n' !in line && ParseLine(line).KeyValue?
    ensures var e := ParseLine(line); '\n' !in e.name && '=' !in e.name && Strip(e.name) == e.name && '\n' !in e.value
  {
    hide Strip, Find, FirstNotOf, EndNotOf;
    var eq := Find(line, '=');
    StripTwice(line[..eq]);
    assert '=' !in line[..eq] && '\n' !in line[..eq];
    var v := Value(line, eq);
    assert forall c | c in v :: c in line;
  }

  // Whatever is read is free of line ends, and its names of blanks around
  // them and of '='.
  lemma {:induction false} ReadFacts(section: string, text: string)
    ensures forall e | e in Entries(section, text) ::
      '\n' !in e.name && '=' !in e.name && Strip(e.name) == e.name && '\n' !in e.value
    decreases |text|
  {
    hide ParseLine, Strip, Find;
    if text != "" {
      var line, rest := FirstLine(text), AfterLine(text);
      assert '\n' !in line;
      var p := ParseLine(line);
      ReadFacts(if p.Section? then p.name else section, rest);
      if p.KeyValue? {
        LineFacts(line);
      }
    }
  }

  // What an entry must be at least, if it can be read at all.
  predicate EntryFree(i: Item) {
    i.EntryItem? ==> '\n' !in i.name && '=' !in i.name && Strip(i.name) == i.name && '\n' !in i.value
  }

  // Sections and comments stay on their lines, and a section ends where it is
  // meant to.
  predicate OthersOk(items: seq<Item>) { forall i | 0 <= i < |items| && !items[i].EntryItem? :: ItemOk(items[i]) }

  lemma {:induction false} EntryMeant(section: string, items: seq<Item>, i: nat) returns (e: Full)
    requires i < |items| && items[i].EntryItem?
    ensures e in Meaning(section, items) && e.name == items[i].name && e.value == items[i].value
    decreases |items|
  {
    if i == 0 {
      e := Full(section, items[0].name, items[0].value);
    } else {
      e := EntryMeant(if items[0].SectionItem? then items[0].name else section, items[1..], i - 1);
    }
  }

  // One item is read as it is meant, or an entry is not read as one.
  lemma {:induction false} ItemRead(section: string, items: seq<Item>) returns (next: string)
    requires items != [] && OthersOk(items) && EntryFree(items[0])
    ensures var i, text := items[0], Written(items);
      match i
      case SectionItem(name) => Entries(section, text) == Entries(name, Written(items[1..]))
      case CommentItem(_) => Entries(section, text) == Entries(section, Written(items[1..]))
      case EntryItem(name, value) =>
        Entries(section, text)
        == if name != "" && name[0] in ";#[" then Entries(next, Written(items[1..]))
           else [Full(section, name, Value(ItemLine(i), |name| + 1))] + Entries(section, Written(items[1..]))
  {
    hide ParseLine, FirstLine, AfterLine, Strip, Value, ItemLine;
    var line, rest := ItemLine(items[0]), Written(items[1..]);
    LineStays(items[0]);
    OneLine(section, line, rest);
    next := if ParseLine(line).Section? then ParseLine(line).name else section;
    if items[0].EntryItem? {
      EntryParsed(items[0].name, items[0].value);
    } else {
      ItemParsed(items[0]);
    }
  }

  lemma {:induction false} LineStays(i: Item)
    requires EntryFree(i) && (!i.EntryItem? ==> ItemOk(i))
    ensures '\n' !in ItemLine(i)
    ensures i.EntryItem? ==> EntryLine(ItemLine(i), |i.name|, i.value)
  {
    if i.EntryItem? {
      EntryLineIs(i.name, i.value);
    }
  }

  // No item is read as more entries than it means.
  lemma {:induction false} NoMore(section: string, items: seq<Item>, meant: string)
    requires OthersOk(items) && forall i | 0 <= i < |items| :: EntryFree(items[i])
    ensures |Entries(section, Written(items))| <= |Meaning(meant, items)|
    decreases |items|
  {
    hide ParseLine, FirstLine, AfterLine, Strip, Value, ItemLine, ItemOk;
    if items != [] {
      var next := ItemRead(section, items);
      var now := if items[0].SectionItem? then items[0].name else section;
      var skipped := items[0].EntryItem? && items[0].name != "" && items[0].name[0] in ";#[";
      NoMore(if skipped then next else now, items[1..], if items[0].SectionItem? then items[0].name else meant);
    }
  }

  lemma {:induction false} EntriesOk(section: string, items: seq<Item>)
    requires OthersOk(items) && forall i | 0 <= i < |items| :: EntryFree(items[i])
    requires Entries(section, Written(items)) == Meaning(section, items)
    ensures forall i | 0 <= i < |items| :: ItemOk(items[i])
    decreases |items|
  {
    hide ParseLine, FirstLine, AfterLine, Strip, Value, ItemLine, Entries, Written;
    if items != [] {
      var next := ItemRead(section, items);
      if items[0].EntryItem? {
        NoMore(next, items[1..], section);
        var name, value := items[0].name, items[0].value;
        assert name == "" || name[0] !in ";#[";
        StripSame(name);
        LineStays(items[0]);
        ValueBack(ItemLine(items[0]), |name|, value);
        var e := Full(section, name, Value(ItemLine(items[0]), |name| + 1));
        SameTail(e, Entries(section, Written(items[1..])), Full(section, name, value), Meaning(section, items[1..]));
        EntriesOk(section, items[1..]);
      } else {
        EntriesOk(if items[0].SectionItem? then items[0].name else section, items[1..]);
      }
    }
  }

  lemma {:induction false} SameTail(a: Full, s: seq<Full>, b: Full, t: seq<Full>)
    requires [a] + s == [b] + t
    ensures a == b && s == t
  {
    assert ([a] + s)[1..] == s && ([b] + t)[1..] == t && ([a] + s)[0] == a && ([b] + t)[0] == b;
  }

  // Main result: among sections and comments in order, the entries read are
  // those written exactly if each one is in order.
  lemma {:induction false} ReadsBackExactly(section: string, items: seq<Item>)
    requires OthersOk(items)
    ensures Entries(section, Written(items)) == Meaning(section, items)
      <==> forall i | 0 <= i < |items| :: ItemOk(items[i])
  {
    hide Entries, Written, Meaning, ItemOk;
    if forall i | 0 <= i < |items| :: ItemOk(items[i]) {
      ReadsBack(section, items);
    } else if Entries(section, Written(items)) == Meaning(section, items) {
      ReadFacts(section, Written(items));
      forall i | 0 <= i < |items|
        ensures EntryFree(items[i])
      {
        if items[i].EntryItem? {
          var e := EntryMeant(section, items, i);
        }
      }
      EntriesOk(section, items);
    }
  }

  // So a single entry comes back exactly if its name and value are in order.
  lemma {:induction false} EntryReadsBackExactly(section: string, name: string, value: string)
    ensures Entries(section, Written([EntryItem(name, value)])) == [Full(section, name, value)]
      <==> NameOk(name) && ValueOk(value)
  {
    var items := [EntryItem(name, value)];
    ReadsBackExactly(section, items);
    assert items[1..] == [] && Meaning(section, items) == [Full(section, name, value)] + [];
    assert ItemOk(items[0]) <==> NameOk(name) && ValueOk(value);
  }
}
