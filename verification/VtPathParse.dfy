// Reading a path expression, and the whole visit (tinfra/vtpath.cpp).
module VtPathParse {
  import opened Variants
  import opened VtPathSpec
  import opened VtPathPattern
  import opened VtPath

  // NeverEnds: the loop adds empty names for ever without consuming input.
  datatype Parsed = Parsed(cmds: seq<Command>) | ParseFailed | NeverEnds

  predicate WordChar(c: char) {
    '0' <= c <= '9' || 'a' <= c <= 'z' || 'A' <= c <= 'Z' || c == '_'
  }

  predicate Word(s: string) { forall c <- s :: WordChar(c) }

  // Length of the longest prefix of word characters.
  function WordLength(s: string): (n: nat)
    ensures n <= |s| && Word(s[..n]) && (n < |s| ==> !WordChar(s[n]))
  {
    if s == "" || !WordChar(s[0]) then 0
    else
      var n := WordLength(s[1..]);
      assert s[..1 + n] == [s[0]] + s[1..][..n];
      1 + n
  }

  // The next piece of an expression: its commands, if any, and what follows.
  datatype Piece = Piece(cmds: seq<Command>, rest: string) | BadSelector | BadCharacter

  function Next(e: string): (r: Piece)
    requires e != ""
    ensures r.Piece? ==> |r.rest| < |e|
  {
    match e[0]
    case '$' => Piece([Root], e[1..])
    case '.' => if |e| > 1 && e[1] == '.' then Piece([RecursiveChild], e[2..]) else Piece([Child], e[1..])
    case '*' => Piece([WildcardAll], e[1..])
    case '[' =>
      if |e| == 1 then Piece([], "")
      else if |e| > 2 && e[1] == '*' && e[2] == ']' then Piece([WildcardAll], e[3..])
      else BadSelector
    case c =>
      var n := WordLength(e);
      if n > 0 then Piece([Token(e[..n])], e[n..]) else BadCharacter
  }

  function Prefixed(cmds: seq<Command>, r: Parsed): Parsed {
    if r.Parsed? then Parsed(cmds + r.cmds) else r
  }

  // What an expression reads as.
  function Read(e: string): Parsed
    decreases |e|
  {
    if e == "" then Parsed([])
    else
      match Next(e)
      case BadSelector => ParseFailed
      case BadCharacter => NeverEnds
      case Piece(cmds, rest) => Prefixed(cmds, Read(rest))
  }

  lemma {:induction false} PrefixedTwice(a: seq<Command>, b: seq<Command>, r: Parsed)
    ensures Prefixed(a, Prefixed(b, r)) == Prefixed(a + b, r)
  {
    if r.Parsed? {
      assert a + (b + r.cmds) == (a + b) + r.cmds;
    }
  }

  // After an opening bracket: only the wildcard is known. A lone "*" at the
  // very end reads the terminating NUL of the text and fails like any mismatch.
  method ParseSelector(e: string) returns (r: Piece)
    ensures r == Next(['['] + e)
  {
    if |e| == 0 {
      return Piece([], e);
    }
    if e[0] == '*' {
      var next := if |e| > 1 then e[1] else '\0';
      if next != ']' {
        return BadSelector;
      }
      assert (['['] + e)[3..] == e[2..];
      return Piece([WildcardAll], e[2..]);
    }
    return BadSelector;
  }

  method ParseName(e: string) returns (name: string, rest: string)
    ensures e == name + rest && name == e[..WordLength(e)] && rest == e[WordLength(e)..]
  {
    name, rest := "", e;
    while rest != "" && WordChar(rest[0])
      invariant e == name + rest && Word(name)
      decreases |rest|
    {
      name := name + [rest[0]];
      rest := rest[1..];
    }
    LongestWord(e, name, rest);
  }

  method Parse(text: string) returns (r: Parsed)
    ensures r == Read(text)
  {
    var expr := text;
    var result: seq<Command> := [];
    while expr != ""
      invariant Read(text) == Prefixed(result, Read(expr))
      decreases |expr|
    {
      ghost var at := expr;
      ghost var before := result;
      if expr[0] == '$' {
        result := result + [Root];
        expr := expr[1..];
      } else if expr[0] == '.' {
        if |expr| > 1 && expr[1] == '.' {
          result := result + [RecursiveChild];
          expr := expr[2..];
        } else {
          result := result + [Child];
          expr := expr[1..];
        }
      } else if expr[0] == '*' {
        result := result + [WildcardAll];
        expr := expr[1..];
      } else if expr[0] == '[' {
        assert expr == ['['] + expr[1..];
        var sel := ParseSelector(expr[1..]);
        if sel.BadSelector? {
          return ParseFailed;
        }
        result := result + sel.cmds;
        expr := sel.rest;
      } else {
        var name;
        name, expr := ParseName(expr);
        if name == "" {
          return NeverEnds;
        }
        result := result + [Token(name)];
      }
      PrefixedTwice(before, Next(at).cmds, Read(expr));
    }
    r := Parsed(result);
  }

  lemma {:induction false} LongestWord(e: string, name: string, rest: string)
    requires e == name + rest && Word(name) && (rest == "" || !WordChar(rest[0]))
    ensures WordLength(e) == |name| && e[..|name|] == name && e[|name|..] == rest
  {
    if name != "" {
      LongestWord(e[1..], name[1..], rest);
    }
  }

  // ---- what the characters mean ----

  const LOWER := "abcdefghijklmnopqrstuvwxyz"
  const UPPER := "ABCDEFGHIJKLMNOPQRSTUVWXYZ"
  const DIGITS := "0123456789"

  predicate NameChar(c: char) { c in LOWER || c in UPPER || c in DIGITS || c == '_' }

  // Characters in a row, as they are coded.
  predicate Row(s: string) { forall i | 0 <= i < |s| :: s[i] as int == s[0] as int + i }

  lemma {:induction false} Rows()
    ensures Row(LOWER) && Row(UPPER) && Row(DIGITS)
  {
    forall i | 0 <= i < 26
      ensures LOWER[i] as int == 'a' as int + i && UPPER[i] as int == 'A' as int + i
      ensures i < 10 ==> DIGITS[i] as int == '0' as int + i
    {
      assert i == 0 || i == 1 || i == 2 || i == 3 || i == 4 || i == 5 || i == 6 || i == 7 || i == 8
        || i == 9 || i == 10 || i == 11 || i == 12 || i == 13 || i == 14 || i == 15 || i == 16 || i == 17
        || i == 18 || i == 19 || i == 20 || i == 21 || i == 22 || i == 23 || i == 24 || i == 25;
    }
  }

  lemma {:induction false} InRow(s: string, c: char)
    requires Row(s) && s != ""
    ensures c in s <==> s[0] <= c && c as int < s[0] as int + |s|
  {
    if s[0] <= c && c as int < s[0] as int + |s| {
      assert s[c as int - s[0] as int] as int == c as int;
    }
  }

  lemma {:induction false} WordChars(c: char)
    ensures WordChar(c) <==> NameChar(c)
  {
    Rows();
    InRow(LOWER, c);
    InRow(UPPER, c);
    InRow(DIGITS, c);
  }

  // After a bracket only the wildcard is known, and it is the wildcard without
  // brackets; a bracket at the end is ignored.
  lemma {:induction false} BracketExactly(rest: string)
    ensures Read("[" + rest)
      == if rest == "" then Parsed([]) else if "*]" <= rest then Read("*" + rest[2..]) else ParseFailed
    ensures Read("[*]" + rest) == Read("*" + rest)
  {
    WildcardRead("*]" + rest);
    assert "[" + ("*]" + rest) == "[*]" + rest && ("*]" + rest)[2..] == rest;
    WildcardRead(rest);
  }

  lemma {:induction false} WildcardRead(rest: string)
    ensures Read("[" + rest)
      == if rest == "" then Parsed([]) else if "*]" <= rest then Read("*" + rest[2..]) else ParseFailed
  {
    var e := "[" + rest;
    if rest == "" {
      assert e == "[" && Next(e) == Piece([], "") && Read("") == Parsed([]);
    } else if "*]" <= rest {
      var star := "*" + rest[2..];
      assert e[3..] == rest[2..] && star[1..] == rest[2..] && e[1] == rest[0] && e[2] == rest[1];
    } else {
      assert e[1] == rest[0] && (|e| > 2 ==> e[2] == rest[1]);
    }
  }

  // Any other character makes no progress.
  lemma {:induction false} UnknownCharacter(c: char, rest: string)
    requires !NameChar(c) && c !in "$.*["
    ensures Read([c] + rest) == NeverEnds
  {
    WordChars(c);
    assert ([c] + rest)[0] == c;
  }

  // ---- the text of a pattern ----

  // A wildcard may be written in brackets.
  function StepText(s: Step, brackets: bool): string {
    (if s.recursive then ".." else ".") + if s.sel.Name? then s.sel.name else if brackets then "[*]" else "*"
  }

  function StepsText(steps: seq<Step>, brackets: seq<bool>): string
    requires |steps| == |brackets|
  {
    if steps == [] then "" else StepText(steps[0], brackets[0]) + StepsText(steps[1..], brackets[1..])
  }

  function Text(steps: seq<Step>, brackets: seq<bool>): string
    requires |steps| == |brackets|
  {
    "$" + StepsText(steps, brackets)
  }

  predicate IsWord(s: string) { s != "" && forall i | 0 <= i < |s| :: NameChar(s[i]) }

  predicate Speakable(steps: seq<Step>) {
    forall i | 0 <= i < |steps| && steps[i].sel.Name? :: IsWord(steps[i].sel.name)
  }

  lemma {:induction false} WordIs(s: string)
    requires IsWord(s)
    ensures Word(s)
  {
    hide NameChar, WordChar;
    forall i | 0 <= i < |s|
      ensures WordChar(s[i])
    {
      WordChars(s[i]);
    }
  }

  lemma {:induction false} ReadTwo(e0: string, c0: Command, e1: string, c1: Command, rest: string, cmds: seq<Command>)
    requires e0 != "" && Next(e0) == Piece([c0], e1)
    requires e1 != "" && Next(e1) == Piece([c1], rest)
    requires Read(rest) == Parsed(cmds)
    ensures Read(e0) == Parsed([c0, c1] + cmds)
  {
    hide Next;
    assert Read(e1) == Prefixed([c1], Read(rest));
    assert [c0] + ([c1] + cmds) == [c0, c1] + cmds;
  }

  lemma {:induction false} NextDots(recursive: bool, e: string)
    requires e != "" && e[0] != '.'
    ensures var dots := if recursive then ".." else ".";
      dots + e != "" && Next(dots + e) == Piece([if recursive then RecursiveChild else Child], e)
  {
    var dots := if recursive then ".." else ".";
    assert (dots + e)[|dots|..] == e;
  }

  function SelectorText(s: Step, brackets: bool): string {
    if s.sel.Name? then s.sel.name else if brackets then "[*]" else "*"
  }

  lemma {:induction false} StepTextRest(s: Step, brackets: bool, rest: string)
    ensures StepText(s, brackets) + rest
      == (if s.recursive then ".." else ".") + (SelectorText(s, brackets) + rest)
  {
  }

  lemma {:induction false} ReadStep(s: Step, brackets: bool, rest: string, cmds: seq<Command>)
    requires s.sel.Name? ==> IsWord(s.sel.name)
    requires rest == "" || rest[0] == '.'
    requires Read(rest) == Parsed(cmds)
    ensures Read(StepText(s, brackets) + rest)
      == Parsed([if s.recursive then RecursiveChild else Child,
                 if s.sel.Any? then WildcardAll else Token(s.sel.name)] + cmds)
  {
    hide StepText, SelectorText, Read;
    var e := SelectorText(s, brackets) + rest;
    ReadSelector(s, brackets, rest);
    NextDots(s.recursive, e);
    StepTextRest(s, brackets, rest);
    ReadTwo(StepText(s, brackets) + rest, if s.recursive then RecursiveChild else Child, e,
            if s.sel.Any? then WildcardAll else Token(s.sel.name), rest, cmds);
  }

  // A written pattern reads back as the pattern.
  lemma {:induction false} ReadSteps(steps: seq<Step>, brackets: seq<bool>)
    requires Speakable(steps) && |steps| == |brackets|
    ensures Read(StepsText(steps, brackets)) == Parsed(Encode(steps))
    ensures StepsText(steps, brackets) == "" || StepsText(steps, brackets)[0] == '.'
  {
    if steps != [] {
      ReadSteps(steps[1..], brackets[1..]);
      ReadStep(steps[0], brackets[0], StepsText(steps[1..], brackets[1..]), Encode(steps[1..]));
    }
  }

  lemma {:induction false} ReadSelector(s: Step, brackets: bool, rest: string)
    requires s.sel.Name? ==> IsWord(s.sel.name)
    requires rest == "" || rest[0] == '.'
    ensures var e := SelectorText(s, brackets) + rest;
      && e != "" && e[0] != '.'
      && Next(e) == Piece([if s.sel.Any? then WildcardAll else Token(s.sel.name)], rest)
  {
    hide NameChar;
    var e := SelectorText(s, brackets) + rest;
    if s.sel.Name? {
      WordIs(s.sel.name);
      LongestWord(e, s.sel.name, rest);
      assert e[0] == s.sel.name[0] && e[0] in s.sel.name;
    } else if brackets {
      assert e[3..] == rest && e[1] == '*' && e[2] == ']';
    } else {
      assert e[1..] == rest;
    }
  }

  lemma {:induction false} ReadText(steps: seq<Step>, brackets: seq<bool>)
    requires Speakable(steps) && |steps| == |brackets|
    ensures Read(Text(steps, brackets)) == Parsed(Commands(steps))
  {
    ReadSteps(steps, brackets);
    assert Text(steps, brackets)[1..] == StepsText(steps, brackets);
  }

  // ---- the visit ----

  datatype Visited = Nodes(out: seq<Path>) | Threw | NeverReturns

  ghost function VisitMeaning(v: Variant, text: string): Visited {
    match Read(text)
    case ParseFailed => Threw
    case NeverEnds => NeverReturns
    case Parsed(cmds) =>
      if cmds == [] || cmds[0] != Root then Threw
      else
        var t := Answers(cmds, v);
        match t.end
        case Finished => Nodes(t.out)
        case AssertFailed => Threw
        case Stuck => NeverReturns
  }

  // Every answer, and how fetching stopped.
  method CollectAll(visitor: VtPathVisitor) returns (out: seq<Path>, last: Fetched)
    requires visitor.Valid()
    modifies visitor
    ensures !last.Found?
    ensures last.NoMore? ==> old(visitor.Remaining()) == Trace(out, Finished)
    ensures last.AssertionThrown? ==> old(visitor.Remaining()) == Trace(out, AssertFailed)
    ensures last.Hang? ==> old(visitor.Remaining()) == Trace(out, Stuck)
  {
    hide StackTrace, ValidStack, Chain;
    out := [];
    last := visitor.FetchNext();
    while last.Found?
      invariant last.Found? ==>
        visitor.Valid() && old(visitor.Remaining()) == Queued(out + [last.node], visitor.Remaining())
      invariant last.NoMore? ==> old(visitor.Remaining()) == Trace(out, Finished)
      invariant last.AssertionThrown? ==> old(visitor.Remaining()) == Trace(out, AssertFailed)
      invariant last.Hang? ==> old(visitor.Remaining()) == Trace(out, Stuck)
      decreases if last.Found? then 1 + |visitor.Remaining().out| else 0
    {
      out := out + [last.node];
      ghost var before := visitor.Remaining();
      last := visitor.FetchNext();
      if last.Found? {
        assert out + ([last.node] + visitor.Remaining().out) == (out + [last.node]) + visitor.Remaining().out;
      } else {
        assert out + [] == out;
      }
    }
  }

  // Parse the expression, then collect every answer.
  method Visit(v: Variant, text: string) returns (r: Visited)
    ensures r == VisitMeaning(v, text)
  {
    var p := Parse(text);
    if p.ParseFailed? {
      return Threw;
    } else if p.NeverEnds? {
      return NeverReturns;
    }
    if |p.cmds| == 0 || p.cmds[0] != Root {
      return Threw;
    }
    var visitor := new VtPathVisitor(v, p.cmds);
    var out, last := CollectAll(visitor);
    match last
    case NoMore => r := Nodes(out);
    case AssertionThrown => r := Threw;
    case Hang => r := NeverReturns;
  }

  // From text to answers: a visit with a written pattern throws exactly when
  // it reaches an array through a non-recursive name, and otherwise returns
  // every node as often as its path matches.
  lemma {:induction false} VisitPattern(v: Variant, steps: seq<Step>, brackets: seq<bool>)
    requires WellFormed(v) && Speakable(steps) && |steps| == |brackets|
    ensures match VisitMeaning(v, Text(steps, brackets))
      case Threw => exists rel: Path, k: nat :: NameMeetsArray(v, steps, rel, k)
      case Nodes(out) =>
        && (!exists rel: Path, k: nat :: NameMeetsArray(v, steps, rel, k))
        && forall q :: multiset(out)[q] == if ValidPath(v, q) then Ways(Components(v, q), steps) else 0
      case NeverReturns => false
  {
    ReadText(steps, brackets);
    FailsExactlyWhen(steps, v);
    if Answers(Commands(steps), v).end.Finished? {
      forall q
        ensures multiset(Answers(Commands(steps), v).out)[q]
          == if ValidPath(v, q) then Ways(Components(v, q), steps) else 0
      {
        AnswerMultiplicity(steps, v, q);
      }
    }
  }

  // ---- expressions that are no patterns ----

  // Only an expression that begins with the root gives nodes.
  lemma {:induction false} OnlyFromRoot(v: Variant, text: string)
    requires text == "" || text[0] != '$'
    ensures !VisitMeaning(v, text).Nodes?
  {
    if text != "" && Next(text).Piece? {
      var p := Next(text);
      if p.cmds == [] {
        assert text == "[";
        BracketExactly("");
      } else {
        assert Read(text) == Prefixed(p.cmds, Read(p.rest));
      }
    }
  }

  // What stands right after the root: a name or wildcard without a dot selects
  // nothing; a dot with nothing after it is an assertion failure on containers,
  // like two dots before anything but a selector; and one dot before something
  // else makes the evaluation repeat for ever.
  lemma {:induction false} NoPatterns(v: Variant, name: string)
    requires v.IsContainer() && IsWord(name)
    ensures VisitMeaning(v, "$" + name) == Nodes([]) == VisitMeaning(v, "$*") == VisitMeaning(v, "$$")
    ensures VisitMeaning(v, "$.") == Threw == VisitMeaning(v, "$..")
    ensures VisitMeaning(v, "$.$") == NeverReturns
    ensures VisitMeaning(v, "$..$") == if v.NumKids() == 0 then Nodes([]) else Threw
  {
    hide NameChar, Next, Read;
    NameRead(name);
    ReadPieces();
    ReadAfterRoot(name, [Token(name)]);
    ReadAfterRoot("*", [WildcardAll]);
    ReadAfterRoot("$", [Root]);
    ReadAfterRoot(".", [Child]);
    ReadAfterRoot("..", [RecursiveChild]);
    ReadAfterRoot(".$", [Child, Root]);
    ReadAfterRoot("..$", [RecursiveChild, Root]);
    assert "$" + "*" == "$*" && "$" + "$" == "$$" && "$" + "." == "$." && "$" + ".." == "$..";
    assert "$" + ".$" == "$.$" && "$" + "..$" == "$..$";
    OddCommands(v, name);
  }

  lemma {:induction false} OddCommands(v: Variant, name: string)
    requires v.IsContainer()
    ensures forall c | c in {Token(name), WildcardAll, Root} :: Answers([Root] + [c], v) == NOTHING
    ensures Answers([Root] + [Child], v) == ASSERTION == Answers([Root] + [RecursiveChild], v)
    ensures Answers([Root] + [Child, Root], v) == Trace([], Stuck)
    ensures Answers([Root] + [RecursiveChild, Root], v) == if v.NumKids() == 0 then NOTHING else ASSERTION
  {
    var cmds := [Root] + [RecursiveChild, Root];
    assert v.NumKids() > 0 ==> KidTrace(cmds, [], v, 1, 0) == ASSERTION;
  }

  lemma {:induction false} NameRead(name: string)
    requires IsWord(name)
    ensures Read(name) == Parsed([Token(name)])
  {
    hide NameChar;
    WordIs(name);
    LongestWord(name, name, "");
    assert name[0] in name && Read("") == Parsed([]);
    assert Next(name) == Piece([Token(name)], "");
  }

  lemma {:induction false} ReadAfterRoot(rest: string, cmds: seq<Command>)
    requires Read(rest) == Parsed(cmds)
    ensures Read("$" + rest) == Parsed([Root] + cmds)
  {
    assert ("$" + rest)[1..] == rest;
  }

  lemma {:induction false} ReadPieces()
    ensures Read("*") == Parsed([WildcardAll]) && Read("$") == Parsed([Root]) && Read(".") == Parsed([Child])
    ensures Read("..") == Parsed([RecursiveChild])
    ensures Read(".$") == Parsed([Child, Root]) && Read("..$") == Parsed([RecursiveChild, Root])
  {
    assert Read("") == Parsed([]);
    assert Next("*") == Piece([WildcardAll], "") && Next("$") == Piece([Root], "") && Next(".") == Piece([Child], "");
    assert Next("..") == Piece([RecursiveChild], "");
    assert ".$"[1..] == "$" && Next(".$") == Piece([Child], "$");
    assert "..$"[2..] == "$" && Next("..$") == Piece([RecursiveChild], "$");
    assert Read("$") == Prefixed([Root], Read(""));
    assert [Child] + [Root] == [Child, Root] && [RecursiveChild] + [Root] == [RecursiveChild, Root];
  }
}
