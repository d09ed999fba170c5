// The recursive-descent parser over the lexer: one current token, which stays
// in place when the input ends (tinfra/json.cpp, class json_parser).
module JsonParser {
  import opened Variants
  import opened JsonSpec
  import opened JsonGrammar
  import opened JsonValue
  import opened Streams
  import L = JsonLexer

  datatype Step = More | AtEnd | StepThrew
  datatype Turn = Continue | Done | TurnThrew
  datatype Value = Got(v: Variant) | Threw

  // What is known of a token list's parse, as a variant.
  function NodeValue(ts: seq<Token>, last: Token): Parse<Variant>
    requires ts != []
  {
    match Node(ts, last)
    case Parsed(t, rest, again) => Parsed(ToVariant(t), rest, again)
    case Failed => Failed
  }

  // A method's outcome is that of the parse p, or an exception because the
  // input after it cannot be read.
  ghost predicate Agrees(r: Value, p: Parse<Variant>, ok: bool, rest: Tokens) {
    && (r.Threw? <==> p.Failed? || (p.rest == [] && !ok))
    && (r.Got? ==> r.v == p.val && rest == Tokens(p.rest, ok))
  }

  ghost predicate LastIs(ts: seq<Token>, last: Token) { ts != [] ==> ts[|ts| - 1] == last }

  function ExtendMembers(seen: seq<Member>, p: Parse<seq<Member>>): Parse<seq<Member>> {
    if p.Parsed? then Parsed(seen + p.val, p.rest, p.again) else p
  }

  function ExtendElems(seen: seq<Tree>, p: Parse<seq<Tree>>): Parse<seq<Tree>> {
    if p.Parsed? then Parsed(seen + p.val, p.rest, p.again) else p
  }

  // One turn of each parsing loop, as cases.
  lemma {:induction false} MembersCases(ts: seq<Token>, last: Token)
    requires ts != []
    ensures !(ts[0].Str? && |ts| >= 3 && ts[1].Colon?) ==> Members(ts, last).Failed?
    ensures ts[0].Str? && |ts| >= 3 && ts[1].Colon? ==>
      var n := Node(ts[2..], last);
      && (n.Failed? ==> Members(ts, last).Failed?)
      && (n.Parsed? ==>
            var m := Member(ts[0].s, n.val);
            var c := Current(n.rest, last);
            Members(ts, last)
            == if c.Comma? then
                 (if |n.rest| < 2 then Failed else ExtendMembers([m], Members(n.rest[1..], last)))
               else if c.ObjectEnd? then Parsed([m], Skip(n.rest), n.again + if n.rest == [] then 1 else 0)
               else Failed)
  {
  }

  lemma {:induction false} ElemsCases(ts: seq<Token>, last: Token)
    requires ts != []
    ensures var n := Node(ts, last);
      && (n.Failed? ==> Elems(ts, last).Failed?)
      && (n.Parsed? ==>
            var c := Current(n.rest, last);
            Elems(ts, last)
            == if c.Comma? then
                 (if |n.rest| < 2 then Failed else ExtendElems([n.val], Elems(n.rest[1..], last)))
               else if c.ArrayEnd? then Parsed([n.val], Skip(n.rest), n.again + if n.rest == [] then 1 else 0)
               else Failed)
  {
  }

  lemma {:induction false} NodeValueIs(ts: seq<Token>, last: Token)
    requires ts != []
    ensures Node(ts, last).Failed? ==> NodeValue(ts, last).Failed?
    ensures Node(ts, last).Parsed? ==>
      var n := Node(ts, last); NodeValue(ts, last) == Parsed(ToVariant(n.val), n.rest, n.again)
  {
  }

  function DictOf(p: Parse<seq<Member>>): Parse<Variant> {
    if p.Parsed? then Parsed(DictV(ToEntries(p.val)), p.rest, p.again) else Failed
  }

  function ArrayOf(p: Parse<seq<Tree>>): Parse<Variant> {
    if p.Parsed? then Parsed(ArrayV(ToElems(p.val)), p.rest, p.again) else Failed
  }

  lemma {:induction false} NodeValueObject(ts: seq<Token>, last: Token)
    requires ts != [] && ts[0].ObjectBegin?
    ensures NodeValue(ts, last)
      == if |ts| == 1 then Failed
         else if ts[1].ObjectEnd? then Parsed(DictV([]), ts[2..], 0)
         else DictOf(Members(ts[1..], last))
  {
  }

  lemma {:induction false} NodeValueArray(ts: seq<Token>, last: Token)
    requires ts != [] && ts[0].ArrayBegin?
    ensures NodeValue(ts, last)
      == if |ts| == 1 then Failed
         else if ts[1].ArrayEnd? then Parsed(ArrayV([]), ts[2..], 0)
         else ArrayOf(Elems(ts[1..], last))
  {
  }

  // The parse fails, or reaches the end of an input that cannot be read on.
  ghost predicate FailsAt<T(!new)>(p: Parse<T>, ok: bool) { p.Failed? || (p.rest == [] && !ok) }

  // A member with this key and value was read, leaving rest.
  ghost predicate MemberParsed(ts: seq<Token>, last: Token, key: string, v: Variant, rest: seq<Token>) {
    && |ts| >= 3 && ts[0] == Str(key) && ts[1].Colon?
    && var n := Node(ts[2..], last);
    && n.Parsed? && v == ToVariant(n.val) && rest == n.rest
  }

  // Reading the first member fails where the grammar has no member, or no
  // value in it.
  lemma {:induction false} MemberFails(ts: seq<Token>, last: Token, ok: bool)
    requires ts != []
    ensures !(ts[0].Str? && |ts| >= 3 && ts[1].Colon?) ==> FailsAt(Members(ts, last), ok)
    ensures ts[0].Str? && |ts| >= 3 && ts[1].Colon? ==>
      var v, n := NodeValue(ts[2..], last), Node(ts[2..], last);
      && (FailsAt(v, ok) ==> FailsAt(Members(ts, last), ok))
      && (v.Parsed? ==> n.Parsed? && v.val == ToVariant(n.val) && v.rest == n.rest)
  {
    hide Members, Node;
    MembersCases(ts, last);
    if |ts| >= 3 {
      NodeValueIs(ts[2..], last);
    }
  }

  lemma {:induction false} ParsedMember(ts: seq<Token>, last: Token, key: string, v: Variant, rest: seq<Token>)
    returns (m: Member)
    requires MemberParsed(ts, last, key, v, rest)
    ensures m.key == key && ToVariant(m.val) == v && |rest| < |ts| - 2
    ensures Current(rest, last).Comma? ==>
      Members(ts, last) == if |rest| < 2 then Failed else ExtendMembers([m], Members(rest[1..], last))
    ensures Current(rest, last).ObjectEnd? ==>
      Members(ts, last).Parsed? && Members(ts, last).val == [m] && Members(ts, last).rest == Skip(rest)
    ensures !Current(rest, last).Comma? && !Current(rest, last).ObjectEnd? ==> Members(ts, last).Failed?
  {
    m := Member(key, Node(ts[2..], last).val);
    MembersCases(ts, last);
  }

  lemma {:induction false} ExtendTwice(a: seq<Member>, b: seq<Member>, p: Parse<seq<Member>>)
    ensures ExtendMembers(a, ExtendMembers(b, p)) == ExtendMembers(a + b, p)
  {
    if p.Parsed? {
      assert a + (b + p.val) == (a + b) + p.val;
    }
  }

  lemma {:induction false} ExtendElemsTwice(a: seq<Tree>, b: seq<Tree>, p: Parse<seq<Tree>>)
    ensures ExtendElems(a, ExtendElems(b, p)) == ExtendElems(a + b, p)
  {
    if p.Parsed? {
      assert a + (b + p.val) == (a + b) + p.val;
    }
  }

  lemma {:induction false} ToEntriesAppend(ms: seq<Member>, m: Member)
    ensures ToEntries(ms + [m]) == Put(ToEntries(ms), m.key, ToVariant(m.val))
  {
    assert (ms + [m])[..|ms|] == ms;
  }

  lemma {:induction false} ToElemsAppend(es: seq<Tree>, e: Tree)
    ensures ToElems(es + [e]) == ToElems(es) + [ToVariant(e)]
  {
    assert (es + [e])[..|es|] == es;
  }

  // What one turn's parse q says about the whole loop's parse p.
  lemma {:induction false} MembersSoFar(p: Parse<seq<Member>>, seen: seq<Member>, m: Member, q: Parse<seq<Member>>,
                                        ok: bool, more: Parse<seq<Member>>)
    requires p == ExtendMembers(seen, q)
    ensures FailsAt(q, ok) ==> FailsAt(p, ok)
    ensures q.Failed? ==> p.Failed?
    ensures q == ExtendMembers([m], more) ==> p == ExtendMembers(seen + [m], more)
    ensures q.Parsed? && q.val == [m] ==> p.Parsed? && p.val == seen + [m] && p.rest == q.rest
  {
    ExtendTwice(seen, [m], more);
  }

  lemma {:induction false} ElemsSoFar(p: Parse<seq<Tree>>, seen: seq<Tree>, e: Tree, q: Parse<seq<Tree>>,
                                      ok: bool, more: Parse<seq<Tree>>)
    requires p == ExtendElems(seen, q)
    ensures FailsAt(q, ok) ==> FailsAt(p, ok)
    ensures q == ExtendElems([e], more) ==> p == ExtendElems(seen + [e], more)
    ensures q.Parsed? && q.val == [e] ==> p.Parsed? && p.val == seen + [e] && p.rest == q.rest
  {
    ExtendElemsTwice(seen, [e], more);
  }

  lemma {:induction false} FailedFails(p: Parse<seq<Member>>, ok: bool)
    ensures p.Failed? ==> FailsAt(p, ok)
  {
  }

  lemma {:induction false} ExtendFailed(seen: seq<Member>)
    ensures ExtendMembers(seen, Failed) == Failed
  {
  }

  lemma {:induction false} LoopStart(p: Parse<seq<Member>>, q: Parse<seq<Tree>>)
    ensures p == ExtendMembers([], p) && q == ExtendElems([], q) && ToEntries([]) == [] && ToElems([]) == []
  {
    assert p.Parsed? ==> [] + p.val == p.val;
    assert q.Parsed? ==> [] + q.val == q.val;
  }

  lemma {:induction false} DictAgrees(p: Parse<seq<Member>>, ok: bool, rest: Tokens)
    ensures FailsAt(p, ok) ==> Agrees(Threw, DictOf(p), ok, rest)
    ensures p.Parsed? && (p.rest == [] ==> ok) && rest == Tokens(p.rest, ok) ==>
      Agrees(Got(DictV(ToEntries(p.val))), DictOf(p), ok, rest)
  {
  }

  lemma {:induction false} ArrayAgrees(p: Parse<seq<Tree>>, ok: bool, rest: Tokens)
    ensures FailsAt(p, ok) ==> Agrees(Threw, ArrayOf(p), ok, rest)
    ensures p.Parsed? && (p.rest == [] ==> ok) && rest == Tokens(p.rest, ok) ==>
      Agrees(Got(ArrayV(ToElems(p.val))), ArrayOf(p), ok, rest)
  {
  }

  class Parser {
    const lexer: L.Lexer
    var current: Token
    var finished: bool

    // the tokens from the current one on
    ghost var rest: Tokens

    ghost predicate Valid()
      reads this, lexer, lexer.buffer, lexer.input
      ensures Valid() && finished ==> rest == Tokens([], true)
      ensures Valid() && !finished ==> rest.ts != [] && rest.ts[0] == current
    {
      && lexer.Valid()
      && rest == if finished then Tokens([], true)
                 else Tokens([current] + Tokenize(lexer.Ahead()).ts, Tokenize(lexer.Ahead()).ok)
    }

    constructor (l: L.Lexer)
      requires l.Valid()
      ensures lexer == l && Valid() && !finished
      ensures fresh(this)
    {
      lexer := l;
      current := NullTok;
      finished := false;
      var more := Tokenize(l.Ahead());
      rest := Tokens([NullTok] + more.ts, more.ok);
    }

    method Next() returns (r: Step)
      requires Valid()
      modifies this, lexer, lexer.buffer, lexer.input
      ensures Valid()
      ensures r.StepThrew? <==> |old(rest).ts| == 1 && !old(rest).ok
      ensures !r.StepThrew? ==> rest == Tokens(Skip(old(rest).ts), old(rest).ok)
      ensures r.AtEnd? ==> finished && current == old(current)
      ensures r.More? ==> !finished
    {
      if finished {
        return AtEnd;
      }
      ghost var cs := lexer.Ahead();
      assert rest.ts[1..] == Tokenize(cs).ts;
      var f := lexer.FetchNext();
      match f {
        case Fetched(t) =>
          current := t;
          rest := Tokens(rest.ts[1..], rest.ok);
          r := More;
        case NoMore =>
          finished := true;
          rest := Tokens([], true);
          r := AtEnd;
        case Failed =>
          // the exception leaves the parser behind
          rest := Tokens([current] + Tokenize(lexer.Ahead()).ts, Tokenize(lexer.Ahead()).ok);
          r := StepThrew;
      }
    }

    // The parser's first token, then parse(): one value and nothing after it.
    method ParseAll() returns (r: Value)
      requires Valid() && !finished
      modifies this, lexer, lexer.buffer, lexer.input
      ensures r == TextValue(Tokenize(old(lexer.Ahead())))
    {
      ghost var tokens := Tokenize(lexer.Ahead());
      var n := Next();
      if n.StepThrew? {
        return Threw;
      }
      ghost var last := if tokens.ts == [] then current else tokens.ts[|tokens.ts| - 1];
      r := ParseNode(last);
      if r.Got? && !finished {
        r := Threw;
      }
    }

    method ParseNode(ghost last: Token) returns (r: Value)
      requires Valid() && LastIs(rest.ts, last)
      modifies this, lexer, lexer.buffer, lexer.input
      ensures Valid()
      ensures old(finished) ==> r == Got(NoneV) && finished && current == old(current)
      ensures !old(finished) ==> Agrees(r, NodeValue(old(rest).ts, last), old(rest).ok, rest)
      ensures !old(finished) && r.Got? ==> LastIs(rest.ts, last) && (finished ==> current == last)
      decreases |rest.ts|, 1
    {
      hide Valid, Tokenize, Members, Elems, ToEntries, ToElems, IntValue;
      if finished {
        return Got(NoneV);
      }
      ghost var ts := rest.ts;
      match current {
        case ObjectBegin =>
          r := ParseObject(last);
        case ArrayBegin =>
          r := ParseArray(last);
        case Str(s) =>
          var n := Next();
          r := if n.StepThrew? then Threw else Got(StringV(s));
        case IntTok(text) =>
          var n := Next();
          r := if n.StepThrew? then Threw else Got(IntV(IntValue(text)));
        case DoubleTok(text) =>
          var n := Next();
          r := if n.StepThrew? then Threw else Got(DoubleV(text));
        case _ =>
          r := Threw;
      }
    }

    // "key": value, up to the token after the value.
    method ParseMember(ghost last: Token) returns (r: Value, key: string)
      requires Valid() && LastIs(rest.ts, last)
      modifies this, lexer, lexer.buffer, lexer.input
      ensures Valid()
      ensures r.Threw? ==> old(finished) || FailsAt(Members(old(rest).ts, last), old(rest).ok)
      ensures r.Got? ==> !old(finished)
      ensures r.Got? ==>
        MemberParsed(old(rest).ts, last, key, r.v, rest.ts) && rest.ok == (finished || old(rest).ok)
      ensures r.Got? ==> (rest.ts == [] ==> old(rest).ok)
      ensures r.Got? ==> LastIs(rest.ts, last) && (finished ==> current == last)
      decreases |rest.ts|, 0
    {
      hide Valid, Members, Node, NodeValue;
      r, key := Threw, "";
      ghost var cur := rest;
      if finished {
        return;
      }
      MemberFails(cur.ts, last, cur.ok);
      if !current.Str? {
        return;
      }
      key := current.s;
      var n := Next();
      if n.StepThrew? || finished || !current.Colon? {
        return;
      }
      n := Next();
      if !n.More? {
        return;
      }
      assert rest == Tokens(cur.ts[2..], cur.ok);
      r := ParseNode(last);
    }

    method ParseObject(ghost last: Token) returns (r: Value)
      requires Valid() && LastIs(rest.ts, last) && !finished && current.ObjectBegin?
      modifies this, lexer, lexer.buffer, lexer.input
      ensures Valid()
      ensures Agrees(r, NodeValue(old(rest).ts, last), old(rest).ok, rest)
      ensures r.Got? ==> LastIs(rest.ts, last) && (finished ==> current == last)
      decreases |rest.ts|, 0
    {
      hide Valid;
      ghost var ts := rest.ts;
      NodeValueObject(ts, last);
      var n := Next();
      if !n.More? {
        return Threw;
      }
      if current.ObjectEnd? {
        n := Next();
        r := if n.StepThrew? then Threw else Got(DictV([]));
        return;
      }
      r := ParseMembers(last);
    }

    // One turn of the object loop: a member, then a comma or the brace.
    method MemberTurn(entries: seq<Entry>, ghost last: Token) returns (t: Turn, out: seq<Entry>, ghost m: Member)
      requires Valid() && LastIs(rest.ts, last)
      modifies this, lexer, lexer.buffer, lexer.input
      ensures Valid()
      ensures t.TurnThrew? ==> old(finished) || FailsAt(Members(old(rest).ts, last), old(rest).ok)
      ensures !t.TurnThrew? ==> !old(finished) && out == Put(entries, m.key, ToVariant(m.val))
      ensures t.Continue? ==> |rest.ts| < |old(rest).ts| && LastIs(rest.ts, last)
      ensures t.Continue? ==> rest.ok == (finished || old(rest).ok)
      ensures t.Continue? ==>
        Members(old(rest).ts, last) == if finished then Failed else ExtendMembers([m], Members(rest.ts, last))
      ensures t.Done? ==>
        var p := Members(old(rest).ts, last);
        p.Parsed? && p.val == [m] && rest == Tokens(p.rest, old(rest).ok)
        && (p.rest == [] ==> old(rest).ok) && LastIs(rest.ts, last) && (finished ==> current == last)
      decreases |rest.ts|, 1
    {
      hide Valid;
      t, out, m := TurnThrew, entries, Member("", StringT(""));
      ghost var cur := rest;
      var v, key := ParseMember(last);
      if v.Threw? {
        return;
      }
      m := ParsedMember(cur.ts, last, key, v.v, rest.ts);
      out := Put(entries, key, v.v);
      if current.Comma? {
        var n := Next();
        t := if n.StepThrew? then TurnThrew else Continue;
      } else if current.ObjectEnd? {
        var n := Next();
        t := if n.StepThrew? then TurnThrew else Done;
      }
    }

    // The members of an object and its closing brace.
    method ParseMembers(ghost last: Token) returns (r: Value)
      requires Valid() && LastIs(rest.ts, last) && !finished
      modifies this, lexer, lexer.buffer, lexer.input
      ensures Valid()
      ensures Agrees(r, DictOf(Members(old(rest).ts, last)), old(rest).ok, rest)
      ensures r.Got? ==> LastIs(rest.ts, last) && (finished ==> current == last)
      decreases |rest.ts|, 2
    {
      ghost var all := rest;
      ghost var p := Members(all.ts, last);
      ghost var q := p;
      ghost var seen: seq<Member> := [];
      var entries: seq<Entry> := [];
      var t := Continue;
      LoopStart(p, Failed);
      while t.Continue?
        invariant Valid()
        invariant !t.TurnThrew? ==> LastIs(rest.ts, last) && |rest.ts| <= |all.ts|
        invariant !t.TurnThrew? ==> entries == ToEntries(seen)
        invariant t.Continue? ==> rest.ok == (finished || all.ok) && p == ExtendMembers(seen, q)
        invariant t.Continue? ==> if finished then p.Failed? else q == Members(rest.ts, last)
        invariant t.TurnThrew? ==> FailsAt(p, all.ok)
        invariant t.Done? ==> p.Parsed? && p.val == seen && rest == Tokens(p.rest, all.ok)
        invariant t.Done? ==> (p.rest == [] ==> all.ok) && (finished ==> current == last)
        decreases t.Continue?, |rest.ts|
      {
        ghost var m;
        FailedFails(p, all.ok);
        t, entries, m := MemberTurn(entries, last);
        ToEntriesAppend(seen, m);
        ghost var more := if t.Continue? && !finished then Members(rest.ts, last) else Failed;
        MembersSoFar(p, seen, m, q, all.ok, more);
        ExtendFailed([m]);
        seen, q := seen + [m], more;
      }
      DictAgrees(p, all.ok, rest);
      r := if t.Done? then Got(DictV(entries)) else Threw;
    }

    method ParseArray(ghost last: Token) returns (r: Value)
      requires Valid() && LastIs(rest.ts, last) && !finished && current.ArrayBegin?
      modifies this, lexer, lexer.buffer, lexer.input
      ensures Valid()
      ensures Agrees(r, NodeValue(old(rest).ts, last), old(rest).ok, rest)
      ensures r.Got? ==> LastIs(rest.ts, last) && (finished ==> current == last)
      decreases |rest.ts|, 0
    {
      hide Valid;
      ghost var ts := rest.ts;
      NodeValueArray(ts, last);
      var n := Next();
      if !n.More? {
        return Threw;
      }
      if current.ArrayEnd? {
        n := Next();
        r := if n.StepThrew? then Threw else Got(ArrayV([]));
        return;
      }
      r := ParseElems(last);
    }

    // One turn of the array loop: an element, then a comma or the bracket.
    method ElemTurn(elems: seq<Variant>, ghost last: Token) returns (t: Turn, out: seq<Variant>, ghost e: Tree)
      requires Valid() && LastIs(rest.ts, last) && !finished
      modifies this, lexer, lexer.buffer, lexer.input
      ensures Valid()
      ensures t.TurnThrew? ==> FailsAt(Elems(old(rest).ts, last), old(rest).ok)
      ensures !t.TurnThrew? ==> out == elems + [ToVariant(e)]
      ensures t.Continue? ==> |rest.ts| < |old(rest).ts| && LastIs(rest.ts, last) && !finished
      ensures t.Continue? ==> rest.ok == old(rest).ok
      ensures t.Continue? ==> Elems(old(rest).ts, last) == ExtendElems([e], Elems(rest.ts, last))
      ensures t.Done? ==>
        var p := Elems(old(rest).ts, last);
        p.Parsed? && p.val == [e] && rest == Tokens(p.rest, old(rest).ok)
        && (p.rest == [] ==> old(rest).ok) && LastIs(rest.ts, last) && (finished ==> current == last)
      decreases |rest.ts|, 2
    {
      hide Valid, Elems, Node, NodeValue;
      t, out, e := TurnThrew, elems, StringT("");
      ghost var cur := rest;
      ElemsCases(cur.ts, last);
      NodeValueIs(cur.ts, last);
      var v := ParseNode(last);
      if v.Threw? {
        return;
      }
      e := Node(cur.ts, last).val;
      out := elems + [v.v];
      if current.Comma? {
        var n := Next();
        t := if n.More? then Continue else TurnThrew;
      } else if current.ArrayEnd? {
        var n := Next();
        t := if n.StepThrew? then TurnThrew else Done;
      }
    }

    // The elements of an array and its closing bracket.
    method ParseElems(ghost last: Token) returns (r: Value)
      requires Valid() && LastIs(rest.ts, last) && !finished
      modifies this, lexer, lexer.buffer, lexer.input
      ensures Valid()
      ensures Agrees(r, ArrayOf(Elems(old(rest).ts, last)), old(rest).ok, rest)
      ensures r.Got? ==> LastIs(rest.ts, last) && (finished ==> current == last)
      decreases |rest.ts|, 3
    {
      ghost var all := rest;
      ghost var p := Elems(all.ts, last);
      ghost var q := p;
      ghost var seen: seq<Tree> := [];
      var elems: seq<Variant> := [];
      var t := Continue;
      LoopStart(Failed, p);
      while t.Continue?
        invariant Valid()
        invariant !t.TurnThrew? ==> LastIs(rest.ts, last) && |rest.ts| <= |all.ts|
        invariant !t.TurnThrew? ==> elems == ToElems(seen)
        invariant t.Continue? ==> !finished && rest.ok == all.ok
        invariant t.Continue? ==> p == ExtendElems(seen, q) && q == Elems(rest.ts, last)
        invariant t.TurnThrew? ==> FailsAt(p, all.ok)
        invariant t.Done? ==> p.Parsed? && p.val == seen && rest == Tokens(p.rest, all.ok)
        invariant t.Done? ==> (p.rest == [] ==> all.ok) && (finished ==> current == last)
        decreases t.Continue?, |rest.ts|
      {
        ghost var e;
        t, elems, e := ElemTurn(elems, last);
        ToElemsAppend(seen, e);
        ghost var more := if t.Continue? then Elems(rest.ts, last) else Failed;
        ElemsSoFar(p, seen, e, q, all.ok, more);
        seen, q := seen + [e], more;
      }
      ArrayAgrees(p, all.ok, rest);
      r := if t.Done? then Got(ArrayV(elems)) else Threw;
    }
  }

  // What a whole text parses to; of an empty text, the value none.
  function TextValue(tokens: Tokens): Value {
    if !tokens.ok then Threw
    else if tokens.ts == [] then Got(NoneV)
    else
      match ParseTokens(tokens.ts)
      case Accepted(t) => Got(ToVariant(t))
      case Rejected => Threw
  }

  function First4(text: string): string { if |text| < 4 then text else text[..4] }

  // The meaning of a byte sequence: refused unless it is taken for UTF-8.
  function JsonValueOf(text: string, garbage: Encoding): Value {
    if Detect(First4(text), garbage).UTF8? then TextValue(Tokenize(text)) else Threw
  }

  // json_parse over a stream.
  method JsonParse(input: InputStream, garbage: Encoding) returns (r: Value)
    requires input.Valid()
    modifies input
    ensures r == JsonValueOf(old(input.Unread()), garbage)
  {
    ghost var text := input.Unread();
    var lexer := new L.Lexer(input, garbage);
    var ok := lexer.Start();
    if !ok {
      return Threw;
    }
    var parser := new Parser(lexer);
    r := parser.ParseAll();
  }
}
