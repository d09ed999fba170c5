// The JSON value grammar, and which token sequences the recursive-descent
// parser accepts (tinfra/json.cpp, class json_parser).
module JsonGrammar {
  import opened JsonSpec

  // Syntax trees: what a text spells out, duplicate keys and order included.
  datatype Tree =
    | ObjectT(members: seq<Member>)
    | ArrayT(elems: seq<Tree>)
    | StringT(s: string)
    | IntT(text: string)
    | DoubleT(text: string)

  datatype Member = Member(key: string, val: Tree)

  // The strict grammar, read as generation: the tokens of a tree.
  function Spell(t: Tree): (ts: seq<Token>)
    ensures ts != [] && !Closing(ts[0])
    decreases t, 0
  {
    match t
    case ObjectT(ms) => [ObjectBegin] + SpellMembers(ms)
    case ArrayT(es) => [ArrayBegin] + SpellElems(es)
    case StringT(s) => [Str(s)]
    case IntT(text) => [IntTok(text)]
    case DoubleT(text) => [DoubleTok(text)]
  }

  // Members separated by commas, and the closing brace.
  function SpellMembers(ms: seq<Member>): seq<Token>
    decreases ms, 1
  {
    if ms == [] then [ObjectEnd]
    else [Str(ms[0].key), Colon] + (Spell(ms[0].val) + MembersTail(ms))
  }

  function MembersTail(ms: seq<Member>): seq<Token>
    requires ms != []
    decreases ms, 0
  {
    if |ms| == 1 then [ObjectEnd] else [Comma] + SpellMembers(ms[1..])
  }

  // Elements separated by commas, and the closing bracket.
  function SpellElems(es: seq<Tree>): seq<Token>
    decreases es, 1
  {
    if es == [] then [ArrayEnd] else Spell(es[0]) + ElemsTail(es)
  }

  function ElemsTail(es: seq<Tree>): seq<Token>
    requires es != []
    decreases es, 0
  {
    if |es| == 1 then [ArrayEnd] else [Comma] + SpellElems(es[1..])
  }

  predicate Closing(t: Token) { t.ObjectEnd? || t.ArrayEnd? }

  function Repeat(t: Token, n: nat): (ts: seq<Token>)
    ensures |ts| == n && forall i | 0 <= i < n :: ts[i] == t
  {
    if n == 0 then [] else [t] + Repeat(t, n - 1)
  }

  // ---- what the parser computes ----

  // The value, the tokens left, and how often the last token of the input was
  // read again after the end: at the end the parser's current token stays.
  datatype Parse<T> = Parsed(val: T, rest: seq<Token>, again: nat) | Failed

  function Node(ts: seq<Token>, last: Token): (r: Parse<Tree>)
    requires ts != []
    ensures r.Parsed? ==> |r.rest| < |ts|
    decreases |ts|, 0
  {
    match ts[0]
    case ObjectBegin =>
      if |ts| == 1 then Failed
      else if ts[1].ObjectEnd? then Parsed(ObjectT([]), ts[2..], 0)
      else
        (match Members(ts[1..], last)
         case Failed => Failed
         case Parsed(ms, rest, again) => Parsed(ObjectT(ms), rest, again))
    case ArrayBegin =>
      if |ts| == 1 then Failed
      else if ts[1].ArrayEnd? then Parsed(ArrayT([]), ts[2..], 0)
      else
        (match Elems(ts[1..], last)
         case Failed => Failed
         case Parsed(es, rest, again) => Parsed(ArrayT(es), rest, again))
    case Str(s) => Parsed(StringT(s), ts[1..], 0)
    case IntTok(text) => Parsed(IntT(text), ts[1..], 0)
    case DoubleTok(text) => Parsed(DoubleT(text), ts[1..], 0)
    case _ => Failed
  }

  // The token the parser looks at, and what it goes on with.
  function Current(ts: seq<Token>, last: Token): Token { if ts == [] then last else ts[0] }
  function Skip(ts: seq<Token>): seq<Token> { if ts == [] then [] else ts[1..] }

  function Members(ts: seq<Token>, last: Token): (r: Parse<seq<Member>>)
    requires ts != []
    ensures r.Parsed? ==> |r.rest| < |ts| && r.val != []
    decreases |ts|
  {
    if !ts[0].Str? || |ts| < 3 || !ts[1].Colon? then Failed
    else
      match Node(ts[2..], last)
      case Failed => Failed
      case Parsed(v, rest, again) =>
        var m := Member(ts[0].s, v);
        if Current(rest, last).Comma? then
          if |rest| < 2 then Failed
          else
            (match Members(rest[1..], last)
             case Failed => Failed
             case Parsed(ms, r, n) => Parsed([m] + ms, r, n))
        else if Current(rest, last).ObjectEnd? then
          Parsed([m], Skip(rest), again + if rest == [] then 1 else 0)
        else Failed
  }

  function Elems(ts: seq<Token>, last: Token): (r: Parse<seq<Tree>>)
    requires ts != []
    ensures r.Parsed? ==> |r.rest| < |ts| && r.val != []
    decreases |ts|, 1
  {
    match Node(ts, last)
    case Failed => Failed
    case Parsed(v, rest, again) =>
      if Current(rest, last).Comma? then
        if |rest| < 2 then Failed
        else
          (match Elems(rest[1..], last)
           case Failed => Failed
           case Parsed(es, r, n) => Parsed([v] + es, r, n))
      else if Current(rest, last).ArrayEnd? then
        Parsed([v], Skip(rest), again + if rest == [] then 1 else 0)
      else Failed
  }

  // The tree of a whole nonempty token sequence.
  datatype Outcome = Accepted(tree: Tree) | Rejected

  function ParseTokens(ts: seq<Token>): Outcome
    requires ts != []
  {
    match Node(ts, ts[|ts| - 1])
    case Failed => Rejected
    case Parsed(t, rest, _) => if rest == [] then Accepted(t) else Rejected
  }

  // ---- what is accepted is spelled by the grammar ----

  // The parser's result accounts for all tokens: those read, and the last one
  // again as often as it was reread, which happens only at the end.
  ghost predicate Accounts(spelled: seq<Token>, ts: seq<Token>, last: Token, rest: seq<Token>, again: nat) {
    && spelled + rest == ts + Repeat(last, again)
    && (again > 0 ==> rest == [] && Closing(last))
  }

  lemma {:induction false} AccountsAfter(head: seq<Token>, spelled: seq<Token>, ts: seq<Token>, mid: seq<Token>,
          last: Token,
                      rest: seq<Token>, again: nat)
    requires ts == head + mid && Accounts(spelled, mid, last, rest, again)
    ensures Accounts(head + spelled, ts, last, rest, again)
  {
    assert (head + spelled) + rest == head + (spelled + rest) == head + (mid + Repeat(last, again));
  }

  lemma {:induction false} AccountsThen(a: seq<Token>, b: seq<Token>, ts: seq<Token>, mid: seq<Token>, last: Token,
          rest: seq<Token>,
                     n: nat, again: nat)
    requires Accounts(a, ts, last, mid, n) && mid != [] && Accounts(b, mid, last, rest, again)
    ensures Accounts(a + b, ts, last, rest, again)
  {
    assert ts + Repeat(last, 0) == ts;
    AccountsAfter(a, b, ts, mid, last, rest, again);
  }

  // Reading the closing token, the real one or the last one once more.
  lemma {:induction false} AccountsClose(head: seq<Token>, close: Token, ts: seq<Token>, last: Token,
          rest: seq<Token>, again: nat)
    requires Accounts(head, ts, last, rest, again) && Closing(close) && Current(rest, last) == close
    ensures Accounts(head + [close], ts, last, Skip(rest), again + if rest == [] then 1 else 0)
  {
    if rest == [] {
      RepeatMore(last, again);
      assert head == head + rest;
      assert (head + [close]) + [] == ts + (Repeat(last, again) + [last]);
    } else {
      assert (head + [close]) + rest[1..] == head + rest;
    }
  }

  lemma {:induction false} RepeatMore(t: Token, n: nat)
    ensures Repeat(t, n + 1) == Repeat(t, n) + [t]
  {
  }

  lemma {:induction false} SoundNode(ts: seq<Token>, last: Token)
    requires ts != [] && Node(ts, last).Parsed?
    ensures var r := Node(ts, last); Accounts(Spell(r.val), ts, last, r.rest, r.again)
    decreases |ts|, 0
  {
    var r := Node(ts, last);
    assert ts == [ts[0]] + ts[1..];
    match ts[0]
    case ObjectBegin =>
      if ts[1].ObjectEnd? {
        assert Spell(r.val) == [ObjectBegin, ObjectEnd];
      } else {
        SoundMembers(ts[1..], last);
        var m := Members(ts[1..], last);
        AccountsAfter([ObjectBegin], SpellMembers(m.val), ts, ts[1..], last, r.rest, r.again);
      }
    case ArrayBegin =>
      if ts[1].ArrayEnd? {
        assert Spell(r.val) == [ArrayBegin, ArrayEnd];
      } else {
        SoundElems(ts[1..], last);
        var m := Elems(ts[1..], last);
        AccountsAfter([ArrayBegin], SpellElems(m.val), ts, ts[1..], last, r.rest, r.again);
      }
    case _ =>
  }

  lemma {:induction false} SoundMembers(ts: seq<Token>, last: Token)
    requires ts != [] && Members(ts, last).Parsed?
    ensures var r := Members(ts, last); Accounts(SpellMembers(r.val), ts, last, r.rest, r.again)
    decreases |ts|, 0
  {
    var r := Members(ts, last);
    var n := Node(ts[2..], last);
    var m := Member(ts[0].s, n.val);
    SoundNode(ts[2..], last);
    if Current(n.rest, last).Comma? {
      SoundMembers(n.rest[1..], last);
      var more := Members(n.rest[1..], last);
      MembersSpelled(m, more.val);
      assert r == Parsed([m] + more.val, more.rest, more.again) && n.rest == [Comma] + n.rest[1..];
      AccountsAfter([Comma], SpellMembers(more.val), n.rest, n.rest[1..], last, r.rest, r.again);
      AccountsThen(Spell(m.val), [Comma] + SpellMembers(more.val), ts[2..], n.rest, last, r.rest, n.again, r.again);
    } else {
      AccountsClose(Spell(m.val), ObjectEnd, ts[2..], last, n.rest, n.again);
    }
    assert ts == [ts[0], ts[1]] + ts[2..];
    AccountsAfter([Str(m.key), Colon], Spell(m.val) + MembersTail(r.val), ts, ts[2..], last, r.rest, r.again);
  }

  lemma {:induction false} MembersSpelled(m: Member, ms: seq<Member>)
    requires ms != []
    ensures SpellMembers([m] + ms) == [Str(m.key), Colon] + (Spell(m.val) + MembersTail([m] + ms))
    ensures MembersTail([m] + ms) == [Comma] + SpellMembers(ms)
  {
    assert ([m] + ms)[1..] == ms;
  }

  lemma {:induction false} ElemsSpelled(e: Tree, es: seq<Tree>)
    requires es != []
    ensures SpellElems([e] + es) == Spell(e) + ([Comma] + SpellElems(es))
  {
    assert ([e] + es)[1..] == es;
  }

  lemma {:induction false} SoundElems(ts: seq<Token>, last: Token)
    requires ts != [] && Elems(ts, last).Parsed?
    ensures var r := Elems(ts, last); Accounts(SpellElems(r.val), ts, last, r.rest, r.again)
    decreases |ts|, 1
  {
    var r := Elems(ts, last);
    var n := Node(ts, last);
    SoundNode(ts, last);
    if Current(n.rest, last).Comma? {
      SoundElems(n.rest[1..], last);
      var more := Elems(n.rest[1..], last);
      ElemsSpelled(n.val, more.val);
      assert n.rest == [Comma] + n.rest[1..];
      AccountsAfter([Comma], SpellElems(more.val), n.rest, n.rest[1..], last, r.rest, r.again);
      AccountsThen(Spell(n.val), [Comma] + SpellElems(more.val), ts, n.rest, last, r.rest, n.again, r.again);
    } else {
      AccountsClose(Spell(n.val), ArrayEnd, ts, last, n.rest, n.again);
    }
  }

  // ---- everything the grammar spells is accepted ----

  function Drop(ts: seq<Token>, n: nat): seq<Token> { if n <= |ts| then ts[n..] else [] }
  function Over(ts: seq<Token>, n: nat): nat { if n <= |ts| then 0 else n - |ts| }

  // The input ts, continued by n more copies of its last token, has `spelled`
  // in front.
  ghost predicate Continues(spelled: seq<Token>, tail: seq<Token>, ts: seq<Token>, last: Token, n: nat) {
    && ts != [] && ts[|ts| - 1] == last && (n > 0 ==> Closing(last))
    && spelled + tail == ts + Repeat(last, n)
  }

  // A token that closes nothing is never one of the copies.
  lemma {:induction false} RealToken(spelled: seq<Token>, tail: seq<Token>, ts: seq<Token>, last: Token, n: nat, i: nat)
    requires Continues(spelled, tail, ts, last, n) && i < |spelled| && !Closing(spelled[i])
    ensures i < |ts| && ts[i] == spelled[i]
  {
    assert (spelled + tail)[i] == spelled[i];
  }

  // Cutting m spelled tokens off both sides, when real input remains.
  lemma {:induction false} Advance(spelled: seq<Token>, tail: seq<Token>, ts: seq<Token>, last: Token, n: nat, m: nat)
    requires Continues(spelled, tail, ts, last, n) && m <= |spelled| && m < |ts|
    ensures Continues(spelled[m..], tail, ts[m..], last, n)
  {
    assert spelled[m..] + tail == (spelled + tail)[m..] == (ts + Repeat(last, n))[m..] == ts[m..] + Repeat(last, n);
  }

  lemma {:induction false} DropDrop(ts: seq<Token>, a: nat, b: nat)
    requires a <= |ts|
    ensures Drop(ts[a..], b) == Drop(ts, a + b) && Over(ts[a..], b) == Over(ts, a + b)
  {
    if a + b <= |ts| {
      assert ts[a..][b..] == ts[a + b..];
    }
  }

  lemma {:induction false} NodeObject(ts: seq<Token>, last: Token, ms: seq<Member>)
    requires |ts| > 1 && ts[0].ObjectBegin?
    requires ts[1].ObjectEnd? == (ms == [])
    requires ms != [] ==>
      Members(ts[1..], last) == Parsed(ms, Drop(ts[1..], |SpellMembers(ms)|), Over(ts[1..], |SpellMembers(ms)|))
    ensures Node(ts, last) == Parsed(ObjectT(ms), Drop(ts, 1 + |SpellMembers(ms)|), Over(ts, 1 + |SpellMembers(ms)|))
  {
    DropDrop(ts, 1, |SpellMembers(ms)|);
  }

  lemma {:induction false} NodeArray(ts: seq<Token>, last: Token, es: seq<Tree>)
    requires |ts| > 1 && ts[0].ArrayBegin?
    requires ts[1].ArrayEnd? == (es == [])
    requires es != [] ==>
      Elems(ts[1..], last) == Parsed(es, Drop(ts[1..], |SpellElems(es)|), Over(ts[1..], |SpellElems(es)|))
    ensures Node(ts, last) == Parsed(ArrayT(es), Drop(ts, 1 + |SpellElems(es)|), Over(ts, 1 + |SpellElems(es)|))
  {
    DropDrop(ts, 1, |SpellElems(es)|);
  }

  // An opening token, and what it must be followed by, are real input.
  lemma {:induction false} OpenHead(open: Token, inner: seq<Token>, tail: seq<Token>, ts: seq<Token>, last: Token,
          n: nat)
    requires !Closing(open) && inner != [] && Continues([open] + inner, tail, ts, last, n)
    ensures |ts| > 1 && ts[0] == open && ts[1] == inner[0] && Continues(inner, tail, ts[1..], last, n)
  {
    RealToken([open] + inner, tail, ts, last, n, 0);
    NextIs([open] + inner, tail, ts, last, n, 0);
    NextIs([open] + inner, tail, ts, last, n, 1);
    Advance([open] + inner, tail, ts, last, n, 1);
    assert ([open] + inner)[1..] == inner;
  }

  lemma {:induction false} CompleteNode(t: Tree, tail: seq<Token>, ts: seq<Token>, last: Token, n: nat)
    requires Continues(Spell(t), tail, ts, last, n)
    ensures Node(ts, last) == Parsed(t, Drop(ts, |Spell(t)|), Over(ts, |Spell(t)|))
    decreases t, 0
  {
    match t
    case ObjectT(ms) =>
      assert Spell(t) == [ObjectBegin] + SpellMembers(ms);
      if ms != [] {
        MembersStart(ms);
      }
      OpenHead(ObjectBegin, SpellMembers(ms), tail, ts, last, n);
      if ms != [] {
        CompleteMembers(ms, tail, ts[1..], last, n);
      }
      NodeObject(ts, last, ms);
    case ArrayT(es) =>
      assert Spell(t) == [ArrayBegin] + SpellElems(es);
      if es != [] {
        ElemsStart(es);
      }
      OpenHead(ArrayBegin, SpellElems(es), tail, ts, last, n);
      if es != [] {
        CompleteElems(es, tail, ts[1..], last, n);
      }
      NodeArray(ts, last, es);
    case _ =>
      RealToken(Spell(t), tail, ts, last, n, 0);
  }

  lemma {:induction false} NextIs(spelled: seq<Token>, tail: seq<Token>, ts: seq<Token>, last: Token, n: nat, i: nat)
    requires Continues(spelled, tail, ts, last, n) && i < |spelled| && i < |ts|
    ensures ts[i] == spelled[i]
  {
    assert (spelled + tail)[i] == spelled[i];
  }

  // One member parsed, one turn of the parser's loop.
  lemma {:induction false} MembersTurn(ts: seq<Token>, last: Token, key: string, v: Tree, rest: seq<Token>, again: nat)
    requires |ts| >= 3 && ts[0] == Str(key) && ts[1].Colon? && Node(ts[2..], last) == Parsed(v, rest, again)
    ensures Current(rest, last).ObjectEnd? ==>
      Members(ts, last) == Parsed([Member(key, v)], Skip(rest), again + if rest == [] then 1 else 0)
    ensures |rest| >= 2 && rest[0].Comma? && Members(rest[1..], last).Parsed? ==>
      var r := Members(rest[1..], last);
      Members(ts, last) == Parsed([Member(key, v)] + r.val, r.rest, r.again)
  {
  }

  lemma {:induction false} ElemsTurn(ts: seq<Token>, last: Token, v: Tree, rest: seq<Token>, again: nat)
    requires ts != [] && Node(ts, last) == Parsed(v, rest, again)
    ensures Current(rest, last).ArrayEnd? ==>
      Elems(ts, last) == Parsed([v], Skip(rest), again + if rest == [] then 1 else 0)
    ensures |rest| >= 2 && rest[0].Comma? && Elems(rest[1..], last).Parsed? ==>
      var r := Elems(rest[1..], last);
      Elems(ts, last) == Parsed([v] + r.val, r.rest, r.again)
  {
  }

  // Where the parser stands after a value and one closing token.
  lemma {:induction false} ClosedAt(ts: seq<Token>, m: nat)
    ensures Skip(Drop(ts, m)) == Drop(ts, m + 1)
    ensures Over(ts, m) + (if Drop(ts, m) == [] then 1 else 0) == Over(ts, m + 1)
  {
  }

  lemma {:induction false} CommaAfter(ts: seq<Token>, m: nat, rest: seq<Token>)
    requires rest == Drop(ts, m) && rest != []
    ensures m < |ts| && rest[1..] == ts[m + 1..]
  {
  }

  lemma {:induction false} MembersLength(ms: seq<Member>)
    requires |ms| > 1
    ensures |SpellMembers(ms)| == 3 + |Spell(ms[0].val)| + |SpellMembers(ms[1..])|
  {
  }

  lemma {:induction false} ElemsLength(es: seq<Tree>)
    requires |es| > 1
    ensures |SpellElems(es)| == |Spell(es[0])| + 1 + |SpellElems(es[1..])|
  {
  }

  lemma {:induction false} MembersJoin(ms: seq<Member>, ts: seq<Token>, last: Token, rest: seq<Token>)
    requires |ms| > 1 && |ts| >= 3 && ts[0] == Str(ms[0].key) && ts[1].Colon?
    requires rest == Drop(ts, 2 + |Spell(ms[0].val)|) && |rest| >= 2 && rest[0].Comma?
    requires Node(ts[2..], last) == Parsed(ms[0].val, rest, Over(ts[2..], |Spell(ms[0].val)|))
    requires var k := |SpellMembers(ms[1..])|;
      Members(rest[1..], last) == Parsed(ms[1..], Drop(rest[1..], k), Over(rest[1..], k))
    ensures Members(ts, last) == Parsed(ms, Drop(ts, |SpellMembers(ms)|), Over(ts, |SpellMembers(ms)|))
  {
    hide *;
    var m, k := |Spell(ms[0].val)|, |SpellMembers(ms[1..])|;
    MembersLength(ms);
    MembersTurn(ts, last, ms[0].key, ms[0].val, rest, Over(ts[2..], m));
    assert ms == [Member(ms[0].key, ms[0].val)] + ms[1..];
    CommaAfter(ts, 2 + m, rest);
    DropDrop(ts, 3 + m, k);
  }

  lemma {:induction false} MembersLast(ms: seq<Member>, ts: seq<Token>, last: Token)
    requires |ms| == 1 && |ts| >= 3 && ts[0] == Str(ms[0].key) && ts[1].Colon?
    requires Current(Drop(ts[2..], |Spell(ms[0].val)|), last) == ObjectEnd
    requires var m := |Spell(ms[0].val)|; Node(ts[2..], last) == Parsed(ms[0].val, Drop(ts[2..], m), Over(ts[2..], m))
    ensures Members(ts, last) == Parsed(ms, Drop(ts, |SpellMembers(ms)|), Over(ts, |SpellMembers(ms)|))
  {
    var m := |Spell(ms[0].val)|;
    assert |SpellMembers(ms)| == 3 + m;
    MembersTurn(ts, last, ms[0].key, ms[0].val, Drop(ts[2..], m), Over(ts[2..], m));
    ClosedAt(ts[2..], m);
    DropDrop(ts, 2, m + 1);
    assert ms == [Member(ms[0].key, ms[0].val)];
  }

  lemma {:induction false} CompleteMembers(ms: seq<Member>, tail: seq<Token>, ts: seq<Token>, last: Token, n: nat)
    requires ms != [] && Continues(SpellMembers(ms), tail, ts, last, n)
    ensures Members(ts, last) == Parsed(ms, Drop(ts, |SpellMembers(ms)|), Over(ts, |SpellMembers(ms)|))
    decreases ms, 0
  {
    var v, after := Spell(ms[0].val), MembersTail(ms);
    assert SpellMembers(ms) == [Str(ms[0].key), Colon] + (v + after);
    MembersTailIs(ms);
    MemberHead(ms[0].key, v, after, tail, ts, last, n);
    CompleteNode(ms[0].val, after + tail, ts[2..], last, n);
    NextAfter(v, after, tail, ts[2..], last, n);
    if |ms| == 1 {
      MembersLast(ms, ts, last);
    } else {
      var rest := Drop(ts[2..], |v|);
      DropDrop(ts, 2, |v|);
      MembersStart(ms[1..]);
      assert after[1..] == SpellMembers(ms[1..]);
      TailHead(after, tail, rest, last, n);
      CompleteMembers(ms[1..], tail, rest[1..], last, n);
      MembersJoin(ms, ts, last, rest);
    }
  }

  lemma {:induction false} MembersTailIs(ms: seq<Member>)
    requires ms != []
    ensures MembersTail(ms) == if |ms| == 1 then [ObjectEnd] else [Comma] + SpellMembers(ms[1..])
  {
  }

  // A key, a colon and the start of a value are all real input.
  lemma {:induction false} MemberHead(key: string, v: seq<Token>, after: seq<Token>, tail: seq<Token>,
          ts: seq<Token>, last: Token, n: nat)
    requires v != [] && !Closing(v[0]) && Continues([Str(key), Colon] + (v + after), tail, ts, last, n)
    ensures |ts| >= 3 && ts[0] == Str(key) && ts[1] == Colon
    ensures Continues(v + after, tail, ts[2..], last, n) && Continues(v, after + tail, ts[2..], last, n)
  {
    var sp := [Str(key), Colon] + (v + after);
    assert sp[2] == v[0];
    RealToken(sp, tail, ts, last, n, 0);
    RealToken(sp, tail, ts, last, n, 1);
    RealToken(sp, tail, ts, last, n, 2);
    Advance(sp, tail, ts, last, n, 2);
    assert sp[2..] == v + after;
    assert (v + after) + tail == v + (after + tail);
  }

  // A comma and the token after it are real input.
  lemma {:induction false} TailHead(after: seq<Token>, tail: seq<Token>, ts: seq<Token>, last: Token, n: nat)
    requires |after| >= 2 && !Closing(after[1]) && Continues(after, tail, ts, last, n)
    ensures |ts| >= 2 && ts[0] == after[0] && ts[1] == after[1] && Continues(after[1..], tail, ts[1..], last, n)
  {
    RealToken(after, tail, ts, last, n, 1);
    NextIs(after, tail, ts, last, n, 0);
    Advance(after, tail, ts, last, n, 1);
  }

  lemma {:induction false} MembersStart(ms: seq<Member>)
    requires ms != []
    ensures SpellMembers(ms) != [] && !Closing(SpellMembers(ms)[0])
  {
  }

  lemma {:induction false} ElemsStart(es: seq<Tree>)
    requires es != []
    ensures SpellElems(es) != [] && !Closing(SpellElems(es)[0])
  {
    assert SpellElems(es)[0] == Spell(es[0])[0];
  }

  lemma {:induction false} ElemsJoin(es: seq<Tree>, ts: seq<Token>, last: Token, rest: seq<Token>)
    requires |es| > 1 && ts != [] && rest == Drop(ts, |Spell(es[0])|) && |rest| >= 2 && rest[0].Comma?
    requires Node(ts, last) == Parsed(es[0], rest, Over(ts, |Spell(es[0])|))
    requires var k := |SpellElems(es[1..])|;
      Elems(rest[1..], last) == Parsed(es[1..], Drop(rest[1..], k), Over(rest[1..], k))
    ensures Elems(ts, last) == Parsed(es, Drop(ts, |SpellElems(es)|), Over(ts, |SpellElems(es)|))
  {
    hide *;
    var m, k := |Spell(es[0])|, |SpellElems(es[1..])|;
    ElemsLength(es);
    ElemsTurn(ts, last, es[0], rest, Over(ts, m));
    assert es == [es[0]] + es[1..];
    CommaAfter(ts, m, rest);
    DropDrop(ts, m + 1, k);
  }

  lemma {:induction false} ElemsLast(es: seq<Tree>, ts: seq<Token>, last: Token)
    requires |es| == 1 && ts != [] && Current(Drop(ts, |Spell(es[0])|), last) == ArrayEnd
    requires Node(ts, last) == Parsed(es[0], Drop(ts, |Spell(es[0])|), Over(ts, |Spell(es[0])|))
    ensures Elems(ts, last) == Parsed(es, Drop(ts, |SpellElems(es)|), Over(ts, |SpellElems(es)|))
  {
    var m := |Spell(es[0])|;
    assert |SpellElems(es)| == m + 1;
    ElemsTurn(ts, last, es[0], Drop(ts, m), Over(ts, m));
    ClosedAt(ts, m);
    assert es == [es[0]];
  }

  lemma {:induction false} CompleteElems(es: seq<Tree>, tail: seq<Token>, ts: seq<Token>, last: Token, n: nat)
    requires es != [] && Continues(SpellElems(es), tail, ts, last, n)
    ensures Elems(ts, last) == Parsed(es, Drop(ts, |SpellElems(es)|), Over(ts, |SpellElems(es)|))
    decreases es, 0
  {
    var v, after := Spell(es[0]), ElemsTail(es);
    assert SpellElems(es) == v + after;
    ElemsTailIs(es);
    TailMoved(v, after, tail, ts, last, n);
    CompleteNode(es[0], after + tail, ts, last, n);
    NextAfter(v, after, tail, ts, last, n);
    if |es| == 1 {
      ElemsLast(es, ts, last);
    } else {
      var rest := Drop(ts, |v|);
      ElemsStart(es[1..]);
      assert after[1..] == SpellElems(es[1..]);
      TailHead(after, tail, rest, last, n);
      CompleteElems(es[1..], tail, rest[1..], last, n);
      ElemsJoin(es, ts, last, rest);
    }
  }

  lemma {:induction false} TailMoved(v: seq<Token>, after: seq<Token>, tail: seq<Token>, ts: seq<Token>, last: Token,
          n: nat)
    requires Continues(v + after, tail, ts, last, n)
    ensures Continues(v, after + tail, ts, last, n)
  {
    assert (v + after) + tail == v + (after + tail);
  }

  lemma {:induction false} ElemsTailIs(es: seq<Tree>)
    requires es != []
    ensures ElemsTail(es) == if |es| == 1 then [ArrayEnd] else [Comma] + SpellElems(es[1..])
  {
  }

  // After a value: either real input goes on with `after`, or the input is used
  // up and what should come next is the last token again.
  lemma {:induction false} NextAfter(v: seq<Token>, after: seq<Token>, tail: seq<Token>, ts: seq<Token>,
          last: Token, n: nat)
    requires Continues(v + after, tail, ts, last, n) && after != []
    ensures Current(Drop(ts, |v|), last) == after[0]
    ensures Drop(ts, |v|) != [] ==> Continues(after, tail, Drop(ts, |v|), last, n)
    ensures Drop(ts, |v|) == [] ==> Closing(after[0])
  {
    assert ((v + after) + tail)[|v|] == after[0];
    if |v| < |ts| {
      Advance(v + after, tail, ts, last, n, |v|);
      assert (v + after)[|v|..] == after;
    }
  }

  // ---- the main result ----

  // ts followed by k more copies of its last token, a closing one if k > 0,
  // spells the tree.
  ghost predicate SpelledWith(ts: seq<Token>, t: Tree, k: nat)
    requires ts != []
  {
    (k > 0 ==> Closing(ts[|ts| - 1])) && Spell(t) == ts + Repeat(ts[|ts| - 1], k)
  }

  // The parser accepts exactly the sequences that spell a tree once their last
  // token, a closing one, has been repeated k times, and returns that tree.
  lemma {:induction false} AcceptsExactly(ts: seq<Token>, t: Tree)
    requires ts != []
    ensures ParseTokens(ts) == Accepted(t) <==> exists k: nat :: SpelledWith(ts, t, k)
  {
    var last := ts[|ts| - 1];
    if ParseTokens(ts) == Accepted(t) {
      SoundNode(ts, last);
      assert Spell(t) + [] == Spell(t);
      assert SpelledWith(ts, t, Node(ts, last).again);
    }
    forall k: nat | SpelledWith(ts, t, k)
      ensures ParseTokens(ts) == Accepted(t)
    {
      assert Spell(t) + [] == Spell(t);
      CompleteNode(t, [], ts, last, k);
    }
  }

  // Opening minus closing tokens.
  function Net(ts: seq<Token>): int {
    if ts == [] then 0
    else
      (if ts[0].ObjectBegin? || ts[0].ArrayBegin? then 1 else if Closing(ts[0]) then -1 else 0) + Net(ts[1..])
  }

  lemma {:induction false} NetConcat(a: seq<Token>, b: seq<Token>)
    ensures Net(a + b) == Net(a) + Net(b)
  {
    if a == [] {
      assert a + b == b;
    } else {
      NetConcat(a[1..], b);
      assert (a + b)[1..] == a[1..] + b;
    }
  }

  lemma {:induction false} NetSpell(t: Tree)
    ensures Net(Spell(t)) == 0
    decreases t, 0
  {
    match t
    case ObjectT(ms) =>
      NetMembers(ms);
      assert Spell(t)[1..] == SpellMembers(ms);
    case ArrayT(es) =>
      NetElems(es);
      assert Spell(t)[1..] == SpellElems(es);
    case _ =>
  }

  lemma {:induction false} NetMembers(ms: seq<Member>)
    ensures Net(SpellMembers(ms)) == -1
    decreases ms, 0
  {
    if ms != [] {
      var v, after := Spell(ms[0].val), MembersTail(ms);
      NetSpell(ms[0].val);
      if |ms| > 1 {
        NetMembers(ms[1..]);
        NetConcat([Comma], SpellMembers(ms[1..]));
      }
      NetConcat(v, after);
      NetConcat([Str(ms[0].key), Colon], v + after);
      assert Net([Str(ms[0].key), Colon]) == 0 by {
        assert [Str(ms[0].key), Colon][1..] == [Colon];
      }
    }
  }

  lemma {:induction false} NetElems(es: seq<Tree>)
    ensures Net(SpellElems(es)) == -1
    decreases es, 0
  {
    if es != [] {
      NetSpell(es[0]);
      if |es| > 1 {
        NetElems(es[1..]);
        NetConcat([Comma], SpellElems(es[1..]));
      }
      NetConcat(Spell(es[0]), ElemsTail(es));
    }
  }

  lemma {:induction false} NetRepeat(t: Token, k: nat)
    requires Closing(t)
    ensures Net(Repeat(t, k)) + k == 0
  {
    if k > 0 {
      NetRepeat(t, k - 1);
      assert Repeat(t, k)[1..] == Repeat(t, k - 1);
    }
  }

  // The number of repetitions is the number of brackets left open; a sequence
  // that closes what it opens is parsed by the strict grammar.
  lemma {:induction false} AcceptsUnclosed(ts: seq<Token>, t: Tree)
    requires ts != []
    ensures ParseTokens(ts) == Accepted(t) <==> Net(ts) >= 0 && SpelledWith(ts, t, Net(ts))
    ensures Net(ts) == 0 ==> (ParseTokens(ts) == Accepted(t) <==> Spell(t) == ts)
  {
    var last := ts[|ts| - 1];
    AcceptsExactly(ts, t);
    NetSpell(t);
    forall k: nat | SpelledWith(ts, t, k)
      ensures Net(ts) == k
    {
      NetConcat(ts, Repeat(last, k));
      if k > 0 {
        NetRepeat(last, k);
      }
    }
    assert ts + Repeat(last, 0) == ts;
  }

  // Unclosed text that is accepted: [[] reads as [[]].
  lemma {:induction false} UnclosedExample()
    ensures ParseTokens([ArrayBegin, ArrayBegin, ArrayEnd]) == Accepted(ArrayT([ArrayT([])]))
  {
    var ts := [ArrayBegin, ArrayBegin, ArrayEnd];
    assert ts[1..] == [ArrayBegin, ArrayEnd];
    assert Node(ts[1..], ArrayEnd) == Parsed(ArrayT([]), [], 0);
    assert Elems(ts[1..], ArrayEnd) == Parsed([ArrayT([])], [], 1);
  }
}
