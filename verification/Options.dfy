// In-place parsing of command line options: recognised options and their
// values are erased from the parameter list (tinfra/option.cpp).
module Options {
  import opened Common

  // What is declared; the letter is 0 if there is none.
  datatype Decl = Decl(name: string, letter: char, needsArgument: bool)

  // Option number `index` sees a value.
  datatype Accepted = Accepted(index: nat, value: string)

  // ---- finding an option ----

  function FindByName(decls: seq<Decl>, name: string): Option<nat> {
    if decls == [] then None
    else if decls[0].name == name then Some(0)
    else match FindByName(decls[1..], name) case None => None case Some(i) => Some(i + 1)
  }

  function FindByShortcut(decls: seq<Decl>, letter: char): Option<nat> {
    if decls == [] then None
    else if decls[0].letter == letter then Some(0)
    else match FindByShortcut(decls[1..], letter) case None => None case Some(i) => Some(i + 1)
  }

  lemma {:induction false} FindByNameFirst(decls: seq<Decl>, name: string)
    ensures match FindByName(decls, name)
      case Some(i) => i < |decls| && decls[i].name == name && forall j | 0 <= j < i :: decls[j].name != name
      case None => forall j | 0 <= j < |decls| :: decls[j].name != name
  {
    if decls != [] && decls[0].name != name {
      FindByNameFirst(decls[1..], name);
      assert forall j | 1 <= j < |decls| :: decls[j] == decls[1..][j - 1];
    }
  }

  lemma {:induction false} FindByShortcutFirst(decls: seq<Decl>, letter: char)
    ensures match FindByShortcut(decls, letter)
      case Some(i) => i < |decls| && decls[i].letter == letter && forall j | 0 <= j < i :: decls[j].letter != letter
      case None => forall j | 0 <= j < |decls| :: decls[j].letter != letter
  {
    if decls != [] && decls[0].letter != letter {
      FindByShortcutFirst(decls[1..], letter);
      assert forall j | 1 <= j < |decls| :: decls[j] == decls[1..][j - 1];
    }
  }

  // ---- one parameter ----

  function IndexOf(s: string, c: char): (n: nat)
    ensures n <= |s|
  {
    if s == "" || s[0] == c then 0 else 1 + IndexOf(s[1..], c)
  }

  // What a parameter is by itself: something else, the end marker, or an
  // option with or without a value attached.
  datatype Param = Plain | Stop | Opt(index: Option<nat>, value: Option<string>)

  function Classify(decls: seq<Decl>, p: string): Param {
    if |p| < 2 then Plain
    else if p[0] == '-' && p[1] == '-' then
      if |p| == 2 then Stop
      else
        var body := p[2..];
        var eq := IndexOf(body, '=');
        if eq < |body| then Opt(FindByName(decls, body[..eq]), Some(body[eq + 1..]))
        else Opt(FindByName(decls, body), None)
    else if p[0] == '-' then Opt(FindByShortcut(decls, p[1]), if |p| > 2 then Some(p[2..]) else None)
    else Plain
  }

  // --name and --name=value, where the name holds no '='.
  lemma {:induction false} LongForm(decls: seq<Decl>, name: string, value: string)
    requires name != "" && '=' !in name
    ensures Classify(decls, "--" + name) == Opt(FindByName(decls, name), None)
    ensures Classify(decls, "--" + (name + "=" + value)) == Opt(FindByName(decls, name), Some(value))
  {
    IndexAfter(name, "");
    IndexAfter(name, "=" + value);
    var body := name + "=" + value;
    assert name + "" == name && name + ("=" + value) == body;
    assert ("--" + name)[2..] == name && ("--" + body)[2..] == body;
    assert body[..|name|] == name && body[|name| + 1..] == value;
  }

  lemma {:induction false} IndexAfter(name: string, rest: string)
    requires '=' !in name && (rest == "" || rest[0] == '=')
    ensures IndexOf(name + rest, '=') == |name|
  {
    if name == "" {
      assert name + rest == rest;
    } else {
      assert (name + rest)[1..] == name[1..] + rest;
      IndexAfter(name[1..], rest);
    }
  }

  // -I and -Ivalue; an empty value is none, and the value may follow.
  lemma {:induction false} ShortForm(decls: seq<Decl>, letter: char, value: string)
    requires letter != '-'
    ensures Classify(decls, "-" + ([letter] + value))
      == Opt(FindByShortcut(decls, letter), if value == "" then None else Some(value))
  {
    var p := "-" + ([letter] + value);
    assert p[1] == letter && p[2..] == value;
  }

  // ---- the whole list, in one pass ----

  // What stays, what the options see, and whether a needed value is missing.
  datatype Outcome = Outcome(kept: seq<string>, accepted: seq<Accepted>, missing: bool)

  function Keep(p: string, o: Outcome): Outcome { o.(kept := [p] + o.kept) }
  function Accept(a: Accepted, o: Outcome): Outcome { o.(accepted := [a] + o.accepted) }

  function OnePass(decls: seq<Decl>, params: seq<string>): Outcome
    decreases |params|
  {
    if params == [] then Outcome([], [], false)
    else
      match Classify(decls, params[0])
      case Plain => Keep(params[0], OnePass(decls, params[1..]))
      case Stop => Outcome(params[1..], [], false)
      case Opt(None, _) => Keep(params[0], OnePass(decls, params[1..]))
      case Opt(Some(i), Some(v)) => Accept(Accepted(i, v), OnePass(decls, params[1..]))
      case Opt(Some(i), None) =>
        if i < |decls| && decls[i].needsArgument then
          if |params| == 1 then Outcome(params, [], true)
          else Accept(Accepted(i, params[1]), OnePass(decls, params[2..]))
        else Accept(Accepted(i, ""), OnePass(decls, params[1..]))
  }

  // ---- the loop over the vector ----

  // The vector the caller passes in.
  class Params {
    var items: seq<string>

    constructor (items: seq<string>)
      ensures this.items == items
    {
      this.items := items;
    }

    // remove_params
    method Remove(pos: nat, count: nat)
      requires pos + count <= |items|
      modifies this
      ensures items == old(items)[..pos] + old(items)[pos + count..]
    {
      items := items[..pos] + items[pos + count..];
    }
  }

  // The result for a list whose beginning has been dealt with.
  function After(kept: seq<string>, accepted: seq<Accepted>, o: Outcome): Outcome {
    Outcome(kept + o.kept, accepted + o.accepted, o.missing)
  }

  lemma {:induction false} AfterKeep(kept: seq<string>, accepted: seq<Accepted>, p: string, o: Outcome)
    ensures After(kept, accepted, Keep(p, o)) == After(kept + [p], accepted, o)
  {
    assert kept + ([p] + o.kept) == (kept + [p]) + o.kept;
  }

  lemma {:induction false} AfterAccept(kept: seq<string>, accepted: seq<Accepted>, a: Accepted, o: Outcome)
    ensures After(kept, accepted, Accept(a, o)) == After(kept, accepted + [a], o)
  {
    assert accepted + ([a] + o.accepted) == (accepted + [a]) + o.accepted;
  }

  lemma {:induction false} AfterEnd(kept: seq<string>, accepted: seq<Accepted>, rest: seq<string>, missing: bool)
    ensures After(kept, accepted, Outcome(rest, [], missing)) == Outcome(kept + rest, accepted, missing)
  {
    assert accepted + [] == accepted;
  }

  lemma {:induction false} AfterNone(o: Outcome)
    ensures After([], [], o) == o
  {
    assert [] + o.kept == o.kept && [] + o.accepted == o.accepted;
  }

  class OptionList {
    var options: seq<Decl>
    var accepted: seq<Accepted>  // the values the options have seen, in order

    constructor ()
      ensures options == [] && accepted == []
    {
      options, accepted := [], [];
    }

    method Add(d: Decl)
      modifies this`options
      ensures options == old(options) + [d]
    {
      options := options + [d];
    }

    method FindName(name: string) returns (r: Option<nat>)
      ensures r == FindByName(options, name)
    {
      var i := 0;
      while i < |options|
        invariant 0 <= i <= |options|
        invariant forall j | 0 <= j < i :: options[j].name != name
      {
        if name == options[i].name {
          FindByNameFirst(options, name);
          return Some(i);
        }
        i := i + 1;
      }
      FindByNameFirst(options, name);
      r := None;
    }

    method FindShortcut(letter: char) returns (r: Option<nat>)
      ensures r == FindByShortcut(options, letter)
    {
      var i := 0;
      while i < |options|
        invariant 0 <= i <= |options|
        invariant forall j | 0 <= j < i :: options[j].letter != letter
      {
        if letter == options[i].letter {
          FindByShortcutFirst(options, letter);
          return Some(i);
        }
        i := i + 1;
      }
      FindByShortcutFirst(options, letter);
      r := None;
    }

    // Taking one parameter apart, as far as the lookup of the option.
    method Look(current: string) returns (p: Param)
      ensures p == Classify(options, current)
    {
      if |current| < 2 {
        return Plain;
      }
      if current[0] == '-' && current[1] == '-' {
        if |current| == 2 {
          return Stop;
        }
        var body := current[2..];
        var eq := IndexOf(body, '=');
        if eq < |body| {
          var opt := FindName(body[..eq]);
          p := Opt(opt, Some(body[eq + 1..]));
        } else {
          var opt := FindName(body);
          p := Opt(opt, None);
        }
      } else if current[0] == '-' {
        var opt := FindShortcut(current[1]);
        p := Opt(opt, if |current| > 2 then Some(current[2..]) else None);
      } else {
        p := Plain;
      }
    }

    // parse: false stands for the assertion that fails when the last
    // parameter lacks the value it needs.
    method Parse(params: Params) returns (ok: bool)
      modifies this`accepted, params
      ensures var o := OnePass(options, old(params.items));
        params.items == o.kept && accepted == old(accepted) + o.accepted && ok == !o.missing
    {
      hide OnePass, Classify, After, Keep, Accept, FindByName, FindByShortcut;
      ghost var all := params.items;
      ghost var seen: seq<Accepted> := [];
      var i := 0;
      assert all[0..] == all;
      AfterNone(OnePass(options, all));
      while i < |params.items|
        invariant i <= |params.items| && accepted == old(accepted) + seen
        invariant OnePass(options, all) == After(params.items[..i], seen, OnePass(options, params.items[i..]))
        decreases |params.items| - i
      {
        ghost var items := params.items;
        var p := Look(params.items[i]);
        OneStep(options, items, i);
        match p {
          case Plain =>
            AfterKeep(items[..i], seen, items[i], OnePass(options, items[i + 1..]));
            assert items[..i + 1] == items[..i] + [items[i]];
            i := i + 1;
          case Stop =>
            AfterEnd(items[..i], seen, items[i + 1..], false);
            params.Remove(i, 1);
            return true;
          case Opt(None, _) =>
            // an unknown option is ignored
            AfterKeep(items[..i], seen, items[i], OnePass(options, items[i + 1..]));
            assert items[..i + 1] == items[..i] + [items[i]];
            i := i + 1;
          case Opt(Some(k), attached) =>
            var value, eaten := if attached.Some? then attached.value else "", 1;
            if options[k].needsArgument && attached.None? {
              if i == |params.items| - 1 {
                AfterEnd(items[..i], seen, items[i..], true);
                assert items[..i] + items[i..] == items;
                return false;
              }
              value, eaten := params.items[i + 1], 2;
            }
            accepted := accepted + [Accepted(k, value)];
            params.Remove(i, eaten);
            AfterAccept(items[..i], seen, Accepted(k, value), OnePass(options, items[i + eaten..]));
            seen := seen + [Accepted(k, value)];
            assert params.items[..i] == items[..i] && params.items[i..] == items[i + eaten..];
        }
      }
      assert params.items[i..] == [] && params.items[..i] == params.items;
      NothingLeft(options);
      AfterEnd(params.items, seen, [], false);
      assert params.items + [] == params.items;
      ok := true;
    }
  }

  lemma {:induction false} NothingLeft(decls: seq<Decl>)
    ensures OnePass(decls, []) == Outcome([], [], false)
  {
  }

  lemma {:induction false} ClassifyKnown(decls: seq<Decl>, p: string)
    ensures var c := Classify(decls, p); c.Opt? && c.index.Some? ==> c.index.value < |decls|
  {
    if |p| > 2 && p[0] == '-' && p[1] == '-' {
      var body := p[2..];
      var eq := IndexOf(body, '=');
      FindByNameFirst(decls, if eq < |body| then body[..eq] else body);
    } else if |p| >= 2 {
      FindByShortcutFirst(decls, p[1]);
    }
  }

  // One turn of the pass, at position i.
  lemma {:induction false} OneStep(decls: seq<Decl>, params: seq<string>, i: nat)
    requires i < |params|
    ensures var c := Classify(decls, params[i]);
      && (c.Opt? && c.index.Some? ==> c.index.value < |decls|)
      && OnePass(decls, params[i..]) == match c
        case Plain => Keep(params[i], OnePass(decls, params[i + 1..]))
        case Stop => Outcome(params[i + 1..], [], false)
        case Opt(None, _) => Keep(params[i], OnePass(decls, params[i + 1..]))
        case Opt(Some(k), attached) =>
          if decls[k].needsArgument && attached.None? then
            if i + 1 == |params| then Outcome(params[i..], [], true)
            else Accept(Accepted(k, params[i + 1]), OnePass(decls, params[i + 2..]))
          else Accept(Accepted(k, if attached.Some? then attached.value else ""), OnePass(decls, params[i + 1..]))
  {
    hide Classify;
    ClassifyKnown(decls, params[i]);
    var rest := params[i..];
    assert rest[0] == params[i] && rest[1..] == params[i + 1..];
    if |rest| > 1 {
      assert rest[1] == params[i + 1] && rest[2..] == params[i + 2..];
    }
  }

  // ---- what parsing does to a list ----

  // How many parameters the first one takes up: itself, and a value after it.
  function Width(decls: seq<Decl>, params: seq<string>): (n: nat)
    requires params != []
    ensures 1 <= n <= 2 && n <= |params|
  {
    match Classify(decls, params[0])
    case Opt(Some(i), None) => if i < |decls| && decls[i].needsArgument && |params| > 1 then 2 else 1
    case _ => 1
  }

  datatype End = Through | Stopped | Missing

  // Whether the end marker is met, or a value is missing.
  function EndOf(decls: seq<Decl>, params: seq<string>): End
    decreases |params|
  {
    if params == [] then Through
    else if Classify(decls, params[0]).Stop? then Stopped
    else if OnePass(decls, params).missing && |params| == 1 then Missing
    else EndOf(decls, params[Width(decls, params)..])
  }

  // The parameters that are taken out.
  function Gone(decls: seq<Decl>, params: seq<string>): seq<string>
    decreases |params|
  {
    if params == [] then []
    else
      var n := Width(decls, params);
      match Classify(decls, params[0])
      case Plain => Gone(decls, params[1..])
      case Stop => [params[0]]
      case Opt(None, _) => Gone(decls, params[1..])
      case Opt(Some(_), _) =>
        if OnePass(decls, params).missing && |params| == 1 then [] else params[..n] + Gone(decls, params[n..])
  }

  // An interleaving of two lists, each in its order.
  ghost predicate Shuffle(all: seq<string>, kept: seq<string>, gone: seq<string>)
    decreases |all|
  {
    if all == [] then kept == [] && gone == []
    else
      || (kept != [] && kept[0] == all[0] && Shuffle(all[1..], kept[1..], gone))
      || (gone != [] && gone[0] == all[0] && Shuffle(all[1..], kept, gone[1..]))
  }

  lemma {:induction false} AllKept(all: seq<string>)
    ensures Shuffle(all, all, [])
  {
    if all != [] {
      AllKept(all[1..]);
    }
  }

  // Every parameter stays or is taken, once, and both parts keep their order.
  lemma {:induction false} KeptOrGone(decls: seq<Decl>, params: seq<string>)
    ensures Shuffle(params, OnePass(decls, params).kept, Gone(decls, params))
    decreases |params|
  {
    if params != [] {
      OneStep(decls, params, 0);
      assert params[0..] == params;
      var n := Width(decls, params);
      AllKept(params[1..]);
      AllKept(params);
      KeptOrGone(decls, params[1..]);
      if n == 2 {
        KeptOrGone(decls, params[2..]);
        assert params[1..][1..] == params[2..] && params[1..][0] == params[1];
        var gone := params[..2] + Gone(decls, params[2..]);
        assert gone[1..][1..] == Gone(decls, params[2..]) && gone[1..][0] == params[1];
      } else {
        var more := OnePass(decls, params[1..]).kept;
        var gone := params[..1] + Gone(decls, params[1..]);
        assert gone[1..] == Gone(decls, params[1..]) && ([params[0]] + more)[1..] == more && [params[0]][1..] == [];
      }
    }
  }

  // What is taken out says the same as the whole list, and nothing in it is
  // left over.
  lemma {:induction false} GoneSaysAll(decls: seq<Decl>, params: seq<string>)
    ensures OnePass(decls, Gone(decls, params)) == Outcome([], OnePass(decls, params).accepted, false)
    decreases |params|
  {
    if params != [] {
      OneStep(decls, params, 0);
      assert params[0..] == params;
      var n := Width(decls, params);
      var gone := params[..n] + Gone(decls, params[n..]);
      GoneSaysAll(decls, params[n..]);
      OneStep(decls, gone, 0);
      assert gone[0..] == gone && gone[n..] == Gone(decls, params[n..]) && gone[0] == params[0];
      assert n == 2 ==> gone[1] == params[1];
      OneStep(decls, [params[0]], 0);
      assert [params[0]][0..] == [params[0]] && [params[0]][1..] == [];
    }
  }

  // Of what stays, the options take nothing, as long as the list runs through.
  lemma {:induction false} KeptSaysNothing(decls: seq<Decl>, params: seq<string>)
    requires EndOf(decls, params).Through?
    ensures OnePass(decls, OnePass(decls, params).kept) == Outcome(OnePass(decls, params).kept, [], false)
    decreases |params|
  {
    if params != [] {
      OneStep(decls, params, 0);
      assert params[0..] == params;
      KeptSaysNothing(decls, params[Width(decls, params)..]);
      var kept := OnePass(decls, params).kept;
      if kept != [] {
        OneStep(decls, kept, 0);
        assert kept[0..] == kept;
      }
    }
  }

  // Lists that run through can be parsed piece by piece; after the end marker
  // everything stays as it is.
  lemma {:induction false} ParseAppend(decls: seq<Decl>, a: seq<string>, b: seq<string>)
    ensures var o := OnePass(decls, a);
      match EndOf(decls, a)
      case Through => OnePass(decls, a + b) == After(o.kept, o.accepted, OnePass(decls, b))
      case Stopped => OnePass(decls, a + b) == Outcome(o.kept + b, o.accepted, false)
      case Missing => o.missing
    decreases |a|
  {
    hide Classify, OnePass;
    if a == [] {
      NothingLeft(decls);
      assert a + b == b;
    } else {
      OneStep(decls, a, 0);
      OneStep(decls, a + b, 0);
      assert a[0..] == a && (a + b)[0..] == a + b && (a + b)[0] == a[0];
      var n := Width(decls, a);
      assert (a + b)[1..] == a[1..] + b && (n == 2 ==> (a + b)[2..] == a[2..] + b && (a + b)[1] == a[1]);
      ParseAppend(decls, a[n..], b);
      var o := OnePass(decls, a[n..]);
      AfterMore(a[0], o.kept, o.accepted, OnePass(decls, b));
    }
  }

  lemma {:induction false} AfterMore(p: string, kept: seq<string>, accepted: seq<Accepted>, o: Outcome)
    ensures Keep(p, After(kept, accepted, o)) == After([p] + kept, accepted, o)
    ensures forall a: Accepted :: Accept(a, After(kept, accepted, o)) == After(kept, [a] + accepted, o)
  {
    assert [p] + (kept + o.kept) == ([p] + kept) + o.kept;
    forall a: Accepted
      ensures Accept(a, After(kept, accepted, o)) == After(kept, [a] + accepted, o)
    {
      assert [a] + (accepted + o.accepted) == ([a] + accepted) + o.accepted;
    }
  }

  // ---- what a list says, by its first parameter ----

  // A list after the end marker stays as it is, and the marker goes.
  lemma {:induction false} EndMarker(decls: seq<Decl>, rest: seq<string>)
    ensures OnePass(decls, ["--"] + rest) == Outcome(rest, [], false)
  {
    assert (["--"] + rest)[0] == "--" && (["--"] + rest)[1..] == rest;
  }

  // What does not begin with a dash is no option, and neither is a dash alone.
  lemma {:induction false} PlainStays(decls: seq<Decl>, p: string, rest: seq<string>)
    requires p == "" || p[0] != '-' || p == "-"
    ensures OnePass(decls, [p] + rest) == Keep(p, OnePass(decls, rest))
  {
    assert ([p] + rest)[0] == p && ([p] + rest)[1..] == rest;
  }

  // The first option with the name, if there is one.
  predicate FirstNamed(decls: seq<Decl>, name: string, index: Option<nat>) {
    match index
    case Some(i) => i < |decls| && decls[i].name == name && forall j | 0 <= j < i :: decls[j].name != name
    case None => forall j | 0 <= j < |decls| :: decls[j].name != name
  }

  predicate FirstLettered(decls: seq<Decl>, letter: char, index: Option<nat>) {
    match index
    case Some(i) => i < |decls| && decls[i].letter == letter && forall j | 0 <= j < i :: decls[j].letter != letter
    case None => forall j | 0 <= j < |decls| :: decls[j].letter != letter
  }

  lemma {:induction false} FoundByName(decls: seq<Decl>, name: string, index: Option<nat>)
    requires FirstNamed(decls, name, index)
    ensures FindByName(decls, name) == index
  {
    FindByNameFirst(decls, name);
  }

  lemma {:induction false} FoundByLetter(decls: seq<Decl>, letter: char, index: Option<nat>)
    requires FirstLettered(decls, letter, index)
    ensures FindByShortcut(decls, letter) == index
  {
    FindByShortcutFirst(decls, letter);
  }

  // An option with its value attached; an unknown one stays.
  function WithValue(decls: seq<Decl>, p: string, index: Option<nat>, value: string, rest: seq<string>): Outcome {
    match index
    case None => Keep(p, OnePass(decls, rest))
    case Some(i) => Accept(Accepted(i, value), OnePass(decls, rest))
  }

  // An option without a value: it takes the next parameter if it needs one.
  function WithoutValue(decls: seq<Decl>, p: string, index: Option<nat>, rest: seq<string>): Outcome
    requires index.Some? ==> index.value < |decls|
  {
    match index
    case None => Keep(p, OnePass(decls, rest))
    case Some(i) =>
      if !decls[i].needsArgument then Accept(Accepted(i, ""), OnePass(decls, rest))
      else if rest == [] then Outcome([p], [], true)
      else Accept(Accepted(i, rest[0]), OnePass(decls, rest[1..]))
  }

  lemma {:induction false} FirstOption(decls: seq<Decl>, p: string, index: Option<nat>, rest: seq<string>)
    requires index.Some? ==> index.value < |decls|
    ensures Classify(decls, p) == Opt(index, None) ==>
      OnePass(decls, [p] + rest) == WithoutValue(decls, p, index, rest)
    ensures forall value :: Classify(decls, p) == Opt(index, Some(value)) ==>
      OnePass(decls, [p] + rest) == WithValue(decls, p, index, value, rest)
  {
    hide Classify;
    var params := [p] + rest;
    assert params[0] == p && params[1..] == rest;
    if rest != [] {
      assert params[1] == rest[0] && params[2..] == rest[1..];
    } else {
      assert params == [p];
    }
  }

  lemma {:induction false} LongOption(decls: seq<Decl>, name: string, value: string, index: Option<nat>,
          rest: seq<string>)
    requires name != "" && '=' !in name && FirstNamed(decls, name, index)
    ensures var p, q := "--" + name, "--" + (name + "=" + value);
      && OnePass(decls, [p] + rest) == WithoutValue(decls, p, index, rest)
      && OnePass(decls, [q] + rest) == WithValue(decls, q, index, value, rest)
  {
    hide Classify, OnePass, WithValue, WithoutValue;
    FoundByName(decls, name, index);
    LongForm(decls, name, value);
    FirstOption(decls, "--" + name, index, rest);
    FirstOption(decls, "--" + (name + "=" + value), index, rest);
  }

  lemma {:induction false} ShortOption(decls: seq<Decl>, letter: char, value: string, index: Option<nat>,
          rest: seq<string>)
    requires letter != '-' && FirstLettered(decls, letter, index)
    ensures var p := "-" + ([letter] + value);
      OnePass(decls, [p] + rest)
      == if value == "" then WithoutValue(decls, p, index, rest) else WithValue(decls, p, index, value, rest)
  {
    hide Classify, OnePass, WithValue, WithoutValue;
    FoundByLetter(decls, letter, index);
    ShortForm(decls, letter, value);
    FirstOption(decls, "-" + ([letter] + value), index, rest);
  }
}
