// The path evaluator's commands, its answers as traces, and the recursive
// meaning of a command list on a tree (tinfra/vtpath.cpp).
module VtPathSpec {
  import opened Variants

  datatype Command =
    | Root
    | CurrentObject
    | Child
    | RecursiveChild
    | WildcardAll
    | WildcardOther
    | Token(name: string)

  // How a run ends: all answers given, an assertion thrown, or the evaluation
  // loop repeating for ever with its state unchanged.
  datatype End = Finished | AssertFailed | Stuck

  // The answers still to be given, in order, and the end that follows them.
  datatype Trace = Trace(out: seq<Path>, end: End)

  const NOTHING := Trace([], Finished)
  const ASSERTION := Trace([], AssertFailed)

  function Then(a: Trace, b: Trace): Trace {
    if a.end.Finished? then Trace(a.out + b.out, b.end) else a
  }

  // Answers already found come first.
  function Queued(q: seq<Path>, t: Trace): Trace {
    if q == [] then t else Trace(q + t.out, t.end)
  }

  lemma {:induction false} ThenAssociative(a: Trace, b: Trace, c: Trace)
    ensures Then(Then(a, b), c) == Then(a, Then(b, c))
  {
    if a.end.Finished? && b.end.Finished? {
      assert (a.out + b.out) + c.out == a.out + (b.out + c.out);
    }
  }

  lemma {:induction false} ThenNothing(a: Trace)
    ensures Then(a, NOTHING) == a && Then(NOTHING, a) == a
  {
    assert a.out + [] == a.out && [] + a.out == a.out;
  }

  // Whether a name picks child i of v: only dictionary entries have names.
  predicate Named(v: Variant, i: nat, name: string)
    requires i < v.NumKids()
  {
    v.DictV? && v.entries[i].key == name
  }

  // Node v at path p matched everything before command c.
  ghost function MatchTrace(cmds: seq<Command>, p: Path, v: Variant, c: nat): Trace
    requires c <= |cmds|
    decreases v, 3, 0
  {
    if c == |cmds| then Trace([p], Finished) else ContainerTrace(cmds, p, v, c)
  }

  // Apply the commands from c on to the children of v; leaves have none.
  ghost function ContainerTrace(cmds: seq<Command>, p: Path, v: Variant, c: nat): Trace
    requires c < |cmds|
    decreases v, 2, 0
  {
    if v.IsContainer() then KidsTrace(cmds, p, v, c, 0) else NOTHING
  }

  // The same from child i on.
  ghost function KidsTrace(cmds: seq<Command>, p: Path, v: Variant, c: nat, i: nat): Trace
    requires c < |cmds| && v.IsContainer() && i <= v.NumKids()
    decreases v, 1, v.NumKids() - i
  {
    if !cmds[c].Child? && !cmds[c].RecursiveChild? then NOTHING
    else if c + 1 == |cmds| then ASSERTION
    else if cmds[c + 1].WildcardAll? || cmds[c].RecursiveChild? then
      if i < v.NumKids() then
        Then(KidTrace(cmds, p, v, c, i), KidsTrace(cmds, p, v, c, i + 1))
      else NOTHING
    else if cmds[c + 1].Token? then
      if v.ArrayV? then ASSERTION
      else
        var k := FindKey(v.entries, cmds[c + 1].name);
        if k < |v.entries| then MatchTrace(cmds, p + [k], v.Kid(k), c + 2) else NOTHING
    else Trace([], Stuck)
  }

  // One child under a wildcard or a recursive step: a final match is answered
  // before the child's descendants, an intermediate one after them.
  ghost function KidTrace(cmds: seq<Command>, p: Path, v: Variant, c: nat, i: nat): Trace
    requires c + 1 < |cmds| && i < v.NumKids()
    decreases v, 0, 0
  {
    var sel := cmds[c + 1];
    if !sel.WildcardAll? && !sel.Token? then ASSERTION
    else
      var matched :=
        if sel.WildcardAll? || Named(v, i, sel.name)
        then MatchTrace(cmds, p + [i], v.Kid(i), c + 2) else NOTHING;
      var below :=
        if cmds[c].RecursiveChild? then ContainerTrace(cmds, p + [i], v.Kid(i), c) else NOTHING;
      if c + 2 == |cmds| then Then(matched, below) else Then(below, matched)
  }

  predicate Selected(sel: Command, v: Variant, i: nat)
    requires i < v.NumKids()
  {
    sel.WildcardAll? || (sel.Token? && Named(v, i, sel.name))
  }

  // The two parts of a child's share: its match, and what lies below it.
  ghost function MatchShare(cmds: seq<Command>, p: Path, v: Variant, c: nat, matched: bool): Trace
    requires c <= |cmds|
  {
    if matched then MatchTrace(cmds, p, v, c) else NOTHING
  }

  ghost function DescendShare(cmds: seq<Command>, p: Path, v: Variant, c: nat, recursive: bool): Trace
    requires c < |cmds|
  {
    if recursive then ContainerTrace(cmds, p, v, c) else NOTHING
  }

  lemma {:induction false} KidTraceShares(cmds: seq<Command>, path: Path, v: Variant, c: nat, i: nat)
    requires c + 1 < |cmds| && i < v.NumKids() && (cmds[c + 1].WildcardAll? || cmds[c + 1].Token?)
    ensures
      var m := MatchShare(cmds, path + [i], v.Kid(i), c + 2, Selected(cmds[c + 1], v, i));
      var d := DescendShare(cmds, path + [i], v.Kid(i), c, cmds[c].RecursiveChild?);
      KidTrace(cmds, path, v, c, i) == if c + 2 == |cmds| then Then(m, d) else Then(d, m)
  {
  }

  // The meaning of a whole command list on a tree.
  ghost function Answers(cmds: seq<Command>, root: Variant): Trace
    requires |cmds| > 0
  {
    MatchTrace(cmds, [], root, 1)
  }

  // Work left on child i of v and later: an upper bound, whatever the
  // commands, on the evaluation loop's iterations.
  ghost function WorkFrom(v: Variant, i: nat): (w: nat)
    requires i <= v.NumKids()
    ensures w >= 2
    decreases v, v.NumKids() - i
  {
    if i == v.NumKids() then 2
    else 1 + 2 * WorkFrom(v.Kid(i), 0) + WorkFrom(v, i + 1)
  }

  lemma {:induction false} WorkOfKid(v: Variant, i: nat, k: nat)
    requires i <= k < v.NumKids()
    ensures WorkFrom(v, i) > 1 + WorkFrom(v.Kid(k), 0)
    decreases k - i
  {
    if i < k {
      WorkOfKid(v, i + 1, k);
    }
  }
}
