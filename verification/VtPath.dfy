// The path evaluator itself: a visitor object with an explicit stack of
// half-scanned containers and a queue of answers (tinfra/vtpath.cpp).
module VtPath {
  import opened Variants
  import opened VtPathSpec

  datatype State = State(path: Path, val: Variant, index: nat, finished: bool, icommand: nat)

  datatype Fetched = Found(node: Path) | NoMore | AssertionThrown | Hang

  ghost predicate ValidState(cmds: seq<Command>, root: Variant, s: State) {
    && s.icommand < |cmds|
    && s.val.IsContainer() && s.index <= s.val.NumKids()
    && ValidPath(root, s.path) && At(root, s.path) == s.val
    && (s.index > 0 ==>
          s.icommand + 1 < |cmds| && (cmds[s.icommand + 1].WildcardAll? || cmds[s.icommand].RecursiveChild?))
  }

  ghost predicate ValidStack(cmds: seq<Command>, root: Variant, states: seq<State>) {
    forall i | 0 <= i < |states| :: ValidState(cmds, root, states[i])
  }

  // The stacked nodes form an ancestor-or-equal chain from the root, with at
  // most two states for one node and one for the root.
  ghost predicate Chain(states: seq<State>) {
    && (|states| > 0 ==> states[0].path == [])
    && (forall i | 0 <= i < |states| - 1 :: states[i].path <= states[i + 1].path)
    && (|states| > 1 ==> |states[1].path| > 0)
    && (forall i | 0 <= i < |states| - 2 :: |states[i].path| < |states[i + 2].path|)
  }

  ghost function StateTrace(cmds: seq<Command>, s: State): Trace
    requires s.icommand < |cmds| && s.val.IsContainer() && s.index <= s.val.NumKids()
  {
    if s.finished then NOTHING else KidsTrace(cmds, s.path, s.val, s.icommand, s.index)
  }

  // What a stack still owes, top (last) state first.
  ghost function StackTrace(cmds: seq<Command>, root: Variant, states: seq<State>): Trace
    requires ValidStack(cmds, root, states)
  {
    if states == [] then NOTHING
    else Then(StateTrace(cmds, states[|states| - 1]), StackTrace(cmds, root, states[..|states| - 1]))
  }

  ghost function StateWork(s: State): nat {
    if s.finished then 1 else if s.index <= s.val.NumKids() then WorkFrom(s.val, s.index) else 0
  }

  ghost function StackWork(states: seq<State>): nat {
    if states == [] then 0 else StateWork(states[|states| - 1]) + StackWork(states[..|states| - 1])
  }

  lemma {:induction false} Push(cmds: seq<Command>, root: Variant, states: seq<State>, s: State)
    requires ValidStack(cmds, root, states)
    requires ValidState(cmds, root, s)
    ensures ValidStack(cmds, root, states + [s])
    ensures StackTrace(cmds, root, states + [s]) == Then(StateTrace(cmds, s), StackTrace(cmds, root, states))
    ensures StackWork(states + [s]) == StateWork(s) + StackWork(states)
  {
    assert (states + [s])[..|states|] == states;
  }

  // A chain of containers is no higher than twice the tree.
  lemma {:induction false} ChainDepth(states: seq<State>, i: nat)
    requires Chain(states) && i < |states|
    ensures i <= 2 * |states[i].path|
  {
    if i >= 2 {
      ChainDepth(states, i - 2);
    }
  }

  lemma {:induction false} KidHeight(v: Variant, i: nat, n: nat)
    requires i < n <= v.NumKids()
    ensures Height(v.Kid(i)) <= MaxKidHeight(v, n)
    decreases n
  {
    if i < n - 1 {
      KidHeight(v, i, n - 1);
    }
  }

  lemma {:induction false} PathHeight(v: Variant, p: Path)
    requires ValidPath(v, p)
    ensures |p| + Height(At(v, p)) <= Height(v)
    decreases |p|
  {
    if p != [] {
      PathHeight(v.Kid(p[0]), p[1..]);
      KidHeight(v, p[0], v.NumKids());
    }
  }

  lemma {:induction false} StackBounded(cmds: seq<Command>, root: Variant, states: seq<State>)
    requires ValidStack(cmds, root, states) && Chain(states)
    ensures |states| > 0 ==> |states| + 1 <= 2 * Height(root)
  {
    if |states| > 0 {
      var top := states[|states| - 1];
      ChainDepth(states, |states| - 1);
      PathHeight(root, top.path);
    }
  }

  // A container is pushed unscanned, ready for command c; a leaf is not.
  function Pushed(states: seq<State>, p: Path, v: Variant, c: nat): seq<State> {
    if v.IsContainer() then states + [State(p, v, 0, false, c)] else states
  }

  // Node p may be stacked above these states.
  ghost predicate Above(states: seq<State>, p: Path) {
    && (|states| == 0 ==> p == [])
    && (|states| > 0 ==> p != [] && states[|states| - 1].path <= p)
    && (|states| > 1 ==> |states[|states| - 2].path| < |p|)
  }

  lemma {:induction false} ChainPush(states: seq<State>, s: State)
    requires Chain(states) && Above(states, s.path)
    ensures Chain(states + [s])
  {
  }

  lemma {:induction false} AboveKid(states: seq<State>, t: seq<State>, k: nat)
    requires Chain(states) && |states| > 0 && |t| == |states| && t[..|t| - 1] == states[..|t| - 1]
    requires t[|t| - 1].path == states[|t| - 1].path
    ensures Above(t, states[|states| - 1].path + [k])
  {
    if |t| > 1 {
      assert t[|t| - 2] == t[..|t| - 1][|t| - 2] == states[..|t| - 1][|t| - 2];
    }
  }

  lemma {:induction false} ChainRetop(states: seq<State>, s: State)
    requires Chain(states) && |states| > 0 && s.path == states[|states| - 1].path
    ensures Chain(states[..|states| - 1] + [s])
  {
  }

  lemma {:induction false} PushedTrace(cmds: seq<Command>, root: Variant, states: seq<State>, p: Path, v: Variant,
          c: nat)
    requires ValidStack(cmds, root, states) && Chain(states)
    requires ValidPath(root, p) && At(root, p) == v && c < |cmds| && Above(states, p)
    ensures var t := Pushed(states, p, v, c);
      && ValidStack(cmds, root, t)
      && Chain(t)
      && StackTrace(cmds, root, t) == Then(ContainerTrace(cmds, p, v, c), StackTrace(cmds, root, states))
      && StackWork(t) <= WorkFrom(v, 0) + StackWork(states)
  {
    hide KidsTrace, WorkFrom, StackTrace, StackWork, ValidPath, At, Chain, Above, ValidStack;
    if v.IsContainer() {
      ChainPush(states, State(p, v, 0, false, c));
      Push(cmds, root, states, State(p, v, 0, false, c));
    } else {
      ThenNothing(StackTrace(cmds, root, states));
    }
  }

  // Replacing the top state changes only its own share.
  lemma {:induction false} Retop(cmds: seq<Command>, root: Variant, states: seq<State>, s: State)
    requires |states| > 0 && ValidStack(cmds, root, states)
    requires ValidState(cmds, root, s) && s.path == states[|states| - 1].path && Chain(states)
    ensures var t := states[|states| - 1 := s];
      && ValidStack(cmds, root, t)
      && Chain(t)
      && StackTrace(cmds, root, t) == Then(StateTrace(cmds, s), StackTrace(cmds, root, states[..|states| - 1]))
      && StackWork(t) == StateWork(s) + StackWork(states[..|states| - 1])
  {
    hide KidsTrace, WorkFrom, Chain;
    ChainRetop(states, s);
    assert states[|states| - 1 := s] == states[..|states| - 1] + [s];
    Push(cmds, root, states[..|states| - 1], s);
  }

  // A match short of the last command pushes a state; the last one does not.
  function Matched(cmds: seq<Command>, states: seq<State>, p: Path, v: Variant, c: nat, matched: bool): seq<State> {
    if matched && c < |cmds| then Pushed(states, p, v, c) else states
  }

  function Descended(states: seq<State>, p: Path, v: Variant, c: nat, recursive: bool): seq<State> {
    if recursive then Pushed(states, p, v, c) else states
  }

  lemma {:induction false} MatchPush(cmds: seq<Command>, root: Variant, states: seq<State>, p: Path, v: Variant,
          c: nat, matched: bool)
    requires ValidStack(cmds, root, states) && Chain(states) && Above(states, p)
    requires ValidPath(root, p) && At(root, p) == v && c <= |cmds|
    requires |states| > 0 && |states[|states| - 1].path| < |p|
    ensures var t := Matched(cmds, states, p, v, c, matched);
      && ValidStack(cmds, root, t) && Chain(t)
      && Above(t, p)
      && StackTrace(cmds, root, t)
         == (if c < |cmds| then Then(MatchShare(cmds, p, v, c, matched), StackTrace(cmds, root, states))
             else StackTrace(cmds, root, states))
      && StackWork(t) <= WorkFrom(v, 0) + StackWork(states)
  {
    hide KidsTrace, WorkFrom, StackTrace, StackWork;
    ThenNothing(StackTrace(cmds, root, states));
    if matched && c < |cmds| {
      PushedTrace(cmds, root, states, p, v, c);
    }
  }

  lemma {:induction false} DescendPush(cmds: seq<Command>, root: Variant, states: seq<State>, p: Path, v: Variant,
          c: nat, recursive: bool)
    requires ValidStack(cmds, root, states) && Chain(states) && Above(states, p)
    requires ValidPath(root, p) && At(root, p) == v && c < |cmds|
    ensures var t := Descended(states, p, v, c, recursive);
      && ValidStack(cmds, root, t) && Chain(t)
      && StackTrace(cmds, root, t) == Then(DescendShare(cmds, p, v, c, recursive), StackTrace(cmds, root, states))
      && StackWork(t) <= WorkFrom(v, 0) + StackWork(states)
  {
    hide KidsTrace, WorkFrom, StackTrace, StackWork;
    ThenNothing(StackTrace(cmds, root, states));
    if recursive {
      PushedTrace(cmds, root, states, p, v, c);
    }
  }

  // Together with a queued answer the two pushes owe exactly the child's share.
  lemma {:induction false} KidPushes(cmds: seq<Command>, root: Variant, states: seq<State>, p: Path, v: Variant, c: nat,
                  matched: bool, recursive: bool)
    requires ValidStack(cmds, root, states) && Chain(states) && Above(states, p)
    requires |states| > 0 && |states[|states| - 1].path| < |p|
    requires ValidPath(root, p) && At(root, p) == v && c + 1 < |cmds|
    ensures
      var s1 := Matched(cmds, states, p, v, c + 2, matched);
      var s2 := Descended(s1, p, v, c, recursive);
      var q := if matched && c + 2 == |cmds| then [p] else [];
      var m := MatchShare(cmds, p, v, c + 2, matched);
      var d := DescendShare(cmds, p, v, c, recursive);
      && ValidStack(cmds, root, s1) && Chain(s1) && Above(s1, p)
      && ValidStack(cmds, root, s2) && Chain(s2)
      && Queued(q, StackTrace(cmds, root, s2))
         == Then(if c + 2 == |cmds| then Then(m, d) else Then(d, m), StackTrace(cmds, root, states))
      && StackWork(s2) <= 2 * WorkFrom(v, 0) + StackWork(states)
  {
    hide KidsTrace, MatchTrace, ContainerTrace, WorkFrom, StackTrace, StackWork;
    var s1 := Matched(cmds, states, p, v, c + 2, matched);
    MatchPush(cmds, root, states, p, v, c + 2, matched);
    DescendPush(cmds, root, s1, p, v, c, recursive);
    KidOrder(cmds, p, v, c, matched, DescendShare(cmds, p, v, c, recursive), StackTrace(cmds, root, states));
  }

  lemma {:induction false} KidOrder(cmds: seq<Command>, p: Path, v: Variant, c: nat, matched: bool, d: Trace,
          rest: Trace)
    requires c + 1 < |cmds|
    ensures var m := MatchShare(cmds, p, v, c + 2, matched);
      if c + 2 == |cmds| then
        Queued(if matched then [p] else [], Then(d, rest)) == Then(Then(m, d), rest)
      else
        Queued([], Then(d, Then(m, rest))) == Then(Then(d, m), rest)
  {
    var m := MatchShare(cmds, p, v, c + 2, matched);
    ThenAssociative(d, m, rest);
    ThenAssociative(m, d, rest);
    ThenNothing(Then(d, rest));
  }

  predicate Visitable(cmds: seq<Command>, states: seq<State>) {
    && |states| > 0
    && var top := states[|states| - 1];
    && !top.finished && top.index < top.val.NumKids() && top.icommand + 1 < |cmds|
    && (cmds[top.icommand].Child? || cmds[top.icommand].RecursiveChild?)
    && (cmds[top.icommand + 1].WildcardAll? || cmds[top.icommand].RecursiveChild?)
  }

  // The top state gives up its next child's share and keeps the later ones.
  lemma {:induction false} KidShare(cmds: seq<Command>, root: Variant, states: seq<State>, top: State, t: seq<State>)
    requires ValidStack(cmds, root, states) && Chain(states) && Visitable(cmds, states)
    requires top == states[|states| - 1]
    requires t == states[|states| - 1 := top.(index := top.index + 1)]
    ensures
      var p := top.path + [top.index];
      && ValidStack(cmds, root, t) && Chain(t) && Above(t, p)
      && |t[|t| - 1].path| < |p|
      && ValidPath(root, p) && At(root, p) == top.val.Kid(top.index)
    ensures StackTrace(cmds, root, states)
         == Then(KidTrace(cmds, top.path, top.val, top.icommand, top.index), StackTrace(cmds, root, t))
    ensures StackWork(states) == 1 + 2 * WorkFrom(top.val.Kid(top.index), 0) + StackWork(t)
  {
    hide MatchTrace, ContainerTrace, KidTrace;
    AtExtend(root, top.path, top.index);
    Retop(cmds, root, states, top.(index := top.index + 1));
    ThenAssociative(KidTrace(cmds, top.path, top.val, top.icommand, top.index),
                    KidsTrace(cmds, top.path, top.val, top.icommand, top.index + 1),
                    StackTrace(cmds, root, states[..|states| - 1]));
  }

  // The stack and the queued answers after one child has been visited.
  function VisitStack(cmds: seq<Command>, states: seq<State>): seq<State>
    requires Visitable(cmds, states)
  {
    var top := states[|states| - 1];
    var c, p, v := top.icommand, top.path + [top.index], top.val.Kid(top.index);
    Descended(Matched(cmds, states[|states| - 1 := top.(index := top.index + 1)], p, v, c + 2,
                      Selected(cmds[c + 1], top.val, top.index)),
              p, v, c, cmds[c].RecursiveChild?)
  }

  function VisitQueue(cmds: seq<Command>, states: seq<State>): seq<Path>
    requires Visitable(cmds, states)
  {
    var top := states[|states| - 1];
    if top.icommand + 2 == |cmds| && Selected(cmds[top.icommand + 1], top.val, top.index)
    then [top.path + [top.index]] else []
  }

  // Visiting one child keeps what is owed and uses up work.
  lemma {:induction false} VisitKeepsOwed(cmds: seq<Command>, root: Variant, states: seq<State>)
    requires ValidStack(cmds, root, states) && Chain(states) && Visitable(cmds, states)
    requires var sel := cmds[states[|states| - 1].icommand + 1]; sel.WildcardAll? || sel.Token?
    ensures var t := VisitStack(cmds, states);
      && ValidStack(cmds, root, t) && Chain(t)
      && Queued(VisitQueue(cmds, states), StackTrace(cmds, root, t)) == StackTrace(cmds, root, states)
      && StackWork(t) < StackWork(states)
  {
    var top := states[|states| - 1];
    VisitOwed(cmds, root, states, top, top.icommand, top.path + [top.index], top.val.Kid(top.index),
              states[|states| - 1 := top.(index := top.index + 1)], VisitStack(cmds, states), VisitQueue(cmds, states));
  }

  lemma {:induction false} VisitOwed(cmds: seq<Command>, root: Variant, states: seq<State>, top: State, c: nat,
          p: Path, v: Variant,
                  s0: seq<State>, s2: seq<State>, q: seq<Path>)
    requires ValidStack(cmds, root, states) && Chain(states) && Visitable(cmds, states)
    requires top == states[|states| - 1] && c == top.icommand
    requires p == top.path + [top.index] && v == top.val.Kid(top.index)
    requires cmds[c + 1].WildcardAll? || cmds[c + 1].Token?
    requires s0 == states[|states| - 1 := top.(index := top.index + 1)]
    requires s2 == Descended(Matched(cmds, s0, p, v, c + 2, Selected(cmds[c + 1], top.val, top.index)), p, v, c,
                             cmds[c].RecursiveChild?)
    requires q == if c + 2 == |cmds| && Selected(cmds[c + 1], top.val, top.index) then [p] else []
    ensures ValidStack(cmds, root, s2) && Chain(s2)
    ensures Queued(q, StackTrace(cmds, root, s2)) == StackTrace(cmds, root, states)
    ensures StackWork(s2) < StackWork(states)
  {
    hide KidTrace, KidsTrace, MatchTrace, ContainerTrace, WorkFrom, StackTrace, StackWork;
    KidShare(cmds, root, states, top, s0);
    KidTraceShares(cmds, top.path, top.val, c, top.index);
    KidPushes(cmds, root, s0, p, v, c, Selected(cmds[c + 1], top.val, top.index), cmds[c].RecursiveChild?);
  }

  // A recursive step before anything but a selector fails on the first child.
  lemma {:induction false} BadSelectorOwed(cmds: seq<Command>, root: Variant, states: seq<State>)
    requires ValidStack(cmds, root, states) && Visitable(cmds, states)
    requires var sel := cmds[states[|states| - 1].icommand + 1]; !sel.WildcardAll? && !sel.Token?
    ensures StackTrace(cmds, root, states) == ASSERTION
  {
    var top := states[|states| - 1];
    assert KidTrace(cmds, top.path, top.val, top.icommand, top.index) == ASSERTION;
    assert StateTrace(cmds, top) == ASSERTION;
  }

  // Marking the top state finished when it owes nothing more changes nothing.
  lemma {:induction false} FinishOwed(cmds: seq<Command>, root: Variant, states: seq<State>, t: seq<State>)
    requires ValidStack(cmds, root, states) && Chain(states) && |states| > 0
    requires t == states[|states| - 1 := states[|states| - 1].(finished := true)]
    requires !states[|states| - 1].finished && StateTrace(cmds, states[|states| - 1]) == NOTHING
    ensures ValidStack(cmds, root, t) && Chain(t)
    ensures StackTrace(cmds, root, t) == StackTrace(cmds, root, states)
    ensures StackWork(t) < StackWork(states)
  {
    Retop(cmds, root, states, states[|states| - 1].(finished := true));
  }

  lemma {:induction false} PopOwed(cmds: seq<Command>, root: Variant, states: seq<State>)
    requires ValidStack(cmds, root, states) && Chain(states) && |states| > 0
    requires StateTrace(cmds, states[|states| - 1]) == NOTHING
    ensures ValidStack(cmds, root, states[..|states| - 1]) && Chain(states[..|states| - 1])
    ensures StackTrace(cmds, root, states[..|states| - 1]) == StackTrace(cmds, root, states)
    ensures StackWork(states[..|states| - 1]) < StackWork(states)
  {
    hide KidsTrace, WorkFrom;
    ThenNothing(StackTrace(cmds, root, states[..|states| - 1]));
  }

  // A non-recursive name on a dictionary: look the key up, match its value.
  predicate NamedStep(cmds: seq<Command>, states: seq<State>) {
    && |states| > 0
    && var top := states[|states| - 1];
    && !top.finished && top.icommand + 1 < |cmds| && top.val.DictV?
    && cmds[top.icommand].Child? && cmds[top.icommand + 1].Token?
  }

  function NamedStack(cmds: seq<Command>, states: seq<State>): seq<State>
    requires NamedStep(cmds, states)
  {
    var top := states[|states| - 1];
    var k := FindKey(top.val.entries, cmds[top.icommand + 1].name);
    var s0 := states[|states| - 1 := top.(finished := true)];
    if k < |top.val.entries| then Matched(cmds, s0, top.path + [k], top.val.Kid(k), top.icommand + 2, true) else s0
  }

  function NamedQueue(cmds: seq<Command>, states: seq<State>): seq<Path>
    requires NamedStep(cmds, states)
  {
    var top := states[|states| - 1];
    var k := FindKey(top.val.entries, cmds[top.icommand + 1].name);
    if top.icommand + 2 == |cmds| && k < |top.val.entries| then [top.path + [k]] else []
  }

  lemma {:induction false} NamedKeepsOwed(cmds: seq<Command>, root: Variant, states: seq<State>)
    requires ValidStack(cmds, root, states) && Chain(states) && NamedStep(cmds, states)
    ensures var t := NamedStack(cmds, states);
      && ValidStack(cmds, root, t) && Chain(t)
      && Queued(NamedQueue(cmds, states), StackTrace(cmds, root, t)) == StackTrace(cmds, root, states)
      && StackWork(t) < StackWork(states)
  {
    var top := states[|states| - 1];
    var k := FindKey(top.val.entries, cmds[top.icommand + 1].name);
    if k < |top.val.entries| {
      JumpOwed(cmds, root, states, top, k, states[|states| - 1 := top.(finished := true)], NamedStack(cmds, states));
    } else {
      FinishOwed(cmds, root, states, NamedStack(cmds, states));
    }
  }

  lemma {:induction false} JumpOwed(cmds: seq<Command>, root: Variant, states: seq<State>, top: State, k: nat,
          s0: seq<State>,
                 t: seq<State>)
    requires ValidStack(cmds, root, states) && Chain(states) && |states| > 0 && top == states[|states| - 1]
    requires !top.finished && top.index == 0 && k < top.val.NumKids() && top.icommand + 2 <= |cmds|
    requires StateTrace(cmds, top) == MatchTrace(cmds, top.path + [k], top.val.Kid(k), top.icommand + 2)
    requires s0 == states[|states| - 1 := top.(finished := true)]
    requires t == Matched(cmds, s0, top.path + [k], top.val.Kid(k), top.icommand + 2, true)
    ensures ValidStack(cmds, root, t) && Chain(t)
    ensures Queued(if top.icommand + 2 == |cmds| then [top.path + [k]] else [], StackTrace(cmds, root, t))
      == StackTrace(cmds, root, states)
    ensures StackWork(t) < StackWork(states)
  {
    hide KidsTrace, WorkFrom, Chain, Above;
    assert top.icommand + 2 == |cmds| ==> StateTrace(cmds, top) == Trace([top.path + [k]], Finished);
    AtExtend(root, top.path, k);
    WorkOfKid(top.val, 0, k);
    AboveKid(states, s0, k);
    Retop(cmds, root, states, top.(finished := true));
    ThenNothing(StackTrace(cmds, root, states[..|states| - 1]));
    MatchPush(cmds, root, s0, top.path + [k], top.val.Kid(k), top.icommand + 2, true);
  }

  class VtPathVisitor {
    const root: Variant
    const commands: seq<Command>
    var states: seq<State>
    var resultQueue: seq<Path>

    ghost predicate Valid()
      reads this
    {
      && |commands| > 0
      && ValidStack(commands, root, states)
      && Chain(states)
      && |resultQueue| <= 1
    }

    // Everything the visitor will still answer.
    ghost function Remaining(): Trace
      reads this
      requires Valid()
    {
      Queued(resultQueue, StackTrace(commands, root, states))
    }

    constructor (v: Variant, cmds: seq<Command>)
      requires |cmds| > 0
      ensures Valid() && root == v && commands == cmds
      ensures Remaining() == Answers(cmds, v)
    {
      hide KidsTrace, StackWork;
      root := v;
      commands := cmds;
      states := [];
      resultQueue := [];
      new;
      MatchFound([], v, 1);
      ThenNothing(Answers(cmds, v));
      if |cmds| > 1 {
        PushedTrace(cmds, v, [], [], v, 1);
      }
    }

    // A node matched up to command next: answer it, or go on below it.
    method MatchFound(p: Path, v: Variant, next: nat)
      requires next <= |commands|
      modifies this
      ensures resultQueue == old(resultQueue) + if next == |commands| then [p] else []
      ensures states == Matched(commands, old(states), p, v, next, true)
    {
      if next == |commands| {
        resultQueue := resultQueue + [p];
      } else {
        PushContainer(p, v, next);
      }
    }

    method PushContainer(p: Path, v: Variant, next: nat)
      modifies this`states
      ensures states == Pushed(old(states), p, v, next)
    {
      if v.IsContainer() {
        states := states + [State(p, v, 0, false, next)];
      }
    }

    // Take one child of the top container under a wildcard or a recursive
    // step; false when the command after the step is neither kind of selector.
    method VisitChild(recursive: bool) returns (ok: bool)
      requires Visitable(commands, states)
      requires recursive == commands[states[|states| - 1].icommand].RecursiveChild?
      modifies this
      ensures var sel := commands[old(states)[|old(states)| - 1].icommand + 1];
        ok == (sel.WildcardAll? || sel.Token?)
      ensures ok ==> states == VisitStack(commands, old(states))
      ensures ok ==> resultQueue == old(resultQueue) + VisitQueue(commands, old(states))
    {
      var top := states[|states| - 1];
      var c, i := top.icommand, top.index;
      var childMatch := commands[c + 1];
      var child, p := top.val.Kid(i), top.path + [i];
      states := states[|states| - 1 := top.(index := i + 1)];
      if childMatch.WildcardAll? {
        MatchFound(p, child, c + 2);
      } else if childMatch.Token? {
        if Named(top.val, i, childMatch.name) {
          MatchFound(p, child, c + 2);
        }
      } else {
        return false;
      }
      if recursive {
        PushContainer(p, child, c);
      }
      ok := true;
    }

    method PopState()
      requires Valid() && |states| > 0 && StateTrace(commands, states[|states| - 1]) == NOTHING
      modifies this`states
      ensures Valid() && Remaining() == old(Remaining())
      ensures StackWork(states) < old(StackWork(states))
    {
      PopOwed(commands, root, states);
      states := states[..|states| - 1];
    }

    method FinishMatching()
      requires Valid() && |states| > 0 && !states[|states| - 1].finished
      requires StateTrace(commands, states[|states| - 1]) == NOTHING
      modifies this`states
      ensures Valid() && Remaining() == old(Remaining())
      ensures StackWork(states) < old(StackWork(states))
    {
      var n := |states| - 1;
      FinishOwed(commands, root, states, states[n := states[n].(finished := true)]);
      states := states[n := states[n].(finished := true)];
    }

    method VisitNamed()
      requires Valid() && resultQueue == [] && NamedStep(commands, states)
      modifies this
      ensures Valid() && Remaining() == old(Remaining())
      ensures StackWork(states) < old(StackWork(states))
    {
      hide KidsTrace, StackTrace, Chain, ValidStack;
      var n := |states| - 1;
      var top := states[n];
      var k := FindKey(top.val.entries, commands[top.icommand + 1].name);
      states := states[n := top.(finished := true)];
      if k < |top.val.entries| {
        MatchFound(top.path + [k], top.val.Kid(k), top.icommand + 2);
      }
      assert states == NamedStack(commands, old(states)) && resultQueue == NamedQueue(commands, old(states));
      NamedKeepsOwed(commands, root, old(states));
    }

    method VisitNext(recursive: bool) returns (ok: bool)
      requires Valid() && resultQueue == [] && Visitable(commands, states)
      requires recursive == commands[states[|states| - 1].icommand].RecursiveChild?
      modifies this
      ensures !ok ==> old(Remaining()) == ASSERTION
      ensures ok ==> Valid() && Remaining() == old(Remaining())
      ensures ok ==> StackWork(states) < old(StackWork(states))
    {
      hide KidsTrace, StackTrace, VisitStack, Chain, ValidStack;
      ghost var was := states;
      ok := VisitChild(recursive);
      if ok {
        VisitKeepsOwed(commands, root, was);
      } else {
        BadSelectorOwed(commands, root, was);
      }
    }

    // The next answer, or how the run ends.
    method FetchNext() returns (r: Fetched)
      requires Valid()
      modifies this
      ensures r.Found? ==> Valid() && old(Remaining()) == Queued([r.node], Remaining())
      ensures r.NoMore? ==> Valid() && old(Remaining()) == Remaining() == NOTHING
      ensures r.AssertionThrown? ==> old(Remaining()) == ASSERTION
      ensures r.Hang? ==> old(Remaining()) == Trace([], Stuck)
    {
      hide KidTrace, StackWork, Chain, At, ValidPath;
      while resultQueue == []
        invariant Valid() && Remaining() == old(Remaining())
        decreases StackWork(states)
      {
        if states == [] {
          return NoMore;
        }
        var top := states[|states| - 1];
        var recursive := commands[top.icommand].RecursiveChild?;
        if top.finished || (!commands[top.icommand].Child? && !recursive) {
          PopState();
          continue;
        }
        if top.icommand == |commands| - 1 {
          return AssertionThrown;
        }
        var childMatch := commands[top.icommand + 1];
        if childMatch.WildcardAll? || recursive {
          // the same steps for dictionaries and arrays
          if top.index < top.val.NumKids() {
            var ok := VisitNext(recursive);
            if !ok {
              return AssertionThrown;
            }
          } else {
            FinishMatching();
          }
        } else if childMatch.Token? {
          if top.val.ArrayV? {
            return AssertionThrown;
          }
          VisitNamed();
        } else {
          // no branch applies: the loop would repeat with this same state
          return Hang;
        }
      }
      r := Found(resultQueue[0]);
      resultQueue := resultQueue[1..];
    }
  }
}
