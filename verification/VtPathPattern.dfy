// A well-formed command list read as a pattern over path components: how often
// each node is answered, when a run fails, and in which order $..* answers.
module VtPathPattern {
  import opened Variants
  import opened VtPathSpec

  datatype Selector = Any | Name(name: string)
  datatype Step = Step(recursive: bool, sel: Selector)

  function Encode(steps: seq<Step>): (cmds: seq<Command>)
    ensures |cmds| == 2 * |steps|
    ensures forall k | 0 <= k < |steps| ::
      && cmds[2 * k] == (if steps[k].recursive then RecursiveChild else Child)
      && cmds[2 * k + 1] == (if steps[k].sel.Any? then WildcardAll else Token(steps[k].sel.name))
  {
    if steps == [] then []
    else
      [if steps[0].recursive then RecursiveChild else Child,
       if steps[0].sel.Any? then WildcardAll else Token(steps[0].sel.name)] + Encode(steps[1..])
  }

  // The command list of an expression such as $.a..*[*] written in full.
  function Commands(steps: seq<Step>): seq<Command> { [Root] + Encode(steps) }

  lemma {:induction false} CommandsAt(steps: seq<Step>, k: nat)
    requires k < |steps|
    ensures var cmds := Commands(steps);
      && |cmds| == 1 + 2 * |steps|
      && cmds[1 + 2 * k] == (if steps[k].recursive then RecursiveChild else Child)
      && cmds[2 + 2 * k] == (if steps[k].sel.Any? then WildcardAll else Token(steps[k].sel.name))
  {
  }

  // What a path reads as: a key at each dictionary, a position at each array.
  datatype Component = Key(key: string) | Index(i: nat)

  ghost function ComponentAt(v: Variant, i: nat): Component
    requires i < v.NumKids()
  {
    if v.DictV? then Key(v.entries[i].key) else Index(i)
  }

  ghost function Components(v: Variant, p: Path): seq<Component>
    requires ValidPath(v, p)
    decreases |p|
  {
    if p == [] then [] else [ComponentAt(v, p[0])] + Components(v.Kid(p[0]), p[1..])
  }

  predicate Picks(sel: Selector, c: Component) {
    sel.Any? || (c.Key? && c.key == sel.name)
  }

  // In how many ways the components match the steps: each step picks one
  // component, and a recursive step may first pass over any number of them.
  function Ways(cs: seq<Component>, steps: seq<Step>): nat
    decreases |cs|
  {
    if steps == [] then (if cs == [] then 1 else 0)
    else if cs == [] then 0
    else
      var pick := if Picks(steps[0].sel, cs[0]) then Ways(cs[1..], steps[1..]) else 0;
      var pass := if steps[0].recursive then Ways(cs[1..], steps) else 0;
      pick + pass
  }

  // The ways in which the node at q, seen from the node v at p, matches.
  ghost function WaysBelow(p: Path, v: Variant, q: Path, steps: seq<Step>): nat {
    if p <= q && ValidPath(v, q[|p|..]) then Ways(Components(v, q[|p|..]), steps) else 0
  }

  // The same, for nodes below child i or a later child of v only.
  ghost function WaysBelowKids(p: Path, v: Variant, i: nat, q: Path, steps: seq<Step>): nat {
    if p <= q && |q| > |p| && q[|p|] >= i then WaysBelow(p, v, q, steps) else 0
  }

  lemma {:induction false} ThenCount(a: Trace, b: Trace, q: Path)
    requires Then(a, b).end.Finished?
    ensures a.end.Finished? && b.end.Finished?
    ensures multiset(Then(a, b).out)[q] == multiset(a.out)[q] + multiset(b.out)[q]
  {
  }

  // One component down: the share of child i in the ways of v.
  lemma {:induction false} WaysStep(p: Path, v: Variant, i: nat, q: Path, steps: seq<Step>)
    requires i < v.NumKids() && steps != []
    ensures WaysBelowKids(p, v, i, q, steps)
      == (if Picks(steps[0].sel, ComponentAt(v, i)) then WaysBelow(p + [i], v.Kid(i), q, steps[1..]) else 0)
       + (if steps[0].recursive then WaysBelow(p + [i], v.Kid(i), q, steps) else 0)
       + WaysBelowKids(p, v, i + 1, q, steps)
  {
    if p <= q && |q| > |p| && q[|p|] == i {
      assert p + [i] <= q;
      assert q[|p|..][1..] == q[|p + [i]|..];
      if ValidPath(v, q[|p|..]) {
        assert Components(v, q[|p|..])[1..] == Components(v.Kid(i), q[|p|..][1..]);
      }
    }
  }

  // A node is answered as often as its path matches, as long as nothing fails.
  lemma {:induction false} CountMatches(steps: seq<Step>, p: Path, v: Variant, k: nat, q: Path)
    requires k <= |steps| && WellFormed(v)
    requires MatchTrace(Commands(steps), p, v, 1 + 2 * k).end.Finished?
    ensures multiset(MatchTrace(Commands(steps), p, v, 1 + 2 * k).out)[q] == WaysBelow(p, v, q, steps[k..])
    decreases v, 2, 0
  {
    if k == |steps| {
      assert p <= q && q[|p|..] == [] ==> q == p;
      assert q == p ==> q[|p|..] == [];
    } else {
      CountContainer(steps, p, v, k, q);
    }
  }

  lemma {:induction false} CountContainer(steps: seq<Step>, p: Path, v: Variant, k: nat, q: Path)
    requires k < |steps| && WellFormed(v)
    requires ContainerTrace(Commands(steps), p, v, 1 + 2 * k).end.Finished?
    ensures multiset(ContainerTrace(Commands(steps), p, v, 1 + 2 * k).out)[q] == WaysBelow(p, v, q, steps[k..])
    decreases v, 1, 0
  {
    if v.IsContainer() {
      CountKids(steps, p, v, k, 0, q);
    }
    if p <= q && ValidPath(v, q[|p|..]) && |q| == |p| {
      assert Components(v, q[|p|..]) == [];
    }
  }

  lemma {:induction false} KidsSplit(steps: seq<Step>, p: Path, v: Variant, k: nat, i: nat)
    requires k < |steps| && v.IsContainer() && i <= v.NumKids() && (steps[k].recursive || steps[k].sel.Any?)
    ensures KidsTrace(Commands(steps), p, v, 1 + 2 * k, i)
      == if i == v.NumKids() then NOTHING
         else Then(KidTrace(Commands(steps), p, v, 1 + 2 * k, i), KidsTrace(Commands(steps), p, v, 1 + 2 * k, i + 1))
  {
  }

  lemma {:induction false} CommandsLength(steps: seq<Step>)
    ensures |Commands(steps)| == 1 + 2 * |steps|
  {
  }

  lemma {:induction false} NoKidsLeft(p: Path, v: Variant, q: Path, steps: seq<Step>)
    requires v.IsContainer()
    ensures WaysBelowKids(p, v, v.NumKids(), q, steps) == 0
  {
  }

  lemma {:induction false} CountKids(steps: seq<Step>, p: Path, v: Variant, k: nat, i: nat, q: Path)
    requires k < |steps| && WellFormed(v) && v.IsContainer() && i <= v.NumKids()
    requires steps[k].recursive || steps[k].sel.Any? || i == 0
    requires KidsTrace(Commands(steps), p, v, 1 + 2 * k, i).end.Finished?
    ensures multiset(KidsTrace(Commands(steps), p, v, 1 + 2 * k, i).out)[q] == WaysBelowKids(p, v, i, q, steps[k..])
    decreases v, 0, v.NumKids() - i + 1
  {
    hide KidsTrace, KidTrace, WaysBelow, WaysBelowKids, Commands, Ways, WellFormed;
    var cmds := Commands(steps);
    var c := 1 + 2 * k;
    CommandsLength(steps);
    if steps[k].recursive || steps[k].sel.Any? {
      KidsSplit(steps, p, v, k, i);
      if i == v.NumKids() {
        NoKidsLeft(p, v, q, steps[k..]);
      } else {
        assert steps[k..][0] == steps[k] && steps[k..][1..] == steps[k + 1..];
        var t := KidTrace(cmds, p, v, c, i);
        WaysStep(p, v, i, q, steps[k..]);
        ThenCount(t, KidsTrace(cmds, p, v, c, i + 1), q);
        CountKid(steps, p, v, k, i, q);
        CountKids(steps, p, v, k, i + 1, q);
      }
    } else {
      CountNamed(steps, p, v, k, q);
    }
  }

  lemma {:induction false} CountKid(steps: seq<Step>, p: Path, v: Variant, k: nat, i: nat, q: Path)
    requires k < |steps| && WellFormed(v) && i < v.NumKids()
    requires KidTrace(Commands(steps), p, v, 1 + 2 * k, i).end.Finished?
    ensures multiset(KidTrace(Commands(steps), p, v, 1 + 2 * k, i).out)[q]
      == (if Picks(steps[k].sel, ComponentAt(v, i)) then WaysBelow(p + [i], v.Kid(i), q, steps[k + 1..]) else 0)
       + (if steps[k].recursive then WaysBelow(p + [i], v.Kid(i), q, steps[k..]) else 0)
    decreases v, 0, 0
  {
    hide KidTrace, MatchTrace, ContainerTrace, WaysBelow, WellFormed, Commands, Picks, Selected, Ways;
    var cmds := Commands(steps);
    var c := 1 + 2 * k;
    var picked := Picks(steps[k].sel, ComponentAt(v, i));
    KidParts(steps, v, k, i);
    KidTraceShares(cmds, p, v, c, i);
    var m := MatchShare(cmds, p + [i], v.Kid(i), c + 2, picked);
    var d := DescendShare(cmds, p + [i], v.Kid(i), c, steps[k].recursive);
    if c + 2 == |cmds| {
      ThenCount(m, d, q);
    } else {
      ThenCount(d, m, q);
    }
    if picked {
      CountMatches(steps, p + [i], v.Kid(i), k + 1, q);
    }
    if steps[k].recursive {
      CountContainer(steps, p + [i], v.Kid(i), k, q);
    }
  }

  lemma {:induction false} KidParts(steps: seq<Step>, v: Variant, k: nat, i: nat)
    requires k < |steps| && WellFormed(v) && i < v.NumKids()
    ensures var cmds, c := Commands(steps), 1 + 2 * k;
      && |cmds| == 1 + 2 * |steps| && (cmds[c].Child? || cmds[c].RecursiveChild?)
      && (cmds[c + 1].WildcardAll? || cmds[c + 1].Token?)
      && Picks(steps[k].sel, ComponentAt(v, i)) == Selected(cmds[c + 1], v, i)
      && steps[k].recursive == cmds[c].RecursiveChild?
    ensures WellFormed(v.Kid(i))
  {
    CommandsAt(steps, k);
  }

  lemma {:induction false} CountNamed(steps: seq<Step>, p: Path, v: Variant, k: nat, q: Path)
    requires k < |steps| && WellFormed(v) && v.IsContainer() && !steps[k].recursive && steps[k].sel.Name?
    requires KidsTrace(Commands(steps), p, v, 1 + 2 * k, 0).end.Finished?
    ensures multiset(KidsTrace(Commands(steps), p, v, 1 + 2 * k, 0).out)[q] == WaysBelowKids(p, v, 0, q, steps[k..])
    decreases v, 0, 0
  {
    var j := FindKey(v.entries, steps[k].sel.name);
    assert steps[k..][0] == steps[k] && steps[k..][1..] == steps[k + 1..];
    if j < |v.entries| {
      CountMatches(steps, p + [j], v.Kid(j), k + 1, q);
      WaysStep(p, v, j, q, steps[k..]);
    }
    if p <= q && |q| > |p| && ValidPath(v, q[|p|..]) {
      var i := q[|p|..][0];
      WaysStep(p, v, i, q, steps[k..]);
      if v.entries[i].key == steps[k].sel.name {
        SortedKeysDistinct(v.entries, i, j);
      }
    }
  }

  // Main result on multiplicity: on a run that does not fail, every node is
  // answered exactly as often as its path from the root matches the pattern.
  lemma {:induction false} AnswerMultiplicity(steps: seq<Step>, root: Variant, q: Path)
    requires WellFormed(root) && Answers(Commands(steps), root).end.Finished?
    ensures multiset(Answers(Commands(steps), root).out)[q]
      == if ValidPath(root, q) then Ways(Components(root, q), steps) else 0
  {
    CountMatches(steps, [], root, 0, q);
    assert q[0..] == q && steps[0..] == steps;
  }

  // ---- when a run fails ----

  // The node at rel is an array that the first k steps reach, and step k asks
  // it, without descending, for a name.
  ghost predicate NameMeetsArray(v: Variant, steps: seq<Step>, rel: Path, k: nat) {
    && k < |steps| && !steps[k].recursive && steps[k].sel.Name?
    && ValidPath(v, rel) && At(v, rel).ArrayV?
    && Ways(Components(v, rel), steps[..k]) > 0
  }

  lemma {:induction false} KidsFail(steps: seq<Step>, p: Path, v: Variant, k: nat, j: nat, i: nat)
    requires k < |steps| && v.IsContainer() && j <= i < v.NumKids() && (steps[k].recursive || steps[k].sel.Any?)
    requires !KidTrace(Commands(steps), p, v, 1 + 2 * k, i).end.Finished?
    ensures !KidsTrace(Commands(steps), p, v, 1 + 2 * k, j).end.Finished?
    decreases i - j
  {
    KidsSplit(steps, p, v, k, j);
    if j < i {
      KidsFail(steps, p, v, k, j + 1, i);
    }
  }

  // What a step owes at a node, the recursive and wildcard steps apart.
  lemma {:induction false} StepTrace(steps: seq<Step>, p: Path, v: Variant, k: nat)
    requires k < |steps|
    ensures var cmds := Commands(steps);
      var t := MatchTrace(cmds, p, v, 1 + 2 * k);
      if !v.IsContainer() then t == NOTHING
      else if steps[k].recursive || steps[k].sel.Any? then t == KidsTrace(cmds, p, v, 1 + 2 * k, 0)
      else if v.ArrayV? then t == ASSERTION
      else
        var j := FindKey(v.entries, steps[k].sel.name);
        t == if j < |v.entries| then MatchTrace(cmds, p + [j], v.Kid(j), 1 + 2 * (k + 1)) else NOTHING
  {
    CommandsAt(steps, k);
    assert 1 + 2 * k + 2 == 1 + 2 * (k + 1);
    if v.IsContainer() {
      var cmds := Commands(steps);
      assert MatchTrace(cmds, p, v, 1 + 2 * k) == ContainerTrace(cmds, p, v, 1 + 2 * k);
      assert ContainerTrace(cmds, p, v, 1 + 2 * k) == KidsTrace(cmds, p, v, 1 + 2 * k, 0);
    }
  }

  // How a kid's share ends follows from its two parts.
  lemma {:induction false} KidEnd(steps: seq<Step>, p: Path, v: Variant, k: nat, i: nat)
    requires k < |steps| && i < v.NumKids()
    ensures
      var picked := Picks(steps[k].sel, ComponentAt(v, i));
      var m := MatchShare(Commands(steps), p + [i], v.Kid(i), 1 + 2 * (k + 1), picked);
      var d := DescendShare(Commands(steps), p + [i], v.Kid(i), 1 + 2 * k, steps[k].recursive);
      var t := KidTrace(Commands(steps), p, v, 1 + 2 * k, i);
      && (t.end.Finished? <==> m.end.Finished? && d.end.Finished?)
      && (t.end == m.end || t.end == d.end)
  {
    CommandsAt(steps, k);
    KidTraceShares(Commands(steps), p, v, 1 + 2 * k, i);
    assert Picks(steps[k].sel, ComponentAt(v, i)) == Selected(Commands(steps)[2 + 2 * k], v, i);
  }

  lemma {:induction false} FailsIfMet(steps: seq<Step>, p: Path, v: Variant, k0: nat, rel: Path, k: nat)
    requires k0 <= |steps| && WellFormed(v) && NameMeetsArray(v, steps[k0..], rel, k)
    ensures !MatchTrace(Commands(steps), p, v, 1 + 2 * k0).end.Finished?
    decreases |rel|
  {
    var tail := steps[k0..];
    assert k0 < |steps| && tail[0] == steps[k0];
    StepTrace(steps, p, v, k0);
    if rel != [] {
      var i, rest := rel[0], rel[1..];
      var cs := Components(v, rel);
      assert cs[1..] == Components(v.Kid(i), rest) && cs[0] == ComponentAt(v, i);
      assert k > 0 && tail[..k][0] == steps[k0] && tail[..k][1..] == steps[k0 + 1..][..k - 1];
      if Picks(steps[k0].sel, cs[0]) && Ways(cs[1..], tail[..k][1..]) > 0 {
        assert steps[k0 + 1..][k - 1] == tail[k];
        FailsIfMet(steps, p + [i], v.Kid(i), k0 + 1, rest, k - 1);
      } else {
        FailsIfMet(steps, p + [i], v.Kid(i), k0, rest, k);
      }
      FailsAbove(steps, p, v, k0, i);
    }
  }

  // A failure below child i is a failure of the whole.
  lemma {:induction false} FailsAbove(steps: seq<Step>, p: Path, v: Variant, k: nat, i: nat)
    requires k < |steps| && WellFormed(v) && i < v.NumKids()
    requires
      || (Picks(steps[k].sel, ComponentAt(v, i))
          && !MatchTrace(Commands(steps), p + [i], v.Kid(i), 1 + 2 * (k + 1)).end.Finished?)
      || (steps[k].recursive && !MatchTrace(Commands(steps), p + [i], v.Kid(i), 1 + 2 * k).end.Finished?)
    ensures !MatchTrace(Commands(steps), p, v, 1 + 2 * k).end.Finished?
  {
    StepTrace(steps, p, v, k);
    if steps[k].recursive {
      StepTrace(steps, p + [i], v.Kid(i), k);
    }
    if steps[k].recursive || steps[k].sel.Any? {
      KidEnd(steps, p, v, k, i);
      KidsFail(steps, p, v, k, 0, i);
    } else if v.DictV? {
      SortedKeysDistinct(v.entries, i, FindKey(v.entries, steps[k].sel.name));
    }
  }

  // Conversely, every failing run has met such an array; it never loops.
  lemma {:induction false} MetIfFails(steps: seq<Step>, p: Path, v: Variant, k0: nat) returns (rel: Path, k: nat)
    requires k0 <= |steps| && WellFormed(v)
    requires !MatchTrace(Commands(steps), p, v, 1 + 2 * k0).end.Finished?
    ensures NameMeetsArray(v, steps[k0..], rel, k)
    ensures MatchTrace(Commands(steps), p, v, 1 + 2 * k0).end.AssertFailed?
    decreases v, 2, 0
  {
    var s := steps[k0];
    assert steps[k0..][0] == s;
    StepTrace(steps, p, v, k0);
    if s.recursive || s.sel.Any? {
      rel, k := KidMetIfFails(steps, p, v, k0, 0);
    } else if v.ArrayV? {
      rel, k := [], 0;
    } else {
      var j := FindKey(v.entries, s.sel.name);
      rel, k := MetIfFails(steps, p + [j], v.Kid(j), k0 + 1);
      MetAbove(v, steps, k0, j, rel, k, true);
      rel, k := [j] + rel, k + 1;
    }
  }

  lemma {:induction false} KidMetIfFails(steps: seq<Step>, p: Path, v: Variant, k0: nat, i: nat)
    returns (rel: Path, k: nat)
    requires k0 < |steps| && WellFormed(v) && v.IsContainer() && i <= v.NumKids()
    requires steps[k0].recursive || steps[k0].sel.Any?
    requires !KidsTrace(Commands(steps), p, v, 1 + 2 * k0, i).end.Finished?
    ensures NameMeetsArray(v, steps[k0..], rel, k)
    ensures KidsTrace(Commands(steps), p, v, 1 + 2 * k0, i).end.AssertFailed?
    decreases v, 1, v.NumKids() - i
  {
    hide KidsTrace, KidTrace, MatchTrace, Ways, NameMeetsArray;
    KidsSplit(steps, p, v, k0, i);
    CommandsLength(steps);
    if KidTrace(Commands(steps), p, v, 1 + 2 * k0, i).end.Finished? {
      rel, k := KidMetIfFails(steps, p, v, k0, i + 1);
    } else {
      rel, k := OneKidMet(steps, p, v, k0, i);
    }
  }

  // A failure at a child comes from matching it or from descending into it.
  lemma {:induction false} OneKidMet(steps: seq<Step>, p: Path, v: Variant, k0: nat, i: nat)
    returns (rel: Path, k: nat)
    requires k0 < |steps| && WellFormed(v) && i < v.NumKids()
    requires !KidTrace(Commands(steps), p, v, 1 + 2 * k0, i).end.Finished?
    ensures NameMeetsArray(v, steps[k0..], rel, k)
    ensures KidTrace(Commands(steps), p, v, 1 + 2 * k0, i).end.AssertFailed?
    decreases v, 0, 0
  {
    hide KidsTrace, KidTrace, Ways, NameMeetsArray;
    KidEnd(steps, p, v, k0, i);
    if Picks(steps[k0].sel, ComponentAt(v, i))
       && !MatchTrace(Commands(steps), p + [i], v.Kid(i), 1 + 2 * (k0 + 1)).end.Finished? {
      rel, k := MetIfFails(steps, p + [i], v.Kid(i), k0 + 1);
      MetAbove(v, steps, k0, i, rel, k, true);
      rel, k := [i] + rel, k + 1;
    }
    if steps[k0].recursive && !MatchTrace(Commands(steps), p + [i], v.Kid(i), 1 + 2 * k0).end.Finished? {
      rel, k := MetIfFails(steps, p + [i], v.Kid(i), k0);
      MetAbove(v, steps, k0, i, rel, k, false);
      rel := [i] + rel;
    }
  }

  lemma {:induction false} MetAbove(v: Variant, steps: seq<Step>, k0: nat, i: nat, rel: Path, k: nat, picked: bool)
    requires k0 < |steps| && i < v.NumKids()
    requires if picked then Picks(steps[k0].sel, ComponentAt(v, i)) else steps[k0].recursive
    requires NameMeetsArray(v.Kid(i), if picked then steps[k0 + 1..] else steps[k0..], rel, k)
    ensures NameMeetsArray(v, steps[k0..], [i] + rel, if picked then k + 1 else k)
  {
    var tail := steps[k0..];
    var n := if picked then k + 1 else k;
    assert ([i] + rel)[1..] == rel;
    assert Components(v, [i] + rel)[1..] == Components(v.Kid(i), rel);
    if picked {
      assert tail[n] == steps[k0 + 1..][k] && tail[..n][1..] == steps[k0 + 1..][..k];
    } else if k > 0 {
      assert tail[..k][0] == steps[k0];
    }
  }

  // Main result on failure: a run fails exactly when it reaches an array that
  // a non-recursive name is applied to, and otherwise finishes.
  lemma {:induction false} FailsExactlyWhen(steps: seq<Step>, root: Variant)
    requires WellFormed(root)
    ensures !Answers(Commands(steps), root).end.Stuck?
    ensures Answers(Commands(steps), root).end.AssertFailed?
      <==> exists rel: Path, k: nat :: NameMeetsArray(root, steps, rel, k)
  {
    assert steps[0..] == steps;
    if !Answers(Commands(steps), root).end.Finished? {
      var rel, k := MetIfFails(steps, [], root, 0);
    }
    forall rel: Path, k: nat | NameMeetsArray(root, steps, rel, k)
      ensures !Answers(Commands(steps), root).end.Finished?
    {
      FailsIfMet(steps, [], root, 0, rel, k);
    }
  }

  // ---- duplicates ----

  function RecursiveSteps(steps: seq<Step>): nat {
    if steps == [] then 0 else (if steps[0].recursive then 1 else 0) + RecursiveSteps(steps[1..])
  }

  lemma {:induction false} MatchLength(cs: seq<Component>, steps: seq<Step>)
    requires Ways(cs, steps) > 0
    ensures |cs| >= |steps|
    ensures RecursiveSteps(steps) == 0 ==> |cs| == |steps|
    decreases |cs|
  {
    if steps != [] {
      if Picks(steps[0].sel, cs[0]) && Ways(cs[1..], steps[1..]) > 0 {
        MatchLength(cs[1..], steps[1..]);
      } else {
        MatchLength(cs[1..], steps);
      }
    }
  }

  lemma {:induction false} OneWay(cs: seq<Component>, steps: seq<Step>)
    requires RecursiveSteps(steps) <= 1
    ensures Ways(cs, steps) <= 1
    decreases |cs|
  {
    if steps != [] && cs != [] {
      OneWay(cs[1..], steps[1..]);
      OneWay(cs[1..], steps);
      if steps[0].recursive && Ways(cs[1..], steps[1..]) > 0 && Ways(cs[1..], steps) > 0 {
        MatchLength(cs[1..], steps[1..]);
        MatchLength(cs[1..], steps);
      }
    }
  }

  // With at most one recursive step no node is answered twice.
  lemma {:induction false} NoDuplicates(steps: seq<Step>, root: Variant)
    requires WellFormed(root) && RecursiveSteps(steps) <= 1
    requires Answers(Commands(steps), root).end.Finished?
    ensures var out := Answers(Commands(steps), root).out;
      forall i, j | 0 <= i < j < |out| :: out[i] != out[j]
  {
    var out := Answers(Commands(steps), root).out;
    forall i, j | 0 <= i < j < |out|
      ensures out[i] != out[j]
    {
      AnswerMultiplicity(steps, root, out[i]);
      if ValidPath(root, out[i]) {
        OneWay(Components(root, out[i]), steps);
      }
      assert out == out[..i] + [out[i]] + out[i + 1..];
      assert multiset(out) == multiset(out[..i]) + multiset{out[i]} + multiset(out[i + 1..]);
      assert out[j] == out[i + 1..][j - i - 1] && out[j] in multiset(out[i + 1..]);
    }
  }
}
