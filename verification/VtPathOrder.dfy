// The order of the answers: by the routes that lead to them, and for $..* in
// document order.
module VtPathOrder {
  import opened Variants
  import opened VtPathSpec
  import opened VtPathPattern

  // Document order: an ancestor first, then by position at the first difference.
  predicate Before(a: Path, b: Path) {
    if b == [] then false
    else if a == [] then true
    else a[0] < b[0] || (a[0] == b[0] && Before(a[1..], b[1..]))
  }

  ghost predicate InDocumentOrder(out: seq<Path>) {
    forall i, j | 0 <= i < j < |out| :: Before(out[i], out[j])
  }

  const EVERYTHING := [Step(true, Any)]

  lemma {:induction false} BeforeBelow(p: Path, a: Path, b: Path)
    requires p <= a && p <= b
    ensures Before(a, b) == Before(a[|p|..], b[|p|..])
  {
    if p != [] {
      BeforeBelow(p[1..], a[1..], b[1..]);
      assert a[1..][|p| - 1..] == a[|p|..] && b[1..][|p| - 1..] == b[|p|..];
    }
  }

  lemma {:induction false} EverythingMatches(cs: seq<Component>)
    ensures Ways(cs, EVERYTHING) == if cs == [] then 0 else 1
  {
    if cs != [] {
      EverythingMatches(cs[1..]);
      assert EVERYTHING[1..] == [];
    }
  }

  lemma {:induction false} ComponentsEmpty(v: Variant, p: Path)
    requires ValidPath(v, p)
    ensures Components(v, p) == [] <==> p == []
  {
  }

  lemma {:induction false} NothingInOrder()
    ensures InDocumentOrder([])
  {
  }

  // The answers from child i on lie below later children, and in order.
  lemma {:induction false} KidsInOrder(p: Path, v: Variant, i: nat)
    requires v.IsContainer() && i <= v.NumKids() && WellFormed(v)
    ensures var t := KidsTrace(Commands(EVERYTHING), p, v, 1, i);
      && t.end.Finished?
      && InDocumentOrder(t.out)
      && forall q | q in t.out :: p <= q && |q| > |p| && q[|p|] >= i
    decreases v, v.NumKids() - i
  {
    hide InDocumentOrder, KidsTrace;
    var cmds := Commands(EVERYTHING);
    CommandsAt(EVERYTHING, 0);
    KidsSplit(EVERYTHING, p, v, 0, i);
    NothingInOrder();
    if i < v.NumKids() {
      var kid, pk := v.Kid(i), p + [i];
      KidsInOrder(p, v, i + 1);
      if kid.IsContainer() {
        KidsInOrder(pk, kid, 0);
      }
      var below := ContainerTrace(cmds, pk, kid, 1);
      var later := KidsTrace(cmds, p, v, 1, i + 1);
      assert KidTrace(cmds, p, v, 1, i) == Trace([pk] + below.out, Finished);
      InOrderConcat(p, i, below.out, later.out);
    }
  }

  lemma {:induction false} InOrderConcat(p: Path, i: nat, below: seq<Path>, later: seq<Path>)
    requires InDocumentOrder(below) && InDocumentOrder(later)
    requires forall q | q in below :: p + [i] <= q && |q| > |p| + 1
    requires forall q | q in later :: p <= q && |q| > |p| && q[|p|] >= i + 1
    ensures InDocumentOrder([p + [i]] + below + later)
    ensures forall q | q in [p + [i]] + below + later :: p <= q && |q| > |p| && q[|p|] >= i
  {
    var pk := p + [i];
    var out := [pk] + below + later;
    forall q | q in [pk] + below
      ensures p <= q && |q| > |p| && q[|p|] == i
    {
      assert pk <= q;
      assert p == pk[..|p|] == q[..|p|];
      assert q[|p|] == pk[|p|];
    }
    forall a, b | 0 <= a < b < |out|
      ensures Before(out[a], out[b])
    {
      assert out[a] in [pk] + below || out[a] in later;
      assert out[b] in below || out[b] in later;
      if a == 0 && b < 1 + |below| {
        BeforeBelow(pk, out[a], out[b]);
      } else if a < 1 + |below| <= b {
        BeforeBelow(p, out[a], out[b]);
      } else if b < 1 + |below| {
        assert out[a] == below[a - 1] && out[b] == below[b - 1];
      } else {
        assert out[a] == later[a - 1 - |below|] && out[b] == later[b - 1 - |below|];
      }
    }
  }

  // $..* answers every proper descendant of the root once, in document order.
  lemma {:induction false} EverythingInPreorder(root: Variant)
    requires WellFormed(root)
    ensures var t := Answers(Commands(EVERYTHING), root);
      && t.end.Finished?
      && InDocumentOrder(t.out)
      && (forall q :: q in t.out <==> q != [] && ValidPath(root, q))
      && forall i, j | 0 <= i < j < |t.out| :: t.out[i] != t.out[j]
  {
    var t := Answers(Commands(EVERYTHING), root);
    CommandsAt(EVERYTHING, 0);
    StepTrace(EVERYTHING, [], root, 0);
    if root.IsContainer() {
      KidsInOrder([], root, 0);
    }
    assert RecursiveSteps(EVERYTHING) == 1;
    NoDuplicates(EVERYTHING, root);
    forall q
      ensures q in t.out <==> q != [] && ValidPath(root, q)
    {
      AnswerMultiplicity(EVERYTHING, root, q);
      assert q in t.out <==> q in multiset(t.out);
      if ValidPath(root, q) {
        ComponentsEmpty(root, q);
        EverythingMatches(Components(root, q));
      }
    }
  }

  // ---- the order of the answers to any pattern ----

  // The node each step picks, as a path from the one picked before it.
  type Route = seq<Path>

  ghost predicate Reaches(v: Variant, d: Path, s: Step): (b: bool)
    ensures b ==> ValidPath(v, d)
    decreases |d|
  {
    && d != [] && d[0] < v.NumKids()
    && if |d| == 1 then Picks(s.sel, ComponentAt(v, d[0])) else s.recursive && Reaches(v.Kid(d[0]), d[1..], s)
  }

  ghost predicate IsRoute(v: Variant, steps: seq<Step>, r: Route)
    decreases |steps|
  {
    if steps == [] then r == []
    else r != [] && Reaches(v, r[0], steps[0]) && IsRoute(At(v, r[0]), steps[1..], r[1..])
  }

  function EndOfRoute(p: Path, r: Route): Path
    decreases |r|
  {
    if r == [] then p else EndOfRoute(p + r[0], r[1..])
  }

  // A descendant first, then by position at the first difference.
  predicate BottomUp(a: Path, b: Path) {
    if a == [] then false
    else if b == [] then true
    else a[0] < b[0] || (a[0] == b[0] && BottomUp(a[1..], b[1..]))
  }

  // By the first step that picks another node: the last step goes top down,
  // all others go bottom up.
  predicate RouteBefore(a: Route, b: Route)
    decreases |a|
  {
    && |a| == |b| > 0
    && if a[0] == b[0] then RouteBefore(a[1..], b[1..])
       else if |a| == 1 then Before(a[0], b[0]) else BottomUp(a[0], b[0])
  }

  // These routes lead to these nodes, and are in order.
  ghost predicate Leading(rs: seq<Route>, p: Path, out: seq<Path>) {
    && |rs| == |out| && (forall j | 0 <= j < |rs| :: EndOfRoute(p, rs[j]) == out[j])
    && forall i, j | 0 <= i < j < |rs| :: RouteBefore(rs[i], rs[j])
  }

  ghost predicate RouteVia(v: Variant, steps: seq<Step>, r: Route, i: nat) {
    IsRoute(v, steps, r) && r != [] && r[0] != [] && r[0][0] == i
  }

  function Pick(i: nat, r: Route): Route { [[i]] + r }
  function Under(i: nat, r: Route): Route { if r == [] then [] else [[i] + r[0]] + r[1..] }

  function PickAll(i: nat, rs: seq<Route>): seq<Route> { seq(|rs|, j requires 0 <= j < |rs| => Pick(i, rs[j])) }
  function UnderAll(i: nat, rs: seq<Route>): seq<Route> { seq(|rs|, j requires 0 <= j < |rs| => Under(i, rs[j])) }

  lemma {:induction false} RouteLength(v: Variant, steps: seq<Step>, r: Route)
    requires IsRoute(v, steps, r)
    ensures |r| == |steps| && (r != [] ==> r[0] != [] && r[0][0] < v.NumKids())
    decreases |steps|
  {
    if steps != [] {
      RouteLength(At(v, r[0]), steps[1..], r[1..]);
    }
  }

  // A route via child i picks that child, or is a route below it.
  lemma {:induction false} RouteSplit(v: Variant, steps: seq<Step>, r: Route, i: nat)
    requires steps != [] && r != [] && r[0] != [] && r[0][0] == i < v.NumKids()
    ensures IsRoute(v, steps, r) <==>
      if |r[0]| == 1 then Picks(steps[0].sel, ComponentAt(v, i)) && IsRoute(v.Kid(i), steps[1..], r[1..])
      else steps[0].recursive && IsRoute(v.Kid(i), steps, [r[0][1..]] + r[1..])
  {
    var below := [r[0][1..]] + r[1..];
    assert below[0] == r[0][1..] && below[1..] == r[1..];
    if |r[0]| == 1 {
      OneDown(v, i);
      assert r[0] == [i];
    } else if ValidPath(v, r[0]) {
      assert At(v, r[0]) == At(v.Kid(i), r[0][1..]);
    }
  }

  lemma {:induction false} OneDown(v: Variant, i: nat)
    requires i < v.NumKids()
    ensures ValidPath(v, [i]) && At(v, [i]) == v.Kid(i)
  {
    var d := [i][1..];
    assert d == [] && ValidPath(v.Kid(i), d) && At(v.Kid(i), d) == v.Kid(i);
  }

  lemma {:induction false} PickLeading(i: nat, rs: seq<Route>, p: Path, out: seq<Path>)
    requires Leading(rs, p + [i], out)
    ensures Leading(PickAll(i, rs), p, out)
    ensures forall r :: r in PickAll(i, rs) <==> r != [] && r[0] == [i] && r[1..] in rs
  {
    var all := PickAll(i, rs);
    forall j | 0 <= j < |rs|
      ensures EndOfRoute(p, all[j]) == out[j] && all[j][0] == [i] && all[j][1..] == rs[j]
    {
      assert all[j][1..] == rs[j];
    }
    forall a, b | 0 <= a < b < |rs|
      ensures RouteBefore(all[a], all[b])
    {
      assert |rs[a]| == |rs[b]| > 0 && RouteBefore(rs[a], rs[b]);
      assert all[a][1..] == rs[a] && all[b][1..] == rs[b];
    }
    forall r | r != [] && r[0] == [i] && r[1..] in rs
      ensures r in all
    {
      var j :| 0 <= j < |rs| && rs[j] == r[1..];
      assert all[j] == r;
    }
  }

  lemma {:induction false} UnderBefore(i: nat, a: Route, b: Route)
    requires RouteBefore(a, b)
    ensures RouteBefore(Under(i, a), Under(i, b))
  {
    var c, d := Under(i, a), Under(i, b);
    assert c[1..] == a[1..] && d[1..] == b[1..];
    assert c[0][1..] == a[0] && d[0][1..] == b[0];
  }

  lemma {:induction false} UnderLeading(i: nat, rs: seq<Route>, p: Path, out: seq<Path>)
    requires Leading(rs, p + [i], out) && forall r | r in rs :: r != []
    ensures Leading(UnderAll(i, rs), p, out)
    ensures forall r :: r in UnderAll(i, rs) <==>
      r != [] && r[0] != [] && r[0][0] == i && [r[0][1..]] + r[1..] in rs
  {
    var all := UnderAll(i, rs);
    forall j | 0 <= j < |rs|
      ensures EndOfRoute(p, all[j]) == out[j] && all[j] == Under(i, rs[j])
      ensures all[j] != [] && all[j][0] == [i] + rs[j][0] && [all[j][0][1..]] + all[j][1..] == rs[j]
    {
      assert rs[j] in rs;
      assert all[j][1..] == rs[j][1..] && p + ([i] + rs[j][0]) == (p + [i]) + rs[j][0];
      assert all[j][0][1..] == rs[j][0];
    }
    forall a, b | 0 <= a < b < |rs|
      ensures RouteBefore(all[a], all[b])
    {
      UnderBefore(i, rs[a], rs[b]);
    }
    forall r | r != [] && r[0] != [] && r[0][0] == i && [r[0][1..]] + r[1..] in rs
      ensures r in all
    {
      var j :| 0 <= j < |rs| && rs[j] == [r[0][1..]] + r[1..];
      assert [i] + r[0][1..] == r[0] && [r[0]] + r[1..] == r;
      assert all[j] == r;
    }
  }

  lemma {:induction false} LeadingBoth(a: seq<Route>, b: seq<Route>, p: Path, s: seq<Path>, t: seq<Path>)
    requires Leading(a, p, s) && Leading(b, p, t)
    requires forall x, y | x in a && y in b :: RouteBefore(x, y)
    ensures Leading(a + b, p, s + t)
  {
    var all := a + b;
    forall i, j | 0 <= i < j < |all|
      ensures RouteBefore(all[i], all[j])
    {
      if i < |a| <= j {
        assert all[i] in a && all[j] in b;
      }
    }
  }

  lemma {:induction false} KidsApart(a: Route, b: Route)
    requires |a| == |b| > 0 && a[0] != [] && b[0] != [] && a[0][0] < b[0][0]
    ensures RouteBefore(a, b)
  {
  }

  lemma {:induction false} PickedOrPassed(i: nat, a: Route, b: Route)
    requires |a| == |b| > 0 && a[0] == [i] && |b[0]| > 1 && b[0][0] == i
    ensures if |a| == 1 then RouteBefore(a, b) else RouteBefore(b, a)
  {
    assert a[0][1..] == [] && b[0][1..] != [];
  }

  // The routes from a node, in the order of its answers.
  lemma {:induction false} RoutesFrom(steps: seq<Step>, p: Path, v: Variant, k: nat) returns (rs: seq<Route>)
    requires k <= |steps| && WellFormed(v)
    requires MatchTrace(Commands(steps), p, v, 1 + 2 * k).end.Finished?
    ensures Leading(rs, p, MatchTrace(Commands(steps), p, v, 1 + 2 * k).out)
    ensures forall r :: r in rs <==> IsRoute(v, steps[k..], r)
    decreases v, 2, 0
  {
    hide Leading, WellFormed, KidsTrace, KidTrace;
    if k == |steps| {
      rs := NoStepsLeft(steps, p, v);
    } else {
      StepTrace(steps, p, v, k);
      if !v.IsContainer() {
        rs := [];
        NoRoutes(v, steps[k..], p);
      } else if steps[k].recursive || steps[k].sel.Any? {
        rs := KidsRoutes(steps, p, v, k, 0);
        AllVia(v, steps[k..]);
      } else {
        rs := NamedRoutes(steps, p, v, k);
      }
    }
  }

  lemma {:induction false} NoStepsLeft(steps: seq<Step>, p: Path, v: Variant) returns (rs: seq<Route>)
    ensures Leading(rs, p, MatchTrace(Commands(steps), p, v, 1 + 2 * |steps|).out)
    ensures forall r :: r in rs <==> IsRoute(v, steps[|steps|..], r)
  {
    CommandsLength(steps);
    rs := [[]];
  }

  lemma {:induction false} NoRoutes(v: Variant, steps: seq<Step>, p: Path)
    requires steps != [] && v.NumKids() == 0
    ensures Leading([], p, []) && forall r :: !IsRoute(v, steps, r)
  {
  }

  lemma {:induction false} AllVia(v: Variant, steps: seq<Step>)
    requires steps != []
    ensures forall r :: IsRoute(v, steps, r) <==> exists j :: 0 <= j < v.NumKids() && RouteVia(v, steps, r, j)
  {
    forall r | IsRoute(v, steps, r)
      ensures exists j :: 0 <= j < v.NumKids() && RouteVia(v, steps, r, j)
    {
      RouteLength(v, steps, r);
      assert RouteVia(v, steps, r, r[0][0]);
    }
  }

  lemma {:induction false} NamedRoutes(steps: seq<Step>, p: Path, v: Variant, k: nat) returns (rs: seq<Route>)
    requires k < |steps| && WellFormed(v) && v.IsContainer() && !steps[k].recursive && steps[k].sel.Name?
    requires MatchTrace(Commands(steps), p, v, 1 + 2 * k).end.Finished?
    ensures Leading(rs, p, MatchTrace(Commands(steps), p, v, 1 + 2 * k).out)
    ensures forall r :: r in rs <==> IsRoute(v, steps[k..], r)
    decreases v, 1, 0
  {
    hide KidsTrace, KidTrace, MatchTrace, Leading;
    StepTrace(steps, p, v, k);
    var j := FindKey(v.entries, steps[k].sel.name);
    var tail := steps[k..];
    assert tail[0] == steps[k] && tail[1..] == steps[k + 1..];
    var below: seq<Route> := [];
    if j < |v.entries| {
      below := RoutesFrom(steps, p + [j], v.Kid(j), k + 1);
      PickLeading(j, below, p, MatchTrace(Commands(steps), p + [j], v.Kid(j), 1 + 2 * (k + 1)).out);
      rs := PickAll(j, below);
    } else {
      rs := [];
      NoneLeading(p);
    }
    forall r
      ensures r in rs <==> IsRoute(v, tail, r)
    {
      if IsRoute(v, tail, r) {
        RouteLength(v, tail, r);
        RouteSplit(v, tail, r, r[0][0]);
        assert r[0] == [r[0][0]];
        if j < |v.entries| {
          SortedKeysDistinct(v.entries, r[0][0], j);
        }
      }
      if r in rs {
        RouteSplit(v, tail, r, j);
      }
    }
  }

  lemma {:induction false} NoneLeading(p: Path)
    ensures Leading([], p, [])
  {
  }

  // The same from child i on, under a recursive step or a wildcard.
  lemma {:induction false} KidsRoutes(steps: seq<Step>, p: Path, v: Variant, k: nat, i: nat) returns (rs: seq<Route>)
    requires k < |steps| && WellFormed(v) && v.IsContainer() && i <= v.NumKids()
    requires steps[k].recursive || steps[k].sel.Any?
    requires KidsTrace(Commands(steps), p, v, 1 + 2 * k, i).end.Finished?
    ensures Leading(rs, p, KidsTrace(Commands(steps), p, v, 1 + 2 * k, i).out)
    ensures forall r :: r in rs <==> exists j :: i <= j < v.NumKids() && RouteVia(v, steps[k..], r, j)
    decreases v, 1, v.NumKids() - i
  {
    hide KidsTrace, KidTrace, Leading, WellFormed, RouteVia;
    CommandsLength(steps);
    KidsSplit(steps, p, v, k, i);
    if i == v.NumKids() {
      rs := [];
      NoneLeading(p);
    } else {
      var t, more := KidTrace(Commands(steps), p, v, 1 + 2 * k, i), KidsTrace(Commands(steps), p, v, 1 + 2 * k, i + 1);
      var first := KidRoutes(steps, p, v, k, i);
      var rest := KidsRoutes(steps, p, v, k, i + 1);
      FirstKidFirst(v, steps[k..], i, first, rest);
      LeadingBoth(first, rest, p, t.out, more.out);
      rs := first + rest;
    }
  }

  lemma {:induction false} FirstKidFirst(v: Variant, steps: seq<Step>, i: nat, first: seq<Route>, rest: seq<Route>)
    requires forall r | r in first :: RouteVia(v, steps, r, i)
    requires forall r | r in rest :: exists j :: i + 1 <= j < v.NumKids() && RouteVia(v, steps, r, j)
    ensures forall a, b | a in first && b in rest :: RouteBefore(a, b)
  {
    forall a, b | a in first && b in rest
      ensures RouteBefore(a, b)
    {
      RouteLength(v, steps, a);
      RouteLength(v, steps, b);
      KidsApart(a, b);
    }
  }

  // The routes via child i: a final pick comes before what is below, an
  // intermediate one after it.
  lemma {:induction false} KidRoutes(steps: seq<Step>, p: Path, v: Variant, k: nat, i: nat) returns (rs: seq<Route>)
    requires k < |steps| && WellFormed(v) && i < v.NumKids()
    requires KidTrace(Commands(steps), p, v, 1 + 2 * k, i).end.Finished?
    ensures Leading(rs, p, KidTrace(Commands(steps), p, v, 1 + 2 * k, i).out)
    ensures forall r :: r in rs <==> RouteVia(v, steps[k..], r, i)
    decreases v, 0, 0
  {
    hide KidsTrace, KidTrace, MatchTrace, ContainerTrace, Leading, RouteVia, WellFormed, IsRoute, PickAll, UnderAll;
    var cmds, c, tail := Commands(steps), 1 + 2 * k, steps[k..];
    assert tail[0] == steps[k] && tail[1..] == steps[k + 1..];
    var picked := Picks(steps[k].sel, ComponentAt(v, i));
    KidParts(steps, v, k, i);
    KidTraceShares(cmds, p, v, c, i);
    var m := MatchShare(cmds, p + [i], v.Kid(i), c + 2, picked);
    var d := DescendShare(cmds, p + [i], v.Kid(i), c, steps[k].recursive);
    var ms, ds: seq<Route> := [], [];
    NoneLeading(p);
    if picked {
      var below := RoutesFrom(steps, p + [i], v.Kid(i), k + 1);
      PickLeading(i, below, p, m.out);
      ms := PickAll(i, below);
    }
    if steps[k].recursive {
      var below := DescendRoutes(steps, p + [i], v.Kid(i), k);
      RoutesSome(v.Kid(i), tail, below);
      UnderLeading(i, below, p, d.out);
      ds := UnderAll(i, below);
    }
    RoutesVia(v, steps, k, i, ms, ds);
    if c + 2 == |cmds| {
      LeadingBoth(ms, ds, p, m.out, d.out);
      rs := ms + ds;
    } else {
      LeadingBoth(ds, ms, p, d.out, m.out);
      rs := ds + ms;
    }
  }

  lemma {:induction false} RoutesSome(v: Variant, steps: seq<Step>, rs: seq<Route>)
    requires steps != [] && forall r | r in rs :: IsRoute(v, steps, r)
    ensures forall r | r in rs :: r != []
  {
  }

  lemma {:induction false} RoutesVia(v: Variant, steps: seq<Step>, k: nat, i: nat, ms: seq<Route>, ds: seq<Route>)
    requires k < |steps| && i < v.NumKids()
    requires forall r :: r in ms <==>
      Picks(steps[k].sel, ComponentAt(v, i)) && r != [] && r[0] == [i] && IsRoute(v.Kid(i), steps[k + 1..], r[1..])
    requires forall r :: r in ds <==>
      steps[k].recursive && r != [] && r[0] != [] && r[0][0] == i && IsRoute(v.Kid(i), steps[k..], [r[0][1..]] + r[1..])
    ensures forall r :: r in ms + ds <==> RouteVia(v, steps[k..], r, i)
    ensures forall a, b | a in ms && b in ds :: if k + 1 == |steps| then RouteBefore(a, b) else RouteBefore(b, a)
  {
    var tail := steps[k..];
    assert tail[0] == steps[k] && tail[1..] == steps[k + 1..];
    forall r | r != [] && r[0] != [] && r[0][0] == i
      ensures r in ms + ds <==> IsRoute(v, tail, r)
    {
      RouteSplit(v, tail, r, i);
      if |r[0]| == 1 {
        assert r[0] == [i] && r[0][1..] == [];
        assert r !in ds by {
          if r in ds {
            RouteLength(v.Kid(i), tail, [r[0][1..]] + r[1..]);
          }
        }
      }
    }
    forall a, b | a in ms && b in ds
      ensures if k + 1 == |steps| then RouteBefore(a, b) else RouteBefore(b, a)
    {
      RouteLength(v.Kid(i), steps[k + 1..], a[1..]);
      RouteLength(v.Kid(i), tail, [b[0][1..]] + b[1..]);
      PickedOrPassed(i, a, b);
    }
  }

  lemma {:induction false} DescendRoutes(steps: seq<Step>, p: Path, v: Variant, k: nat) returns (rs: seq<Route>)
    requires k < |steps| && WellFormed(v) && steps[k].recursive
    requires |Commands(steps)| == 1 + 2 * |steps|
    requires ContainerTrace(Commands(steps), p, v, 1 + 2 * k).end.Finished?
    ensures Leading(rs, p, ContainerTrace(Commands(steps), p, v, 1 + 2 * k).out)
    ensures forall r :: r in rs <==> IsRoute(v, steps[k..], r)
    decreases v, 2, 0
  {
    hide KidsTrace, KidTrace, Leading, WellFormed, RouteVia;
    if v.IsContainer() {
      rs := KidsRoutes(steps, p, v, k, 0);
      AllVia(v, steps[k..]);
    } else {
      rs := [];
      NoRoutes(v, steps[k..], p);
    }
  }

  // Main result on order: a run that does not fail answers the ends of all
  // routes of the pattern, each route once, in the order of routes.
  lemma {:induction false} AnswersInOrder(steps: seq<Step>, root: Variant) returns (rs: seq<Route>)
    requires WellFormed(root) && Answers(Commands(steps), root).end.Finished?
    ensures var out := Answers(Commands(steps), root).out;
      |rs| == |out| && forall j | 0 <= j < |rs| :: EndOfRoute([], rs[j]) == out[j]
    ensures forall r :: r in rs <==> IsRoute(root, steps, r)
    ensures forall i, j | 0 <= i < j < |rs| :: RouteBefore(rs[i], rs[j])
  {
    rs := RoutesFrom(steps, [], root, 0);
    assert steps[0..] == steps;
  }
}
