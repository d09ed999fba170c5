// The recursive directory lister: an explicit stack of open directories, and
// pruning on request (tinfra/fs.cpp).
module Lister {
  import opened Common

  // A directory tree; entries in the order the system lists them.
  datatype Entry = Regular(name: string) | Directory(name: string, entries: seq<Entry>)

  // The names below the place the listing started at.
  type Path = seq<string>

  // No directory lists a name twice.
  predicate Distinct(es: seq<Entry>) {
    && (forall i, j | 0 <= i < j < |es| :: es[i].name != es[j].name)
    && forall i | 0 <= i < |es| && es[i].Directory? :: Distinct(es[i].entries)
  }

  // ---- looking a path up ----

  function Find(es: seq<Entry>, name: string): Option<Entry> {
    if es == [] then None else if es[0].name == name then Some(es[0]) else Find(es[1..], name)
  }

  // What the directory at p lists.
  function Open(es: seq<Entry>, p: Path): Option<seq<Entry>>
    decreases |p|
  {
    if p == [] then Some(es)
    else
      match Find(es, p[0])
      case Some(Directory(_, inner)) => Open(inner, p[1..])
      case _ => None
  }

  lemma {:induction false} FindAt(es: seq<Entry>, i: nat)
    requires i < |es| && Distinct(es)
    ensures Find(es, es[i].name) == Some(es[i])
  {
    if i > 0 {
      assert es[0].name != es[i].name;
      assert forall j | 0 <= j < |es[1..]| :: es[1..][j] == es[j + 1];
      FindAt(es[1..], i - 1);
    }
  }

  lemma {:induction false} OpenDistinct(es: seq<Entry>, p: Path)
    requires Distinct(es) && Open(es, p).Some?
    ensures Distinct(Open(es, p).value)
    decreases |p|
  {
    if p != [] {
      FindIn(es, p[0]);
      OpenDistinct(Find(es, p[0]).value.entries, p[1..]);
    }
  }

  lemma {:induction false} FindIn(es: seq<Entry>, name: string)
    requires Find(es, name).Some?
    ensures exists i :: 0 <= i < |es| && es[i] == Find(es, name).value
  {
    if es[0].name != name {
      FindIn(es[1..], name);
    }
  }

  // Opening the path of a listed directory gives that directory.
  lemma {:induction false} OpenChild(es: seq<Entry>, p: Path, i: nat)
    requires Distinct(es) && Open(es, p).Some? && i < |Open(es, p).value| && Open(es, p).value[i].Directory?
    ensures Open(es, p + [Open(es, p).value[i].name]) == Some(Open(es, p).value[i].entries)
    decreases |p|
  {
    var e := Open(es, p).value[i];
    if p == [] {
      FindAt(es, i);
      assert ([] + [e.name])[1..] == [];
    } else {
      assert (p + [e.name])[1..] == p[1..] + [e.name];
      FindIn(es, p[0]);
      OpenChild(Find(es, p[0]).value.entries, p[1..], i);
    }
  }

  lemma {:induction false} OpenEntry(es: seq<Entry>, p: Path, i: nat)
    requires Distinct(es) && Open(es, p).Some? && i < |Open(es, p).value|
    ensures var e := Open(es, p).value[i];
      Open(es, p + [e.name]) == if e.Directory? then Some(e.entries) else None
    decreases |p|
  {
    var e := Open(es, p).value[i];
    if e.Directory? {
      OpenChild(es, p, i);
    } else if p == [] {
      FindAt(es, i);
    } else {
      assert (p + [e.name])[1..] == p[1..] + [e.name];
      FindIn(es, p[0]);
      OpenEntry(Find(es, p[0]).value.entries, p[1..], i);
    }
  }

  // ---- the meaning: preorder, without what is inside unwanted entries ----

  function Walk(base: Path, es: seq<Entry>, dig: Path -> bool): seq<Path>
    decreases es
  {
    if es == [] then []
    else
      var p := base + [es[0].name];
      [p] + ((if es[0].Directory? && dig(p) then Walk(p, es[0].entries, dig) else []) + Walk(base, es[1..], dig))
  }

  // ---- what the walk holds ----

  // A path below base names an entry, and every directory on the way to it is
  // dug into.
  predicate Wanted(base: Path, es: seq<Entry>, below: Path, dig: Path -> bool)
    decreases |below|
  {
    && below != []
    && match Find(es, below[0])
       case None => false
       case Some(e) =>
         |below| == 1 || (e.Directory? && dig(base + [e.name]) && Wanted(base + [e.name], e.entries, below[1..], dig))
  }

  lemma {:induction false} WalkBelow(base: Path, es: seq<Entry>, dig: Path -> bool)
    ensures forall q | q in Walk(base, es, dig) :: base < q
    decreases es
  {
    if es != [] {
      var p := base + [es[0].name];
      if es[0].Directory? {
        WalkBelow(p, es[0].entries, dig);
      }
      WalkBelow(base, es[1..], dig);
    }
  }

  lemma {:induction false} DistinctRest(es: seq<Entry>)
    requires es != [] && Distinct(es)
    ensures Distinct(es[1..]) && Find(es[1..], es[0].name).None? && (es[0].Directory? ==> Distinct(es[0].entries))
  {
    assert forall j | 0 <= j < |es[1..]| :: es[1..][j] == es[j + 1];
    if Find(es[1..], es[0].name).Some? {
      FindIn(es[1..], es[0].name);
      FindName(es[1..], es[0].name);
    }
  }

  lemma {:induction false} FindName(es: seq<Entry>, name: string)
    requires Find(es, name).Some?
    ensures Find(es, name).value.name == name
  {
    if es[0].name != name {
      FindName(es[1..], name);
    }
  }

  lemma {:induction false} FirstName(base: Path, name: string, below: Path)
    requires below != []
    ensures base + below == base + [name] <==> below == [name]
    ensures base + [name] < base + below ==> below[0] == name
    ensures below[0] == name ==> base + below == (base + [name]) + below[1..]
  {
    var q, p := base + below, base + [name];
    assert q[|base|..] == below && p[|base|..] == [name] && q[|base|] == below[0] && p[|base|] == name;
  }

  // One entry's part of a walk.
  lemma {:induction false} WalkCount(base: Path, es: seq<Entry>, q: Path, dig: Path -> bool)
    requires es != []
    ensures var p := base + [es[0].name];
      multiset(Walk(base, es, dig))[q]
        == (if q == p then 1 else 0)
         + (if es[0].Directory? && dig(p) then multiset(Walk(p, es[0].entries, dig))[q] else 0)
         + multiset(Walk(base, es[1..], dig))[q]
  {
    var p := base + [es[0].name];
    var inside := if es[0].Directory? && dig(p) then Walk(p, es[0].entries, dig) else [];
    assert Walk(base, es, dig) == [p] + (inside + Walk(base, es[1..], dig));
  }

  lemma {:induction false} NotListed(base: Path, es: seq<Entry>, q: Path, dig: Path -> bool)
    requires !(base < q)
    ensures multiset(Walk(base, es, dig))[q] == 0
  {
    WalkBelow(base, es, dig);
    assert q !in Walk(base, es, dig);
  }

  // Every wanted path is listed once, and no other path is listed.
  lemma {:induction false} ListedOnce(base: Path, es: seq<Entry>, below: Path, dig: Path -> bool)
    requires Distinct(es)
    ensures multiset(Walk(base, es, dig))[base + below] == if Wanted(base, es, below, dig) then 1 else 0
    decreases es
  {
    hide Distinct, Walk;
    var q := base + below;
    if below == [] {
      NotListed(base, es, q, dig);
    } else if es == [] {
      NothingToWalk(base, dig);
    } else {
      var p := base + [es[0].name];
      DistinctRest(es);
      WalkCount(base, es, q, dig);
      FirstName(base, es[0].name, below);
      ListedOnce(base, es[1..], below, dig);
      if es[0].Directory? {
        if below[0] == es[0].name {
          ListedOnce(p, es[0].entries, below[1..], dig);
        } else {
          NotListed(p, es[0].entries, q, dig);
        }
      }
    }
  }

  // ---- the order of the walk ----

  function Index(es: seq<Entry>, name: string): nat {
    if es == [] || es[0].name == name then 0 else 1 + Index(es[1..], name)
  }

  function Inside(es: seq<Entry>, name: string): seq<Entry> {
    match Find(es, name)
    case Some(Directory(_, inner)) => inner
    case _ => []
  }

  // An entry before what is inside it, and otherwise as the directories list
  // their entries.
  predicate Earlier(es: seq<Entry>, a: Path, b: Path)
    decreases |a|
  {
    if b == [] then false
    else if a == [] then true
    else if a[0] != b[0] then Index(es, a[0]) < Index(es, b[0])
    else Earlier(Inside(es, a[0]), a[1..], b[1..])
  }

  predicate Ordered(base: Path, es: seq<Entry>, a: Path, b: Path) {
    base < a && base < b && Earlier(es, a[|base|..], b[|base|..])
  }

  predicate InOrder(base: Path, es: seq<Entry>, paths: seq<Path>) {
    forall i, j | 0 <= i < j < |paths| :: Ordered(base, es, paths[i], paths[j])
  }

  // The names of the entries a walk goes through first.
  lemma {:induction false} WalkNames(base: Path, es: seq<Entry>, dig: Path -> bool, q: Path)
    requires q in Walk(base, es, dig)
    ensures base < q && exists i :: 0 <= i < |es| && es[i].name == q[|base|]
    decreases es
  {
    var p := base + [es[0].name];
    WalkBelow(base, es, dig);
    if q == p {
      assert es[0].name == q[|base|];
    } else if es[0].Directory? && q in Walk(p, es[0].entries, dig) {
      WalkBelow(p, es[0].entries, dig);
      assert p[|base|] == q[|base|];
    } else {
      WalkNames(base, es[1..], dig, q);
      var i :| 0 <= i < |es[1..]| && es[1..][i].name == q[|base|];
      assert es[i + 1].name == q[|base|];
    }
  }

  lemma {:induction false} EarlierLater(es: seq<Entry>, a: Path, b: Path)
    requires es != [] && a != [] && b != [] && a[0] != es[0].name && b[0] != es[0].name
    requires Earlier(es[1..], a, b)
    ensures Earlier(es, a, b)
  {
  }

  lemma {:induction false} EarlierInside(es: seq<Entry>, a: Path, b: Path)
    requires es != [] && es[0].Directory? && a != [] && b != [] && a[0] == b[0] == es[0].name
    requires Earlier(es[0].entries, a[1..], b[1..])
    ensures Earlier(es, a, b)
  {
  }

  lemma {:induction false} EarlierFirst(es: seq<Entry>, a: Path, b: Path)
    requires es != [] && a != [] && b != [] && a[0] == es[0].name && (b[0] != a[0] || (|a| == 1 && |b| > 1))
    ensures Earlier(es, a, b)
  {
  }

  // The walk is in this order.
  lemma {:induction false} WalkInOrder(base: Path, es: seq<Entry>, dig: Path -> bool)
    requires Distinct(es)
    ensures InOrder(base, es, Walk(base, es, dig))
    decreases es
  {
    hide Earlier, Distinct, Walk, InOrder, Ordered;
    if es == [] {
      NothingToWalk(base, dig);
      NothingInOrder(base);
    } else {
      var e, p := es[0], base + [es[0].name];
      DistinctRest(es);
      WalkOne(base, es, dig);
      WalkInOrder(base, es[1..], dig);
      LaterInOrder(base, es, dig);
      var inside: seq<Path> := [];
      if e.Directory? && dig(p) {
        inside := Walk(p, e.entries, dig);
        WalkInOrder(p, e.entries, dig);
        WalkBelow(p, e.entries, dig);
      } else {
        NothingBelow(p, es[0]);
      }
      InsideInOrder(base, es, inside);
      AllInOrder(base, es, p, inside, Walk(base, es[1..], dig));
    }
  }

  lemma {:induction false} NothingInOrder(base: Path)
    ensures InOrder(base, [], [])
  {
  }

  lemma {:induction false} NothingBelow(p: Path, e: Entry)
    ensures e.Directory? ==> InOrder(p, e.entries, [])
  {
  }

  lemma {:induction false} AllInOrder(base: Path, es: seq<Entry>, p: Path, inside: seq<Path>, later: seq<Path>)
    requires InOrder(base, es, inside) && InOrder(base, es, later)
    requires forall q | q in inside :: Ordered(base, es, p, q)
    requires forall q | q in later :: Ordered(base, es, p, q)
    requires forall q, r | q in inside && r in later :: Ordered(base, es, q, r)
    ensures InOrder(base, es, [p] + (inside + later))
  {
    hide Ordered;
    var all, k := [p] + (inside + later), 1 + |inside|;
    assert forall i | 1 <= i < k :: all[i] == inside[i - 1] && all[i] in inside;
    assert forall i | k <= i < |all| :: all[i] == later[i - k] && all[i] in later;
  }

  // Inside the first entry, seen from the directory that lists it.
  lemma {:induction false} InsideInOrder(base: Path, es: seq<Entry>, inside: seq<Path>)
    requires es != [] && (inside != [] ==> es[0].Directory?)
    requires forall q | q in inside :: base + [es[0].name] < q
    requires es[0].Directory? ==> InOrder(base + [es[0].name], es[0].entries, inside)
    ensures InOrder(base, es, inside)
    ensures forall q | q in inside :: Ordered(base, es, base + [es[0].name], q)
    ensures forall q | q in inside :: base < q && q[|base|] == es[0].name
  {
    hide Earlier;
    var p := base + [es[0].name];
    forall q | q in inside
      ensures base < q && |q| > |base| + 1 && q[|base|] == es[0].name && q[|base|..][1..] == q[|p|..]
      ensures Ordered(base, es, p, q)
    {
      assert p[|base|] == q[|base|] && base == p[..|base|] == q[..|base|];
      assert p[|base|..] == [es[0].name];
      EarlierFirst(es, p[|base|..], q[|base|..]);
    }
    forall i, j | 0 <= i < j < |inside|
      ensures Ordered(base, es, inside[i], inside[j])
    {
      assert inside[i] in inside && inside[j] in inside && Ordered(p, es[0].entries, inside[i], inside[j]);
      EarlierInside(es, inside[i][|base|..], inside[j][|base|..]);
    }
  }

  // The entries after the first one, seen from the whole listing.
  lemma {:induction false} LaterInOrder(base: Path, es: seq<Entry>, dig: Path -> bool)
    requires es != [] && Distinct(es) && InOrder(base, es[1..], Walk(base, es[1..], dig))
    ensures InOrder(base, es, Walk(base, es[1..], dig))
    ensures forall q | q in Walk(base, es[1..], dig) ::
      base < q && forall a | base < a && a[|base|] == es[0].name :: Ordered(base, es, a, q)
  {
    hide Earlier, Walk;
    var later := Walk(base, es[1..], dig);
    forall q | q in later
      ensures base < q && q[|base|] != es[0].name
    {
      WalkNames(base, es[1..], dig, q);
      var i :| 0 <= i < |es[1..]| && es[1..][i].name == q[|base|];
      assert es[i + 1].name == q[|base|];
    }
    forall q, a | q in later && base < a && a[|base|] == es[0].name
      ensures Ordered(base, es, a, q)
    {
      EarlierFirst(es, a[|base|..], q[|base|..]);
    }
    forall i, j | 0 <= i < j < |later|
      ensures Ordered(base, es, later[i], later[j])
    {
      assert later[i] in later && later[j] in later && Ordered(base, es[1..], later[i], later[j]);
      EarlierLater(es, later[i][|base|..], later[j][|base|..]);
    }
  }

  function Count(es: seq<Entry>): nat {
    if es == [] then 0 else 1 + (if es[0].Directory? then Count(es[0].entries) else 0) + Count(es[1..])
  }

  // What a stack of open directories still gives, the last one first.
  function Rest(bases: seq<Path>, listers: seq<seq<Entry>>, dig: Path -> bool): seq<Path>
    requires |bases| == |listers|
  {
    if listers == [] then []
    else
      var n := |listers| - 1;
      Walk(bases[n], listers[n], dig) + Rest(bases[..n], listers[..n], dig)
  }

  function Left(listers: seq<seq<Entry>>): nat {
    if listers == [] then 0 else Count(listers[|listers| - 1]) + Left(listers[..|listers| - 1])
  }

  lemma {:induction false} Push(bases: seq<Path>, listers: seq<seq<Entry>>, base: Path, es: seq<Entry>,
          dig: Path -> bool)
    requires |bases| == |listers|
    ensures Rest(bases + [base], listers + [es], dig) == Walk(base, es, dig) + Rest(bases, listers, dig)
    ensures Left(listers + [es]) == Count(es) + Left(listers)
  {
    assert (bases + [base])[..|bases|] == bases && (listers + [es])[..|bases|] == listers;
  }

  lemma {:induction false} WalkOne(base: Path, es: seq<Entry>, dig: Path -> bool)
    requires es != []
    ensures var p := base + [es[0].name];
      Walk(base, es, dig)
        == [p] + ((if es[0].Directory? && dig(p) then Walk(p, es[0].entries, dig) else []) + Walk(base, es[1..], dig))
    ensures Count(es) == 1 + (if es[0].Directory? then Count(es[0].entries) else 0) + Count(es[1..])
  {
  }

  lemma {:induction false} NothingToWalk(base: Path, dig: Path -> bool)
    ensures Walk(base, [], dig) == [] && Rest([], [], dig) == [] && Count([]) == 0
  {
  }

  // Taking the next entry off the top, or closing the top if it has none.
  lemma {:induction false} TopTurn(bases: seq<Path>, listers: seq<seq<Entry>>, dig: Path -> bool)
    requires |bases| == |listers| > 0
    ensures var n := |listers| - 1;
      var current := listers[n];
      if current == [] then
        Rest(bases[..n], listers[..n], dig) == Rest(bases, listers, dig) && Left(listers[..n]) == Left(listers)
      else
        var e, p := current[0], bases[n] + [current[0].name];
        var inside := if e.Directory? && dig(p) then Walk(p, e.entries, dig) else [];
        && Rest(bases, listers, dig) == [p] + (inside + Rest(bases, listers[n := current[1..]], dig))
        && Left(listers) == 1 + (if e.Directory? then Count(e.entries) else 0) + Left(listers[n := current[1..]])
  {
    hide Walk, Rest, Left, Count;
    var n := |listers| - 1;
    var current := listers[n];
    RestTop(bases, listers, dig);
    if current == [] {
      NothingToWalk(bases[n], dig);
    } else {
      var after := listers[n := current[1..]];
      WalkOne(bases[n], current, dig);
      RestTop(bases, after, dig);
      assert after[..n] == listers[..n];
      var e, p := current[0], bases[n] + [current[0].name];
      var inside := if e.Directory? && dig(p) then Walk(p, e.entries, dig) else [];
      Regroup([p], inside, Walk(bases[n], current[1..], dig), Rest(bases[..n], listers[..n], dig));
    }
  }

  lemma {:induction false} RestTop(bases: seq<Path>, listers: seq<seq<Entry>>, dig: Path -> bool)
    requires |bases| == |listers| > 0
    ensures var n := |listers| - 1;
      && Rest(bases, listers, dig) == Walk(bases[n], listers[n], dig) + Rest(bases[..n], listers[..n], dig)
      && Left(listers) == Count(listers[n]) + Left(listers[..n])
  {
    hide Walk, Count;
  }

  // What is left of the listing of the directory at base.
  ghost predicate Lists(tree: seq<Entry>, base: Path, left: seq<Entry>) {
    var all := Open(tree, base);
    all.Some? && |left| <= |all.value| && left == all.value[|all.value| - |left|..]
  }

  class RecursiveLister {
    const tree: seq<Entry>
    var listers: seq<seq<Entry>>  // what each open directory has still to list
    var basePaths: seq<Path>
    var lastPath: Path
    var lastWasDir: bool
    var recurseEnabled: bool

    ghost predicate Valid()
      reads this
    {
      && Distinct(tree) && |basePaths| == |listers|
      && (forall k | 0 <= k < |listers| :: Lists(tree, basePaths[k], listers[k]))
      && (lastWasDir ==> listers != [] && Open(tree, lastPath).Some?)
    }

    // What is left besides the inside of the last entry.
    ghost function Beyond(dig: Path -> bool): seq<Path>
      requires Valid()
      reads this
    {
      Rest(basePaths, listers, dig)
    }

    ghost function Remaining(dig: Path -> bool): seq<Path>
      requires Valid()
      reads this
    {
      (if recurseEnabled && lastWasDir then Walk(lastPath, Open(tree, lastPath).value, dig) else []) + Beyond(dig)
    }

    // How many entries can still come.
    ghost function Work(): nat
      requires Valid()
      reads this
    {
      (if recurseEnabled && lastWasDir then Count(Open(tree, lastPath).value) else 0) + Left(listers)
    }

    constructor (tree: seq<Entry>)
      requires Distinct(tree)
      ensures Valid() && this.tree == tree
      ensures forall dig :: Remaining(dig) == Walk([], tree, dig)
    {
      this.tree := tree;
      listers, basePaths := [tree], [[]];
      lastPath, lastWasDir, recurseEnabled := [], false, false;
      new;
      forall dig: Path -> bool
        ensures Remaining(dig) == Walk([], tree, dig)
      {
        assert Rest([[]], [tree], dig) == Walk([], tree, dig) + Rest([], [], dig);
      }
    }

    // Open the last entry, if it is to be listed.
    method Descend(ghost dig: Path -> bool)
      requires Valid()
      modifies this`listers, this`basePaths
      ensures Valid() && (listers == [] ==> !lastWasDir)
      ensures Beyond(dig) == old(Remaining(dig)) && Left(listers) == old(Work())
    {
      hide Open, Distinct, Walk, Count, Rest, Left;
      if recurseEnabled && lastWasDir {
        Push(basePaths, listers, lastPath, Open(tree, lastPath).value, dig);
        listers := listers + [Open(tree, lastPath).value];
        basePaths := basePaths + [lastPath];
      }
    }

    // The next entry of the innermost open directory, which is closed if
    // there is none.
    method Turn(ghost dig: Path -> bool) returns (got: bool, path: Path)
      requires Valid() && listers != [] && recurseEnabled
      modifies this`listers, this`basePaths, this`lastPath, this`lastWasDir
      ensures Valid()
      ensures got ==> old(Beyond(dig)) == [path] + if dig(path) then Remaining(dig) else Beyond(dig)
      ensures got ==> Work() < Left(old(listers))
      ensures !got ==>
        && Beyond(dig) == old(Beyond(dig)) && Left(listers) == Left(old(listers))
        && !lastWasDir && |listers| < |old(listers)|
    {
      hide Open, Distinct, Walk, Count, Rest, Left;
      var n := |listers| - 1;
      var current := listers[n];
      TopTurn(basePaths, listers, dig);
      if current != [] {
        assert Lists(tree, basePaths[n], current);
        ghost var all := Open(tree, basePaths[n]).value;
        ghost var i := |all| - |current|;
        assert current[0] == all[i];
        if all[i].Directory? {
          OpenChild(tree, basePaths[n], i);
        }
        listers := listers[n := current[1..]];
        lastPath := basePaths[n] + [current[0].name];
        lastWasDir := current[0].Directory?;
        return true, lastPath;
      }
      listers, basePaths := listers[..n], basePaths[..n];
      lastWasDir := false;
      got, path := false, [];
    }

    // The next path, whatever the caller decides about this entry and later ones.
    method FetchNext(ghost dig: Path -> bool) returns (ok: bool, path: Path)
      requires Valid()
      modifies this`listers, this`basePaths, this`lastPath, this`lastWasDir, this`recurseEnabled
      ensures Valid()
      ensures ok <==> old(Remaining(dig)) != []
      ensures ok ==> old(Remaining(dig)) == [path] + if dig(path) then Remaining(dig) else Beyond(dig)
      ensures ok ==> recurseEnabled && Work() < old(Work())
      ensures !ok ==> Remaining(dig) == []
    {
      hide Open, Distinct, Walk, Count, Rest, Left, Lists;
      Descend(dig);
      recurseEnabled := true;
      path := [];
      while listers != []
        invariant Valid() && recurseEnabled && (listers == [] ==> !lastWasDir)
        invariant Beyond(dig) == old(Remaining(dig)) && Left(listers) <= old(Work())
        decreases |listers|
      {
        ok, path := Turn(dig);
        if ok {
          return;
        }
      }
      NothingToWalk([], dig);
      ok := false;
    }

    method Recurse(recurse: bool)
      requires Valid()
      modifies this`recurseEnabled
      ensures Valid() && recurseEnabled == recurse
      ensures forall dig :: Beyond(dig) == old(Beyond(dig))
      ensures !recurse ==> (forall dig :: Remaining(dig) == Beyond(dig)) && Work() <= old(Work())
    {
      hide Open, Distinct, Walk, Count, Rest, Left;
      assert forall dig: Path -> bool :: Rest(basePaths, listers, dig) == old(Beyond(dig));
      recurseEnabled := recurse;
    }
  }

  // The directory at start, with the entries dug into: what the listing gives
  // when the caller turns recursion off after the entries it does not want.
  method ListPruned(tree: seq<Entry>, dig: Path -> bool) returns (paths: seq<Path>)
    requires Distinct(tree)
    ensures paths == Walk([], tree, dig)
  {
    hide *;
    paths := [];
    var l := new RecursiveLister(tree);
    ghost var all, more := Walk([], tree, dig), l.Remaining(dig);
    var ok, path := l.FetchNext(dig);
    while ok
      invariant fresh(l) && l.Valid()
      invariant all == paths + more && (ok ==> l.recurseEnabled)
      invariant more == if !ok then [] else [path] + if dig(path) then l.Remaining(dig) else l.Beyond(dig)
      decreases ok, l.Work()
    {
      if !dig(path) {
        l.Recurse(false);
      }
      Moved(paths, path, l.Remaining(dig));
      paths := paths + [path];
      more := l.Remaining(dig);
      ok, path := l.FetchNext(dig);
    }
  }

  lemma {:induction false} Moved(paths: seq<Path>, path: Path, more: seq<Path>)
    ensures paths + ([path] + more) == (paths + [path]) + more
  {
  }

  // walk_: the same visit by recursion, looking at each entry by its path.
  method WalkFrom(tree: seq<Entry>, start: Path, dig: Path -> bool) returns (paths: seq<Path>)
    requires Distinct(tree) && Open(tree, start).Some?
    ensures paths == Walk(start, Open(tree, start).value, dig)
    decreases Open(tree, start).value
  {
    hide Open, Distinct, Walk;
    paths := [];
    var files := Open(tree, start).value;
    assert files[0..] == files;
    var i := 0;
    while i < |files|
      invariant 0 <= i <= |files|
      invariant Walk(start, files, dig) == paths + Walk(start, files[i..], dig)
    {
      var path := start + [files[i].name];
      paths := paths + [path];
      var dir := Open(tree, path).Some?;
      OpenEntry(tree, start, i);
      WalkOne(start, files[i..], dig);
      if dir && dig(path) {
        var more := WalkFrom(tree, path, dig);
        paths := paths + more;
      }
      assert files[i..][1..] == files[i + 1..];
      i := i + 1;
    }
    assert files[i..] == [];
    NothingToWalk(start, dig);
  }
}
