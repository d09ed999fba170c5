// The generic file-tree algorithms: recursive copy, recursive removal and
// directory creation over a virtual file system (tinfra/vfs.cpp).
module Vfs {
  import opened Common

  // The components of an absolute path; the root is [].
  type Path = seq<string>

  datatype Node = File(content: string) | Dir(kids: map<string, Node>)

  // ---- trees ----

  function Get(t: Node, p: Path): Option<Node>
    decreases |p|
  {
    if p == [] then Some(t)
    else if t.File? || p[0] !in t.kids then None
    else Get(t.kids[p[0]], p[1..])
  }

  predicate DirAt(t: Node, p: Path) { Get(t, p).Some? && Get(t, p).value.Dir? }

  predicate FileAt(t: Node, p: Path) { Get(t, p).Some? && Get(t, p).value.File? }

  function Parent(p: Path): Path
    requires p != []
  {
    p[..|p| - 1]
  }

  // A place for an entry: the root's, or one in a directory.
  predicate Room(t: Node, p: Path) { p == [] || DirAt(t, Parent(p)) }

  // t with x at p, replacing what was there.
  function Put(t: Node, p: Path, x: Node): Node
    requires Room(t, p)
    decreases |p|
  {
    if p == [] then x
    else if |p| == 1 then Dir(t.kids[p[0] := x])
    else
      assert Parent(p)[0] == p[0] && Parent(p)[1..] == Parent(p[1..]);
      Dir(t.kids[p[0] := Put(t.kids[p[0]], p[1..], x)])
  }

  // t without what is at p.
  function Remove(t: Node, p: Path): Node
    requires p != [] && Get(t, p).Some?
    decreases |p|
  {
    if |p| == 1 then Dir(t.kids - {p[0]})
    else Dir(t.kids[p[0] := Remove(t.kids[p[0]], p[1..])])
  }

  // No file where p or a directory above it should be.
  predicate Clear(t: Node, p: Path)
    decreases |p|
  {
    t.Dir? && (p != [] && p[0] in t.kids ==> Clear(t.kids[p[0]], p[1..]))
  }

  // t with a directory at p and everywhere above.
  function MkDirs(t: Node, p: Path): Node
    requires Clear(t, p)
    decreases |p|
  {
    if p == [] then t
    else
      var kid := if p[0] in t.kids then t.kids[p[0]] else Dir(map[]);
      Dir(t.kids[p[0] := MkDirs(kid, p[1..])])
  }

  // ---- what these say entry by entry ----

  datatype Entry = IsFile(content: string) | IsDir

  // What a look at one path shows.
  function Look(t: Node, p: Path): Option<Entry> {
    match Get(t, p)
    case None => None
    case Some(File(content)) => Some(IsFile(content))
    case Some(Dir(_)) => Some(IsDir)
  }

  lemma {:induction false} LookKid(t: Node, p: Path)
    requires p != [] && t.Dir?
    ensures Look(t, p) == if p[0] in t.kids then Look(t.kids[p[0]], p[1..]) else None
  {
  }

  // Only p and what is below it changes, and there x appears.
  lemma {:induction false} PutMeaning(t: Node, p: Path, x: Node, q: Path)
    requires Room(t, p)
    ensures Look(Put(t, p, x), q) == if p <= q then Look(x, q[|p|..]) else Look(t, q)
    decreases |p|
  {
    if |p| > 1 {
      assert Parent(p)[0] == p[0] && Parent(p)[1..] == Parent(p[1..]);
    }
    if p != [] && q != [] && q[0] == p[0] {
      if |p| > 1 {
        PutMeaning(t.kids[p[0]], p[1..], x, q[1..]);
      }
      assert p <= q <==> p[1..] <= q[1..];
      assert p <= q ==> q[|p|..] == q[1..][|p| - 1..];
    }
  }

  // Only p and what is below it disappears.
  lemma {:induction false} RemoveMeaning(t: Node, p: Path, q: Path)
    requires p != [] && Get(t, p).Some?
    ensures Look(Remove(t, p), q) == if p <= q then None else Look(t, q)
    decreases |p|
  {
    if q != [] && q[0] == p[0] {
      if |p| > 1 {
        RemoveMeaning(t.kids[p[0]], p[1..], q[1..]);
      }
      assert p <= q <==> p[1..] <= q[1..];
    }
  }

  // Only p and the paths above it become directories.
  lemma {:induction false} MkDirsMeaning(t: Node, p: Path, q: Path)
    requires Clear(t, p)
    ensures Look(MkDirs(t, p), q) == if q <= p then Some(IsDir) else Look(t, q)
    decreases |p|
  {
    if p != [] && q != [] && q[0] == p[0] {
      var kid := if p[0] in t.kids then t.kids[p[0]] else Dir(map[]);
      MkDirsMeaning(kid, p[1..], q[1..]);
      assert q <= p <==> q[1..] <= p[1..];
      LookKid(t, q);
      LookKid(MkDirs(t, p), q);
    }
  }

  // Directories can be made exactly if no file is at p or above it.
  lemma {:induction false} ClearExactly(t: Node, p: Path)
    ensures Clear(t, p) <==> forall q :: q <= p ==> !FileAt(t, q)
    decreases |p|
  {
    if t.File? {
      assert FileAt(t, []) && [] <= p;
    } else if p != [] {
      if p[0] in t.kids {
        ClearExactly(t.kids[p[0]], p[1..]);
        forall q | q <= p[1..] && FileAt(t.kids[p[0]], q)
          ensures exists r :: r <= p && FileAt(t, r)
        {
          assert ([p[0]] + q)[1..] == q && [p[0]] + q <= p && FileAt(t, [p[0]] + q);
        }
      }
      forall q | q != [] && q <= p && FileAt(t, q)
        ensures p[0] in t.kids && q[1..] <= p[1..] && FileAt(t.kids[p[0]], q[1..])
      {
        assert q[0] == p[0];
      }
    }
  }

  // Two trees are the same exactly when every path looks the same.
  lemma {:induction false} SameTree(a: Node, b: Node)
    requires forall q :: Look(a, q) == Look(b, q)
    ensures a == b
    decreases a
  {
    assert Look(a, []) == Look(b, []);
    if a.Dir? {
      forall k | k in a.kids || k in b.kids
        ensures k in a.kids && k in b.kids && a.kids[k] == b.kids[k]
      {
        LookKid(a, [k]);
        LookKid(b, [k]);
        assert Look(a, [k]) == Look(b, [k]);
        assert k in a.kids && k in b.kids;
        forall q
          ensures Look(a.kids[k], q) == Look(b.kids[k], q)
        {
          assert Look(a, [k] + q) == Look(b, [k] + q);
          assert ([k] + q)[1..] == q;
        }
        SameTree(a.kids[k], b.kids[k]);
      }
      assert a.kids.Keys == b.kids.Keys;
    }
  }

  // ---- how the operations combine ----

  lemma {:induction false} GetChild(t: Node, p: Path, c: string)
    ensures Get(t, p + [c])
      == if DirAt(t, p) && c in Get(t, p).value.kids then Some(Get(t, p).value.kids[c]) else None
    decreases |p|
  {
    if p != [] {
      assert (p + [c])[1..] == p[1..] + [c];
      if t.Dir? && p[0] in t.kids {
        GetChild(t.kids[p[0]], p[1..], c);
      }
    }
  }

  lemma {:induction false} GetPut(t: Node, p: Path, x: Node)
    requires Room(t, p)
    ensures Get(Put(t, p, x), p) == Some(x)
    decreases |p|
  {
    if |p| > 1 {
      assert Parent(p)[0] == p[0] && Parent(p)[1..] == Parent(p[1..]);
      GetPut(t.kids[p[0]], p[1..], x);
    }
  }

  lemma {:induction false} GetPutOther(t: Node, p: Path, x: Node, q: Path)
    requires Room(t, p) && !(p <= q) && !(q <= p)
    ensures Get(Put(t, p, x), q) == Get(t, q)
    decreases |p|
  {
    if q[0] == p[0] {
      assert |p| > 1;
      assert Parent(p)[0] == p[0] && Parent(p)[1..] == Parent(p[1..]);
      assert q == [p[0]] + q[1..] && p == [p[0]] + p[1..];
      GetPutOther(t.kids[p[0]], p[1..], x, q[1..]);
    }
  }

  lemma {:induction false} PutPut(t: Node, p: Path, x: Node, y: Node)
    requires Room(t, p)
    ensures Room(Put(t, p, x), p) && Put(Put(t, p, x), p, y) == Put(t, p, y)
    decreases |p|
  {
    if |p| > 1 {
      assert Parent(p)[0] == p[0] && Parent(p)[1..] == Parent(p[1..]);
      PutPut(t.kids[p[0]], p[1..], x, y);
    }
  }

  lemma {:induction false} PutSame(t: Node, p: Path)
    requires Get(t, p).Some?
    ensures Room(t, p) && Put(t, p, Get(t, p).value) == t
    decreases |p|
  {
    if |p| == 1 {
      assert Parent(p) == [];
    } else if |p| > 1 {
      assert Parent(p)[0] == p[0] && Parent(p)[1..] == Parent(p[1..]);
      PutSame(t.kids[p[0]], p[1..]);
    }
  }

  lemma {:induction false} PutKid(t: Node, p: Path, m: map<string, Node>, c: string, y: Node)
    requires Room(t, p)
    ensures Room(Put(t, p, Dir(m)), p + [c])
    ensures Put(Put(t, p, Dir(m)), p + [c], y) == Put(t, p, Dir(m[c := y]))
    decreases |p|
  {
    assert Parent(p + [c]) == p;
    GetPut(t, p, Dir(m));
    if p == [] {
      PutChild(t, m, c, y);
    } else if |p| == 1 {
      PutGrandchild(t, p[0], m, c, y);
    } else {
      assert (p + [c])[1..] == p[1..] + [c];
      assert Parent(p)[0] == p[0] && Parent(p)[1..] == Parent(p[1..]);
      PutKid(t.kids[p[0]], p[1..], m, c, y);
    }
  }

  lemma {:induction false} PutChild(t: Node, m: map<string, Node>, c: string, y: Node)
    ensures Put(t, [], Dir(m)) == Dir(m) && [] + [c] == [c] && Put(Dir(m), [c], y) == Dir(m[c := y])
  {
  }

  lemma {:induction false} PutGrandchild(t: Node, d: string, m: map<string, Node>, c: string, y: Node)
    requires t.Dir?
    ensures Room(Put(t, [d], Dir(m)), [d, c])
    ensures Put(Put(t, [d], Dir(m)), [d, c], y) == Put(t, [d], Dir(m[c := y]))
  {
    assert Parent([d]) == [] && Parent([d, c]) == [d] && [d, c][1..] == [c];
    GetPut(t, [d], Dir(m));
    PutChild(t, m, c, y);
  }

  lemma {:induction false} RemoveKid(t: Node, p: Path, m: map<string, Node>, c: string)
    requires Room(t, p) && c in m
    ensures Get(Put(t, p, Dir(m)), p + [c]) == Some(m[c])
    ensures Remove(Put(t, p, Dir(m)), p + [c]) == Put(t, p, Dir(m - {c}))
    decreases |p|
  {
    GetPut(t, p, Dir(m));
    GetChild(Put(t, p, Dir(m)), p, c);
    if p != [] {
      assert (p + [c])[1..] == p[1..] + [c];
      if |p| > 1 {
        assert Parent(p)[0] == p[0] && Parent(p)[1..] == Parent(p[1..]);
        RemoveKid(t.kids[p[0]], p[1..], m, c);
      } else {
        RemoveKid(Dir(map[]), [], m, c);
      }
    }
  }

  lemma {:induction false} RemovePut(t: Node, p: Path, x: Node)
    requires p != [] && Room(t, p)
    ensures Get(Put(t, p, x), p) == Some(x)
    ensures Get(t, p).None? ==> Remove(Put(t, p, x), p) == t
    ensures Get(t, p).Some? ==> Remove(Put(t, p, x), p) == Remove(t, p)
    decreases |p|
  {
    GetPut(t, p, x);
    if |p| > 1 {
      assert Parent(p)[0] == p[0] && Parent(p)[1..] == Parent(p[1..]);
      RemovePut(t.kids[p[0]], p[1..], x);
    } else {
      assert p == [p[0]];
      GetChild(t, [], p[0]);
      assert t.kids[p[0] := x] - {p[0]} == t.kids - {p[0]};
      assert Get(t, p).None? ==> t.kids - {p[0]} == t.kids;
    }
  }

  // Nothing exists below what does not exist.
  lemma {:induction false} NothingBelow(t: Node, p: Path, q: Path)
    requires Get(t, p).None? && p <= q
    ensures Get(t, q).None?
    decreases |p|
  {
    if t.Dir? && p[0] in t.kids {
      NothingBelow(t.kids[p[0]], p[1..], q[1..]);
    }
  }

  lemma {:induction false} ClearStep(t: Node, p: Path)
    requires p != []
    ensures Clear(t, p) <==> Clear(t, Parent(p)) && !FileAt(t, p)
    ensures DirAt(t, Parent(p)) ==> Clear(t, Parent(p))
    ensures Get(t, p).Some? ==> DirAt(t, Parent(p))
    decreases |p|
  {
    if |p| == 1 {
      assert p == [p[0]];
      GetChild(t, [], p[0]);
    } else {
      assert Parent(p)[0] == p[0] && Parent(p)[1..] == Parent(p[1..]);
      if t.Dir? && p[0] in t.kids {
        ClearStep(t.kids[p[0]], p[1..]);
      }
    }
  }

  lemma {:induction false} MkDirsThere(t: Node, p: Path)
    requires DirAt(t, p)
    ensures Clear(t, p) && MkDirs(t, p) == t
    decreases |p|
  {
    if p != [] {
      MkDirsThere(t.kids[p[0]], p[1..]);
      assert t.kids[p[0] := t.kids[p[0]]] == t.kids;
    }
  }

  // The last directory goes into the ones above it.
  lemma {:induction false} MkDirsStep(t: Node, p: Path)
    requires p != [] && Clear(t, Parent(p)) && Get(t, p).None?
    ensures var m := MkDirs(t, Parent(p));
      DirAt(m, Parent(p)) && Get(m, p).None? && Clear(t, p) && Put(m, p, Dir(map[])) == MkDirs(t, p)
    decreases |p|
  {
    if |p| == 1 {
      assert p == [p[0]];
      GetChild(t, [], p[0]);
      assert MkDirs(Dir(map[]), p[1..]) == Dir(map[]);
    } else {
      assert Parent(p)[0] == p[0] && Parent(p)[1..] == Parent(p[1..]);
      var kid := if p[0] in t.kids then t.kids[p[0]] else Dir(map[]);
      MkDirsStep(kid, p[1..]);
      var m := MkDirs(t, Parent(p));
      assert m.kids[p[0]] == MkDirs(kid, Parent(p[1..]));
      assert m.kids[p[0] := MkDirs(kid, p[1..])] == t.kids[p[0] := MkDirs(kid, p[1..])];
    }
  }

  lemma {:induction false} GetMkDirsOther(t: Node, p: Path, q: Path)
    requires Clear(t, p) && !(p <= q) && !(q <= p)
    ensures Get(MkDirs(t, p), q) == Get(t, q)
    decreases |p|
  {
    if q[0] == p[0] {
      assert q == [p[0]] + q[1..] && p == [p[0]] + p[1..];
      var kid := if p[0] in t.kids then t.kids[p[0]] else Dir(map[]);
      GetMkDirsOther(kid, p[1..], q[1..]);
    }
  }

  // ---- the destination of a copy ----

  // path::basename
  function Base(p: Path): string { if p == [] then "" else p[|p| - 1] }

  // How often the name occurs below a directory, one directory inside the other.
  function Levels(t: Node, name: string): nat {
    if t.File? then 0 else 1 + if name in t.kids then Levels(t.kids[name], name) else 0
  }

  function Down(t: Node, p: Path, name: string): nat {
    if Get(t, p).None? then 0 else Levels(Get(t, p).value, name)
  }

  // A copy goes into an existing directory, under the name of its source.
  function Target(t: Node, dest: Path, name: string): (r: Path)
    ensures dest <= r && !DirAt(t, r)
    decreases Down(t, dest, name)
  {
    if DirAt(t, dest) then
      GetChild(t, dest, name);
      Target(t, dest + [name], name)
    else dest
  }

  lemma {:induction false} TargetStep(t: Node, dest: Path, name: string)
    ensures !DirAt(t, dest) ==> Target(t, dest, name) == dest && (t.Dir? ==> dest != [])
    ensures DirAt(t, dest) ==>
      && Target(t, dest, name) == Target(t, dest + [name], name)
      && Down(t, dest + [name], name) < Down(t, dest, name)
  {
    GetChild(t, dest, name);
  }

  function NodeAt(t: Node, p: Path): Node { if Get(t, p).Some? then Get(t, p).value else File("") }

  // ---- the file system and the algorithms ----

  class FileSystem {
    var root: Node

    method IsDir(p: Path) returns (b: bool)
      ensures b == DirAt(root, p)
    {
      b := DirAt(root, p);
    }

    // The system's mkdir.
    method SysMkdir(p: Path) returns (ok: bool)
      modifies this
      ensures ok <==> p != [] && DirAt(old(root), Parent(p)) && Get(old(root), p).None?
      ensures root == if ok then Put(old(root), p, Dir(map[])) else old(root)
    {
      ok := p != [] && DirAt(root, Parent(p)) && Get(root, p).None?;
      if ok {
        root := Put(root, p, Dir(map[]));
      }
    }

    // fs::mkdir, which makes missing parents first.
    method Mkdir(p: Path) returns (ok: bool)
      requires root.Dir?
      modifies this
      ensures ok <==> p != [] && Get(old(root), p).None? && Clear(old(root), p)
      ensures root == if ok then MkDirs(old(root), p) else old(root)
      decreases |p|
    {
      var parent := if p == [] then [] else Parent(p);
      if p != [] {
        ClearStep(root, p);
      }
      var there := IsDir(parent);
      if there {
        MkDirsThere(root, parent);
      } else {
        ok := Mkdir(parent);
        if !ok {
          ClearStep(root, parent);
          return;
        }
      }
      if p != [] && Get(old(root), p).None? {
        MkDirsStep(old(root), p);
      }
      ok := SysMkdir(p);
    }

    // Make p and whatever is missing above it.
    method EnsureDirExists(p: Path) returns (ok: bool)
      requires root.Dir?
      modifies this
      ensures ok <==> Clear(old(root), p)
      ensures root == if ok then MkDirs(old(root), p) else old(root)
      decreases |p|
    {
      var there := IsDir(p);
      if there {
        MkDirsThere(root, p);
        return true;
      }
      var parent := Parent(p);
      ClearStep(root, p);
      there := IsDir(parent);
      if there {
        MkDirsThere(root, parent);
      } else {
        ok := EnsureDirExists(parent);
        if !ok {
          return;
        }
      }
      if Get(old(root), p).None? {
        MkDirsStep(old(root), p);
        MkDirsThere(root, parent);
        MkDirsStep(root, p);
      }
      ok := Mkdir(p);
    }

    // The names in a directory, each once, in no particular order.
    method ListFiles(p: Path) returns (ok: bool, names: seq<string>)
      ensures ok <==> DirAt(root, p)
      ensures ok ==> forall c :: c in names <==> c in Get(root, p).value.kids
      ensures forall i, j | 0 <= i < j < |names| :: names[i] != names[j]
    {
      ok, names := DirAt(root, p), [];
      if ok {
        var kids := Get(root, p).value.kids;
        var rest := kids.Keys;
        while rest != {}
          invariant forall c :: c in kids <==> c in names || c in rest
          invariant forall c | c in names :: c !in rest
          invariant forall i, j | 0 <= i < j < |names| :: names[i] != names[j]
          decreases rest
        {
          var c :| c in rest;
          names := names + [c];
          rest := rest - {c};
        }
      }
    }

    // open for reading
    method OpenRead(p: Path) returns (ok: bool)
      ensures ok <==> FileAt(root, p)
    {
      ok := FileAt(root, p);
    }

    // open for writing: make the file, or empty it if it is there.
    method OpenWrite(p: Path) returns (ok: bool)
      modifies this
      ensures ok <==> p != [] && DirAt(old(root), Parent(p)) && !DirAt(old(root), p)
      ensures root == if ok then Put(old(root), p, File("")) else old(root)
    {
      ok := p != [] && DirAt(root, Parent(p)) && !DirAt(root, p);
      if ok {
        root := Put(root, p, File(""));
      }
    }

    method Rm(p: Path) returns (ok: bool)
      modifies this
      ensures ok <==> FileAt(old(root), p) && p != []
      ensures root == if ok then Remove(old(root), p) else old(root)
    {
      ok := FileAt(root, p) && p != [];
      if ok {
        root := Remove(root, p);
      }
    }

    // rmdir refuses a directory that is not empty, and the root.
    method Rmdir(p: Path) returns (ok: bool)
      modifies this
      ensures ok <==> Get(old(root), p) == Some(Dir(map[])) && p != []
      ensures root == if ok then Remove(old(root), p) else old(root)
    {
      ok := Get(root, p) == Some(Dir(map[])) && p != [];
      if ok {
        root := Remove(root, p);
      }
    }

    // Removes exactly the subtree at p. The root itself stays, emptied.
    method RecursiveRm(p: Path) returns (ok: bool)
      requires root.Dir?
      modifies this
      ensures ok <==> p != [] && Get(old(root), p).Some?
      ensures ok ==> root == Remove(old(root), p)
      ensures !ok ==> root == if p == [] then Dir(map[]) else old(root)
      decreases NodeAt(root, p)
    {
      ghost var t := root;
      var there, isDir := Get(root, p).Some?, DirAt(root, p);  // stat
      if !there {
        return false;
      }
      if !isDir {
        ok := Rm(p);
        return;
      }
      ghost var kids := Get(t, p).value.kids;
      var _, files := ListFiles(p);
      PutSame(t, p);
      assert kids - Names(files[..0]) == kids;
      var i := 0;
      while i < |files|
        invariant 0 <= i <= |files|
        invariant Room(t, p) && root == Put(t, p, Dir(kids - Names(files[..i])))
      {
        ghost var left := kids - Names(files[..i]);
        NotYet(files, i);
        assert files[i] in left;
        RemoveKid(t, p, left, files[i]);
        ok := RecursiveRm(p + [files[i]]);
        assert ok;
        assert left - {files[i]} == kids - Names(files[..i + 1]);
        i := i + 1;
      }
      assert kids - Names(files[..i]) == map[];
      GetPut(t, p, Dir(map[]));
      ok := Rmdir(p);
      if p != [] {
        RemovePut(t, p, Dir(map[]));
      }
    }
  }

  ghost function Names(s: seq<string>): set<string> { set c | c in s }

  lemma {:induction false} NoNames(names: seq<string>)
    ensures Names(names[..0]) == {}
  {
  }

  lemma {:induction false} AllCopied(done: map<string, Node>, kids: map<string, Node>, files: seq<string>)
    requires done.Keys == Names(files[..|files|]) && forall c | c in done :: c in kids && done[c] == kids[c]
    requires forall c :: c in files <==> c in kids
    ensures done == kids
  {
    assert files[..|files|] == files;
    assert done.Keys == kids.Keys;
  }

  lemma {:induction false} NotYet(names: seq<string>, i: nat)
    requires i < |names| && forall j, k | 0 <= j < k < |names| :: names[j] != names[k]
    ensures names[i] !in Names(names[..i]) && Names(names[..i + 1]) == Names(names[..i]) + {names[i]}
  {
    assert names[..i + 1] == names[..i] + [names[i]];
  }

  // ---- copying ----

  // What a copy leaves: the text of the source, unless the destination is the
  // source itself, which is emptied before it is read.
  function CopiedText(t: Node, src: Path, same: bool): string
    requires FileAt(t, src)
  {
    if same then "" else Get(t, src).value.content
  }

  // default_copy
  method Copy(sfs: FileSystem, src: Path, dfs: FileSystem, dest: Path) returns (ok: bool)
    modifies dfs
    ensures var d, s, to := old(dfs.root), old(sfs.root), Target(old(dfs.root), dest, Base(src));
      && (ok <==> FileAt(s, src) && to != [] && DirAt(d, Parent(to)))
      && dfs.root == if ok then Put(d, to, File(CopiedText(s, src, sfs == dfs && src == to))) else d
    decreases Down(dfs.root, dest, Base(src))
  {
    var isDir := sfs.IsDir(src);
    if isDir {
      return false;
    }
    isDir := dfs.IsDir(dest);
    if isDir {
      GetChild(dfs.root, dest, Base(src));
      ok := Copy(sfs, src, dfs, dest + [Base(src)]);
      return;
    }
    ok := sfs.OpenRead(src);
    if !ok {
      return;
    }
    ok := dfs.OpenWrite(dest);
    if !ok {
      return;
    }
    PutPut(old(dfs.root), dest, File(""), File(""));
    GetPut(old(dfs.root), dest, File(""));
    if sfs == dfs && src != dest {
      FilesApart(old(dfs.root), src, dest);
      GetPutOther(old(dfs.root), dest, File(""), src);
    }
    var text := Get(sfs.root, src).value.content;
    PutPut(old(dfs.root), dest, File(""), File(text));
    dfs.root := Put(dfs.root, dest, File(text));
  }

  // A file has nothing below it.
  lemma {:induction false} FileIsLeaf(t: Node, p: Path, q: Path)
    requires FileAt(t, p) && p <= q && Get(t, q).Some?
    ensures p == q
    decreases |p|
  {
    if p != [] {
      FileIsLeaf(t.kids[p[0]], p[1..], q[1..]);
      assert p == [p[0]] + p[1..] && q == [q[0]] + q[1..];
    }
  }

  // A file is not above another place for an entry, and not below one that is
  // no directory.
  lemma {:induction false} FilesApart(t: Node, src: Path, dest: Path)
    requires FileAt(t, src) && dest != [] && DirAt(t, Parent(dest)) && !DirAt(t, dest) && src != dest
    ensures !(src <= dest) && !(dest <= src)
  {
    assert src <= dest ==> src <= Parent(dest);
    if src <= Parent(dest) {
      FileIsLeaf(t, src, Parent(dest));
    }
    if dest <= src && Get(t, dest).None? {
      NothingBelow(t, dest, src);
    } else if dest <= src {
      FileIsLeaf(t, dest, src);
    }
  }

  // The copy of a directory goes where nothing is; missing parents are made.
  ghost predicate CanCopy(s: Node, src: Path, d: Node, to: Path) {
    && to != []
    && if DirAt(s, src) then Get(d, to).None? && Clear(d, Parent(to)) else FileAt(s, src) && DirAt(d, Parent(to))
  }

  // The destination's tree after the copy.
  ghost function Copied(s: Node, src: Path, d: Node, to: Path, same: bool): Node
    requires CanCopy(s, src, d, to)
  {
    if DirAt(s, src) then
      MkDirsStep(d, to);
      Put(MkDirs(d, Parent(to)), to, Get(s, src).value)
    else Put(d, to, File(CopiedText(s, src, same)))
  }

  // The copy is of a directory, and to a free place inside it.
  predicate IntoItself(t: Node, src: Path, to: Path) {
    DirAt(t, src) && src < to && Get(t, to).None? && Clear(t, to)
  }

  // Copying a directory elsewhere in its own tree leaves it as it is.
  lemma {:induction false} SourceStays(t: Node, src: Path, to: Path, x: Node)
    requires to != [] && DirAt(t, src) && Get(t, to).None? && Clear(t, Parent(to)) && !(src <= to)
    ensures var m := MkDirs(t, Parent(to)); Room(m, to) && Get(Put(m, to, x), src) == Get(t, src)
  {
    MkDirsStep(t, to);
    var m := MkDirs(t, Parent(to));
    if to <= src {
      NothingBelow(t, to, src);
    }
    GetPutOther(m, to, x, src);
    assert src <= Parent(to) ==> src <= to;
    if Parent(to) <= src {
      MkDirsBelow(t, Parent(to), src);
    } else {
      GetMkDirsOther(t, Parent(to), src);
    }
  }

  // Below what is there already, making directories changes nothing.
  lemma {:induction false} MkDirsBelow(t: Node, p: Path, q: Path)
    requires Clear(t, p) && p <= q && Get(t, q).Some?
    ensures Get(MkDirs(t, p), q) == Get(t, q)
    decreases |p|
  {
    if p != [] {
      MkDirsBelow(t.kids[p[0]], p[1..], q[1..]);
    }
  }

  // One entry of a directory: it goes to a free name in the new directory.
  lemma {:induction false} EntryCopied(s: Node, src: Path, d: Node, to: Path, c: string, kid: Node,
          done: map<string, Node>, m: Node)
    requires Room(m, to) && d == Put(m, to, Dir(done)) && c !in done
    requires Get(s, src + [c]) == Some(kid)
    ensures d.Dir? && Get(d, to + [c]).None? && Target(d, to + [c], c) == to + [c]
    ensures CanCopy(s, src + [c], d, to + [c])
    ensures Copied(s, src + [c], d, to + [c], false) == Put(m, to, Dir(done[c := kid]))
  {
    GetPut(m, to, Dir(done));
    GetChild(d, to, c);
    assert Parent(to + [c]) == to;
    MkDirsThere(d, to);
    PutKid(m, to, done, c, kid);
  }

  lemma {:induction false} InsideUp(src: Path, to: Path, c: string)
    ensures src + [c] <= to + [c] ==> src <= to
  {
    if src + [c] <= to + [c] {
      assert (to + [c])[..|src|] == (src + [c])[..|src|] == src;
      assert (to + [c])[..|src|] == to[..|src|];
    }
  }

  lemma {:induction false} FileCase(s: Node, src: Path, d: Node, to: Path, same: bool)
    requires !DirAt(s, src)
    ensures CanCopy(s, src, d, to) <==> FileAt(s, src) && to != [] && DirAt(d, Parent(to))
    ensures CanCopy(s, src, d, to) ==> Copied(s, src, d, to, same) == Put(d, to, File(CopiedText(s, src, same)))
  {
  }

  lemma {:induction false} DirCase(s: Node, src: Path, d: Node, to: Path, same: bool)
    requires DirAt(s, src)
    ensures CanCopy(s, src, d, to) <==> to != [] && Get(d, to).None? && Clear(d, to)
    ensures Get(s, src).Some? && Get(s, src).value.Dir? && (CanCopy(s, src, d, to) ==> Clear(d, Parent(to)))
    ensures CanCopy(s, src, d, to) ==>
      var m := MkDirs(d, Parent(to));
      && Room(m, to) && MkDirs(d, to) == Put(m, to, Dir(map[])) && MkDirs(d, to).Dir?
      && Copied(s, src, d, to, same) == Put(m, to, Get(s, src).value)
  {
    if to != [] {
      ClearStep(d, to);
      if CanCopy(s, src, d, to) {
        MkDirsStep(d, to);
      }
    }
  }

  lemma {:induction false} IntoCase(t: Node, src: Path, to: Path)
    requires DirAt(t, src) && CanCopy(t, src, t, to)
    ensures IntoItself(t, src, to) <==> src <= to
  {
    ClearStep(t, to);
    assert src <= to && |src| == |to| ==> src == to;
  }

  // One turn of the loop over the source's entries.
  lemma {:induction false} EntryTurn(s: Node, src: Path, now: Node, d: Node, to: Path, c: string,
          done: map<string, Node>, same: bool)
    requires DirAt(s, src) && CanCopy(s, src, d, to) && Room(MkDirs(d, Parent(to)), to)
    requires var after := Put(MkDirs(d, Parent(to)), to, Dir(done));
      if same then s == d && now == after && !(src <= to) else now == s
    requires c in Get(s, src).value.kids && c !in done
    ensures var m, kid := MkDirs(d, Parent(to)), Get(s, src).value.kids[c];
      var after := Put(m, to, Dir(done));
      && after.Dir? && Base(src + [c]) == c && Target(after, to + [c], c) == to + [c] && !DirAt(after, to + [c])
      && NodeAt(now, src + [c]) == kid < NodeAt(s, src)
      && CanCopy(now, src + [c], after, to + [c])
      && Copied(now, src + [c], after, to + [c], false) == Put(m, to, Dir(done[c := kid]))
      && (same ==> !(src + [c] <= to + [c]) && !IntoItself(now, src + [c], to + [c]))
      && now.Dir? == (if same then true else s.Dir?)
  {
    var m, kid := MkDirs(d, Parent(to)), Get(s, src).value.kids[c];
    var after := Put(m, to, Dir(done));
    if same {
      SourceStays(s, src, to, Dir(done));
    }
    GetChild(now, src, c);
    InsideUp(src, to, c);
    EntryCopied(now, src, after, to, c, kid, done, m);
  }

  lemma {:induction false} SameListing(s: Node, src: Path, now: Node, d: Node, to: Path, same: bool)
    requires DirAt(s, src) && CanCopy(s, src, d, to) && Room(MkDirs(d, Parent(to)), to)
    requires if same then s == d && now == Put(MkDirs(d, Parent(to)), to, Dir(map[])) && !(src <= to) else now == s
    ensures Get(now, src) == Get(s, src) && DirAt(now, src)
  {
    if same {
      SourceStays(s, src, to, Dir(map[]));
    }
  }

  // recursive_copy, for one file system or two. A directory must not be
  // copied to a free place inside itself (see CopyIntoItself), and the root
  // has no name to be copied under.
  method RecursiveCopy(sfs: FileSystem, src: Path, dfs: FileSystem, dest: Path) returns (ok: bool)
    requires sfs.root.Dir? && dfs.root.Dir?
    requires DirAt(dfs.root, dest) ==> src != []
    requires sfs == dfs ==> !IntoItself(sfs.root, src, Target(dfs.root, dest, Base(src)))
    modifies dfs
    ensures var s, d, to := old(sfs.root), old(dfs.root), Target(old(dfs.root), dest, Base(src));
      && (ok <==> CanCopy(s, src, d, to))
      && dfs.root == if ok then Copied(s, src, d, to, sfs == dfs && src == to) else d
    decreases NodeAt(sfs.root, src), Down(dfs.root, dest, Base(src))
  {
    hide *;
    ghost var s, d := sfs.root, dfs.root;
    TargetStep(d, dest, Base(src));
    var isDir := dfs.IsDir(dest);
    if isDir {
      ok := RecursiveCopy(sfs, src, dfs, dest + [Base(src)]);
      return;
    }
    isDir := sfs.IsDir(src);
    if !isDir {
      FileCase(s, src, d, dest, sfs == dfs && src == dest);
      ok := Copy(sfs, src, dfs, dest);
      return;
    }
    DirCase(s, src, d, dest, sfs == dfs && src == dest);
    ok := dfs.Mkdir(dest);
    if !ok {
      return;
    }
    if sfs == dfs {
      IntoCase(s, src, dest);
    }
    ghost var m, kids := MkDirs(d, Parent(dest)), Get(s, src).value.kids;
    ghost var done: map<string, Node> := map[];
    SameListing(s, src, sfs.root, d, dest, sfs == dfs);
    var _, files := sfs.ListFiles(src);
    NoNames(files);
    var i := 0;
    while i < |files|
      invariant 0 <= i <= |files|
      invariant Room(m, dest) && dfs.root == Put(m, dest, Dir(done))
      invariant done.Keys == Names(files[..i]) && forall c | c in done :: c in kids && done[c] == kids[c]
      invariant sfs == dfs || sfs.root == s
    {
      NotYet(files, i);
      EntryTurn(s, src, sfs.root, d, dest, files[i], done, sfs == dfs);
      ok := RecursiveCopy(sfs, src + [files[i]], dfs, dest + [files[i]]);
      assert ok;
      done := done[files[i] := kids[files[i]]];
      i := i + 1;
    }
    AllCopied(done, kids, files);
    ok := true;
  }

  lemma {:induction false} LookAppend(t: Node, p: Path, r: Path)
    requires Get(t, p).Some?
    ensures Look(t, p + r) == Look(Get(t, p).value, r)
    decreases |p|
  {
    if p == [] {
      assert p + r == r;
    } else {
      assert (p + r)[1..] == p[1..] + r;
      LookAppend(t.kids[p[0]], p[1..], r);
    }
  }

  lemma {:induction false} AboveIsDir(t: Node, p: Path, q: Path)
    requires DirAt(t, p) && q <= p
    ensures Look(t, q) == Some(IsDir)
    decreases |q|
  {
    if q != [] {
      AboveIsDir(t.kids[p[0]], p[1..], q[1..]);
    }
  }

  // What a copy shows, path by path: below the new place what is below the
  // source, directories above it, and no change anywhere else.
  lemma {:induction false} CopyMeaning(s: Node, src: Path, d: Node, to: Path, q: Path)
    requires CanCopy(s, src, d, to)
    ensures Look(Copied(s, src, d, to, false), q)
      == if to <= q then Look(s, src + q[|to|..]) else if q <= to then Some(IsDir) else Look(d, q)
  {
    if to <= q {
      LookAppend(s, src, q[|to|..]);
    } else {
      assert q <= to <==> q <= Parent(to);
    }
    if DirAt(s, src) {
      MkDirsStep(d, to);
      PutMeaning(MkDirs(d, Parent(to)), to, Get(s, src).value, q);
      MkDirsMeaning(d, Parent(to), q);
    } else {
      PutMeaning(d, to, File(Get(s, src).value.content), q);
      if q <= Parent(to) {
        AboveIsDir(d, Parent(to), q);
      }
    }
  }

  // Removing the copy undoes it exactly when the place for it was there: a
  // copied directory otherwise leaves behind the parents made for it.
  lemma {:induction false} CopyThenRemove(s: Node, src: Path, d: Node, to: Path)
    requires CanCopy(s, src, d, to) && Get(d, to).None?
    ensures Get(Copied(s, src, d, to, false), to).Some?
    ensures Remove(Copied(s, src, d, to, false), to) == d <==> DirAt(d, Parent(to))
  {
    if DirAt(s, src) {
      MkDirsStep(d, to);
      var m := MkDirs(d, Parent(to));
      RemovePut(m, to, Get(s, src).value);
      if DirAt(d, Parent(to)) {
        MkDirsThere(d, Parent(to));
      }
    } else {
      RemovePut(d, to, File(Get(s, src).value.content));
    }
  }

  lemma {:induction false} LookDir(t: Node, p: Path)
    ensures Look(t, p) == Some(IsDir) <==> DirAt(t, p)
    ensures Look(t, p).None? <==> Get(t, p).None?
  {
  }

  // A file copied onto itself is empty then, also by the recursive copy.
  method CopyOntoItself(fs: FileSystem, p: Path) returns (ok: bool)
    requires fs.root.Dir? && FileAt(fs.root, p)
    modifies fs
    ensures ok && forall q :: Look(fs.root, q) == if q == p then Some(IsFile("")) else Look(old(fs.root), q)
  {
    ghost var t := fs.root;
    assert p != [];
    ClearStep(t, p);
    TargetStep(t, p, Base(p));
    ok := RecursiveCopy(fs, p, fs, p);
    forall q
      ensures Look(fs.root, q) == if q == p then Some(IsFile("")) else Look(t, q)
    {
      PutMeaning(t, p, File(""), q);
      if p < q {
        LookBelowFile(t, p, q);
        assert q[|p|..] != [];
      } else if p == q {
        assert q[|p|..] == [];
      }
    }
  }

  lemma {:induction false} LookBelowFile(t: Node, p: Path, q: Path)
    requires FileAt(t, p) && p < q
    ensures Look(t, q) == None
  {
    if Get(t, q).Some? {
      FileIsLeaf(t, p, q);
    }
  }

  // ---- a directory copied into itself ----

  // The file system while such a copy is under way: the entries in done have
  // been copied.
  ghost function UnderWay(t: Node, src: Path, to: Path, done: map<string, Node>): Node
    requires IntoItself(t, src, to)
  {
    ClearStep(t, to);
    MkDirsStep(t, to);
    Put(MkDirs(t, Parent(to)), to, Dir(done))
  }

  lemma {:induction false} Apart(src: Path, to: Path, e: string)
    requires src < to && e != to[|src|]
    ensures !(src + [e] <= to) && !(to <= src + [e]) && !(src + [e] <= to + [e])
  {
    assert (src + [e])[|src|] == e && (to + [e])[|src|] == to[|src|];
  }

  // What every such state shows below the source.
  lemma {:induction false} SourceUnderWay(t: Node, src: Path, to: Path, done: map<string, Node>, e: string)
    requires IntoItself(t, src, to)
    ensures var now, c := UnderWay(t, src, to, done), to[|src|];
      && DirAt(now, src)
      && (e in Get(now, src).value.kids <==> e == c || e in Get(t, src).value.kids)
      && DirAt(now, src + [c])
  {
    ClearStep(t, to);
    MkDirsStep(t, to);
    var now, c, m := UnderWay(t, src, to, done), to[|src|], MkDirs(t, Parent(to));
    assert src + [c] == to[..|src| + 1];
    forall q: Path
      ensures q <= Parent(to) ==> Look(now, q) == Some(IsDir)
      ensures !(q <= to) && !(to <= q) ==> Look(now, q) == Look(t, q)
    {
      MkDirsMeaning(t, Parent(to), q);
      PutMeaning(m, to, Dir(done), q);
    }
    LookDir(now, src);
    LookDir(now, src + [c]);
    LookDir(now, src + [e]);
    LookDir(t, src + [e]);
    GetPut(m, to, Dir(done));
    GetChild(now, src, e);
    GetChild(now, src, c);
    GetChild(t, src, e);
    if e != c {
      Apart(src, to, e);
    }
    assert if |to| == |src| + 1 then to == src + [c] else src + [c] <= Parent(to);
  }

  // Whatever has been copied already: the entry on the way to the target is
  // there, and copying it is the same situation one level further down.
  lemma {:induction false} CopyIntoItself(t: Node, src: Path, to: Path, done: map<string, Node>)
    requires IntoItself(t, src, to) && to[|src|] !in done
    ensures var now, c := UnderWay(t, src, to, done), to[|src|];
      DirAt(now, src) && c in Get(now, src).value.kids && IntoItself(now, src + [c], to + [c])
  {
    ClearStep(t, to);
    MkDirsStep(t, to);
    var now, c, m := UnderWay(t, src, to, done), to[|src|], MkDirs(t, Parent(to));
    SourceUnderWay(t, src, to, done, c);
    assert src + [c] == to[..|src| + 1];
    GetPut(m, to, Dir(done));
    GetChild(now, to, c);
    assert Parent(to + [c]) == to;
    ClearStep(now, to + [c]);
  }

  // The other entries are copied like those of any directory.
  lemma {:induction false} OtherEntry(t: Node, src: Path, to: Path, done: map<string, Node>, e: string)
    returns (kid: Node)
    requires IntoItself(t, src, to) && e != to[|src|] && e !in done
    requires e in Get(t, src).value.kids
    ensures var now := UnderWay(t, src, to, done);
      && now.Dir? && Base(src + [e]) == e && Target(now, to + [e], e) == to + [e]
      && !(src + [e] <= to + [e]) && !IntoItself(now, src + [e], to + [e])
      && CanCopy(now, src + [e], now, to + [e])
      && Copied(now, src + [e], now, to + [e], false) == UnderWay(t, src, to, done[e := kid])
  {
    ClearStep(t, to);
    MkDirsStep(t, to);
    var now, m := UnderWay(t, src, to, done), MkDirs(t, Parent(to));
    SourceUnderWay(t, src, to, done, e);
    GetChild(now, src, e);
    kid := Get(now, src).value.kids[e];
    EntryCopied(now, src, now, to, e, kid, done, m);
    Apart(src, to, e);
  }

  method CopyOther(fs: FileSystem, ghost t: Node, src: Path, dest: Path, ghost done: map<string, Node>, e: string)
      returns (ghost kid: Node)
    requires IntoItself(t, src, dest) && fs.root == UnderWay(t, src, dest, done)
    requires e != dest[|src|] && e !in done && e in Get(t, src).value.kids
    modifies fs
    ensures fs.root == UnderWay(t, src, dest, done[e := kid])
  {
    hide *;
    kid := OtherEntry(t, src, dest, done, e);
    var _ := RecursiveCopy(fs, src + [e], fs, dest + [e]);
  }

  lemma {:induction false} ListedUnderWay(t: Node, src: Path, to: Path)
    requires IntoItself(t, src, to)
    ensures var now, c := UnderWay(t, src, to, map[]), to[|src|];
      && DirAt(now, src) && c in Get(now, src).value.kids
      && forall e :: e in Get(now, src).value.kids && e != c ==> e in Get(t, src).value.kids
  {
    hide UnderWay, Get;
    forall e: string
      ensures var now, c := UnderWay(t, src, to, map[]), to[|src|];
        && DirAt(now, src) && c in Get(now, src).value.kids
        && (e in Get(now, src).value.kids && e != c ==> e in Get(t, src).value.kids)
    {
      SourceUnderWay(t, src, to, map[], e);
      SourceUnderWay(t, src, to, map[], to[|src|]);
    }
  }

  lemma {:induction false} Started(t: Node, src: Path, to: Path)
    requires IntoItself(t, src, to)
    ensures MkDirs(t, to) == UnderWay(t, src, to, map[])
    ensures t.Dir? && to != [] && |src| < |to| && Get(t, to).None? && Clear(t, to) && DirAt(t, src)
  {
    ClearStep(t, to);
    MkDirsStep(t, to);
  }

  lemma {:induction false} NextLevel(t: Node, src: Path, to: Path, c: string)
    requires IntoItself(t, src + [c], to + [c])
    ensures Base(src + [c]) == c && !DirAt(t, to + [c]) && Target(t, to + [c], c) == to + [c]
  {
  }

  // So the copy reaches every depth of nested calls: the entries before the
  // one on the way to the target are copied, and then that one, for which it
  // goes on in the same way.
  method CopyIntoItselfDescends(fs: FileSystem, src: Path, dest: Path, depth: nat)
      returns (innerSrc: Path, innerDest: Path)
    requires IntoItself(fs.root, src, Target(fs.root, dest, Base(src)))
    requires DirAt(fs.root, dest) ==> src != []
    modifies fs
    ensures |innerSrc| == |src| + depth && IntoItself(fs.root, innerSrc, innerDest)
    decreases depth, Down(fs.root, dest, Base(src))
  {
    hide *;
    ghost var t := fs.root;
    TargetStep(t, dest, Base(src));
    var isDir := fs.IsDir(dest);
    if isDir {
      innerSrc, innerDest := CopyIntoItselfDescends(fs, src, dest + [Base(src)], depth);
      return;
    }
    if depth == 0 {
      return src, dest;
    }
    Started(t, src, dest);
    var c := dest[|src|];
    ghost var done: map<string, Node> := map[];
    var _ := fs.Mkdir(dest);
    ListedUnderWay(t, src, dest);
    var _, files := fs.ListFiles(src);
    NoNames(files);
    ghost var k :| 0 <= k < |files| && files[k] == c;
    var i := 0;
    while files[i] != c
      invariant 0 <= i <= k && fs.root == UnderWay(t, src, dest, done) && done.Keys == Names(files[..i])
      decreases k - i
    {
      NotYet(files, i);
      ghost var kid := CopyOther(fs, t, src, dest, done, files[i]);
      done := done[files[i] := kid];
      i := i + 1;
    }
    NotYet(files, i);
    CopyIntoItself(t, src, dest, done);
    NextLevel(fs.root, src, dest, c);
    innerSrc, innerDest := CopyIntoItselfDescends(fs, src + [c], dest + [c], depth - 1);
  }

  // Copy a tree inside one file system and remove the copy: nothing is left.
  method CopyAndRemove(fs: FileSystem, src: Path, dest: Path) returns (ok: bool)
    requires fs.root.Dir? && Get(fs.root, src).Some?
    requires dest != [] && Get(fs.root, dest).None? && DirAt(fs.root, Parent(dest)) && !(src <= dest)
    modifies fs
    ensures ok && fs.root == old(fs.root)
  {
    ghost var t := fs.root;
    ClearStep(t, dest);
    ok := RecursiveCopy(fs, src, fs, dest);
    CopyThenRemove(t, src, t, dest);
    ok := fs.RecursiveRm(dest);
  }
}
