// Shared ownership: handles, the counters they share, and the objects that
// are deleted with the last handle (tinfra/shared_ptr.h). Memory is explicit:
// a handle or object that is not in its map has been destroyed, and every
// access has to find what it names.
module SharedPtr {
  import opened Common

  // The identity of a handle, an object or a counter. The memory of a deleted
  // object may be used again, its identity is not.
  type Id = nat

  // ptr_ and refcount_
  datatype Handle = Handle(ptr: Option<Id>, ref: Option<Id>)

  type Handles = map<Id, Handle>
  type Counters = map<Id, nat>
  type Objects = map<Id, seq<Id>>  // each object's member handles
  type Targets = map<Id, Option<Id>>  // what each counter counts for

  function Attached(handles: Handles, c: Id): set<Id> {
    set h | h in handles && handles[h].ref == Some(c)
  }

  // Each counter counts the handles attached to it.
  ghost predicate Counts(handles: Handles, counters: Counters) {
    forall c | c in counters :: counters[c] == |Attached(handles, c)| > 0
  }

  // Handles attached to one counter point to the object it counts for.
  ghost predicate Points(handles: Handles, target: Targets) {
    forall h | h in handles && handles[h].ref.Some? ::
      handles[h].ref.value in target && target[handles[h].ref.value] == handles[h].ptr
  }

  // Every object has exactly one counter.
  ghost predicate Owned(objects: Objects, target: Targets) {
    && (forall c | c in target && target[c].Some? :: target[c].value in objects)
    && (forall o | o in objects :: exists c :: c in target && target[c] == Some(o))
    && (forall c, d | c in target && d in target && target[c].Some? && target[c] == target[d] :: c == d)
  }

  // The members of an object are live handles of no other object.
  ghost predicate Members(handles: Handles, objects: Objects) {
    && (forall o, i | o in objects && 0 <= i < |objects[o]| :: objects[o][i] in handles)
    && (forall o, i, j | o in objects && 0 <= i < j < |objects[o]| :: objects[o][i] != objects[o][j])
    && (forall o, p, h | o in objects && p in objects && h in objects[o] && h in objects[p] :: o == p)
  }

  // Nothing is deleted twice, and what was deleted is gone.
  ghost predicate Log(objects: Objects, deleted: seq<Id>) {
    && (forall i, j | 0 <= i < j < |deleted| :: deleted[i] != deleted[j])
    && forall o | o in deleted :: o !in objects
  }

  lemma {:induction false} AttachedUpdate(handles: Handles, h: Id, x: Handle, c: Id)
    ensures Attached(handles[h := x], c) == Attached(handles, c) - {h} + if x.ref == Some(c) then {h} else {}
  {
  }

  // ---- attaching and detaching, on the maps ----

  lemma {:induction false} AttachOne(handles: Handles, h: Id, x: Handle, c: Id)
    requires h in handles ==> handles[h].ref.None?
    ensures |Attached(handles[h := x], c)| == |Attached(handles, c)| + if x.ref == Some(c) then 1 else 0
  {
    AttachedUpdate(handles, h, x, c);
    assert h !in Attached(handles, c);
    assert Attached(handles, c) - {h} == Attached(handles, c);
  }

  // A handle that held nothing holds nothing or one more share now.
  lemma {:induction false} Attach(handles: Handles, counters: Counters, h: Id, x: Handle)
    requires Counts(handles, counters) && (h in handles ==> handles[h].ref.None?)
    requires x.ref.Some? ==> x.ref.value in counters
    ensures var more := if x.ref.Some? then counters[x.ref.value := counters[x.ref.value] + 1] else counters;
      Counts(handles[h := x], more)
  {
    hide Attached;
    forall c: Id
      ensures |Attached(handles[h := x], c)| == |Attached(handles, c)| + if x.ref == Some(c) then 1 else 0
    {
      AttachOne(handles, h, x, c);
    }
  }

  // One share is given up.
  lemma {:induction false} Detach(handles: Handles, counters: Counters, h: Id, x: Handle)
    requires Counts(handles, counters) && h in handles && x.ref.None?
    requires handles[h].ref.Some? && handles[h].ref.value in counters
    ensures var c := handles[h].ref.value;
      && Counts(handles[h := x], if counters[c] == 1 then counters - {c} else counters[c := counters[c] - 1])
      && (counters[c] == 1 ==> Attached(handles[h := x], c) == {})
  {
    var c := handles[h].ref.value;
    if counters[c] == 1 {
      OnlyOne(handles, c, h);
    }
    forall d: Id
      ensures Attached(handles[h := x], d) == Attached(handles, d) - {h}
      ensures d != c ==> h !in Attached(handles, d)
    {
      AttachedUpdate(handles, h, x, d);
    }
    assert h in Attached(handles, c);
  }

  lemma {:induction false} HasCounter(handles: Handles, counters: Counters, target: Targets, h: Id)
    requires counters.Keys == target.Keys && Points(handles, target)
    requires h in handles && handles[h].ref.Some?
    ensures handles[h].ref.value in counters && target[handles[h].ref.value] == handles[h].ptr
  {
  }

  // A handle changed to hold nothing.
  lemma {:induction false} Kept(handles: Handles, objects: Objects, target: Targets, h: Id, x: Handle)
    requires Points(handles, target) && Members(handles, objects) && h in handles && x.ref.None?
    ensures Points(handles[h := x], target) && Members(handles[h := x], objects)
  {
  }

  lemma {:induction false} ObjectOut(handles: Handles, objects: Objects, deleted: seq<Id>, ptr: Option<Id>)
    requires Members(handles, objects) && Log(objects, deleted)
    ensures ptr.Some? && ptr.value in objects ==>
      Members(handles, objects - {ptr.value}) && Log(objects - {ptr.value}, deleted + [ptr.value])
  {
  }

  lemma {:induction false} OwnedWithout(objects: Objects, target: Targets, c: Id)
    requires Owned(objects, target) && c in target
    ensures Owned(if target[c].Some? then objects - {target[c].value} else objects, target - {c})
  {
    var after := if target[c].Some? then objects - {target[c].value} else objects;
    forall o | o in after
      ensures exists d :: d in target - {c} && (target - {c})[d] == Some(o)
    {
      var d :| d in target && target[d] == Some(o);
      assert d in target - {c} && (target - {c})[d] == Some(o);
    }
  }

  lemma {:induction false} PointsWithout(handles: Handles, target: Targets, c: Id)
    requires Points(handles, target) && Attached(handles, c) == {}
    ensures Points(handles, target - {c})
  {
    forall h | h in handles && handles[h].ref.Some?
      ensures handles[h].ref.value != c
    {
      assert h !in Attached(handles, c);
    }
  }

  lemma {:induction false} OnlyOne(handles: Handles, c: Id, h: Id)
    requires h in Attached(handles, c) && |Attached(handles, c)| == 1
    ensures Attached(handles, c) == {h}
  {
    assert |Attached(handles, c) - {h}| == 0;
  }

  // ---- what one operation can do to the rest ----

  predicate Freed(before: Objects, after: Objects, k: Id) {
    exists o :: o in before && o !in after && k in before[o]
  }

  // Objects may be deleted, each logged once; their members go with them, and
  // so do the handles in `gone`. Nothing else changes but the handles in
  // `touched`.
  ghost predicate Cascade(h0: Handles, o0: Objects, d0: seq<Id>,
                          h1: Handles, o1: Objects, d1: seq<Id>, gone: set<Id>, touched: set<Id>)
  {
    && (forall o | o in o1 :: o in o0 && o1[o] == o0[o])
    && d0 <= d1 && (forall o :: o in d1 <==> o in d0 || (o in o0 && o !in o1))
    && (forall k :: k in h1 <==> k in h0 && k !in gone && !Freed(o0, o1, k))
    && (forall k | k in h1 && k !in touched :: h1[k] == h0[k])
  }

  lemma {:induction false} CascadeThen(h0: Handles, o0: Objects, d0: seq<Id>,
                                       h1: Handles, o1: Objects, d1: seq<Id>, g1: set<Id>, t1: set<Id>,
                                       h2: Handles, o2: Objects, d2: seq<Id>, g2: set<Id>, t2: set<Id>)
    requires Cascade(h0, o0, d0, h1, o1, d1, g1, t1) && Cascade(h1, o1, d1, h2, o2, d2, g2, t2)
    ensures Cascade(h0, o0, d0, h2, o2, d2, g1 + g2, t1 + t2)
  {
    forall k: Id
      ensures Freed(o0, o2, k) <==> Freed(o0, o1, k) || Freed(o1, o2, k)
    {
      if Freed(o1, o2, k) {
        var o :| o in o1 && o !in o2 && k in o1[o];
        assert o in o0 && k in o0[o];
      }
      if Freed(o0, o2, k) {
        var o :| o in o0 && o !in o2 && k in o0[o];
        assert o in o1 ==> k in o1[o];
      }
      if Freed(o0, o1, k) {
        var o :| o in o0 && o !in o1 && k in o0[o];
        assert o !in o2;
      }
    }
  }

  // ---- which objects go ----

  ghost predicate Holds(handles: Handles, k: Id, o: Id) {
    k in handles && handles[k].ref.Some? && handles[k].ptr == Some(o)
  }

  // When the handles in `given` give up their shares, these objects are left
  // without any, one after the other: whoever holds one of them, and gives up
  // nothing, is a member of an earlier one.
  ghost predicate Doomed(handles: Handles, objects: Objects, given: set<Id>, gone: seq<Id>) {
    && (forall i | 0 <= i < |gone| :: gone[i] in objects)
    && (forall i, k | 0 <= i < |gone| && Holds(handles, k, gone[i]) && k !in given :: HeldBefore(objects, gone, i, k))
  }

  ghost predicate HeldBefore(objects: Objects, gone: seq<Id>, i: nat, k: Id)
    requires i <= |gone|
  {
    exists j :: 0 <= j < i && gone[j] in objects && k in objects[gone[j]]
  }

  // The only share of o is the one of k.
  ghost predicate Sole(handles: Handles, k: Id, o: Id) {
    Holds(handles, k, o) && forall x | Holds(handles, x, o) :: x == k
  }

  ghost predicate LoggedBefore(log: seq<Id>, from: nat, a: Id, b: Id) {
    exists i, j :: from <= i < j < |log| && log[i] == a && log[j] == b
  }

  // Of two members that each hold the only share of an object, the later one's
  // object goes first.
  ghost predicate LastFirst(handles: Handles, members: seq<Id>, h: Option<Id>, log: seq<Id>, from: nat) {
    forall i, j, a, b | 0 <= i < j < |members| && Some(members[i]) != h && Some(members[j]) != h
        && Sole(handles, members[i], a) && Sole(handles, members[j], b) ::
      LoggedBefore(log, from, b, a)
  }

  ghost predicate Goes(handles: Handles, objects: Objects, given: set<Id>, o: Id) {
    exists gone :: Doomed(handles, objects, given, gone) && o in gone
  }

  // Exactly the objects left without a share have gone.
  ghost predicate Exact(handles: Handles, objects: Objects, given: set<Id>, after: Objects) {
    forall o | o in objects :: o !in after <==> Goes(handles, objects, given, o)
  }

  // The new part of the log names the objects in such an order.
  ghost predicate Reasons(h0: Handles, o0: Objects, d0: seq<Id>, d1: seq<Id>, given: set<Id>) {
    d0 <= d1 && Doomed(h0, o0, given, d1[|d0|..])
  }

  ghost predicate AllHeld(handles: Handles, objects: Objects) {
    forall o | o in objects :: exists k :: Holds(handles, k, o)
  }

  lemma {:induction false} NoReasons(h: Handles, o: Objects, d: seq<Id>, given: set<Id>)
    ensures Reasons(h, o, d, d, given)
  {
    assert d[|d|..] == [];
  }

  lemma {:induction false} ReasonsThen(h0: Handles, o0: Objects, d0: seq<Id>,
                                       h1: Handles, o1: Objects, d1: seq<Id>, gone: set<Id>,
                                       d2: seq<Id>, given: set<Id>)
    requires Cascade(h0, o0, d0, h1, o1, d1, gone, {}) && Log(o0, d0) && Reasons(h0, o0, d0, d1, gone)
    requires Reasons(h1, o1, d1, d2, given)
    ensures Reasons(h0, o0, d0, d2, gone + given)
  {
    var first, second, all := d1[|d0|..], d2[|d1|..], d2[|d0|..];
    var n := |first|;
    assert forall i | 0 <= i < n :: all[i] == first[i];
    assert forall i | n <= i < |all| :: all[i] == second[i - n];
    forall i, k | 0 <= i < |all| && Holds(h0, k, all[i]) && k !in gone + given
      ensures HeldBefore(o0, all, i, k)
    {
      if i < n {
        var j :| 0 <= j < i && first[j] in o0 && k in o0[first[j]];
        assert all[j] == first[j];
      } else if k in h1 {
        assert Holds(h1, k, second[i - n]);
        var j :| 0 <= j < i - n && second[j] in o1 && k in o1[second[j]];
        assert all[n + j] == second[j];
      } else {
        var o :| o in o0 && o !in o1 && k in o0[o];
        var m :| 0 <= m < |d1| && d1[m] == o;
        assert all[m - |d0|] == o;
      }
    }
  }

  // The object of h goes first, then what its members give up.
  lemma {:induction false} ReasonsGone(h0: Handles, o0: Objects, d0: seq<Id>, h: Id, x: Handle, o: Id, d2: seq<Id>)
    requires h in h0 && o in o0 && forall k | Holds(h0, k, o) :: k == h
    requires Reasons(h0[h := x], o0 - {o}, d0 + [o], d2, Elements(o0[o]))
    ensures Reasons(h0, o0, d0, d2, {h})
  {
    var second, all := d2[|d0| + 1..], d2[|d0|..];
    assert all[0] == (d0 + [o])[|d0|] == o;
    assert forall i | 1 <= i < |all| :: all[i] == second[i - 1];
    forall i, k | 0 <= i < |all| && Holds(h0, k, all[i]) && k !in {h}
      ensures HeldBefore(o0, all, i, k)
    {
      if k in Elements(o0[o]) {
        assert i > 0 && all[0] in o0 && k in o0[all[0]];
      } else {
        assert Holds(h0[h := x], k, second[i - 1]);
        var j :| 0 <= j < i - 1 && second[j] in o0 - {o} && k in (o0 - {o})[second[j]];
        assert all[j + 1] == second[j];
      }
    }
  }

  // A list of objects left without a share cannot outlast the operation.
  lemma {:induction false} DoomedGo(h0: Handles, o0: Objects, d0: seq<Id>, h1: Handles, o1: Objects, d1: seq<Id>,
                                    gone: set<Id>, touched: set<Id>, list: seq<Id>, n: nat)
    requires Cascade(h0, o0, d0, h1, o1, d1, gone, touched) && AllHeld(h1, o1)
    requires forall k | k in touched && k in h1 :: h1[k].ref.None?
    requires Doomed(h0, o0, gone + touched, list) && n <= |list|
    ensures forall i | 0 <= i < n :: list[i] !in o1
  {
    if n > 0 {
      DoomedGo(h0, o0, d0, h1, o1, d1, gone, touched, list, n - 1);
      var o := list[n - 1];
      forall k
        ensures !Holds(h1, k, o)
      {
        if Holds(h0, k, o) && k !in gone + touched {
          assert HeldBefore(o0, list, n - 1, k);
          var j :| 0 <= j < n - 1 && list[j] in o0 && k in o0[list[j]];
          MemberFreed(o0, o1, list[j], k);
        }
      }
    }
  }

  lemma {:induction false} GoneExactly(h0: Handles, o0: Objects, d0: seq<Id>, h1: Handles, o1: Objects, d1: seq<Id>,
                                       gone: set<Id>, touched: set<Id>)
    requires Cascade(h0, o0, d0, h1, o1, d1, gone, touched) && AllHeld(h1, o1)
    requires Log(o0, d0) && Log(o1, d1) && Reasons(h0, o0, d0, d1, gone + touched)
    requires forall k | k in touched && k in h1 :: h1[k].ref.None?
    ensures Exact(h0, o0, gone + touched, o1)
  {
    forall o | o in o0
      ensures o !in o1 <==> Goes(h0, o0, gone + touched, o)
    {
      if o !in o1 {
        var m :| 0 <= m < |d1| && d1[m] == o;
        assert d1[|d0|..][m - |d0|] == o;
      }
      if Goes(h0, o0, gone + touched, o) {
        var list :| Doomed(h0, o0, gone + touched, list) && o in list;
        DoomedGo(h0, o0, d0, h1, o1, d1, gone, touched, list, |list|);
      }
    }
  }

  // As long as everything is held, nothing goes by itself.
  lemma {:induction false} NobodyGoes(handles: Handles, objects: Objects)
    requires AllHeld(handles, objects)
    ensures Exact(handles, objects, {}, objects)
  {
    forall list: seq<Id> | list != []
      ensures !Doomed(handles, objects, {}, list)
    {
      if list[0] in objects {
        var k :| Holds(handles, k, list[0]);
        assert !HeldBefore(objects, list, 0, k);
      }
    }
  }

  // A handle that gives up its share, and is gone, might as well not be there.
  lemma {:induction false} ExactWithout(handles: Handles, objects: Objects, local: Id, y: Handle, after: Objects)
    requires local !in handles && Exact(handles[local := y], objects, {local}, after)
    ensures Exact(handles, objects, {}, after)
  {
    var more := handles[local := y];
    forall list
      ensures Doomed(more, objects, {local}, list) <==> Doomed(handles, objects, {}, list)
    {
      assert forall k, o :: Holds(more, k, o) && k !in {local} <==> Holds(handles, k, o) && k !in {};
    }
    forall o | o in objects
      ensures Goes(more, objects, {local}, o) <==> Goes(handles, objects, {}, o)
    {
      if Goes(more, objects, {local}, o) {
        var list :| Doomed(more, objects, {local}, list) && o in list;
        assert Doomed(handles, objects, {}, list);
      }
      if Goes(handles, objects, {}, o) {
        var list :| Doomed(handles, objects, {}, list) && o in list;
        assert Doomed(more, objects, {local}, list);
      }
    }
  }

  function Empties(members: seq<Id>): Handles { map m | m in members :: Handle(None, None) }

  lemma {:induction false} EmptiesMore(handles: Handles, members: seq<Id>, i: nat)
    requires forall j, k | 0 <= j < k < |members| :: members[j] != members[k]
    requires forall j | 0 <= j < |members| :: members[j] !in handles
    ensures handles == handles + Empties(members[..0])
    ensures i < |members| ==>
      && members[i] !in handles + Empties(members[..i])
      && (handles + Empties(members[..i]))[members[i] := Handle(None, None)] == handles + Empties(members[..i + 1])
  {
    if i < |members| {
      assert members[..i + 1] == members[..i] + [members[i]];
    }
  }

  lemma {:induction false} OneTouched(h0: Handles, o: Objects, d: seq<Id>, h: Id, x: Handle)
    requires h in h0
    ensures Cascade(h0, o, d, h0[h := x], o, d, {}, {h})
  {
  }

  // The object of handle h goes, and then its members.
  lemma {:induction false} ObjectGone(h0: Handles, o0: Objects, d0: seq<Id>, h: Id, x: Handle, o: Id,
                                      h2: Handles, o2: Objects, d2: seq<Id>)
    requires h in h0 && o in o0 && o !in d0
    requires Cascade(h0[h := x], o0 - {o}, d0 + [o], h2, o2, d2, Elements(o0[o]), {})
    ensures Cascade(h0, o0, d0, h2, o2, d2, {}, {h})
  {
    forall k: Id
      ensures Freed(o0, o2, k) <==> k in o0[o] || Freed(o0 - {o}, o2, k)
    {
      assert o !in o2;
      if Freed(o0, o2, k) {
        var p :| p in o0 && p !in o2 && k in o0[p];
        assert p != o ==> p in o0 - {o};
      }
      if Freed(o0 - {o}, o2, k) {
        var p :| p in o0 - {o} && p !in o2 && k in (o0 - {o})[p];
        assert p in o0;
      }
    }
    forall p: Id
      ensures p in d2 <==> p in d0 || (p in o0 && p !in o2)
    {
      assert p in d0 + [o] <==> p in d0 || p == o;
    }
  }

  // Members of an object taken out are handles nobody owns.
  lemma {:induction false} Orphans(handles: Handles, objects: Objects, o: Id)
    requires Members(handles, objects) && o in objects
    ensures forall i | 0 <= i < |objects[o]| :: objects[o][i] in handles && !Belongs(objects - {o}, objects[o][i])
    ensures forall i, j | 0 <= i < j < |objects[o]| :: objects[o][i] != objects[o][j]
  {
  }

  ghost predicate Belongs(objects: Objects, h: Id) { exists o :: o in objects && h in objects[o] }

  // A member is destroyed, then the ones before it.
  lemma {:induction false} MembersGone(h0: Handles, o0: Objects, d0: seq<Id>, members: seq<Id>,
                                       h1: Handles, o1: Objects, d1: seq<Id>,
                                       h2: Handles, o2: Objects, d2: seq<Id>)
    requires members != [] && !Belongs(o0, members[|members| - 1])
    requires var m := members[|members| - 1];
      && Cascade(h0, o0, d0, h1, o1, d1, {}, {m})
      && Cascade(h1 - {m}, o1, d1, h2, o2, d2, Elements(members[..|members| - 1]), {})
    ensures Cascade(h0, o0, d0, h2, o2, d2, Elements(members), {})
  {
    var n := |members| - 1;
    var m := members[n];
    assert Cascade(h0, o0, d0, h1 - {m}, o1, d1, {m}, {});
    CascadeThen(h0, o0, d0, h1 - {m}, o1, d1, {m}, {}, h2, o2, d2, Elements(members[..n]), {});
    assert members == members[..n] + [m];
    var nobody: set<Id> := {};
    assert {m} + Elements(members[..n]) == Elements(members) && nobody + nobody == nobody;
  }

  // What no object owns is not freed by a cascade, and stays unowned.
  lemma {:induction false} StillOrphans(h0: Handles, o0: Objects, d0: seq<Id>, m: Id,
                                        h1: Handles, o1: Objects, d1: seq<Id>, k: Id)
    requires Cascade(h0, o0, d0, h1, o1, d1, {}, {m}) && k in h0 && !Belongs(o0, k)
    ensures k in h1 && !Belongs(o1, k)
  {
  }

  class Memory {
    var handles: Handles
    var counters: Counters
    var objects: Objects  // the handles that are members of each object
    ghost var target: Targets  // what each counter counts for
    ghost var deleted: seq<Id>

    ghost predicate Valid()
      reads this
    {
      && counters.Keys == target.Keys && Counts(handles, counters) && Points(handles, target)
      && Owned(objects, target) && Members(handles, objects) && Log(objects, deleted)
    }

    ghost predicate IsMember(h: Id)
      reads this
    {
      Belongs(objects, h)
    }

    constructor ()
      ensures Valid() && handles == map[] && objects == map[] && deleted == []
    {
      handles, counters, objects, target, deleted := map[], map[], map[], map[], [];
    }

    // shared_ptr()
    method ConstructEmpty(h: Id)
      requires Valid() && h !in handles
      modifies this`handles
      ensures Valid() && handles == old(handles)[h := Handle(None, None)]
    {
      hide Counts, Owned, Log;
      Attach(handles, counters, h, Handle(None, None));
      handles := handles[h := Handle(None, None)];
    }

    // shared_ptr(shared_ptr const&): attach if there is something to share.
    method ConstructCopy(h: Id, p: Id)
      requires Valid() && h !in handles && p in handles
      modifies this`handles, this`counters
      ensures Valid() && handles == old(handles)[h := old(handles)[p]]
      ensures counters == match old(handles)[p].ref
        case None => old(counters)
        case Some(c) => old(counters)[c := old(counters)[c] + 1]
    {
      hide Counts, Owned, Log;
      var x := handles[p];
      Attach(handles, counters, h, x);
      handles := handles[h := x];
      if x.ref.Some? {
        counters := counters[x.ref.value := counters[x.ref.value] + 1];
      }
    }

    // detach() when other handles are left.
    method DetachShared(h: Id)
      requires Valid() && h in handles && handles[h].ref.Some? && counters[handles[h].ref.value] > 1
      modifies this`handles, this`counters
      ensures Valid()
      ensures handles == old(handles)[h := Handle(old(handles)[h].ptr, None)]
      ensures counters == old(counters)[old(handles)[h].ref.value := old(counters)[old(handles)[h].ref.value] - 1]
    {
      hide Counts, Points, Owned, Members, Log;
      HasCounter(handles, counters, target, h);
      var c, x := handles[h].ref.value, Handle(handles[h].ptr, None);
      Kept(handles, objects, target, h, x);
      Detach(handles, counters, h, x);
      counters := counters[c := counters[c] - 1];
      handles := handles[h := x];
    }

    // detach() by the last handle, up to the destructor of the object: the
    // counter and the object are gone, its members are left to destroy.
    method DetachLast(h: Id) returns (members: seq<Id>)
      requires Valid() && h in handles && handles[h].ref.Some? && counters[handles[h].ref.value] == 1
      modifies this
      ensures Valid()
      ensures handles == old(handles)[h := Handle(old(handles)[h].ptr, None)]
      ensures match old(handles)[h].ptr
        case None => members == [] && objects == old(objects) && deleted == old(deleted)
        case Some(o) =>
          && o in old(objects) && members == old(objects)[o]
          && objects == old(objects) - {o} && deleted == old(deleted) + [o]
    {
      hide Counts, Points, Owned, Members, Log;
      HasCounter(handles, counters, target, h);
      TargetLives(handles, objects, target, h);
      var c, x := handles[h].ref.value, Handle(handles[h].ptr, None);
      Kept(handles, objects, target, h, x);
      ObjectOut(handles[h := x], objects, deleted, x.ptr);
      Detach(handles, counters, h, x);
      PointsWithout(handles[h := x], target, c);
      OwnedWithout(objects, target, c);
      handles := handles[h := x];
      counters := counters - {c};
      target := target - {c};
      members := [];
      match x.ptr {
        case Some(o) =>
          members := objects[o];
          objects := objects - {o};
          deleted := deleted + [o];
        case None =>
      }
    }

    method Clear(h: Id)
      requires Valid() && h in handles && handles[h].ref.None?
      modifies this`handles
      ensures Valid() && handles == old(handles)[h := Handle(None, None)]
    {
      hide Counts, Owned, Log;
      Attach(handles, counters, h, Handle(None, None));
      handles := handles[h := Handle(None, None)];
    }

    // The memory of a handle that holds no share.
    method Drop(h: Id)
      requires Valid() && h in handles && handles[h].ref.None? && !IsMember(h)
      modifies this`handles
      ensures Valid() && handles == old(handles) - {h}
    {
      hide Owned, Log;
      forall c: Id
        ensures Attached(handles - {h}, c) == Attached(handles, c)
      {
      }
      handles := handles - {h};
    }

    // release(): give up the share, if there is one; the last share takes the
    // object with it, whose members are destroyed in turn. Afterwards ptr_ is
    // cleared; if the handle itself went with the object, that write is lost
    // in freed memory. A share that was not the last leaves ptr_ as it is.
    method Release(h: Id) returns (wroteFreed: bool)
      requires Valid() && h in handles
      modifies this
      ensures Valid()
      ensures Cascade(old(handles), old(objects), old(deleted), handles, objects, deleted, {}, {h})
      ensures Reasons(old(handles), old(objects), old(deleted), deleted, {h})
      ensures Exact(old(handles), old(objects), {h}, objects)
      ensures h in handles ==> handles[h].ref.None?
      ensures h in handles ==>
        handles[h].ptr == if old(handles[h].ref.Some?) && old(counters[handles[h].ref.value]) == 1 then None
                          else old(handles[h].ptr)
      ensures h in handles && old(handles[h].ref.Some?) && handles[h].ptr.Some? ==> handles[h].ptr.value in objects
      ensures wroteFreed <==>
        exists o :: o in old(objects) && h in old(objects)[o] && Goes(old(handles), old(objects), {h}, o)
      ensures wroteFreed <==> h !in handles
      ensures old(handles[h].ref.Some? && counters[handles[h].ref.value] == 1 && handles[h].ptr.Some?) ==>
        LastFirst(old(handles), old(objects[handles[h].ptr.value]), Some(h), deleted, |old(deleted)|)
      ensures old(handles[h].ref.Some? && handles[h].ptr.Some?) ==>
        (old(handles[h].ptr.value) in objects <==> old(counters[handles[h].ref.value]) > 1)
      decreases objects.Keys, 1
    {
      hide Owned, Members, AllHeld, Exact, Goes, Doomed, LastFirst;
      wroteFreed := false;
      ghost var h0, o0, d0 := handles, objects, deleted;
      HeldIn(this);
      NoReasons(h0, o0, d0, {h});
      if handles[h].ref.None? {
        OneTouched(h0, o0, d0, h, handles[h]);
        assert h0[h := handles[h]] == h0;
        HeldIn(this);
        ReleasedExactly(h0, o0, d0, handles, objects, deleted, h);
        return;
      }
      TargetLives(handles, objects, target, h);
      if counters[handles[h].ref.value] > 1 {
        DetachShared(h);
        OneTouched(h0, o0, d0, h, handles[h]);
        HeldIn(this);
        ReleasedExactly(h0, o0, d0, handles, objects, deleted, h);
        return;
      }
      var ptr := handles[h].ptr;
      ghost var x := Handle(ptr, None);
      SoleHolder(this, h);
      var members := DetachLast(h);
      if ptr.Some? {
        Orphans(h0, o0, ptr.value);
        DestroyMembers(members);
        LastFirstBefore(h0, h, x, members, deleted, |d0|);
        ObjectGone(h0, o0, d0, h, x, ptr.value, handles, objects, deleted);
        ReasonsGone(h0, o0, d0, h, x, ptr.value, deleted);
      } else {
        OneTouched(h0, o0, d0, h, x);
      }
      if h in handles {
        ghost var h2 := handles;
        Clear(h);
        OneTouched(h2, objects, deleted, h, Handle(None, None));
        CascadeThen(h0, o0, d0, h2, objects, deleted, {}, {h}, handles, objects, deleted, {}, {h});
        ghost var nobody: set<Id> := {};
        assert nobody + nobody == nobody && {h} + {h} == {h};
      } else {
        wroteFreed := true;
      }
      HeldIn(this);
      ReleasedExactly(h0, o0, d0, handles, objects, deleted, h);
    }

    // The destructor of an object: its members go, the last one first.
    method DestroyMembers(members: seq<Id>)
      requires Valid()
      requires forall i | 0 <= i < |members| :: members[i] in handles && !IsMember(members[i])
      requires forall i, j | 0 <= i < j < |members| :: members[i] != members[j]
      modifies this
      ensures Valid()
      ensures Cascade(old(handles), old(objects), old(deleted), handles, objects, deleted, Elements(members), {})
      ensures Reasons(old(handles), old(objects), old(deleted), deleted, Elements(members))
      ensures Exact(old(handles), old(objects), Elements(members), objects)
      ensures LastFirst(old(handles), members, None, deleted, |old(deleted)|)
      decreases objects.Keys, 2, |members|
    {
      hide Counts, Owned, Members, Log, Points, Belongs, AllHeld, Exact, Reasons, LastFirst;
      ghost var h0, o0, d0 := handles, objects, deleted;
      HeldIn(this);
      if members == [] {
        NothingHappens(handles, objects, deleted);
        NoReasons(h0, o0, d0, Elements(members));
        NoMembers(h0, deleted);
        MembersExactly(h0, o0, d0, handles, objects, deleted, members);
        return;
      }
      var n := |members| - 1;
      HeldExist(this);
      var _ := Release(members[n]);
      ghost var h1, o1, d1 := handles, objects, deleted;
      forall i | 0 <= i < |members|
        ensures members[i] in handles && !IsMember(members[i])
      {
        StillOrphans(h0, o0, d0, members[n], h1, o1, d1, members[i]);
      }
      HeldStay(this, h0, o0, d0, members, n);
      Drop(members[n]);
      Shrinks(h0, o0, d0, members[n], h1, o1, d1);
      Dropped(h0, o0, d0, members[n], h1, o1, d1);
      ghost var h2 := handles;
      DestroyMembers(members[..n]);
      MembersGone(h0, o0, d0, members, h1, o1, d1, handles, objects, deleted);
      ReasonsThen(h0, o0, d0, h2, o1, d1, {members[n]}, deleted, Elements(members[..n]));
      ElementsLast(members);
      HeldIn(this);
      LaterFirst(h0, o0, d0, members, h1, o1, d1, objects, deleted);
      MembersExactly(h0, o0, d0, handles, objects, deleted, members);
    }

    // ~shared_ptr() of a handle that is no member of an object.
    method Destroy(h: Id)
      requires Valid() && h in handles && !IsMember(h)
      modifies this
      ensures Valid()
      ensures Cascade(old(handles), old(objects), old(deleted), handles, objects, deleted, {h}, {})
      ensures Exact(old(handles), old(objects), {h}, objects)
      ensures old(handles[h].ref.Some? && handles[h].ptr.Some?) ==>
        (old(handles[h].ptr.value) in objects <==> old(counters[handles[h].ref.value]) > 1)
    {
      hide Counts, Owned, Members, Log, Points, Belongs, Exact, Reasons, Goes;
      ghost var h0, o0, d0 := handles, objects, deleted;
      var _ := Release(h);
      StillOrphans(h0, o0, d0, h, handles, objects, deleted, h);
      ghost var h1 := handles;
      Drop(h);
      Dropped(h0, o0, d0, h, h1, objects, deleted);
    }

    // The members of a new object, all empty.
    method ConstructMembers(members: seq<Id>)
      requires Valid()
      requires forall i | 0 <= i < |members| :: members[i] !in handles
      requires forall i, j | 0 <= i < j < |members| :: members[i] != members[j]
      modifies this`handles
      ensures Valid() && handles == old(handles) + Empties(members)
    {
      hide Counts, Owned, Members, Log, Points, Empties;
      EmptiesMore(handles, members, 0);
      var i := 0;
      while i < |members|
        invariant 0 <= i <= |members|
        invariant Valid() && handles == old(handles) + Empties(members[..i])
      {
        EmptiesMore(old(handles), members, i);
        ConstructEmpty(members[i]);
        i := i + 1;
      }
      assert members[..i] == members;
    }

    // shared_ptr(T*): the members of the object are handles already, and may
    // hold shares.
    method ConstructNew(h: Id, o: Id, c: Id, members: seq<Id>)
      requires Valid() && h !in handles && o !in objects && o !in deleted && c !in counters
      requires forall i | 0 <= i < |members| :: members[i] in handles && !IsMember(members[i])
      requires forall i, j | 0 <= i < j < |members| :: members[i] != members[j]
      modifies this
      ensures Valid()
      ensures handles == old(handles)[h := Handle(Some(o), Some(c))]
      ensures objects == old(objects)[o := members] && counters == old(counters)[c := 1] && deleted == old(deleted)
    {
      hide Counts, Owned, Members, Log, Points;
      var x := Handle(Some(o), Some(c));
      NewCount(handles, counters, target, h, x, c);
      NewOwned(objects, target, o, c, members);
      NewMembers(handles, objects, h, o, x, members);
      NewLog(objects, deleted, o, members);
      NewPoints(handles, target, h, x, c);
      handles := handles[h := x];
      counters := counters[c := 1];
      target := target[c := Some(o)];
      objects := objects[o := members];
    }

    // A null pointer gets a counter, too.
    method ConstructNull(h: Id, c: Id)
      requires Valid() && h !in handles && c !in counters
      modifies this
      ensures Valid()
      ensures handles == old(handles)[h := Handle(None, Some(c))] && counters == old(counters)[c := 1]
      ensures objects == old(objects) && deleted == old(deleted)
    {
      hide Counts, Owned, Members, Log, Points;
      var x := Handle(None, Some(c));
      NewCount(handles, counters, target, h, x, c);
      NewNull(objects, target, c);
      NewMember(handles, objects, h, x);
      NewPoints(handles, target, h, x, c);
      handles := handles[h := x];
      counters := counters[c := 1];
      target := target[c := None];
    }

    method Swap(h: Id, p: Id)
      requires Valid() && h in handles && p in handles
      modifies this`handles
      ensures Valid() && handles == old(handles)[h := old(handles)[p]][p := old(handles)[h]]
    {
      hide Counts, Owned, Log;
      SwapCounts(handles, counters, h, p);
      handles := handles[h := handles[p]][p := handles[h]];
    }

    // Take over what p holds, having nothing yet.
    method CopyInto(h: Id, p: Id)
      requires Valid() && h in handles && p in handles && handles[h].ref.None?
      modifies this`handles, this`counters
      ensures Valid() && handles == old(handles)[h := old(handles)[p]]
      ensures counters == match old(handles)[p].ref
        case None => old(counters)
        case Some(c) => old(counters)[c := old(counters)[c] + 1]
    {
      hide Counts, Owned, Log;
      var x := handles[p];
      Attach(handles, counters, h, x);
      handles := handles[h := x];
      if x.ref.Some? {
        counters := counters[x.ref.value := counters[x.ref.value] + 1];
      }
    }

    // operator=: the old share is moved to a local, which gives it up only
    // after the new share is taken. So p is read while it is still there,
    // even if it is a member of the object that h gives up.
    method Assign(h: Id, p: Id, local: Id)
      requires Valid() && h in handles && p in handles && local !in handles
      modifies this
      ensures Valid() && local !in handles
      ensures Cascade(old(handles), old(objects), old(deleted), handles, objects, deleted, {}, {h})
      ensures Exact(old(handles)[h := old(handles)[p]], old(objects), {}, objects)
      ensures h in handles ==> handles[h] == old(handles)[p]
      ensures h != p && old(handles[h].ref.Some? && handles[h].ptr.Some?) ==>
        (old(handles[h].ptr.value) in objects <==>
          old(counters[handles[h].ref.value] > 1 || handles[p].ref == handles[h].ref))
    {
      hide Owned, Members, Log, Belongs, Attached, Cascade, Exact, AllHeld, Goes;
      ghost var h0: Handles := handles;
      if h == p {
        OneTouched(handles, objects, deleted, h, handles[h]);
        assert handles[h := handles[h]] == handles;
        HeldIn(this);
        NobodyGoes(handles, objects);
        return;
      }
      NotBelonging(handles, objects, local);
      ghost var o0, d0 := objects, deleted;
      ConstructEmpty(local);
      Swap(h, local);
      CopyInto(h, p);
      ghost var h3 := handles;
      assert h3 == h0[h := h0[p]][local := h0[h]];
      Destroy(local);
      Assigned(h0, o0, d0, h, h0[p], local, h0[h], handles, objects, deleted);
      ExactWithout(h0[h := h0[p]], o0, local, h0[h], objects);
    }

    // p = p->next: the next object's share is taken before the first object
    // goes, with its members.
    method Advance(p: Id, next: Id, local: Id)
      requires Valid() && p in handles && local !in handles
      requires handles[p].ref.Some? && handles[p].ptr.Some? && handles[p].ptr.value in objects
      requires next in objects[handles[p].ptr.value]
      modifies this
      ensures Valid()
      ensures p in handles ==> handles[p] == old(handles)[next]
      ensures !old(IsMember(p)) ==> p in handles
      ensures p != next ==>
        (old(handles[p].ptr.value) in objects <==>
          old(counters[handles[p].ref.value] > 1 || handles[next].ref == handles[p].ref))
      ensures old(handles[p].ptr.value) !in objects ==> next !in handles
    {
      hide Exact;
      Belonging(handles, objects, handles[p].ptr.value, next);
      ghost var h0: Handles, o0, d0 := handles, objects, deleted;
      Assign(p, next, local);
      if !old(IsMember(p)) {
        StillOrphans(h0, o0, d0, p, handles, objects, deleted, p);
      }
      MemberFreed(o0, objects, h0[p].ptr.value, next);
    }
  }

  lemma {:induction false} Belonging(handles: Handles, objects: Objects, o: Id, m: Id)
    requires Members(handles, objects) && o in objects && m in objects[o]
    ensures m in handles && Belongs(objects, m)
  {
    var i :| 0 <= i < |objects[o]| && objects[o][i] == m;
    assert objects[o][i] in handles;
  }

  lemma {:induction false} MemberFreed(before: Objects, after: Objects, o: Id, m: Id)
    requires o in before && m in before[o]
    ensures o !in after ==> Freed(before, after, m)
  {
  }

  // An object is alive exactly as long as a handle is attached for it.
  lemma {:induction false} AliveExactly(m: Memory, o: Id)
    requires m.Valid()
    ensures o in m.objects <==> exists h :: h in m.handles && m.handles[h].ref.Some? && m.handles[h].ptr == Some(o)
  {
    if o in m.objects {
      var c :| c in m.target && m.target[c] == Some(o);
      assert |Attached(m.handles, c)| > 0;
      var h :| h in Attached(m.handles, c);
      assert m.handles[h].ptr == Some(o);
    }
  }

  lemma {:induction false} SoleHandle(m: Memory, k: Id, j: Id)
    requires m.Valid() && k in m.handles && j in m.handles && m.handles[k].ref.Some? && m.handles[j].ref.Some?
    requires m.handles[k].ptr.Some? && m.handles[j].ptr == m.handles[k].ptr && m.counters[m.handles[k].ref.value] == 1
    ensures j == k
  {
    var c := m.handles[k].ref.value;
    assert m.handles[j].ref.value == c;
    assert k in Attached(m.handles, c) && j in Attached(m.handles, c);
    OnlyOne(m.handles, c, k);
  }

  lemma {:induction false} SoleHolder(m: Memory, h: Id)
    requires m.Valid() && h in m.handles && m.handles[h].ref.Some? && m.counters[m.handles[h].ref.value] == 1
    ensures m.handles[h].ptr.Some? ==> forall k | Holds(m.handles, k, m.handles[h].ptr.value) :: k == h
  {
    if m.handles[h].ptr.Some? {
      forall k | Holds(m.handles, k, m.handles[h].ptr.value)
        ensures k == h
      {
        SoleHandle(m, h, k);
      }
    }
  }

  lemma {:induction false} HeldIn(m: Memory)
    requires m.Valid()
    ensures AllHeld(m.handles, m.objects) && Log(m.objects, m.deleted)
  {
    forall o | o in m.objects
      ensures exists k :: Holds(m.handles, k, o)
    {
      AliveExactly(m, o);
      var k :| k in m.handles && m.handles[k].ref.Some? && m.handles[k].ptr == Some(o);
      assert Holds(m.handles, k, o);
    }
  }

  lemma {:induction false} ReleasedExactly(h0: Handles, o0: Objects, d0: seq<Id>, h1: Handles, o1: Objects, d1: seq<Id>,
                                           h: Id)
    requires h in h0 && Cascade(h0, o0, d0, h1, o1, d1, {}, {h}) && AllHeld(h1, o1)
    requires Log(o0, d0) && Log(o1, d1) && Reasons(h0, o0, d0, d1, {h}) && (h in h1 ==> h1[h].ref.None?)
    ensures Exact(h0, o0, {h}, o1)
    ensures h !in h1 <==> exists o :: o in o0 && h in o0[o] && Goes(h0, o0, {h}, o)
  {
    hide Goes;
    assert {} + {h} == {h};
    GoneExactly(h0, o0, d0, h1, o1, d1, {}, {h});
    if h !in h1 {
      var o :| o in o0 && o !in o1 && h in o0[o];
      assert Goes(h0, o0, {h}, o);
    }
    if exists o :: o in o0 && h in o0[o] && Goes(h0, o0, {h}, o) {
      var o :| o in o0 && h in o0[o] && Goes(h0, o0, {h}, o);
      MemberFreed(o0, o1, o, h);
    }
  }

  lemma {:induction false} MembersExactly(h0: Handles, o0: Objects, d0: seq<Id>, h1: Handles, o1: Objects, d1: seq<Id>,
                                          members: seq<Id>)
    requires Cascade(h0, o0, d0, h1, o1, d1, Elements(members), {}) && AllHeld(h1, o1)
    requires Log(o0, d0) && Log(o1, d1) && Reasons(h0, o0, d0, d1, Elements(members))
    ensures Exact(h0, o0, Elements(members), o1)
  {
    assert Elements(members) + {} == Elements(members);
    GoneExactly(h0, o0, d0, h1, o1, d1, Elements(members), {});
  }

  lemma {:induction false} LastFirstBefore(h0: Handles, h: Id, x: Handle, members: seq<Id>, log: seq<Id>, from: nat)
    requires h in h0 && x.ref.None? && LastFirst(h0[h := x], members, None, log, from + 1)
    ensures LastFirst(h0, members, Some(h), log, from)
  {
    forall i, j, a, b | 0 <= i < j < |members| && members[i] != h && members[j] != h
        && Sole(h0, members[i], a) && Sole(h0, members[j], b)
      ensures LoggedBefore(log, from, b, a)
    {
      SoleWithout(h0, h, x, members[i], a);
      SoleWithout(h0, h, x, members[j], b);
      assert LoggedBefore(log, from + 1, b, a);
    }
  }

  lemma {:induction false} SoleWithout(h0: Handles, h: Id, x: Handle, k: Id, o: Id)
    requires x.ref.None? && k != h && Sole(h0, k, o)
    ensures Sole(h0[h := x], k, o)
  {
    var h1 := h0[h := x];
    forall y | Holds(h1, y, o)
      ensures y == k
    {
      assert Holds(h0, y, o);
    }
  }

  lemma {:induction false} NoMembers(handles: Handles, log: seq<Id>)
    ensures LastFirst(handles, [], None, log, |log|)
  {
  }

  // What is held exists.
  lemma {:induction false} HeldExist(m: Memory)
    requires m.Valid()
    ensures forall k, o | Holds(m.handles, k, o) :: o in m.objects
  {
    forall k, o | Holds(m.handles, k, o)
      ensures o in m.objects
    {
      TargetLives(m.handles, m.objects, m.target, k);
    }
  }

  // What the other members hold stays when the last one gives up its share.
  lemma {:induction false} HeldStay(m: Memory, h0: Handles, o0: Objects, d0: seq<Id>, members: seq<Id>, n: nat)
    requires m.Valid() && n < |members|
    requires Cascade(h0, o0, d0, m.handles, m.objects, m.deleted, {}, {members[n]})
    requires forall i, j | 0 <= i < j < |members| :: members[i] != members[j]
    requires forall i | 0 <= i < |members| :: members[i] in m.handles
    ensures forall i, o | 0 <= i < n && Holds(h0, members[i], o) :: o in m.objects
  {
    forall i, o | 0 <= i < n && Holds(h0, members[i], o)
      ensures o in m.objects
    {
      assert m.handles[members[i]] == h0[members[i]];
      TargetLives(m.handles, m.objects, m.target, members[i]);
    }
  }

  // An object with a single share goes when that is given up, and is logged.
  lemma {:induction false} SoleGoes(h0: Handles, o0: Objects, d0: seq<Id>, o1: Objects, d1: seq<Id>, given: set<Id>,
                                    k: Id, o: Id)
    requires Sole(h0, k, o) && o in o0 && k in given && Exact(h0, o0, given, o1)
    requires Log(o0, d0) && d0 <= d1 && forall x :: x in d1 <==> x in d0 || (x in o0 && x !in o1)
    ensures exists i :: |d0| <= i < |d1| && d1[i] == o
  {
    assert Doomed(h0, o0, given, [o]);
    assert Goes(h0, o0, given, o);
    forall i | 0 <= i < |d0|
      ensures d1[i] != o
    {
      assert d1[i] == d0[i] && d0[i] in d0;
    }
  }

  // One member gives up its share before all those in front of it.
  lemma {:induction false} LaterFirst(h0: Handles, o0: Objects, d0: seq<Id>, members: seq<Id>,
                                      h1: Handles, o1: Objects, d1: seq<Id>, o3: Objects, d3: seq<Id>)
    requires members != [] && Log(o0, d0) && Log(o1, d1) && d1 <= d3
    requires var n := |members| - 1;
      && Cascade(h0, o0, d0, h1, o1, d1, {}, {members[n]}) && Exact(h0, o0, {members[n]}, o1)
      && Exact(h1 - {members[n]}, o1, Elements(members[..n]), o3)
      && LastFirst(h1 - {members[n]}, members[..n], None, d3, |d1|)
      && forall i, o | 0 <= i < n && Holds(h0, members[i], o) :: o in o1
    requires forall x :: x in d3 <==> x in d1 || (x in o1 && x !in o3)
    requires forall i | 0 <= i < |members| :: members[i] in h1
    requires forall i, j | 0 <= i < j < |members| :: members[i] != members[j]
    requires forall k, o | Holds(h0, k, o) :: o in o0
    ensures LastFirst(h0, members, None, d3, |d0|)
  {
    hide Exact, Log;
    var n := |members| - 1;
    var h2 := h1 - {members[n]};
    forall i, j, a, b | 0 <= i < j < |members| && Sole(h0, members[i], a) && Sole(h0, members[j], b)
      ensures LoggedBefore(d3, |d0|, b, a)
    {
      StillSole(h0, o0, d0, members, h1, o1, d1, i, a);
      if j == n {
        SoleGoes(h0, o0, d0, o1, d1, {members[n]}, members[n], b);
        assert members[..n][i] == members[i];
        SoleGoes(h2, o1, d1, o3, d3, Elements(members[..n]), members[i], a);
        var x :| |d0| <= x < |d1| && d1[x] == b;
        var y :| |d1| <= y < |d3| && d3[y] == a;
        assert d3[x] == b;
      } else {
        StillSole(h0, o0, d0, members, h1, o1, d1, j, b);
        assert members[..n][i] == members[i] && members[..n][j] == members[j];
        assert LoggedBefore(d3, |d1|, b, a);
      }
    }
  }

  lemma {:induction false} StillSole(h0: Handles, o0: Objects, d0: seq<Id>, members: seq<Id>,
                                     h1: Handles, o1: Objects, d1: seq<Id>, i: nat, a: Id)
    requires i < |members| - 1 && Cascade(h0, o0, d0, h1, o1, d1, {}, {members[|members| - 1]})
    requires Sole(h0, members[i], a) && members[i] in h1 && members[i] != members[|members| - 1]
    ensures Sole(h1 - {members[|members| - 1]}, members[i], a)
  {
    var h2 := h1 - {members[|members| - 1]};
    forall x | Holds(h2, x, a)
      ensures x == members[i]
    {
      assert Holds(h0, x, a);
    }
  }

  lemma {:induction false} ElementsLast(s: seq<Id>)
    requires s != []
    ensures {s[|s| - 1]} + Elements(s[..|s| - 1]) == Elements(s)
  {
    assert s == s[..|s| - 1] + [s[|s| - 1]];
  }

  // reset() on a handle h inside a ring of objects that nothing else keeps
  // alive: each one's handles are members of the one before, the first has no
  // handle but h, and h is a member of the last. All of them go, and h with
  // them, before ptr_ is cleared.
  method ResetInRing(m: Memory, h: Id, ring: seq<Id>) returns (wroteFreed: bool)
    requires m.Valid() && h in m.handles && ring != [] && forall o | o in ring :: o in m.objects
    requires forall k | Holds(m.handles, k, ring[0]) :: k == h
    requires forall i, k | 0 < i < |ring| && Holds(m.handles, k, ring[i]) :: k in m.objects[ring[i - 1]]
    requires h in m.objects[ring[|ring| - 1]]
    modifies m
    ensures wroteFreed
  {
    forall i, k | 0 <= i < |ring| && Holds(m.handles, k, ring[i]) && k !in {h}
      ensures HeldBefore(m.objects, ring, i, k)
    {
      assert i > 0 && ring[i - 1] in m.objects;
    }
    assert Doomed(m.handles, m.objects, {h}, ring);
    assert Goes(m.handles, m.objects, {h}, ring[|ring| - 1]);
    wroteFreed := m.Release(h);
  }

  lemma {:induction false} Dropped(h0: Handles, o0: Objects, d0: seq<Id>, h: Id,
                                   h1: Handles, o1: Objects, d1: seq<Id>)
    requires Cascade(h0, o0, d0, h1, o1, d1, {}, {h})
    ensures Cascade(h0, o0, d0, h1 - {h}, o1, d1, {h}, {})
  {
  }

  lemma {:induction false} Assigned(h0: Handles, o0: Objects, d0: seq<Id>, h: Id, x: Handle, local: Id, y: Handle,
                                    h1: Handles, o1: Objects, d1: seq<Id>)
    requires h in h0 && local !in h0 && Cascade(h0[h := x][local := y], o0, d0, h1, o1, d1, {local}, {})
    ensures Cascade(h0, o0, d0, h1, o1, d1, {}, {h}) && (h in h1 ==> h1[h] == x)
  {
  }

  lemma {:induction false} NotBelonging(handles: Handles, objects: Objects, k: Id)
    requires Members(handles, objects) && k !in handles
    ensures !Belongs(objects, k)
  {
  }

  lemma {:induction false} AttachedAre(handles: Handles, c: Id)
    ensures forall k: Id :: k in Attached(handles, c) <==> k in handles && handles[k].ref == Some(c)
  {
  }

  lemma {:induction false} Traded(a: set<Id>, b: set<Id>, h: Id, p: Id)
    requires h in a && p !in a && h !in b && p in b && forall k | k != h && k != p :: k in a <==> k in b
    ensures |a| == |b|
  {
    assert b == a - {h} + {p};
  }

  lemma {:induction false} SwapOne(handles: Handles, h: Id, p: Id, c: Id)
    requires h in handles && p in handles
    ensures |Attached(handles[h := handles[p]][p := handles[h]], c)| == |Attached(handles, c)|
  {
    hide Attached;
    var after := handles[h := handles[p]][p := handles[h]];
    var a, b := Attached(handles, c), Attached(after, c);
    AttachedAre(handles, c);
    AttachedAre(after, c);
    if (h in a) == (p in a) {
      assert b == a;
    } else if h in a {
      Traded(a, b, h, p);
    } else {
      Traded(a, b, p, h);
    }
  }

  lemma {:induction false} SwapCounts(handles: Handles, counters: Counters, h: Id, p: Id)
    requires Counts(handles, counters) && h in handles && p in handles
    ensures Counts(handles[h := handles[p]][p := handles[h]], counters)
  {
    hide Attached;
    forall c: Id
      ensures |Attached(handles[h := handles[p]][p := handles[h]], c)| == |Attached(handles, c)|
    {
      SwapOne(handles, h, p, c);
    }
  }

  lemma {:induction false} NewCount(handles: Handles, counters: Counters, target: Targets, h: Id, x: Handle, c: Id)
    requires counters.Keys == target.Keys && Counts(handles, counters) && Points(handles, target)
    requires h !in handles && c !in counters && x.ref == Some(c)
    ensures Counts(handles[h := x], counters[c := 1])
  {
    hide Attached;
    forall d | d in counters
      ensures Attached(handles[h := x], d) == Attached(handles, d)
    {
      AttachedAre(handles, d);
      AttachedAre(handles[h := x], d);
    }
    AttachedAre(handles[h := x], c);
    assert Attached(handles[h := x], c) == {h};
  }

  lemma {:induction false} NewOwned(objects: Objects, target: Targets, o: Id, c: Id, members: seq<Id>)
    requires Owned(objects, target) && c !in target && o !in objects
    ensures Owned(objects[o := members], target[c := Some(o)])
  {
    var after := target[c := Some(o)];
    forall p | p in objects[o := members]
      ensures exists d :: d in after && after[d] == Some(p)
    {
      if p == o {
        assert after[c] == Some(o);
      } else {
        var d :| d in target && target[d] == Some(p);
        assert after[d] == Some(p);
      }
    }
  }

  lemma {:induction false} NewNull(objects: Objects, target: Targets, c: Id)
    requires Owned(objects, target) && c !in target
    ensures Owned(objects, target[c := None])
  {
    var after := target[c := None];
    forall p | p in objects
      ensures exists d :: d in after && after[d] == Some(p)
    {
      var d :| d in target && target[d] == Some(p);
      assert after[d] == Some(p);
    }
  }

  lemma {:induction false} NewMember(handles: Handles, objects: Objects, h: Id, x: Handle)
    requires Members(handles, objects) && h !in handles
    ensures Members(handles[h := x], objects)
  {
  }

  lemma {:induction false} NewPoints(handles: Handles, target: Targets, h: Id, x: Handle, c: Id)
    requires Points(handles, target) && x.ref == Some(c) && c !in target
    ensures Points(handles[h := x], target[c := x.ptr])
  {
  }

  lemma {:induction false} NewLog(objects: Objects, deleted: seq<Id>, o: Id, members: seq<Id>)
    requires Log(objects, deleted) && o !in deleted
    ensures Log(objects[o := members], deleted)
  {
  }

  // What an attached handle points to is there.
  lemma {:induction false} TargetLives(handles: Handles, objects: Objects, target: Targets, h: Id)
    requires Points(handles, target) && Owned(objects, target) && h in handles && handles[h].ref.Some?
    ensures handles[h].ptr.Some? ==> handles[h].ptr.value in objects
  {
  }

  lemma {:induction false} NewMembers(handles: Handles, objects: Objects, h: Id, o: Id, x: Handle, members: seq<Id>)
    requires Members(handles, objects) && h !in handles
    requires forall i | 0 <= i < |members| :: members[i] in handles && !Belongs(objects, members[i])
    requires forall i, j | 0 <= i < j < |members| :: members[i] != members[j]
    ensures Members(handles[h := x], objects[o := members])
  {
    forall p, k | p in objects && k in objects[p]
      ensures k !in members
    {
      assert Belongs(objects, k);
    }
  }

  lemma {:induction false} NothingHappens(h: Handles, o: Objects, d: seq<Id>)
    ensures Cascade(h, o, d, h, o, d, Elements([]), {})
  {
  }

  lemma {:induction false} Shrinks(h0: Handles, o0: Objects, d0: seq<Id>, m: Id,
                                   h1: Handles, o1: Objects, d1: seq<Id>)
    requires Cascade(h0, o0, d0, h1, o1, d1, {}, {m})
    ensures o1.Keys <= o0.Keys
  {
  }

  ghost function Elements(s: seq<Id>): set<Id> { set x | x in s }
}
