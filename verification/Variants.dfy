// The variant tree: the value type shared by the JSON reader and writer and by
// the path evaluator (tinfra/variant.h, tinfra/variant.cpp).
module Variants {
  import opened Common

  // A dictionary is the contents of an ordered map: entries in strictly
  // increasing key order (see WellFormed). A double is represented by the text
  // its stream conversion reads and writes.
  datatype Variant =
    | NoneV
    | BoolV(b: bool)
    | IntV(i: int)
    | DoubleV(text: string)
    | StringV(s: string)
    | ArrayV(elems: seq<Variant>)
    | DictV(entries: seq<Entry>)
  {
    predicate IsContainer() { ArrayV? || DictV? }

    // Number of direct children; 0 for leaves.
    function NumKids(): nat {
      match this
      case ArrayV(elems) => |elems|
      case DictV(entries) => |entries|
      case _ => 0
    }

    // The i-th child in container order.
    function Kid(i: nat): (kid: Variant)
      requires i < NumKids()
      ensures kid < this
    {
      match this
      case ArrayV(elems) => elems[i]
      case DictV(entries) => entries[i].value
    }
  }

  datatype Entry = Entry(key: string, value: Variant)

  // Lexicographic order on keys, as std::string compares them.
  predicate KeyLess(a: string, b: string) {
    if b == "" then false
    else if a == "" then true
    else if a[0] != b[0] then a[0] < b[0]
    else KeyLess(a[1..], b[1..])
  }

  predicate Sorted(es: seq<Entry>) {
    forall i, j | 0 <= i < j < |es| :: KeyLess(es[i].key, es[j].key)
  }

  ghost predicate WellFormed(v: Variant) {
    && (v.DictV? ==> Sorted(v.entries))
    && forall i | 0 <= i < v.NumKids() :: WellFormed(v.Kid(i))
  }

  // A proper prefix comes first, or else what has the smaller character at the
  // first difference.
  lemma {:induction false} KeyLessExactly(a: string, b: string)
    ensures KeyLess(a, b) <==>
      a < b || exists i :: 0 <= i < |a| && i < |b| && a[..i] == b[..i] && a[i] < b[i]
  {
    if a != "" && b != "" && a[0] == b[0] {
      KeyLessExactly(a[1..], b[1..]);
      if KeyLess(a[1..], b[1..]) && !(a[1..] < b[1..]) {
        var i :| 0 <= i < |a[1..]| && i < |b[1..]| && a[1..][..i] == b[1..][..i] && a[1..][i] < b[1..][i];
        assert a[..i + 1] == [a[0]] + a[1..][..i] && b[..i + 1] == [b[0]] + b[1..][..i];
        assert a[i + 1] < b[i + 1];
      }
      forall i | 0 <= i < |a| && i < |b| && a[..i] == b[..i] && a[i] < b[i]
        ensures KeyLess(a, b)
      {
        assert i > 0 && a[1..][..i - 1] == a[..i][1..] && b[1..][..i - 1] == b[..i][1..];
        assert a[1..][i - 1] < b[1..][i - 1];
      }
      assert a == [a[0]] + a[1..] && b == [b[0]] + b[1..];
      assert a < b <==> a[1..] < b[1..];
    } else if a != "" && b != "" {
      assert a[..0] == b[..0];
      forall i | 0 < i < |a| && i < |b|
        ensures a[..i] != b[..i]
      {
        assert a[..i][0] == a[0] && b[..i][0] == b[0];
      }
    }
  }

  lemma {:induction false} KeyLessIrreflexive(a: string)
    ensures !KeyLess(a, a)
  {
    if a != "" {
      KeyLessIrreflexive(a[1..]);
    }
  }

  lemma {:induction false} KeyLessTransitive(a: string, b: string, c: string)
    requires KeyLess(a, b) && KeyLess(b, c)
    ensures KeyLess(a, c)
  {
    if a != "" && a[0] == b[0] && b[0] == c[0] {
      KeyLessTransitive(a[1..], b[1..], c[1..]);
    }
  }

  lemma {:induction false} KeyLessTotal(a: string, b: string)
    ensures a == b || KeyLess(a, b) || KeyLess(b, a)
  {
    if a != "" && b != "" && a[0] == b[0] {
      KeyLessTotal(a[1..], b[1..]);
      assert a == [a[0]] + a[1..] && b == [b[0]] + b[1..];
    }
  }

  // Position of a key, as std::map::find returns it; |es| stands for end().
  function FindKey(es: seq<Entry>, key: string): (k: nat)
    ensures k <= |es|
    ensures k < |es| ==> es[k].key == key
    ensures forall j | 0 <= j < k :: es[j].key != key
  {
    if es == [] then 0
    else if es[0].key == key then 0
    else
      var rest := FindKey(es[1..], key);
      assert forall j | 1 <= j < 1 + rest :: es[j] == es[1..][j - 1];
      1 + rest
  }

  lemma {:induction false} SortedKeysDistinct(es: seq<Entry>, i: nat, j: nat)
    requires Sorted(es) && i < |es| && j < |es| && es[i].key == es[j].key
    ensures i == j
  {
    KeyLessIrreflexive(es[i].key);
  }

  // Paths from the root name nodes by position; a path stands for the address
  // of a node, so two equal subtrees at different places stay distinct.
  type Path = seq<nat>

  ghost predicate ValidPath(v: Variant, p: Path)
    decreases |p|
  {
    p == [] || (p[0] < v.NumKids() && ValidPath(v.Kid(p[0]), p[1..]))
  }

  ghost function At(v: Variant, p: Path): Variant
    requires ValidPath(v, p)
    decreases |p|
  {
    if p == [] then v else At(v.Kid(p[0]), p[1..])
  }

  lemma {:induction false} AtExtend(v: Variant, p: Path, i: nat)
    requires ValidPath(v, p) && i < At(v, p).NumKids()
    ensures ValidPath(v, p + [i]) && At(v, p + [i]) == At(v, p).Kid(i)
    decreases |p|
  {
    if p == [] {
      assert [i][1..] == [];
    } else {
      AtExtend(v.Kid(p[0]), p[1..], i);
      assert (p + [i])[1..] == p[1..] + [i];
    }
  }

  // Nesting height: 0 for leaves, 1 for empty containers.
  ghost function Height(v: Variant): nat {
    if v.IsContainer() then 1 + MaxKidHeight(v, v.NumKids()) else 0
  }

  ghost function MaxKidHeight(v: Variant, n: nat): nat
    requires n <= v.NumKids()
    decreases v, 0, n
  {
    if n == 0 then 0
    else
      var h := Height(v.Kid(n - 1));
      var rest := MaxKidHeight(v, n - 1);
      if h > rest then h else rest
  }

  // ---- operator== ----

  // The number a double's text stands for, by one spelling for each number;
  // none for what is not a number.
  type Numbers = string -> Option<string>

  ghost predicate Spelling(number: Numbers) {
    forall text | number(text).Some? :: number(number(text).value) == number(text)
  }

  predicate Equals(a: Variant, b: Variant, number: Numbers) {
    match a
    case NoneV => b.NoneV?
    case BoolV(_) => false
    case IntV(i) => b.IntV? && i == b.i
    case DoubleV(text) => b.DoubleV? && number(text).Some? && number(text) == number(b.text)
    case StringV(s) => b.StringV? && s == b.s
    case ArrayV(elems) =>
      && b.ArrayV? && |elems| == |b.elems|
      && forall i | 0 <= i < |elems| :: Equals(elems[i], b.elems[i], number)
    case DictV(entries) =>
      && b.DictV? && |entries| == |b.entries|
      && forall i | 0 <= i < |entries| ::
           entries[i].key == b.entries[i].key && Equals(entries[i].value, b.entries[i].value, number)
  }

  // The tree with every double in its one spelling.
  function Spelled(v: Variant, number: Numbers): Variant {
    match v
    case DoubleV(text) => if number(text).Some? then DoubleV(number(text).value) else v
    case ArrayV(es) => ArrayV(seq(|es|, i requires 0 <= i < |es| => Spelled(es[i], number)))
    case DictV(es) =>
      DictV(seq(|es|, i requires 0 <= i < |es| => Entry(es[i].key, Spelled(es[i].value, number))))
    case _ => v
  }

  predicate HoldsBool(v: Variant) {
    v.BoolV? || exists i | 0 <= i < v.NumKids() :: HoldsBool(v.Kid(i))
  }

  predicate HoldsNaN(v: Variant, number: Numbers) {
    (v.DoubleV? && number(v.text).None?) || exists i | 0 <= i < v.NumKids() :: HoldsNaN(v.Kid(i), number)
  }

  // The operator has no case for bools, so a tree that holds one is not even
  // equal to itself, like one that holds a NaN; otherwise it is equality of
  // trees, whichever way their doubles are spelled.
  lemma {:induction false} EqualsExactly(a: Variant, b: Variant, number: Numbers)
    requires Spelling(number)
    ensures Equals(a, b, number)
      <==> Spelled(a, number) == Spelled(b, number) && !HoldsBool(a) && !HoldsNaN(a, number)
    decreases a
  {
    SpelledKind(a, number);
    SpelledKind(b, number);
    if a.DoubleV? && b.DoubleV? {
      SameNumber(a.text, b.text, number);
    } else if a.IsContainer() && a.NumKids() == b.NumKids() {
      forall i | 0 <= i < a.NumKids()
        ensures EqualKids(a, b, i, number)
      {
        EqualsExactly(a.Kid(i), b.Kid(i), number);
      }
      if a.DictV? && b.DictV? {
        EqualDicts(a.entries, b.entries, number);
      } else if a.ArrayV? && b.ArrayV? {
        EqualArrays(a.elems, b.elems, number);
      }
    }
  }

  // The property at a pair of children.
  ghost predicate EqualKids(a: Variant, b: Variant, i: nat, number: Numbers)
    requires i < a.NumKids() && i < b.NumKids()
  {
    var x, y := a.Kid(i), b.Kid(i);
    Equals(x, y, number) <==> Spelled(x, number) == Spelled(y, number) && !HoldsBool(x) && !HoldsNaN(x, number)
  }

  lemma {:induction false} SpelledKind(v: Variant, number: Numbers)
    ensures var s := Spelled(v, number);
      && (s.ArrayV? <==> v.ArrayV?) && (s.DictV? <==> v.DictV?) && (s.DoubleV? <==> v.DoubleV?)
      && s.NumKids() == v.NumKids() && (v.NumKids() == 0 && !v.DoubleV? ==> s == v)
  {
    if v.ArrayV? && v.elems == [] {
      assert Spelled(v, number).elems == [];
    } else if v.DictV? && v.entries == [] {
      assert Spelled(v, number).entries == [];
    }
  }

  lemma {:induction false} SameNumber(a: string, b: string, number: Numbers)
    requires Spelling(number)
    ensures number(a).Some? && number(a) == number(b)
      <==> number(a).Some? && Spelled(DoubleV(a), number) == Spelled(DoubleV(b), number)
  {
    if number(a).Some? && number(b).None? {
      assert number(number(a).value) == number(a);
    }
  }

  lemma {:induction false} EqualArrays(es: seq<Variant>, fs: seq<Variant>, number: Numbers)
    requires |es| == |fs| && forall i | 0 <= i < |es| :: EqualKids(ArrayV(es), ArrayV(fs), i, number)
    ensures var a, b := ArrayV(es), ArrayV(fs);
      Equals(a, b, number) <==> Spelled(a, number) == Spelled(b, number) && !HoldsBool(a) && !HoldsNaN(a, number)
  {
    var a, b := ArrayV(es), ArrayV(fs);
    var s, t := Spelled(a, number).elems, Spelled(b, number).elems;
    assert forall i | 0 <= i < |es| :: s[i] == Spelled(es[i], number) && t[i] == Spelled(fs[i], number);
    assert forall i | 0 <= i < |es| :: EqualKids(a, b, i, number) && a.Kid(i) == es[i] && b.Kid(i) == fs[i];
  }

  lemma {:induction false} EqualDicts(es: seq<Entry>, fs: seq<Entry>, number: Numbers)
    requires |es| == |fs| && forall i | 0 <= i < |es| :: EqualKids(DictV(es), DictV(fs), i, number)
    ensures var a, b := DictV(es), DictV(fs);
      Equals(a, b, number) <==> Spelled(a, number) == Spelled(b, number) && !HoldsBool(a) && !HoldsNaN(a, number)
  {
    var a, b := DictV(es), DictV(fs);
    var s, t := Spelled(a, number).entries, Spelled(b, number).entries;
    assert forall i | 0 <= i < |es| :: s[i] == Entry(es[i].key, Spelled(es[i].value, number));
    assert forall i | 0 <= i < |fs| :: t[i] == Entry(fs[i].key, Spelled(fs[i].value, number));
    assert forall i | 0 <= i < |es| :: EqualKids(a, b, i, number) && a.Kid(i) == es[i].value && b.Kid(i) == fs[i].value;
  }
}
