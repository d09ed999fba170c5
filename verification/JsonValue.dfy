// From syntax trees to variants: numbers through the standard stream
// conversions, dictionaries by insertion (tinfra/json.cpp, tinfra/variant.cpp).
module JsonValue {
  import opened Variants
  import opened JsonSpec
  import opened JsonGrammar
  import N = IntToString

  // ---- integers as text ----

  const MIN64 := -0x8000_0000_0000_0000
  const MAX64 := 0x7FFF_FFFF_FFFF_FFFF

  // The text an output stream prints for an integer.
  function IntText(i: int): string { N.SignedNumeral(i, N.Dec) }

  function LeadingDigits(s: string): (n: nat)
    ensures n <= |s|
  {
    if s == "" || !Digit(s[0]) then 0 else 1 + LeadingDigits(s[1..])
  }

  function Clamp(i: int): int {
    if i < MIN64 then MIN64 else if i > MAX64 then MAX64 else i
  }

  // The 64-bit integer an input stream reads from a text: an optional sign and
  // the digits after it, limited to the type's range; 0 if there are none.
  function IntValue(s: string): int {
    var body := if s != "" && (s[0] == '-' || s[0] == '+') then s[1..] else s;
    var n: int := N.ValueOf(body[..LeadingDigits(body)], N.Dec);
    Clamp(if s != "" && s[0] == '-' then -n else n)
  }

  lemma {:induction false} NumeralDigits(n: nat)
    ensures var s := N.Numeral(n, N.Dec); s != "" && forall i | 0 <= i < |s| :: Digit(s[i])
  {
    hide N.Numeral;
    N.NumeralValue(n, N.Dec);
    var s := N.Numeral(n, N.Dec);
    forall i | 0 <= i < |s|
      ensures Digit(s[i])
    {
      assert N.IsDigit(s[i], N.Dec);
    }
  }

  lemma {:induction false} AllLeading(s: string)
    requires forall i | 0 <= i < |s| :: Digit(s[i])
    ensures LeadingDigits(s) == |s|
  {
    if s != "" {
      AllLeading(s[1..]);
    }
  }

  // Printed integers read back, over the whole 64-bit range.
  lemma {:induction false} IntRoundTrip(i: int)
    requires MIN64 <= i <= MAX64
    ensures IntValue(IntText(i)) == i
  {
    var n := if i < 0 then -i else i;
    var body := N.Numeral(n, N.Dec);
    NumeralDigits(n);
    AllLeading(body);
    N.NumeralValue(n, N.Dec);
    assert body[..|body|] == body;
    if i < 0 {
      assert IntText(i)[1..] == body;
    } else {
      assert IntText(i) == body by {
        assert "" + body == body;
      }
      assert Digit(body[0]) && body[0] != '-' && body[0] != '+';
    }
  }

  lemma {:induction false} IntTextIsNumber(i: int)
    ensures IntText(i) != "" && (IntText(i)[0] == '-' || Digit(IntText(i)[0]))
    ensures forall k | 0 <= k < |IntText(i)| :: NumberChar(IntText(i)[k]) && !FractionChar(IntText(i)[k])
  {
    NumeralDigits(if i < 0 then -i else i);
  }

  // ---- dictionaries ----

  // dict[key] = value on an ordered map.
  function Put(es: seq<Entry>, key: string, v: Variant): seq<Entry> {
    if es == [] then [Entry(key, v)]
    else if es[0].key == key then [Entry(key, v)] + es[1..]
    else if KeyLess(key, es[0].key) then [Entry(key, v)] + es
    else [es[0]] + Put(es[1..], key, v)
  }

  lemma {:induction false} PutKeys(es: seq<Entry>, key: string, v: Variant)
    ensures forall e :: e in Put(es, key, v) ==> e == Entry(key, v) || e in es
  {
    if es != [] && es[0].key != key && !KeyLess(key, es[0].key) {
      PutKeys(es[1..], key, v);
    }
  }

  lemma {:induction false} PutSorted(es: seq<Entry>, key: string, v: Variant)
    requires Sorted(es)
    ensures Sorted(Put(es, key, v))
  {
    if es != [] {
      assert forall i | 1 <= i < |es| :: es[i] == es[1..][i - 1];
      if es[0].key == key {
        assert forall i, j | 0 <= i < j < |es| :: KeyLess(es[i].key, es[j].key);
      } else if KeyLess(key, es[0].key) {
        forall j | 1 <= j < |es|
          ensures KeyLess(key, es[j].key)
        {
          KeyLessTransitive(key, es[0].key, es[j].key);
        }
      } else {
        KeyLessTotal(key, es[0].key);
        PutSorted(es[1..], key, v);
        PutKeys(es[1..], key, v);
        var rest := Put(es[1..], key, v);
        forall j | 0 <= j < |rest|
          ensures KeyLess(es[0].key, rest[j].key)
        {
          assert rest[j] in rest;
        }
      }
    }
  }

  // What a lookup finds; NoneV stands for a missing key.
  datatype Found = Present(v: Variant) | Absent

  function Lookup(es: seq<Entry>, key: string): Found {
    var k := FindKey(es, key);
    if k < |es| then Present(es[k].value) else Absent
  }

  lemma {:induction false} LookupStep(es: seq<Entry>, key: string)
    requires es != []
    ensures Lookup(es, key) == if es[0].key == key then Present(es[0].value) else Lookup(es[1..], key)
  {
  }

  lemma {:induction false} LookupPut(es: seq<Entry>, key: string, v: Variant, k: string)
    requires Sorted(es)
    ensures Lookup(Put(es, key, v), k) == if k == key then Present(v) else Lookup(es, k)
  {
    var out := Put(es, key, v);
    LookupStep(out, k);
    if es != [] {
      LookupStep(es, k);
      if es[0].key == key {
        assert out[1..] == es[1..];
      } else if KeyLess(key, es[0].key) {
        assert out[1..] == es;
      } else {
        assert out[1..] == Put(es[1..], key, v);
        LookupPut(es[1..], key, v, k);
        if k == key {
          KeyLessTotal(key, es[0].key);
        }
      }
    }
  }

  // ---- the variant of a syntax tree ----

  function ToVariant(t: Tree): Variant
    decreases t, 0
  {
    match t
    case ObjectT(ms) => DictV(ToEntries(ms))
    case ArrayT(es) => ArrayV(ToElems(es))
    case StringT(s) => StringV(s)
    case IntT(text) => IntV(IntValue(text))
    case DoubleT(text) => DoubleV(text)
  }

  // Members stored one after another.
  function ToEntries(ms: seq<Member>): seq<Entry>
    decreases ms, 0
  {
    if ms == [] then []
    else Put(ToEntries(ms[..|ms| - 1]), ms[|ms| - 1].key, ToVariant(ms[|ms| - 1].val))
  }

  function ToElems(es: seq<Tree>): (r: seq<Variant>)
    ensures |r| == |es|
    decreases es, 0
  {
    if es == [] then [] else ToElems(es[..|es| - 1]) + [ToVariant(es[|es| - 1])]
  }

  lemma {:induction false} EntriesSorted(ms: seq<Member>)
    ensures Sorted(ToEntries(ms))
  {
    if ms != [] {
      EntriesSorted(ms[..|ms| - 1]);
      PutSorted(ToEntries(ms[..|ms| - 1]), ms[|ms| - 1].key, ToVariant(ms[|ms| - 1].val));
    }
  }

  // Of members with the same key the last one is kept, under that key.
  lemma {:induction false} LastDuplicateWins(ms: seq<Member>, i: nat)
    requires i < |ms| && forall j | i < j < |ms| :: ms[j].key != ms[i].key
    ensures Lookup(ToEntries(ms), ms[i].key) == Present(ToVariant(ms[i].val))
  {
    var init, last := ms[..|ms| - 1], ms[|ms| - 1];
    EntriesSorted(init);
    LookupPut(ToEntries(init), last.key, ToVariant(last.val), ms[i].key);
    if i < |ms| - 1 {
      LastDuplicateWins(init, i);
    }
  }

  // Only keys of members are stored.
  lemma {:induction false} NoOtherKeys(ms: seq<Member>, key: string)
    requires forall i | 0 <= i < |ms| :: ms[i].key != key
    ensures Lookup(ToEntries(ms), key) == Absent
  {
    if ms != [] {
      var init, last := ms[..|ms| - 1], ms[|ms| - 1];
      EntriesSorted(init);
      NoOtherKeys(init, key);
      LookupPut(ToEntries(init), last.key, ToVariant(last.val), key);
    }
  }

  lemma {:induction false} ToVariantWellFormed(t: Tree)
    ensures WellFormed(ToVariant(t))
    decreases t, 0
  {
    match t
    case ObjectT(ms) =>
      EntriesSorted(ms);
      EntriesWellFormed(ms);
    case ArrayT(es) =>
      ElemsWellFormed(es);
    case _ =>
  }

  lemma {:induction false} EntriesWellFormed(ms: seq<Member>)
    ensures forall e :: e in ToEntries(ms) ==> WellFormed(e.value)
    decreases ms, 0
  {
    if ms != [] {
      var init, last := ms[..|ms| - 1], ms[|ms| - 1];
      EntriesWellFormed(init);
      ToVariantWellFormed(last.val);
      PutKeys(ToEntries(init), last.key, ToVariant(last.val));
    }
  }

  lemma {:induction false} ElemsWellFormed(es: seq<Tree>)
    ensures forall i | 0 <= i < |es| :: WellFormed(ToElems(es)[i])
    decreases es, 0
  {
    if es != [] {
      ElemsWellFormed(es[..|es| - 1]);
      ToVariantWellFormed(es[|es| - 1]);
    }
  }
}
