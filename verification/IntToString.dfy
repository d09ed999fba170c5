// Integers as digits in a bounded buffer, without formatted printing
// (tinfra/basic_int_to_string.h, tinfra/safe_debug_print.cpp).
module IntToString {

  datatype Base = Dec | Hex

  function Times(n: nat, b: Base): nat { match b case Dec => 10 * n case Hex => 16 * n }
  function Quot(n: nat, b: Base): nat { match b case Dec => n / 10 case Hex => n / 16 }
  function Rest(n: nat, b: Base): nat { match b case Dec => n % 10 case Hex => n % 16 }
  function Size(b: Base): nat { match b case Dec => 10 case Hex => 16 }

  const DIGITS := "0123456789abcdef"

  function Digit(d: nat): char { if d < 16 then DIGITS[d] else '?' }

  function DigitValue(c: char): nat {
    if '0' <= c <= '9' then c as nat - '0' as nat else if 'a' <= c <= 'f' then c as nat - 'a' as nat + 10 else 0
  }

  predicate IsDigit(c: char, b: Base) { '0' <= c <= '9' || (b.Hex? && 'a' <= c <= 'f') }

  // The digits of n without leading zeros; nothing for zero.
  function Digits(n: nat, b: Base): string {
    if n == 0 then "" else Digits(Quot(n, b), b) + [Digit(Rest(n, b))]
  }

  // The text of n: its digits, or a single zero.
  function Numeral(n: nat, b: Base): string { if n == 0 then "0" else Digits(n, b) }

  function ValueOf(s: string, b: Base): nat {
    if s == "" then 0 else Times(ValueOf(s[..|s| - 1], b), b) + DigitValue(s[|s| - 1])
  }

  predicate Canonical(s: string, b: Base) {
    && s != "" && (forall i | 0 <= i < |s| :: IsDigit(s[i], b)) && (s[0] == '0' ==> |s| == 1)
  }

  lemma {:induction false} DigitRound(d: nat, b: Base)
    requires d < Size(b)
    ensures IsDigit(Digit(d), b) && DigitValue(Digit(d)) == d && (Digit(d) == '0' <==> d == 0)
  {
    assert d == 0 || d == 1 || d == 2 || d == 3 || d == 4 || d == 5 || d == 6 || d == 7
        || d == 8 || d == 9 || d == 10 || d == 11 || d == 12 || d == 13 || d == 14 || d == 15;
  }

  lemma {:induction false} Split(n: nat, b: Base)
    ensures n == Times(Quot(n, b), b) + Rest(n, b) && Rest(n, b) < Size(b) && (n > 0 ==> Quot(n, b) < n)
  {
  }

  lemma {:induction false} SplitBack(v: nat, d: nat, b: Base)
    requires d < Size(b)
    ensures var n := Times(v, b) + d; Quot(n, b) == v && Rest(n, b) == d && (n == 0 <==> v == 0 && d == 0)
  {
  }

  lemma {:induction false} ValueMore(s: string, c: char, b: Base)
    ensures ValueOf(s + [c], b) == Times(ValueOf(s, b), b) + DigitValue(c)
    ensures ValueOf("", b) == 0 == Times(0, b)
  {
    assert (s + [c])[..|s|] == s;
  }

  lemma {:induction false} CanonicalMore(s: string, c: char, b: Base)
    requires IsDigit(c, b) && (if s == "" then c != '0' else Canonical(s, b) && s[0] != '0')
    ensures Canonical(s + [c], b) && (s + [c])[0] != '0'
  {
  }

  lemma {:induction false} DigitsValue(n: nat, b: Base)
    requires n > 0
    ensures Digits(n, b) != "" && Canonical(Digits(n, b), b) && ValueOf(Digits(n, b), b) == n && Digits(n, b)[0] != '0'
  {
    hide Times, Quot, Rest, Size, Digit, DigitValue, IsDigit, Canonical, ValueOf;
    var q, r := Quot(n, b), Rest(n, b);
    Split(n, b);
    DigitRound(r, b);
    var s := Digits(q, b);
    ValueMore(s, Digit(r), b);
    if q > 0 {
      DigitsValue(q, b);
    }
    CanonicalMore(s, Digit(r), b);
  }

  // The text of a number is the one canonical numeral with that value.
  lemma {:induction false} NumeralValue(n: nat, b: Base)
    ensures Canonical(Numeral(n, b), b) && ValueOf(Numeral(n, b), b) == n
  {
    if n > 0 {
      DigitsValue(n, b);
    } else {
      assert "0"[..0] == "";
      assert ValueOf("0"[..0], b) == 0;
    }
  }

  lemma {:induction false} OnlyNumeral(s: string, b: Base)
    requires Canonical(s, b)
    ensures s == Numeral(ValueOf(s, b), b)
  {
    hide Times, Quot, Rest, Size, Digit, DigitValue, IsDigit, ValueOf;
    var n := |s| - 1;
    var init, d := s[..n], DigitValue(s[n]);
    DigitBack(s[n], b);
    ValueMore(init, s[n], b);
    SplitBack(ValueOf(init, b), d, b);
    assert s == init + [s[n]];
    if n > 0 {
      assert init[0] == s[0];
      OnlyNumeral(init, b);
      PositiveValue(init, b);
    } else {
      ZeroDigit(s[0], b);
      assert init == "" && Digits(0, b) == "" && s == [s[0]];
      assert ValueOf(s, b) == d;
      if d > 0 {
        assert Digits(d, b) == Digits(Quot(d, b), b) + [Digit(Rest(d, b))];
      }
    }
  }

  lemma {:induction false} ZeroDigit(c: char, b: Base)
    requires IsDigit(c, b)
    ensures DigitValue(c) == 0 <==> c == '0'
  {
  }

  lemma {:induction false} DigitBack(c: char, b: Base)
    requires IsDigit(c, b)
    ensures DigitValue(c) < Size(b) && Digit(DigitValue(c)) == c
  {
    var d := DigitValue(c);
    assert d == 0 || d == 1 || d == 2 || d == 3 || d == 4 || d == 5 || d == 6 || d == 7
        || d == 8 || d == 9 || d == 10 || d == 11 || d == 12 || d == 13 || d == 14 || d == 15;
  }

  lemma {:induction false} PositiveValue(s: string, b: Base)
    requires Canonical(s, b) && s[0] != '0'
    ensures ValueOf(s, b) > 0
  {
    if |s| > 1 {
      var init := s[..|s| - 1];
      assert init[0] == s[0];
      PositiveValue(init, b);
    } else {
      assert s[..0] == "";
    }
  }

  // ---- the conversions ----

  method Reverse(dest: array<char>, from: nat, to: nat)
    requires from <= to <= dest.Length
    modifies dest
    ensures forall i | from <= i < to :: dest[i] == old(dest[from + to - 1 - i])
    ensures forall i | 0 <= i < dest.Length && !(from <= i < to) :: dest[i] == old(dest[i])
  {
    var i, j := from, to;
    while i + 1 < j
      invariant from <= i <= j <= to && i + j == from + to
      invariant forall k | from <= k < i || j <= k < to :: dest[k] == old(dest[from + to - 1 - k])
      invariant forall k | i <= k < j :: dest[k] == old(dest[k])
      invariant forall k | 0 <= k < dest.Length && !(from <= k < to) :: dest[k] == old(dest[k])
    {
      j := j - 1;
      dest[i], dest[j] := dest[j], dest[i];
      i := i + 1;
    }
  }

  // The digit loop: from position `at`, the last digit first, with a NUL
  // after the digit just written. The bound counts digits only.
  method WriteDigits(value: nat, b: Base, dest: array<char>, at: nat, bufSize: nat) returns (ok: bool, pos: nat)
    requires 2 <= bufSize && at + bufSize <= dest.Length
    modifies dest
    ensures ok <==> |Digits(value, b)| + 1 <= bufSize
    ensures ok ==> pos == |Digits(value, b)|
    ensures ok ==> forall i | at <= i < at + pos :: dest[i] == Digits(value, b)[at + pos - 1 - i]
    ensures ok && pos > 0 ==> dest[at + pos] == 0 as char
    ensures !ok ==> pos == bufSize - 1 && dest[at + pos] == 0 as char
    ensures forall i | 0 <= i < dest.Length && !(at <= i <= at + pos) :: dest[i] == old(dest[i])
  {
    hide Digits, Digit, Rest, Quot;
    ghost var all := Digits(value, b);
    var v := value;
    pos := 0;
    while v != 0
      invariant pos <= bufSize - 1 && pos + |Digits(v, b)| == |all| && Digits(v, b) <= all
      invariant forall i | at <= i < at + pos :: dest[i] == all[|all| - 1 - (i - at)]
      invariant pos > 0 ==> dest[at + pos] == 0 as char
      invariant forall i | 0 <= i < dest.Length && !(at <= i <= at + pos) :: dest[i] == old(dest[i])
    {
      DigitsStep(v, b);
      if pos >= bufSize - 1 {
        return false, pos;
      }
      assert Digits(v, b)[|Digits(v, b)| - 1] == all[|all| - 1 - pos];
      dest[at + pos] := Digit(Rest(v, b));
      dest[at + pos + 1] := 0 as char;
      v := Quot(v, b);
      pos := pos + 1;
    }
    DigitsStep(v, b);
    ok := true;
  }

  lemma {:induction false} DigitsStep(v: nat, b: Base)
    ensures v == 0 ==> Digits(v, b) == ""
    ensures v != 0 ==> Digits(v, b) == Digits(Quot(v, b), b) + [Digit(Rest(v, b))] && Quot(v, b) < v
  {
  }

  // unsigned_integer_to_string: exact whenever digits and NUL fit, and inside
  // the buffer always.
  method UnsignedToString(value: nat, b: Base, dest: array<char>, bufSize: nat) returns (r: int)
    requires bufSize <= dest.Length
    modifies dest
    ensures r == -1 <==> |Numeral(value, b)| + 1 > bufSize
    ensures r != -1 ==> r == |Numeral(value, b)| && dest[..r] == Numeral(value, b) && dest[r] == 0 as char
    ensures forall i | bufSize <= i < dest.Length :: dest[i] == old(dest[i])
  {
    hide Digits;
    NumeralSome(value, b);
    if bufSize < 2 {
      return -1;
    }
    if value == 0 {
      dest[0] := '0';
      dest[1] := 0 as char;
      return 1;
    }
    var ok, pos := WriteDigits(value, b, dest, 0, bufSize);
    if !ok {
      return -1;
    }
    Reverse(dest, 0, pos);
    assert dest[..pos] == Digits(value, b);
    r := pos;
  }

  lemma {:induction false} NumeralSome(n: nat, b: Base)
    ensures Numeral(n, b) != ""
  {
    NumeralValue(n, b);
  }

  // ---- signed numbers ----

  // C's remainder and quotient: toward zero, with the sign of the dividend.
  function TruncRest(v: int, b: Base): int { if v < 0 then -(Rest(-v, b) as int) else Rest(v, b) }
  function TruncQuot(v: int, b: Base): int { if v < 0 then -(Quot(-v, b) as int) else Quot(v, b) }

  function Abs(v: int): nat { if v < 0 then -v else v }

  function SignedNumeral(v: int, b: Base): string { (if v < 0 then "-" else "") + Numeral(Abs(v), b) }

  function SignedValue(s: string, b: Base): int {
    if s != "" && s[0] == '-' then -(ValueOf(s[1..], b) as int) else ValueOf(s, b)
  }

  // The text of a signed number has its value.
  lemma {:induction false} SignedNumeralValue(v: int, b: Base)
    ensures SignedValue(SignedNumeral(v, b), b) == v
  {
    hide ValueOf, Numeral;
    NumeralValue(Abs(v), b);
    var s := Numeral(Abs(v), b);
    assert IsDigit(s[0], b);
    if v < 0 {
      assert ("-" + s)[1..] == s;
    } else {
      assert "" + s == s;
    }
  }

  // The values of a two's complement type, from its greatest value.
  predicate Fits(v: int, max: nat) { -1 - max <= v <= max }

  // Digit by digit a number and its negation go the same way, and nothing
  // leaves the type, not even from its smallest value.
  lemma {:induction false} TruncAbs(v: int, b: Base, multiplier: int, max: nat)
    requires multiplier == (if v < 0 then -1 else 1) && Fits(v, max) && max >= 127
    ensures TruncRest(v, b) * multiplier == Rest(Abs(v), b) && Fits(TruncRest(v, b) * multiplier, max)
    ensures Abs(TruncQuot(v, b)) == Quot(Abs(v), b) && Fits(TruncQuot(v, b), max)
    ensures v < 0 ==> TruncQuot(v, b) <= 0
    ensures v >= 0 ==> TruncQuot(v, b) >= 0
  {
  }

  // The digit loop on a signed value; the bound does not count the sign.
  method WriteSignedDigits(value: int, b: Base, multiplier: int, max: nat, dest: array<char>, at: nat, bufSize: nat)
    returns (ok: bool, pos: nat)
    requires 2 <= bufSize && at + bufSize <= dest.Length
    requires multiplier == (if value < 0 then -1 else 1) && Fits(value, max) && max >= 127
    modifies dest
    ensures ok <==> |Digits(Abs(value), b)| + 1 <= bufSize
    ensures ok ==> pos == |Digits(Abs(value), b)|
    ensures ok ==> forall i | at <= i < at + pos :: dest[i] == Digits(Abs(value), b)[at + pos - 1 - i]
    ensures ok && pos > 0 ==> dest[at + pos] == 0 as char
    ensures !ok ==> pos == bufSize - 1 && dest[at + pos] == 0 as char
    ensures forall i | 0 <= i < dest.Length && !(at <= i <= at + pos) :: dest[i] == old(dest[i])
  {
    hide Digits, Digit, Rest, Quot, TruncRest, TruncQuot;
    ghost var all := Digits(Abs(value), b);
    var v := value;
    pos := 0;
    while v != 0
      invariant Fits(v, max) && (v < 0 ==> multiplier == -1) && (v > 0 ==> multiplier == 1)
      invariant pos <= bufSize - 1 && pos + |Digits(Abs(v), b)| == |all| && Digits(Abs(v), b) <= all
      invariant forall i | at <= i < at + pos :: dest[i] == all[|all| - 1 - (i - at)]
      invariant pos > 0 ==> dest[at + pos] == 0 as char
      invariant forall i | 0 <= i < dest.Length && !(at <= i <= at + pos) :: dest[i] == old(dest[i])
      decreases Abs(v)
    {
      DigitsStep(Abs(v), b);
      TruncAbs(v, b, multiplier, max);
      var remainder := TruncRest(v, b);
      if pos >= bufSize - 1 {
        return false, pos;
      }
      assert Digits(Abs(v), b)[|Digits(Abs(v), b)| - 1] == all[|all| - 1 - pos];
      dest[at + pos] := Digit(remainder * multiplier);
      dest[at + pos + 1] := 0 as char;
      v := TruncQuot(v, b);
      pos := pos + 1;
    }
    DigitsStep(Abs(v), b);
    ok := true;
  }

  lemma {:induction false} NumeralParts(value: int, b: Base)
    ensures value == 0 ==> Numeral(Abs(value), b) == "0" == SignedNumeral(value, b)
    ensures value != 0 ==> Numeral(Abs(value), b) == Digits(Abs(value), b)
    ensures value != 0 ==> SignedNumeral(value, b) == (if value < 0 then "-" else "") + Digits(Abs(value), b)
  {
    assert "" + "0" == "0";
  }

  // signed_integer_to_string. Given room for sign, digits and NUL it is exact
  // for every value. The cell after the buffer is written exactly for a
  // negative value without that room.
  method SignedToString(value: int, b: Base, max: nat, dest: array<char>, bufSize: nat) returns (r: int, past: bool)
    requires Fits(value, max) && max >= 127 && bufSize < dest.Length
    modifies dest
    ensures r == -1 <==> |Numeral(Abs(value), b)| + 1 > bufSize
    ensures r != -1 ==>
      r == |SignedNumeral(value, b)| && dest[..r] == SignedNumeral(value, b) && dest[r] == 0 as char
    ensures past <==> value < 0 && 2 <= bufSize <= |Numeral(Abs(value), b)| + 1
    ensures past ==> dest[bufSize] == 0 as char
    ensures forall i | bufSize <= i < dest.Length && !(past && i == bufSize) :: dest[i] == old(dest[i])
  {
    hide Digits, Numeral, SignedNumeral, Fits;
    NumeralParts(value, b);
    NumeralSome(Abs(value), b);
    past := false;
    if bufSize < 2 {
      return -1, past;
    }
    if value == 0 {
      dest[0] := '0';
      dest[1] := 0 as char;
      return 1, past;
    }
    var multiplier, at := 1, 0;
    if value < 0 {
      dest[0] := '-';
      multiplier, at := -1, 1;
    }
    var ok, pos := WriteSignedDigits(value, b, multiplier, max, dest, at, bufSize);
    past := at + pos == bufSize;
    if !ok {
      return -1, past;
    }
    ghost var sign := if value < 0 then "-" else "";
    assert dest[..at] == sign;
    Reverse(dest, at, at + pos);
    assert dest[at..at + pos] == Digits(Abs(value), b);
    assert dest[..at + pos] == dest[..at] + dest[at..at + pos];
    r := at + pos;
  }

  // ---- the callers' buffers ----

  function Pow(b: Base, k: nat): nat { if k == 0 then 1 else Times(Pow(b, k - 1), b) }

  lemma {:induction false} DigitsFit(n: nat, b: Base, k: nat)
    requires n < Pow(b, k)
    ensures |Digits(n, b)| <= k
  {
    if n > 0 {
      assert Quot(n, b) < Pow(b, k - 1);
      DigitsFit(Quot(n, b), b, k - 1);
    }
  }

  // 16 bytes for 8 and 16 bits, 24 for 32 bits and 48 for 64 bits, in base 10
  // with a sign, or 46 after "0x" for a 64-bit address in base 16.
  lemma {:induction false} CallersHaveRoom(v: int)
    ensures -0x8000 <= v < 0x1_0000 ==> |SignedNumeral(v, Dec)| + 1 <= 16
    ensures -0x8000_0000 <= v < 0x1_0000_0000 ==> |SignedNumeral(v, Dec)| + 1 <= 24
    ensures -0x8000_0000_0000_0000 <= v < 0x1_0000_0000_0000_0000 ==> |SignedNumeral(v, Dec)| + 1 <= 48
    ensures 0 <= v < 0x1_0000_0000_0000_0000 ==> |Numeral(v, Hex)| + 1 <= 46
  {
    PowersOfTen();
    if Abs(v) < 0x1_0000 {
      DigitsFit(Abs(v), Dec, 5);
    }
    if Abs(v) < 0x1_0000_0000 {
      DigitsFit(Abs(v), Dec, 10);
    }
    if Abs(v) < 0x1_0000_0000_0000_0000 {
      DigitsFit(Abs(v), Dec, 20);
      DigitsFit(Abs(v), Hex, 16);
    }
  }

  lemma {:induction false} PowersOfTen()
    ensures Pow(Dec, 5) == 10_0000 && Pow(Dec, 10) == 100_0000_0000 && Pow(Dec, 20) == 10000_0000_0000_0000_0000
    ensures Pow(Hex, 16) == 0x1_0000_0000_0000_0000
  {
    assert Pow(Dec, 2) == 100;
    assert Pow(Dec, 5) == 10_0000;
    assert Pow(Dec, 7) == 1000_0000;
    assert Pow(Dec, 10) == 100_0000_0000;
    assert Pow(Dec, 12) == 1_0000_0000_0000;
    assert Pow(Dec, 15) == 1000_0000_0000_0000;
    assert Pow(Dec, 17) == 10_0000_0000_0000_0000;
    assert Pow(Hex, 3) == 0x1000;
    assert Pow(Hex, 6) == 0x100_0000;
    assert Pow(Hex, 9) == 0x10_0000_0000;
    assert Pow(Hex, 12) == 0x1_0000_0000_0000;
    assert Pow(Hex, 14) == 0x100_0000_0000_0000;
  }
}
