// What several parts share: optional values and facts about sequences.
module Common {

  datatype Option<T> = None | Some(value: T)

  // A sequence cut in two and put together again behind another.
  lemma {:induction false} Rejoin<T>(a: seq<T>, b: seq<T>, n: nat)
    requires n <= |b|
    ensures (a + b[..n]) + b[n..] == a + b
  {
  }

  lemma {:induction false} Assoc<T>(a: seq<T>, b: seq<T>, c: seq<T>)
    ensures (a + b) + c == a + (b + c)
  {
  }

  lemma {:induction false} Flatten<T>(a: seq<T>, b: seq<T>, c: seq<T>, d: seq<T>)
    ensures ((a + b) + c) + d == a + (b + (c + d))
    ensures (a + b) + (c + d) == ((a + b) + c) + d
    ensures ((a + b) + c) + d == a + ((b + c) + d)
  {
  }

  lemma {:induction false} Regroup<T>(a: seq<T>, b: seq<T>, c: seq<T>, d: seq<T>)
    ensures (a + (b + c)) + d == a + (b + (c + d))
  {
  }

  lemma {:induction false} DropTwice<T>(s: seq<T>, a: nat, b: nat)
    requires a + b <= |s|
    ensures s[a..][b..] == s[a + b..]
  {
  }
}
