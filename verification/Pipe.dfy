// The in-process pipe: a byte buffer and a closed flag under one monitor, with
// any number of reading and writing threads (tinfra/internal_pipe.cpp).
module Pipe {
  import opened Common

  type Bytes = string

  // ---- the monitor's turns ----

  datatype P = P(buffer: Bytes, closed: bool, sleeping: set<nat>)

  // What a turn of read ends with; End is the 0 that stands for end of file.
  datatype ReadResult = Bytes(data: Bytes) | End | Waits

  function Least(a: nat, b: nat): nat { if a < b then a else b }

  function ReadOutcome(p: P, size: nat): ReadResult {
    if p.buffer != "" then Bytes(p.buffer[..Least(|p.buffer|, size)])
    else if p.closed then End
    else Waits
  }

  function AfterRead(p: P, t: nat, size: nat): P {
    match ReadOutcome(p, size)
    case Bytes(data) => p.(buffer := p.buffer[|data|..])
    case End => p
    case Waits => p.(sleeping := p.sleeping + {t})
  }

  // write: refused after close; wakes everybody if the buffer was empty.
  function AfterWrite(p: P, data: Bytes): P {
    if p.closed then p
    else P(p.buffer + data, false, if p.buffer == "" then {} else p.sleeping)
  }

  // close: wakes everybody if the buffer is empty.
  function AfterClose(p: P): P {
    P(p.buffer, true, if p.buffer == "" then {} else p.sleeping)
  }

  // No lost wakeup: a reader sleeps only while the pipe is open and empty.
  predicate NoLostWakeup(p: P) { p.sleeping != {} ==> p.buffer == "" && !p.closed }

  class InternalPipe {
    var buffer: Bytes
    var closed: bool
    var sleeping: set<nat>

    ghost function State(): P
      reads this
    {
      P(buffer, closed, sleeping)
    }

    constructor ()
      ensures State() == P("", false, {})
    {
      buffer, closed, sleeping := "", false, {};
    }

    // From acquiring the monitor, or waking up in it, to leaving it.
    method ReadTurn(t: nat, size: nat) returns (r: ReadResult)
      modifies this
      ensures r == ReadOutcome(old(State()), size) && State() == AfterRead(old(State()), t, size)
    {
      if |buffer| == 0 {
        if closed {
          return End;
        }
        sleeping := sleeping + {t};
        return Waits;
      }
      var n := if |buffer| < size then |buffer| else size;
      r := Bytes(buffer[..n]);
      buffer := buffer[n..];
    }

    method Write(data: Bytes) returns (ok: bool)
      modifies this
      ensures ok == !old(closed) && State() == AfterWrite(old(State()), data)
    {
      if closed {
        return false;
      }
      var shouldSignal := |buffer| == 0;
      buffer := buffer + data;
      if shouldSignal {
        sleeping := {};
      }
      ok := true;
    }

    method Close()
      modifies this
      ensures State() == AfterClose(old(State()))
    {
      closed := true;
      if |buffer| == 0 {
        sleeping := {};
      }
    }
  }

  // ---- any interleaving of readers and writers ----

  // A finished read call, in the order of its last turn.
  datatype Done = Done(t: nat, size: nat, result: ReadResult)

  datatype State = State(
    p: P,
    pending: map<nat, nat>,  // threads inside read, and the sizes they asked for
    written: Bytes,          // everything accepted by write
    log: seq<Done>)          // finished reads

  datatype Action =
    | CallRead(t: nat, size: nat)
    | ReadTurn(t: nat)
    | SpuriousWake(t: nat)
    | Write(data: Bytes)
    | Close

  function Initial(): State { State(P("", false, {}), map[], "", []) }

  predicate Enabled(s: State, a: Action) {
    match a
    case CallRead(t, _) => t !in s.pending
    case ReadTurn(t) => t in s.pending && t !in s.p.sleeping
    case SpuriousWake(t) => t in s.p.sleeping
    case Write(_) => true
    case Close => true
  }

  function Step(s: State, a: Action): State
    requires Enabled(s, a)
  {
    match a
    case CallRead(t, size) => s.(pending := s.pending[t := size])
    case ReadTurn(t) =>
      var size := s.pending[t];
      var r := ReadOutcome(s.p, size);
      var next := s.(p := AfterRead(s.p, t, size));
      if r.Waits? then next else next.(pending := s.pending - {t}, log := s.log + [Done(t, size, r)])
    case SpuriousWake(t) => s.(p := s.p.(sleeping := s.p.sleeping - {t}))
    case Write(data) => s.(p := AfterWrite(s.p, data), written := s.written + if s.p.closed then "" else data)
    case Close => s.(p := AfterClose(s.p))
  }

  function Delivered(log: seq<Done>): Bytes {
    if log == [] then ""
    else
      var r := log[|log| - 1].result;
      Delivered(log[..|log| - 1]) + if r.Bytes? then r.data else ""
  }

  // The finished reads: none was left waiting, none got more than it asked
  // for, and only one that asked for nothing got nothing.
  ghost predicate GoodLog(log: seq<Done>) {
    && (forall k | 0 <= k < |log| :: !log[k].result.Waits?)
    && (forall k | 0 <= k < |log| && log[k].result.Bytes? ::
          |log[k].result.data| <= log[k].size && (log[k].result.data == "" ==> log[k].size == 0))
    && (forall j, k | 0 <= j < k < |log| && log[j].result.End? :: log[k].result.End?)
  }

  ghost predicate HasEnd(log: seq<Done>) { exists k :: 0 <= k < |log| && log[k].result.End? }

  ghost predicate Inv(s: State) {
    && NoLostWakeup(s.p)
    && s.p.sleeping <= s.pending.Keys
    && Delivered(s.log) + s.p.buffer == s.written
    && GoodLog(s.log)
    && (HasEnd(s.log) ==> s.p.closed && s.p.buffer == "")
  }

  lemma {:induction false} DeliveredMore(log: seq<Done>, d: Done)
    ensures Delivered(log + [d]) == Delivered(log) + if d.result.Bytes? then d.result.data else ""
  {
    assert (log + [d])[..|log|] == log;
  }

  lemma {:induction false} GoodLogMore(log: seq<Done>, d: Done)
    requires GoodLog(log) && !d.result.Waits? && (HasEnd(log) ==> d.result.End?)
    requires d.result.Bytes? ==> |d.result.data| <= d.size && (d.result.data == "" ==> d.size == 0)
    ensures GoodLog(log + [d]) && (HasEnd(log + [d]) <==> HasEnd(log) || d.result.End?)
  {
    var more := log + [d];
    assert forall k | 0 <= k < |log| :: more[k] == log[k];
    assert d.result.End? ==> more[|log|].result.End?;
    if HasEnd(log) {
      var k :| 0 <= k < |log| && log[k].result.End?;
      assert more[k].result.End?;
    }
  }

  lemma {:induction false} BytesKeep(s: State, x: nat)
    requires Inv(s) && Enabled(s, ReadTurn(x)) && s.p.buffer != ""
    ensures Inv(Step(s, ReadTurn(x)))
  {
    var t := Step(s, ReadTurn(x));
    var r := ReadOutcome(s.p, s.pending[x]);
    var d := Done(x, s.pending[x], r);
    DeliveredMore(s.log, d);
    GoodLogMore(s.log, d);
    Rejoin(Delivered(s.log), s.p.buffer, |r.data|);
  }

  lemma {:induction false} EndKeeps(s: State, x: nat)
    requires Inv(s) && Enabled(s, ReadTurn(x)) && s.p.buffer == "" && s.p.closed
    ensures Inv(Step(s, ReadTurn(x)))
  {
    var d := Done(x, s.pending[x], End);
    DeliveredMore(s.log, d);
    GoodLogMore(s.log, d);
    assert Delivered(s.log) + "" == Delivered(s.log);
  }

  lemma {:induction false} StepKeeps(s: State, a: Action)
    requires Inv(s) && Enabled(s, a)
    ensures Inv(Step(s, a))
  {
    hide Delivered, GoodLog, HasEnd;
    match a
    case ReadTurn(x) =>
      if s.p.buffer != "" { BytesKeep(s, x); } else if s.p.closed { EndKeeps(s, x); }
    case Write(data) =>
      assert Delivered(s.log) + (s.p.buffer + data) == (Delivered(s.log) + s.p.buffer) + data;
      assert s.written + "" == s.written;
    case _ =>
  }

  ghost predicate Run(s: State, actions: seq<Action>, t: State)
    decreases |actions|
  {
    if actions == [] then s == t
    else Enabled(s, actions[0]) && Run(Step(s, actions[0]), actions[1..], t)
  }

  ghost predicate Reachable(s: State) { exists actions :: Run(Initial(), actions, s) }

  lemma {:induction false} RunKeeps(s: State, actions: seq<Action>, t: State)
    requires Inv(s) && Run(s, actions, t)
    ensures Inv(t)
    decreases |actions|
  {
    if actions != [] {
      StepKeeps(s, actions[0]);
      RunKeeps(Step(s, actions[0]), actions[1..], t);
    }
  }

  lemma {:induction false} ReachableInv(s: State)
    requires Reachable(s)
    ensures Inv(s)
  {
    var actions :| Run(Initial(), actions, s);
    RunKeeps(Initial(), actions, s);
  }

  // In any interleaving: a sleeping reader means an open and empty pipe; what
  // has been read, in the order of the reads, is a prefix of what was written,
  // and the rest is still in the buffer.
  lemma {:induction false} PipeSafety(s: State)
    requires Reachable(s)
    ensures s.p.sleeping != {} ==> s.p.buffer == "" && !s.p.closed
    ensures Delivered(s.log) <= s.written && s.written[|Delivered(s.log)|..] == s.p.buffer
  {
    ReachableInv(s);
  }

  // End of file is reported only when the pipe is closed and every byte that
  // was written has been delivered, and from then on to every read.
  lemma {:induction false} EndOfFile(s: State, k: nat)
    requires Reachable(s) && k < |s.log| && s.log[k].result.End?
    ensures s.p.closed && Delivered(s.log) == s.written
    ensures forall j | k <= j < |s.log| :: s.log[j].result.End?
    ensures forall size: nat :: ReadOutcome(s.p, size).End?
  {
    ReachableInv(s);
    assert Delivered(s.log) + "" == Delivered(s.log);
  }

  // A read that asked for at least one byte and got none has seen the end.
  lemma {:induction false} EmptyReadIsEnd(s: State, k: nat)
    requires Reachable(s) && k < |s.log| && s.log[k].size > 0
    ensures s.log[k].result.End? || (s.log[k].result.Bytes? && 0 < |s.log[k].result.data| <= s.log[k].size)
  {
    ReachableInv(s);
  }

  // Once a pipe is closed no reader is left behind: each pending read can take
  // its turn, and that turn finishes it.
  lemma {:induction false} ClosedReadsFinish(s: State, t: nat)
    requires Reachable(s) && s.p.closed && t in s.pending
    ensures Enabled(s, ReadTurn(t))
    ensures var u := Step(s, ReadTurn(t)); t !in u.pending && |u.log| == |s.log| + 1
  {
    ReachableInv(s);
  }

  // ---- what the calls alone say ----

  // Everything written before the first close.
  function Accepted(actions: seq<Action>): Bytes {
    if actions == [] then ""
    else
      match actions[0]
      case Close => ""
      case Write(data) => data + Accepted(actions[1..])
      case _ => Accepted(actions[1..])
  }

  lemma {:induction false} RunHistory(s: State, actions: seq<Action>, t: State)
    requires Run(s, actions, t)
    ensures t.p.closed <==> s.p.closed || Close in actions
    ensures t.written == s.written + if s.p.closed then "" else Accepted(actions)
    decreases |actions|
  {
    if actions == [] {
      assert s.written + "" == s.written;
    } else {
      var u, rest := Step(s, actions[0]), actions[1..];
      RunHistory(u, rest, t);
      assert Close in actions <==> actions[0] == Close || Close in rest;
      match actions[0]
      case Write(data) =>
        assert (s.written + data) + Accepted(rest) == s.written + (data + Accepted(rest));
        assert (s.written + "") + "" == s.written + "";
      case Close => assert s.written + "" == s.written;
      case _ =>
    }
  }

  // A pipe is closed exactly if close was called, and holds or has delivered
  // exactly what was written before that.
  lemma {:induction false} PipeHistory(actions: seq<Action>, s: State)
    requires Run(Initial(), actions, s)
    ensures s.p.closed <==> Close in actions
    ensures s.written == Accepted(actions) == Delivered(s.log) + s.p.buffer
  {
    RunHistory(Initial(), actions, s);
    RunKeeps(Initial(), actions, s);
    assert "" + Accepted(actions) == Accepted(actions);
  }

  // After close the pipe stays closed and takes nothing more, and every
  // pending read can take its turn: it gets bytes, or the end if there are
  // none, and is finished.
  lemma {:induction false} ClosedForGood(s: State, actions: seq<Action>, t: State)
    requires Reachable(s) && Run(s, [Close] + actions, t)
    ensures t.p.closed && t.written == s.written
    ensures forall x | x in t.pending ::
      && Enabled(t, ReadTurn(x))
      && var u := Step(t, ReadTurn(x));
         && x !in u.pending && |u.log| == |t.log| + 1 && u.log[..|t.log|] == t.log
         && if t.p.buffer == "" then u.log[|t.log|].result == End else u.log[|t.log|].result.Bytes?
  {
    hide Run;
    ReachableInv(s);
    RunHistory(s, [Close] + actions, t);
    RunKeeps(s, [Close] + actions, t);
    assert ([Close] + actions)[0] == Close && Accepted([Close] + actions) == "";
    assert s.written + "" == s.written;
  }

  // A read takes as much as was asked for, or all there is.
  lemma {:induction false} ReadTakesAll(s: State, x: nat)
    requires Reachable(s) && x in s.pending && x !in s.p.sleeping && s.p.buffer != ""
    ensures var u, n := Step(s, ReadTurn(x)), |Delivered(s.log)| + s.pending[x];
      Delivered(u.log) == if n < |s.written| then s.written[..n] else s.written
  {
    hide Delivered, GoodLog, HasEnd;
    ReachableInv(s);
    DeliveredMore(s.log, Done(x, s.pending[x], ReadOutcome(s.p, s.pending[x])));
    FrontTaken(Delivered(s.log), s.p.buffer, s.pending[x]);
  }

  lemma {:induction false} FrontTaken(d: Bytes, b: Bytes, size: nat)
    ensures d + (if size < |b| then b[..size] else b) == if |d| + size < |d + b| then (d + b)[..|d| + size] else d + b
    ensures b[..Least(|b|, size)] == if size < |b| then b[..size] else b
  {
    assert size < |b| ==> d + b[..size] == (d + b)[..|d| + size];
    assert b[..|b|] == b;
  }

  // A read of an open and empty pipe waits: it stays pending and asleep.
  lemma {:induction false} ReadWaits(s: State, x: nat)
    requires Reachable(s) && x in s.pending && x !in s.p.sleeping && s.p.buffer == "" && !s.p.closed
    ensures var u := Step(s, ReadTurn(x)); u == s.(p := s.p.(sleeping := s.p.sleeping + {x}))
  {
  }

  // Every read, finished or not, is one that was called, for as much.
  ghost predicate Called(s: State, actions: seq<Action>) {
    && (forall x | x in s.pending :: CallRead(x, s.pending[x]) in actions)
    && forall k | 0 <= k < |s.log| :: CallRead(s.log[k].t, s.log[k].size) in actions
  }

  lemma {:induction false} CallsKept(before: seq<Action>, s: State, actions: seq<Action>, t: State)
    requires Called(s, before) && Run(s, actions, t)
    ensures Called(t, before + actions)
    decreases |actions|
  {
    if actions == [] {
      assert before + actions == before;
    } else {
      var now := before + [actions[0]];
      var u := Step(s, actions[0]);
      assert forall a | a in before :: a in now;
      assert actions[0] in now;
      assert Called(u, now);
      CallsKept(now, u, actions[1..], t);
      assert now + actions[1..] == before + actions;
    }
  }

  lemma {:induction false} ReadsWereCalled(actions: seq<Action>, s: State)
    requires Run(Initial(), actions, s)
    ensures Called(s, actions)
  {
    CallsKept([], Initial(), actions, s);
    assert [] + actions == actions;
  }

  // Whoever is not reading can empty the pipe, as soon as there is anything.
  lemma {:induction false} CanReadAll(s: State, x: nat)
    requires Reachable(s) && x !in s.pending && s.p.buffer != ""
    ensures exists t :: Run(s, [CallRead(x, |s.p.buffer|), ReadTurn(x)], t) && Delivered(t.log) == s.written
  {
    ReachableInv(s);
    var call := CallRead(x, |s.p.buffer|);
    var u := Step(s, call);
    var t := Step(u, ReadTurn(x));
    assert s.p.sleeping == {};
    assert [call, ReadTurn(x)][1..] == [ReadTurn(x)] && [ReadTurn(x)][1..] == [];
    assert Run(s, [call, ReadTurn(x)], t);
    DeliveredMore(u.log, Done(x, |s.p.buffer|, ReadOutcome(u.p, |s.p.buffer|)));
    assert s.p.buffer[..|s.p.buffer|] == s.p.buffer;
  }

  lemma {:induction false} RunFirst(s: State, a: Action, more: seq<Action>, t: State)
    requires Enabled(s, a) && Run(Step(s, a), more, t)
    ensures Run(s, [a] + more, t)
  {
    assert ([a] + more)[1..] == more;
  }

  // A reader that comes first sleeps until something is written, and gets the
  // end after close.
  lemma {:induction false} Conversation(data: Bytes, x: nat)
    requires data != ""
    ensures exists t ::
      && Run(Initial(), [CallRead(x, |data|)] + ([ReadTurn(x)] + ([Write(data)] + ([ReadTurn(x)] + ([Close]
           + ([CallRead(x, 1)] + ([ReadTurn(x)] + [])))))), t)
      && t.log == [Done(x, |data|, Bytes(data)), Done(x, 1, End)]
  {
    hide Run;
    var s1 := Step(Initial(), CallRead(x, |data|));
    var s2 := Step(s1, ReadTurn(x));
    var s3 := Step(s2, Write(data));
    assert s3.p == P(data, false, {}) by {
      assert "" + data == data;
    }
    var s4 := Step(s3, ReadTurn(x));
    assert data[..|data|] == data && data[|data|..] == "";
    assert s4.p == P("", false, {}) && s4.log == [Done(x, |data|, Bytes(data))];
    var s5 := Step(s4, Close);
    var s6 := Step(s5, CallRead(x, 1));
    var t := Step(s6, ReadTurn(x));
    NoMore(t);
    RunFirst(s6, ReadTurn(x), [], t);
    var more := [ReadTurn(x)] + [];
    RunFirst(s5, CallRead(x, 1), more, t);
    more := [CallRead(x, 1)] + more;
    RunFirst(s4, Close, more, t);
    more := [Close] + more;
    RunFirst(s3, ReadTurn(x), more, t);
    more := [ReadTurn(x)] + more;
    RunFirst(s2, Write(data), more, t);
    more := [Write(data)] + more;
    RunFirst(s1, ReadTurn(x), more, t);
    more := [ReadTurn(x)] + more;
    RunFirst(Initial(), CallRead(x, |data|), more, t);
  }

  lemma {:induction false} NoMore(s: State)
    ensures Run(s, [], s)
  {
  }
}
