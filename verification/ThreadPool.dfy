// The thread pool: workers taking jobs from a blocking queue, shut down by one
// empty job per worker (tinfra/thread_runner.h). A state machine whose steps
// are the threads' turns, in any interleaving.
module ThreadPool {
  import opened BlockingQueue

  datatype Item = Job | Pill

  // A worker in get() is asleep if the queue says so; a running worker knows
  // the position, in the order of puts, of the job it took.
  datatype Worker = NotStarted | Getting | Running(pos: nat) | Exited

  // The owning thread: starting workers, in use, putting pills, joining. The
  // join goes from the last worker to the first.
  datatype Owner = Starting(started: nat) | Serving | Poisoning(pills: nat) | Joining(left: nat)

  datatype State = State(
    q: Q<Item>,
    workers: seq<Worker>,
    owner: Owner,
    // history: everything put, who took the items so far, jobs completed
    put: seq<Item>,
    takers: seq<nat>,
    done: set<nat>)

  datatype Action =
    | StartWorker
    | FinishStarting
    | Submit(item: Item)     // by a client, or by a running job
    | GetTurn(w: nat)        // take an item or go to sleep
    | SpuriousWake(w: nat)
    | Complete(w: nat)       // the job returns
    | BeginShutdown
    | PutPill
    | BeginJoin
    | JoinNext

  function Initial(threads: nat): State {
    State(Q([], {}), seq(threads, _ => NotStarted), Starting(0), [], [], {})
  }

  predicate Enabled(s: State, a: Action) {
    match a
    case StartWorker => s.owner.Starting? && s.owner.started < |s.workers|
    case FinishStarting => s.owner.Starting? && s.owner.started >= |s.workers|
    case Submit(_) => !s.owner.Starting? && s.owner != Joining(0)
    case GetTurn(w) => w < |s.workers| && s.workers[w].Getting? && w !in s.q.sleeping
    case SpuriousWake(w) => w in s.q.sleeping
    case Complete(w) => w < |s.workers| && s.workers[w].Running?
    case BeginShutdown => s.owner.Serving?
    case PutPill => s.owner.Poisoning? && s.owner.pills < |s.workers|
    case BeginJoin => s.owner.Poisoning? && s.owner.pills >= |s.workers|
    case JoinNext => s.owner.Joining? && 0 < s.owner.left <= |s.workers| && s.workers[s.owner.left - 1].Exited?
  }

  function PutItem(s: State, item: Item): State {
    s.(q := AfterPut(s.q, item), put := s.put + [item])
  }

  function Step(s: State, a: Action): State
    requires Enabled(s, a)
  {
    match a
    case StartWorker => s.(workers := s.workers[s.owner.started := Getting], owner := Starting(s.owner.started + 1))
    case FinishStarting => s.(owner := Serving)
    case Submit(item) => PutItem(s, item)
    case GetTurn(w) =>
      if s.q.items == [] then s.(q := AfterGet(s.q, w))
      else
        s.(q := AfterGet(s.q, w), takers := s.takers + [w],
           workers := s.workers[w := if s.q.items[0].Pill? then Exited else Running(|s.takers|)])
    case SpuriousWake(w) => s.(q := AfterWake(s.q, w))
    case Complete(w) => s.(workers := s.workers[w := Getting], done := s.done + {s.workers[w].pos})
    case BeginShutdown => s.(owner := Poisoning(0))
    case PutPill => PutItem(s, Pill).(owner := Poisoning(s.owner.pills + 1))
    case BeginJoin => s.(owner := Joining(|s.workers|))
    case JoinNext => s.(owner := Joining(s.owner.left - 1))
  }

  // ---- counting pills ----

  function Pills(items: seq<Item>): nat {
    if items == [] then 0 else Pills(items[..|items| - 1]) + if items[|items| - 1].Pill? then 1 else 0
  }

  // Pills among the taken items that worker w took.
  function PillsOf(put: seq<Item>, takers: seq<nat>, w: nat): nat
    requires |takers| <= |put|
    decreases |takers|
  {
    if takers == [] then 0
    else
      var k := |takers| - 1;
      PillsOf(put, takers[..k], w) + if put[k].Pill? && takers[k] == w then 1 else 0
  }

  function PillsOfAll(put: seq<Item>, takers: seq<nat>, n: nat): nat
    requires |takers| <= |put|
  {
    if n == 0 then 0 else PillsOfAll(put, takers, n - 1) + PillsOf(put, takers, n - 1)
  }

  // ---- the invariant ----

  ghost predicate Inv(s: State) {
    var n := |s.workers|;
    && |s.takers| <= |s.put| && s.q.items == s.put[|s.takers|..]
    && NoLostWakeup(s.q)
    && (forall w | w in s.q.sleeping :: w < n && s.workers[w].Getting?)
    && (forall k | 0 <= k < |s.takers| :: s.takers[k] < n)
    && TakenItems(s)
    && (forall w | 0 <= w < n :: PillsOf(s.put, s.takers, w) == if s.workers[w].Exited? then 1 else 0)
    && (forall w | 0 <= w < n :: s.workers[w].Exited? ==> LastIsPill(s, w))
    && OwnerOk(s)
  }

  // Each taken job is completed or still run by the one worker that took it.
  ghost predicate TakenItems(s: State)
    requires |s.takers| <= |s.put|
    requires forall k | 0 <= k < |s.takers| :: s.takers[k] < |s.workers|
  {
    && (forall k | k in s.done :: k < |s.takers| && s.put[k].Job?)
    && (forall k | 0 <= k < |s.takers| && s.put[k].Job? :: k in s.done || s.workers[s.takers[k]] == Running(k))
    && (forall w | 0 <= w < |s.workers| && s.workers[w].Running? ::
          && s.workers[w].pos < |s.takers| && s.takers[s.workers[w].pos] == w
          && s.put[s.workers[w].pos].Job? && s.workers[w].pos !in s.done)
  }

  // A worker that has exited took nothing after its pill.
  ghost predicate LastIsPill(s: State, w: nat)
    requires |s.takers| <= |s.put|
  {
    exists k :: 0 <= k < |s.takers| && s.takers[k] == w && s.put[k].Pill?
                && forall j | k < j < |s.takers| :: s.takers[j] != w
  }

  ghost predicate OwnerOk(s: State) {
    var n := |s.workers|;
    match s.owner
    case Starting(i) =>
      && i <= n && s.put == []
      && forall w | 0 <= w < n :: s.workers[w] == if w < i then Getting else NotStarted
    case Serving => forall w | 0 <= w < n :: !s.workers[w].NotStarted?
    case Poisoning(i) => i <= n && Pills(s.put) >= i && forall w | 0 <= w < n :: !s.workers[w].NotStarted?
    case Joining(left) =>
      && left <= n && Pills(s.put) >= n
      && (forall w | 0 <= w < n :: !s.workers[w].NotStarted?)
      && forall w | left <= w < n :: s.workers[w].Exited?
  }

  lemma {:induction false} InitialInv(threads: nat)
    ensures Inv(Initial(threads))
  {
  }

  // ---- every step keeps it ----

  lemma {:induction false} PillsOfPut(put: seq<Item>, more: seq<Item>, takers: seq<nat>, w: nat)
    requires |takers| <= |put|
    ensures PillsOf(put + more, takers, w) == PillsOf(put, takers, w)
    decreases |takers|
  {
    if takers != [] {
      PillsOfPut(put, more, takers[..|takers| - 1], w);
    }
  }

  lemma {:induction false} PutKeeps(s: State, item: Item)
    requires Inv(s) && !s.owner.Starting?
    ensures Inv(PutItem(s, item))
  {
    var t := PutItem(s, item);
    WakeupsKept(s.q, item, 0);
    assert t.put[|s.takers|..] == s.put[|s.takers|..] + [item];
    forall w | 0 <= w < |s.workers|
      ensures PillsOf(t.put, t.takers, w) == PillsOf(s.put, s.takers, w)
    {
      PillsOfPut(s.put, [item], s.takers, w);
    }
    forall w | 0 <= w < |s.workers| && s.workers[w].Exited?
      ensures LastIsPill(t, w)
    {
      var k :| 0 <= k < |s.takers| && s.takers[k] == w && s.put[k].Pill?
               && forall j | k < j < |s.takers| :: s.takers[j] != w;
      assert t.put[k].Pill?;
    }
    assert t.put[..|s.put|] == s.put;
  }

  lemma {:induction false} TakenOnTake(s: State, w: nat)
    requires Inv(s) && Enabled(s, GetTurn(w)) && s.q.items != []
    ensures var t := Step(s, GetTurn(w));
      && |t.takers| <= |t.put| && (forall k | 0 <= k < |t.takers| :: t.takers[k] < |t.workers|)
      && TakenItems(t) && OwnerOk(t)
  {
    hide PillsOf, LastIsPill, Pills;
  }

  lemma {:induction false} TakeKeeps(s: State, w: nat)
    requires Inv(s) && Enabled(s, GetTurn(w)) && s.q.items != []
    ensures Inv(Step(s, GetTurn(w)))
  {
    hide TakenItems, OwnerOk;
    var t := Step(s, GetTurn(w));
    var k := |s.takers|;
    TakenOnTake(s, w);
    assert s.put[k] == s.q.items[0] && s.put[k + 1..] == s.put[k..][1..];
    assert t.takers[..k] == s.takers;
    forall x | 0 <= x < |t.workers| && t.workers[x].Exited?
      ensures LastIsPill(t, x)
    {
      if x == w {
        assert t.takers[k] == w && t.put[k].Pill?;
      } else {
        var j :| 0 <= j < k && s.takers[j] == x && s.put[j].Pill? && forall i | j < i < k :: s.takers[i] != x;
        assert t.takers[j] == x;
      }
    }
  }

  lemma {:induction false} SleepKeeps(s: State, w: nat)
    requires Inv(s) && Enabled(s, GetTurn(w)) && s.q.items == []
    ensures Inv(Step(s, GetTurn(w)))
  {
    SameWorkers(s, Step(s, GetTurn(w)));
  }

  // A step that leaves workers, items and history alone.
  lemma {:induction false} SameWorkers(s: State, t: State)
    requires Inv(s) && t.workers == s.workers && t.put == s.put && t.takers == s.takers && t.done == s.done
    requires OwnerOk(t) && t.q.items == s.q.items && NoLostWakeup(t.q)
    requires forall w | w in t.q.sleeping :: w < |s.workers| && s.workers[w].Getting?
    ensures Inv(t)
  {
    hide OwnerOk, PillsOf;
    forall x | 0 <= x < |t.workers| && t.workers[x].Exited?
      ensures LastIsPill(t, x)
    {
      assert LastIsPill(s, x);
    }
  }

  lemma {:induction false} CompleteKeeps(s: State, w: nat)
    requires Inv(s) && Enabled(s, Complete(w))
    ensures Inv(Step(s, Complete(w)))
  {
    var t := Step(s, Complete(w));
    forall x | 0 <= x < |t.workers| && t.workers[x].Exited?
      ensures LastIsPill(t, x)
    {
      assert LastIsPill(s, x);
    }
  }

  lemma {:induction false} StartKeeps(s: State)
    requires Inv(s) && Enabled(s, StartWorker)
    ensures Inv(Step(s, StartWorker))
  {
    assert s.takers == [];
  }

  lemma {:induction false} WakeKeeps(s: State, w: nat)
    requires Inv(s) && Enabled(s, SpuriousWake(w))
    ensures Inv(Step(s, SpuriousWake(w)))
  {
    SameWorkers(s, Step(s, SpuriousWake(w)));
  }

  lemma {:induction false} OwnerKeeps(s: State, a: Action)
    requires Inv(s) && Enabled(s, a)
    requires a.FinishStarting? || a.BeginShutdown? || a.BeginJoin? || a.JoinNext?
    ensures Inv(Step(s, a))
  {
    hide PillsOf, TakenItems, LastIsPill;
    SameWorkers(s, Step(s, a));
  }

  lemma {:induction false} StepKeeps(s: State, a: Action)
    requires Inv(s) && Enabled(s, a)
    ensures Inv(Step(s, a))
  {
    match a
    case Submit(item) => PutKeeps(s, item);
    case GetTurn(w) => if s.q.items == [] { SleepKeeps(s, w); } else { TakeKeeps(s, w); }
    case Complete(w) => CompleteKeeps(s, w);
    case PutPill =>
      PutKeeps(s, Pill);
      assert s.put == (s.put + [Pill])[..|s.put|];
    case StartWorker => StartKeeps(s);
    case SpuriousWake(w) => WakeKeeps(s, w);
    case _ => OwnerKeeps(s, a);
  }

  // ---- runs ----

  ghost predicate Run(s: State, actions: seq<Action>, t: State)
    decreases |actions|
  {
    if actions == [] then s == t
    else Enabled(s, actions[0]) && Run(Step(s, actions[0]), actions[1..], t)
  }

  ghost predicate Reachable(s: State) {
    exists threads: nat, actions :: Run(Initial(threads), actions, s)
  }

  lemma {:induction false} RunKeeps(s: State, actions: seq<Action>, t: State)
    requires Inv(s) && Run(s, actions, t)
    ensures Inv(t)
    decreases |actions|
  {
    if actions != [] {
      StepKeeps(s, actions[0]);
      RunKeeps(Step(s, actions[0]), actions[1..], t);
    }
  }

  lemma {:induction false} ReachableInv(s: State)
    requires Reachable(s)
    ensures Inv(s)
  {
    var threads: nat, actions :| Run(Initial(threads), actions, s);
    InitialInv(threads);
    RunKeeps(Initial(threads), actions, s);
  }

  // Every item put, in order: by clients, and by the destructor.
  function PutIn(actions: seq<Action>): seq<Item> {
    if actions == [] then [] else PutBy(actions[0]) + PutIn(actions[1..])
  }

  function PutBy(a: Action): seq<Item> {
    match a
    case Submit(item) => [item]
    case PutPill => [Pill]
    case _ => []
  }

  lemma {:induction false} StepHistory(s: State, a: Action)
    requires Enabled(s, a)
    ensures |Step(s, a).workers| == |s.workers| && Step(s, a).put == s.put + PutBy(a)
  {
    assert s.put + [] == s.put;
  }

  // The workers stay, and the history holds what was put.
  lemma {:induction false} RunHistory(s: State, actions: seq<Action>, t: State)
    requires Run(s, actions, t)
    ensures |t.workers| == |s.workers| && t.put == s.put + PutIn(actions)
    decreases |actions|
  {
    hide Enabled, Step, PutBy;
    if actions == [] {
      assert s.put + [] == s.put;
    } else {
      var more := PutIn(actions[1..]);
      StepHistory(s, actions[0]);
      RunHistory(Step(s, actions[0]), actions[1..], t);
      assert (s.put + PutBy(actions[0])) + more == s.put + (PutBy(actions[0]) + more);
    }
  }

  // A pool of so many threads has so many workers, and everything put in it is
  // in its history.
  lemma {:induction false} PoolHistory(threads: nat, actions: seq<Action>, s: State)
    requires Run(Initial(threads), actions, s)
    ensures |s.workers| == threads && s.put == PutIn(actions)
  {
    RunHistory(Initial(threads), actions, s);
    assert [] + PutIn(actions) == PutIn(actions);
  }

  // ---- safety ----

  // Somebody sleeps only while the queue is empty; items leave in the order of
  // puts, each taken once; a worker has taken one pill if it exited, else none.
  lemma {:induction false} PoolSafety(s: State)
    requires Reachable(s)
    ensures s.q.sleeping != {} ==> s.q.items == []
    ensures |s.takers| <= |s.put| && s.put[..|s.takers|] + s.q.items == s.put
    ensures forall w | 0 <= w < |s.workers| :: PillsOf(s.put, s.takers, w) == if s.workers[w].Exited? then 1 else 0
  {
    ReachableInv(s);
  }

  lemma {:induction false} OneMoreTaken(put: seq<Item>, takers: seq<nat>, n: nat)
    requires 0 < |takers| <= |put|
    ensures var k := |takers| - 1;
      PillsOfAll(put, takers, n) == PillsOfAll(put, takers[..k], n) + if put[k].Pill? && takers[k] < n then 1 else 0
  {
    if n > 0 {
      OneMoreTaken(put, takers, n - 1);
    }
  }

  lemma {:induction false} NobodyTook(put: seq<Item>, n: nat)
    ensures PillsOfAll(put, [], n) == 0
  {
    if n > 0 {
      NobodyTook(put, n - 1);
    }
  }

  // The workers' pills together are the pills among the taken items.
  lemma {:induction false} PillsAddUp(put: seq<Item>, takers: seq<nat>, n: nat)
    requires |takers| <= |put| && forall k | 0 <= k < |takers| :: takers[k] < n
    ensures PillsOfAll(put, takers, n) == Pills(put[..|takers|])
    decreases |takers|
  {
    if takers == [] {
      NobodyTook(put, n);
    } else {
      var k := |takers| - 1;
      OneMoreTaken(put, takers, n);
      PillsAddUp(put, takers[..k], n);
      assert put[..k + 1][..k] == put[..k];
    }
  }

  function ExitedCount(ws: seq<Worker>): nat {
    if ws == [] then 0 else ExitedCount(ws[..|ws| - 1]) + if ws[|ws| - 1].Exited? then 1 else 0
  }

  lemma {:induction false} PillsAreExits(s: State, n: nat)
    requires Inv(s) && n <= |s.workers|
    ensures PillsOfAll(s.put, s.takers, n) == ExitedCount(s.workers[..n]) <= n
  {
    if n > 0 {
      PillsAreExits(s, n - 1);
      assert s.workers[..n][..n - 1] == s.workers[..n - 1];
    }
  }

  lemma {:induction false} SomeoneLeft(ws: seq<Worker>, w: nat)
    requires w < |ws| && !ws[w].Exited?
    ensures ExitedCount(ws) < |ws|
  {
    var k := |ws| - 1;
    if w < k {
      SomeoneLeft(ws[..k], w);
    } else {
      CountAtMost(ws[..k]);
    }
  }

  lemma {:induction false} CountAtMost(ws: seq<Worker>)
    ensures ExitedCount(ws) <= |ws|
  {
    if ws != [] {
      CountAtMost(ws[..|ws| - 1]);
    }
  }

  // ---- no deadlock ----

  // The steps the pool and its owner take by themselves.
  predicate Internal(a: Action) {
    a.GetTurn? || a.Complete? || a.PutPill? || a.BeginJoin? || a.JoinNext?
  }

  predicate Active(s: State, w: nat)
    requires w < |s.workers|
  {
    s.workers[w].Running? || (s.workers[w].Getting? && w !in s.q.sleeping)
  }

  // Once all pills are in, a worker that has not exited cannot be left asleep
  // with nobody else able to move.
  lemma {:induction false} NotAllAsleep(s: State, w: nat)
    requires Inv(s) && s.owner.Joining? && w < |s.workers| && !s.workers[w].Exited?
    ensures exists x :: 0 <= x < |s.workers| && Active(s, x)
  {
    if !Active(s, w) {
      assert w in s.q.sleeping && s.q.items == [];
      assert s.put[..|s.takers|] == s.put;
      PillsAddUp(s.put, s.takers, |s.workers|);
      PillsAreExits(s, |s.workers|);
      assert s.workers[..|s.workers|] == s.workers;
      SomeoneLeft(s.workers, w);
    }
  }

  // During shutdown some step is always possible until the join is over, so
  // the destructor never hangs.
  lemma {:induction false} NoDeadlock(s: State)
    requires Reachable(s) && (s.owner.Poisoning? || (s.owner.Joining? && s.owner.left > 0))
    ensures exists a :: Internal(a) && Enabled(s, a)
  {
    ReachableInv(s);
    CanMove(s);
  }

  lemma {:induction false} CanMove(s: State)
    requires Inv(s) && (s.owner.Poisoning? || (s.owner.Joining? && s.owner.left > 0))
    ensures exists a :: Internal(a) && Enabled(s, a)
  {
    if s.owner.Poisoning? {
      assert Enabled(s, PutPill) || Enabled(s, BeginJoin);
    } else if s.workers[s.owner.left - 1].Exited? {
      assert Enabled(s, JoinNext);
    } else {
      NotAllAsleep(s, s.owner.left - 1);
      var x :| 0 <= x < |s.workers| && Active(s, x);
      assert Enabled(s, if s.workers[x].Running? then Complete(x) else GetTurn(x));
    }
  }

  // ---- what has been done when the pool is gone ----

  lemma {:induction false} PillsGrow(items: seq<Item>, i: nat, j: nat)
    requires i <= j <= |items|
    ensures Pills(items[..i]) <= Pills(items[..j])
    decreases j - i
  {
    if i < j {
      PillsGrow(items, i, j - 1);
      assert items[..j][..j - 1] == items[..j - 1];
    }
  }

  lemma {:induction false} AllExitedCount(ws: seq<Worker>)
    requires forall w | 0 <= w < |ws| :: ws[w].Exited?
    ensures ExitedCount(ws) == |ws|
  {
    if ws != [] {
      AllExitedCount(ws[..|ws| - 1]);
    }
  }

  lemma {:induction false} ExitedTookAll(s: State)
    requires Inv(s) && forall w | 0 <= w < |s.workers| :: s.workers[w].Exited?
    ensures Pills(s.put[..|s.takers|]) == |s.workers|
    ensures |s.takers| > 0 ==> s.put[|s.takers| - 1].Pill?
    ensures forall k | 0 <= k < |s.takers| && s.put[k].Job? :: k in s.done
    ensures forall k | k in s.done :: k < |s.takers|
  {
    var n, m := |s.workers|, |s.takers|;
    PillsAddUp(s.put, s.takers, n);
    PillsAreExits(s, n);
    assert s.workers[..n] == s.workers;
    AllExitedCount(s.workers);
    if m > 0 {
      assert LastIsPill(s, s.takers[m - 1]);
    }
  }

  lemma {:induction false} JoinedState(s: State)
    requires Inv(s) && s.owner == Joining(0)
    ensures forall w | 0 <= w < |s.workers| :: s.workers[w].Exited?
    ensures forall k | 0 <= k < |s.put| && s.put[k].Job? :: k in s.done <==> Pills(s.put[..k]) < |s.workers|
  {
    ExitedTookAll(s);
    var m := |s.takers|;
    assert m <= |s.put|;
    if m > 0 {
      assert s.put[..m][..m - 1] == s.put[..m - 1];
    }
    forall k | 0 <= k < |s.put| && s.put[k].Job?
      ensures k in s.done <==> Pills(s.put[..k]) < |s.workers|
    {
      if k < m {
        PillsGrow(s.put, k, m - 1);
      } else {
        PillsGrow(s.put, m, k);
      }
    }
  }

  // When the join is over all the pool's threads have exited, and of what was
  // put a job was completed exactly when fewer pills than threads were put
  // before it. In particular, with at least one thread, every job put before
  // the first pill is done.
  lemma {:induction false} JoinedPool(threads: nat, actions: seq<Action>, s: State)
    requires Run(Initial(threads), actions, s) && s.owner == Joining(0)
    ensures |s.workers| == threads && forall w | 0 <= w < threads :: s.workers[w].Exited?
    ensures var items := PutIn(actions);
      forall k | 0 <= k < |items| && items[k].Job? :: k in s.done <==> Pills(items[..k]) < threads
  {
    PoolHistory(threads, actions, s);
    InitialInv(threads);
    RunKeeps(Initial(threads), actions, s);
    JoinedState(s);
  }

  // ---- shutdown ends ----

  function Weight(s: State, w: nat): nat
    requires w < |s.workers|
  {
    match s.workers[w]
    case NotStarted => 0
    case Getting => if w in s.q.sleeping then 1 else 2
    case Running(_) => 3
    case Exited => 0
  }

  function Weights(s: State, n: nat): nat
    requires n <= |s.workers|
  {
    if n == 0 then 0 else Weights(s, n - 1) + Weight(s, n - 1)
  }

  // A pill still to be put can lead to one put and one take and wake everybody.
  function PillWeight(pills: int, n: nat): nat
    decreases pills
  {
    if pills <= 0 then 0 else n + 3 + PillWeight(pills - 1, n)
  }

  // An upper bound on the steps left, once the shutdown has begun.
  function StepsLeft(s: State): nat
    requires s.owner.Poisoning? || s.owner.Joining?
  {
    var n := |s.workers|;
    2 * |s.q.items| + Weights(s, n)
    + if s.owner.Poisoning? then PillWeight(n - s.owner.pills, n) + n + 1 else s.owner.left
  }

  lemma {:induction false} WeightsChange(s: State, t: State, w: nat, n: nat)
    requires w < |s.workers| == |t.workers| && n <= |s.workers|
    requires forall x | 0 <= x < |s.workers| && x != w :: Weight(t, x) == Weight(s, x)
    ensures Weights(t, n) == Weights(s, n) + if w < n then Weight(t, w) - Weight(s, w) else 0
  {
    if n > 0 {
      WeightsChange(s, t, w, n - 1);
    }
  }

  lemma {:induction false} WeightsWake(s: State, t: State, n: nat)
    requires n <= |s.workers| == |t.workers|
    requires forall x | 0 <= x < |s.workers| :: Weight(t, x) <= Weight(s, x) + 1
    ensures Weights(t, n) <= Weights(s, n) + n
  {
    if n > 0 {
      WeightsWake(s, t, n - 1);
    }
  }

  lemma {:induction false} PutPillDrops(s: State)
    requires Inv(s) && Enabled(s, PutPill)
    ensures StepsLeft(Step(s, PutPill)) < StepsLeft(s)
  {
    var t := Step(s, PutPill);
    var n := |s.workers|;
    WeightsWake(s, t, n);
  }

  lemma {:induction false} GetTurnDrops(s: State, w: nat)
    requires Inv(s) && Enabled(s, GetTurn(w)) && (s.owner.Poisoning? || s.owner.Joining?)
    ensures StepsLeft(Step(s, GetTurn(w))) < StepsLeft(s)
  {
    WeightsChange(s, Step(s, GetTurn(w)), w, |s.workers|);
  }

  lemma {:induction false} StepsLeftDrop(s: State, a: Action)
    requires Inv(s) && Enabled(s, a) && Internal(a) && (s.owner.Poisoning? || s.owner.Joining?)
    ensures var t := Step(s, a); (t.owner.Poisoning? || t.owner.Joining?) && StepsLeft(t) < StepsLeft(s)
  {
    match a
    case GetTurn(w) =>
      GetTurnDrops(s, w);
    case Complete(w) =>
      WeightsChange(s, Step(s, a), w, |s.workers|);
    case PutPill =>
      PutPillDrops(s);
    case BeginJoin =>
      SameWeights(s, Step(s, a), |s.workers|);
    case JoinNext =>
      SameWeights(s, Step(s, a), |s.workers|);
  }

  lemma {:induction false} SameWeights(s: State, t: State, n: nat)
    requires n <= |s.workers| && t.workers == s.workers && t.q == s.q
    ensures Weights(t, n) == Weights(s, n)
  {
    if n > 0 {
      SameWeights(s, t, n - 1);
    }
  }

  // Every run of the pool's own steps is finite, and one that goes on for as
  // long as it can ends with the join over.
  lemma {:induction false} ShutdownCompletes(s: State, actions: seq<Action>, t: State)
    requires Reachable(s) && (s.owner.Poisoning? || s.owner.Joining?)
    requires Run(s, actions, t) && forall i | 0 <= i < |actions| :: Internal(actions[i])
    ensures |actions| <= StepsLeft(s)
    ensures (forall a | Internal(a) :: !Enabled(t, a)) ==> t.owner == Joining(0)
  {
    ReachableInv(s);
    ShutdownEnds(s, actions, t);
    RunKeeps(s, actions, t);
    StaysInShutdown(s, actions, t);
    if t.owner != Joining(0) {
      CanMove(t);
    }
  }

  lemma {:induction false} StaysInShutdown(s: State, actions: seq<Action>, t: State)
    requires Inv(s) && (s.owner.Poisoning? || s.owner.Joining?)
    requires Run(s, actions, t) && forall i | 0 <= i < |actions| :: Internal(actions[i])
    ensures t.owner.Poisoning? || t.owner.Joining?
    decreases |actions|
  {
    if actions != [] {
      StepsLeftDrop(s, actions[0]);
      StepKeeps(s, actions[0]);
      StaysInShutdown(Step(s, actions[0]), actions[1..], t);
    }
  }

  // No run of these steps is longer than the weight of its start.
  lemma {:induction false} ShutdownEnds(s: State, actions: seq<Action>, t: State)
    requires Inv(s) && (s.owner.Poisoning? || s.owner.Joining?)
    requires Run(s, actions, t) && forall i | 0 <= i < |actions| :: Internal(actions[i])
    ensures |actions| <= StepsLeft(s)
    decreases |actions|
  {
    if actions != [] {
      StepsLeftDrop(s, actions[0]);
      StepKeeps(s, actions[0]);
      ShutdownEnds(Step(s, actions[0]), actions[1..], t);
    }
  }

  // ---- every pool can be used and shut down ----

  lemma {:induction false} RunThen(s: State, a: seq<Action>, t: State, b: seq<Action>, u: State)
    requires Run(s, a, t) && Run(t, b, u)
    ensures Run(s, a + b, u)
    decreases |a|
  {
    if a == [] {
      assert a + b == b;
    } else {
      assert (a + b)[1..] == a[1..] + b;
      RunThen(Step(s, a[0]), a[1..], t, b, u);
    }
  }

  lemma {:induction false} RunOne(s: State, a: Action)
    requires Enabled(s, a)
    ensures Run(s, [a], Step(s, a))
  {
    assert [a][1..] == [];
  }

  // From any point of a shutdown the pool can finish by itself.
  lemma {:induction false} CanFinish(s: State) returns (actions: seq<Action>, t: State)
    requires Inv(s) && (s.owner.Poisoning? || s.owner.Joining?)
    ensures Run(s, actions, t) && t.owner == Joining(0)
    decreases StepsLeft(s)
  {
    hide Inv, StepsLeft;
    if s.owner == Joining(0) {
      return [], s;
    }
    if s.owner.Joining? {
      OwnerInShutdown(s);
    }
    CanMove(s);
    var a :| Internal(a) && Enabled(s, a);
    StepsLeftDrop(s, a);
    StepKeeps(s, a);
    var rest;
    rest, t := CanFinish(Step(s, a));
    RunOne(s, a);
    RunThen(s, [a], Step(s, a), rest, t);
    actions := [a] + rest;
  }

  lemma {:induction false} OwnerInShutdown(s: State)
    requires Inv(s) && s.owner.Joining?
    ensures s.owner.left <= |s.workers|
  {
  }

  lemma {:induction false} CanStart(s: State) returns (actions: seq<Action>, t: State)
    requires s.owner.Starting? && s.owner.started <= |s.workers|
    ensures Run(s, actions, t) && t.owner == Serving && PutIn(actions) == []
    decreases |s.workers| - s.owner.started
  {
    var a := if s.owner.started < |s.workers| then StartWorker else FinishStarting;
    RunOne(s, a);
    if a.FinishStarting? {
      return [a], Step(s, a);
    }
    var rest;
    rest, t := CanStart(Step(s, a));
    RunThen(s, [a], Step(s, a), rest, t);
    actions := [a] + rest;
    assert actions[1..] == rest;
  }

  lemma {:induction false} CanSubmit(s: State, items: seq<Item>) returns (actions: seq<Action>, t: State)
    requires s.owner == Serving
    ensures Run(s, actions, t) && t.owner == Serving && PutIn(actions) == items
    decreases |items|
  {
    if items == [] {
      return [], s;
    }
    var a := Submit(items[0]);
    RunOne(s, a);
    var rest;
    rest, t := CanSubmit(Step(s, a), items[1..]);
    RunThen(s, [a], Step(s, a), rest, t);
    actions := [a] + rest;
    assert actions[1..] == rest;
  }

  lemma {:induction false} PutInThen(a: seq<Action>, b: seq<Action>)
    ensures PutIn(a + b) == PutIn(a) + PutIn(b)
  {
    if a == [] {
      assert a + b == b;
    } else {
      assert (a + b)[1..] == a[1..] + b;
      PutInThen(a[1..], b);
    }
  }

  lemma {:induction false} NoPills(items: seq<Item>)
    requires forall i | 0 <= i < |items| :: items[i].Job?
    ensures Pills(items) == 0
  {
    if items != [] {
      NoPills(items[..|items| - 1]);
    }
  }

  lemma {:induction false} CanBegin(threads: nat, items: seq<Item>) returns (actions: seq<Action>, s: State)
    ensures Run(Initial(threads), actions, s) && s.owner == Poisoning(0) && PutIn(actions) == items
  {
    hide Run;
    var start, s1 := CanStart(Initial(threads));
    var submit, s2 := CanSubmit(s1, items);
    RunOne(s2, BeginShutdown);
    s := Step(s2, BeginShutdown);
    RunThen(Initial(threads), start, s1, submit, s2);
    RunThen(Initial(threads), start + submit, s2, [BeginShutdown], s);
    actions := start + submit + [BeginShutdown];
    PutInThen(start + submit, [BeginShutdown]);
    PutInThen(start, submit);
    assert [BeginShutdown][1..] == [] && PutIn([BeginShutdown]) == [];
    assert [] + items + [] == items;
  }

  // Any number of jobs can be given to any pool with a thread, and the pool be
  // shut down then: there is such a run, and it completes them all.
  lemma {:induction false} JobsGetDone(threads: nat, jobs: nat) returns (actions: seq<Action>, s: State)
    requires threads > 0
    ensures Run(Initial(threads), actions, s) && s.owner == Joining(0)
    ensures |PutIn(actions)| >= jobs && forall k | 0 <= k < jobs :: PutIn(actions)[k].Job? && k in s.done
  {
    hide Inv, Run, Pills, PutIn;
    var items := seq(jobs, _ => Job);
    var begin, s1 := CanBegin(threads, items);
    InitialInv(threads);
    RunKeeps(Initial(threads), begin, s1);
    var finish;
    finish, s := CanFinish(s1);
    actions := begin + finish;
    RunThen(Initial(threads), begin, s1, finish, s);
    PutInThen(begin, finish);
    JoinedPool(threads, actions, s);
    JobsFirst(items, PutIn(finish), threads);
  }

  lemma {:induction false} JobsFirst(items: seq<Item>, more: seq<Item>, threads: nat)
    requires threads > 0 && forall i | 0 <= i < |items| :: items[i].Job?
    ensures forall k | 0 <= k < |items| :: (items + more)[k].Job? && Pills((items + more)[..k]) < threads
  {
    forall k | 0 <= k < |items|
      ensures (items + more)[k].Job? && Pills((items + more)[..k]) < threads
    {
      assert (items + more)[..k] == items[..k];
      NoPills(items[..k]);
    }
  }
}
