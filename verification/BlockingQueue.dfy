// The blocking queue: a list under a monitor that wakes its waiters only when
// it stops being empty (tinfra/queue.h).
module BlockingQueue {

  // The list, and the threads inside wait(). A thread holds the monitor for a
  // whole turn and gives it up only by finishing or by waiting.
  datatype Q<T> = Q(items: seq<T>, sleeping: set<nat>)

  // put: append; broadcast when the size has become 1.
  function AfterPut<T>(q: Q<T>, v: T): Q<T> {
    var items := q.items + [v];
    Q(items, if |items| == 1 then {} else q.sleeping)
  }

  // One turn of get by an awake thread: take the front, or go to sleep.
  function AfterGet<T>(q: Q<T>, t: nat): Q<T> {
    if q.items == [] then Q([], q.sleeping + {t}) else Q(q.items[1..], q.sleeping)
  }

  // A wait may also return by itself.
  function AfterWake<T>(q: Q<T>, t: nat): Q<T> { Q(q.items, q.sleeping - {t}) }

  // No lost wakeup: somebody sleeps only while there is nothing to take.
  predicate NoLostWakeup<T>(q: Q<T>) { q.sleeping != {} ==> q.items == [] }

  // Although puts onto a nonempty list wake nobody, no waiter is forgotten.
  lemma {:induction false} WakeupsKept<T>(q: Q<T>, v: T, t: nat)
    requires NoLostWakeup(q)
    ensures NoLostWakeup(AfterPut(q, v)) && AfterPut(q, v).sleeping == {}
    ensures NoLostWakeup(AfterGet(q, t)) && NoLostWakeup(AfterWake(q, t))
  {
  }

  class Queue<T> {
    var container: seq<T>
    var sleeping: set<nat>

    ghost function State(): Q<T>
      reads this
    {
      Q(container, sleeping)
    }

    constructor ()
      ensures State() == Q([], {})
    {
      container, sleeping := [], {};
    }

    method Put(v: T)
      modifies this
      ensures State() == AfterPut(old(State()), v)
    {
      container := container + [v];
      if |container| == 1 {
        sleeping := {};
      }
    }

    // From acquiring the monitor in get, or waking up in it, to leaving it.
    method GetTurn(t: nat) returns (result: seq<T>)
      modifies this
      ensures State() == AfterGet(old(State()), t)
      ensures result == if old(container) == [] then [] else [old(container)[0]]
    {
      if |container| == 0 {
        sleeping := sleeping + {t};
        result := [];
      } else {
        result := [container[0]];
        container := container[1..];
      }
    }

    method Peek(def: T) returns (result: T)
      modifies this
      ensures result == if old(container) == [] then def else old(container)[0]
      ensures container == (if old(container) == [] then [] else old(container)[1..]) && sleeping == old(sleeping)
      ensures old(NoLostWakeup(State())) ==> NoLostWakeup(State())
    {
      if |container| == 0 {
        result := def;
      } else {
        result := container[0];
        container := container[1..];
      }
    }
  }
}
