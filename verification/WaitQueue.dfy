/**
 The priority queue that the requesters wait on: entries under a lock, together with the wakers of the
 tasks that found it empty. The scheduling of the tasks around it is a state machine whose steps are the
 critical sections of `insert` and `poll`, the executor taking up a woken task, and spurious wakes.
 */
module WaitQueue {

  import opened Common

  /** Requests are ordered by the milestone index only. */
  datatype Entry = Entry(item: int, index: nat)
  type Task = int

  predicate IsMaximal(heap: multiset<Entry>, e: Entry) {
    e in heap && forall x :: x in heap ==> x.index <= e.index
  }

  lemma {:induction false} MaximalExists(heap: multiset<Entry>)
    requires heap != multiset{}
    ensures exists e :: IsMaximal(heap, e)
    decreases |heap|
  {
    var x :| x in heap;
    var rest := heap - multiset{x};
    if rest == multiset{} {
      assert heap == multiset{x};
      assert IsMaximal(heap, x);
    } else {
      MaximalExists(rest);
      var e :| IsMaximal(rest, e);
      assert forall y :: y in heap ==> y == x || y in rest;
      assert IsMaximal(heap, if x.index <= e.index then e else x);
    }
  }

  // ----- The queue

  /** What the lock protects. */
  datatype Queue = Queue(heap: multiset<Entry>, wakers: seq<Task>)

  function Pushed(q: Queue, e: Entry): Queue {
    Queue(q.heap + multiset{e}, if q.wakers == [] then [] else q.wakers[1..])
  }

  /** The task that an insertion wakes: the one that has waited longest. */
  function Woken(q: Queue): set<Task> {
    if q.wakers == [] then {} else {q.wakers[0]}
  }

  class WaitPriorityQueue {
    var heap: multiset<Entry>
    var wakers: seq<Task>

    ghost function Contents(): Queue
      reads this
    {
      Queue(heap, wakers)
    }

    constructor ()
      ensures Contents() == Queue(multiset{}, [])
    {
      heap, wakers := multiset{}, [];
    }

    method Insert(entry: Entry) returns (woken: Option<Task>)
      modifies this
      ensures Contents() == Pushed(old(Contents()), entry)
      ensures Woken(old(Contents())) == if woken.Some? then {woken.value} else {}
    {
      heap := heap + multiset{entry};
      woken := None;
      if |wakers| > 0 {
        woken := Some(wakers[0]);
        wakers := wakers[1..];
      }
    }

    /** Ready with a maximal entry, or pending with the waker of the polling task left behind. Which of
        several maximal entries the heap hands out is not determined. */
    method Poll(waker: Task) returns (ready: Option<Entry>)
      modifies this
      ensures ready.Some? <==> old(heap) != multiset{}
      ensures ready.Some? ==>
        && IsMaximal(old(heap), ready.value)
        && heap == old(heap) - multiset{ready.value} && wakers == old(wakers)
      ensures ready.None? ==> heap == old(heap) && wakers == old(wakers) + [waker]
    {
      if |heap| > 0 {
        MaximalExists(heap);
        var best :| best in heap && IsMaximal(heap, best);
        heap := heap - multiset{best};
        ready := Some(best);
      } else {
        wakers := wakers + [waker];
        ready := None;
      }
    }
  }

  // ----- Tasks around the queue

  /**
   A task in `locking` is being polled and has not yet entered the critical section; one in `parked` has
   left its waker behind and runs again only when woken; every other task is busy elsewhere. A task in
   `scheduled` has a wake outstanding.
   */
  datatype State = State(
    queue: Queue, locking: set<Task>, parked: set<Task>, scheduled: set<Task>, popped: seq<Entry>)

  datatype Step = Insert(entry: Entry) | SpuriousWake(task: Task) | Begin(task: Task) | Lock(task: Task, best: Entry)

  const INITIAL := State(Queue(multiset{}, []), {}, {}, {}, [])

  /** `consumers` are the tasks that ever poll the queue. */
  ghost predicate Enabled(consumers: set<Task>, s: State, step: Step) {
    match step
    case Insert(_) => true
    case SpuriousWake(_) => true
    case Begin(t) => t in consumers && t !in s.locking && (t in s.parked ==> t in s.scheduled)
    case Lock(t, best) => t in s.locking && (s.queue.heap != multiset{} ==> IsMaximal(s.queue.heap, best))
  }

  function Next(s: State, step: Step): State {
    match step
    case Insert(e) =>
      s.(queue := Pushed(s.queue, e), scheduled := s.scheduled + Woken(s.queue))
    case SpuriousWake(t) => s.(scheduled := s.scheduled + {t})
    case Begin(t) => s.(locking := s.locking + {t}, parked := s.parked - {t}, scheduled := s.scheduled - {t})
    case Lock(t, best) =>
      if s.queue.heap == multiset{} then
        s.(queue := s.queue.(wakers := s.queue.wakers + [t]), locking := s.locking - {t}, parked := s.parked + {t})
      else
        s.(queue := s.queue.(heap := s.queue.heap - multiset{best}), locking := s.locking - {t}, popped := s.popped + [best])
  }

  ghost predicate IsRun(consumers: set<Task>, s: State, steps: seq<Step>)
    decreases |steps|
  {
    steps == [] || (Enabled(consumers, s, steps[0]) && IsRun(consumers, Next(s, steps[0]), steps[1..]))
  }

  function After(s: State, steps: seq<Step>): State
    decreases |steps|
  {
    if steps == [] then s else After(Next(s, steps[0]), steps[1..])
  }

  // ----- Conservation and order

  /** The entries that the steps insert. */
  function InsertedBy(steps: seq<Step>): multiset<Entry> {
    if steps == [] then multiset{}
    else (if steps[0].Insert? then multiset{steps[0].entry} else multiset{}) + InsertedBy(steps[1..])
  }

  lemma {:induction false} StepsConserve(consumers: set<Task>, s: State, steps: seq<Step>)
    requires IsRun(consumers, s, steps)
    ensures var t := After(s, steps);
      multiset(t.popped) + t.queue.heap == multiset(s.popped) + s.queue.heap + InsertedBy(steps)
    decreases |steps|
  {
    if steps != [] {
      StepsConserve(consumers, Next(s, steps[0]), steps[1..]);
    }
  }

  /** No entry is lost or duplicated, whatever tasks there are: over every run what the steps inserted is what
      was popped plus what is queued. */
  lemma Conservation(consumers: set<Task>, steps: seq<Step>)
    requires IsRun(consumers, INITIAL, steps)
    ensures var t := After(INITIAL, steps); InsertedBy(steps) == multiset(t.popped) + t.queue.heap
  {
    StepsConserve(consumers, INITIAL, steps);
  }

  ghost predicate Descending(popped: seq<Entry>, from: nat, heap: multiset<Entry>) {
    && (forall i, j :: from <= i < j < |popped| ==> popped[j].index <= popped[i].index)
    && (forall i, x :: from <= i < |popped| && x in heap ==> x.index <= popped[i].index)
  }

  lemma StepKeepsDescending(consumers: set<Task>, s: State, step: Step, from: nat)
    requires Enabled(consumers, s, step) && !step.Insert?
    requires from <= |s.popped| && Descending(s.popped, from, s.queue.heap)
    ensures var t := Next(s, step); from <= |t.popped| && Descending(t.popped, from, t.queue.heap)
  {
    if step.Lock? && s.queue.heap != multiset{} {
      var t := Next(s, step);
      assert t.popped == s.popped + [step.best];
      assert forall x :: x in t.queue.heap ==> x in s.queue.heap;
    }
  }

  lemma {:induction false} StepsKeepDescending(consumers: set<Task>, s: State, steps: seq<Step>, from: nat)
    requires IsRun(consumers, s, steps) && from <= |s.popped| && Descending(s.popped, from, s.queue.heap)
    requires forall i :: 0 <= i < |steps| ==> !steps[i].Insert?
    ensures var t := After(s, steps); from <= |t.popped| && Descending(t.popped, from, t.queue.heap)
    decreases |steps|
  {
    if steps != [] {
      StepKeepsDescending(consumers, s, steps[0], from);
      StepsKeepDescending(consumers, Next(s, steps[0]), steps[1..], from);
    }
  }

  /** Between insertions entries leave by descending index, and none left behind exceeds one handed out. */
  lemma DrainsInOrder(consumers: set<Task>, s: State, steps: seq<Step>)
    requires IsRun(consumers, s, steps) && forall i :: 0 <= i < |steps| ==> !steps[i].Insert?
    ensures var n, t := |s.popped|, After(s, steps);
      && n <= |t.popped|
      && (forall i, j :: n <= i < j < |t.popped| ==> t.popped[j].index <= t.popped[i].index)
      && (forall i, x :: n <= i < |t.popped| && x in t.queue.heap ==> x.index <= t.popped[i].index)
  {
    StepsKeepDescending(consumers, s, steps, |s.popped|);
  }

  // ----- No lost wake-up

  /** A parked task faced with entries has a wake outstanding. */
  predicate NoLostWake(s: State) {
    forall t :: t in s.parked && s.queue.heap != multiset{} ==> t in s.scheduled
  }

  /** A sleeping task has an outstanding wake, or the queue is empty and holds a waker, all of them its own. */
  predicate OneConsumer(c: Task, s: State) {
    && s.locking <= {c} && s.parked <= {c} && s.locking !! s.parked
    && (forall i :: 0 <= i < |s.queue.wakers| ==> s.queue.wakers[i] == c)
    && (c in s.parked && c !in s.scheduled ==> s.queue.heap == multiset{} && s.queue.wakers != [])
  }

  lemma NextKeepsOneConsumer(consumers: set<Task>, c: Task, s: State, step: Step)
    requires consumers <= {c} && OneConsumer(c, s) && Enabled(consumers, s, step)
    ensures OneConsumer(c, Next(s, step))
  {
  }

  lemma {:induction false} RunKeepsOneConsumer(consumers: set<Task>, c: Task, s: State, steps: seq<Step>)
    requires consumers <= {c} && OneConsumer(c, s) && IsRun(consumers, s, steps)
    ensures OneConsumer(c, After(s, steps)) && NoLostWake(After(s, steps))
    decreases |steps|
  {
    if steps != [] {
      NextKeepsOneConsumer(consumers, c, s, steps[0]);
      RunKeepsOneConsumer(consumers, c, Next(s, steps[0]), steps[1..]);
    }
  }

  lemma OneStep(consumers: set<Task>, s: State, step: Step)
    requires Enabled(consumers, s, step)
    ensures IsRun(consumers, s, [step]) && After(s, [step]) == Next(s, step)
  {
    assert [step][1..] == [];
    assert IsRun(consumers, Next(s, step), []) && After(Next(s, step), []) == Next(s, step);
  }

  /** Without further insertions or spurious wakes the one consumer gets at the entries by itself: after
      any run it can pop a maximal entry within two steps. */
  lemma ConsumerProgress(c: Task, before: seq<Step>) returns (more: seq<Step>)
    requires IsRun({c}, INITIAL, before) && After(INITIAL, before).queue.heap != multiset{}
    ensures |more| <= 2 && IsRun({c}, After(INITIAL, before), more)
    ensures forall i :: 0 <= i < |more| ==> more[i].Begin? || more[i].Lock?
    ensures var s, t := After(INITIAL, before), After(After(INITIAL, before), more);
      |t.popped| == |s.popped| + 1 && forall x :: x in s.queue.heap ==> x.index <= t.popped[|s.popped|].index
  {
    var s := After(INITIAL, before);
    RunKeepsOneConsumer({c}, c, INITIAL, before);
    MaximalExists(s.queue.heap);
    var best :| IsMaximal(s.queue.heap, best);
    if c in s.locking {
      OneStep({c}, s, Lock(c, best));
      more := [Lock(c, best)];
    } else {
      var t := Next(s, Begin(c));
      more := [Begin(c), Lock(c, best)];
      OneStep({c}, t, Lock(c, best));
      assert more[1..] == [Lock(c, best)];
    }
  }

  lemma {:induction false} Follow(consumers: set<Task>, s: State, first: seq<Step>, rest: seq<Step>)
    requires IsRun(consumers, s, first) && IsRun(consumers, After(s, first), rest)
    ensures IsRun(consumers, s, first + rest) && After(s, first + rest) == After(After(s, first), rest)
    decreases |first|
  {
    if first == [] {
      assert first + rest == rest;
    } else {
      assert (first + rest)[0] == first[0] && (first + rest)[1..] == first[1..] + rest;
      Follow(consumers, Next(s, first[0]), first[1..], rest);
    }
  }

  ghost predicate Reachable(consumers: set<Task>, s: State) {
    exists steps :: IsRun(consumers, INITIAL, steps) && After(INITIAL, steps) == s
  }

  lemma ReachNext(consumers: set<Task>, s: State, step: Step)
    requires Reachable(consumers, s) && Enabled(consumers, s, step)
    ensures Reachable(consumers, Next(s, step))
  {
    var steps :| IsRun(consumers, INITIAL, steps) && After(INITIAL, steps) == s;
    OneStep(consumers, s, step);
    Follow(consumers, INITIAL, steps, [step]);
  }

  /** A task that finds the queue empty parks. */
  lemma ReachParked(consumers: set<Task>, s: State, t: Task, e: Entry) returns (r: State)
    requires Reachable(consumers, s) && s.queue.heap == multiset{} && Enabled(consumers, s, Begin(t))
    ensures Reachable(consumers, r)
    ensures r == s.(queue := s.queue.(wakers := s.queue.wakers + [t]), locking := s.locking,
                    parked := s.parked + {t}, scheduled := s.scheduled - {t})
  {
    ReachNext(consumers, s, Begin(t));
    ReachNext(consumers, Next(s, Begin(t)), Lock(t, e));
    r := Next(Next(s, Begin(t)), Lock(t, e));
    assert r.locking == s.locking && r.parked == s.parked + {t};
  }

  /** With two consumers, one that is polled twice leaves two wakers; the second of two insertions then
      wakes it once more instead of the other. */
  lemma TwoConsumersLoseAWake(consumers: set<Task>, a: Task, b: Task) returns (lost: State)
    requires a in consumers && b in consumers && a != b
    ensures Reachable(consumers, lost) && !NoLostWake(lost)
  {
    var e := Entry(0, 0);
    assert IsRun(consumers, INITIAL, []) && After(INITIAL, []) == INITIAL;
    var s := ReachParked(consumers, INITIAL, a, e);
    ReachNext(consumers, s, SpuriousWake(a));
    s := ReachParked(consumers, Next(s, SpuriousWake(a)), a, e);
    s := ReachParked(consumers, s, b, e);
    assert s.queue.wakers == [a, a, b] && s.scheduled == {} && s.locking == {};
    lost := OneWakesTwice(consumers, s, a, b, e);
  }

  lemma OneWakesTwice(consumers: set<Task>, s: State, a: Task, b: Task, e: Entry) returns (lost: State)
    requires Reachable(consumers, s) && a in consumers && a != b && a in s.parked && b in s.parked
    requires s.queue == Queue(multiset{}, [a, a, b]) && s.scheduled == {} && s.locking == {}
    ensures Reachable(consumers, lost) && !NoLostWake(lost)
  {
    ReachNext(consumers, s, Insert(e));
    var s1 := Next(s, Insert(e));
    assert s1.queue == Queue(multiset{e}, [a, b]);
    ReachNext(consumers, s1, Begin(a));
    var s2 := Next(s1, Begin(a));
    ReachNext(consumers, s2, Lock(a, e));
    var s3 := Next(s2, Lock(a, e));
    ReachNext(consumers, s3, Insert(e));
    lost := Next(s3, Insert(e));
    assert b in lost.parked && b !in lost.scheduled && e in lost.queue.heap;
  }

  lemma SafeWithOneConsumer(consumers: set<Task>, c: Task, s: State)
    requires consumers <= {c} && Reachable(consumers, s)
    ensures NoLostWake(s)
  {
    var steps :| IsRun(consumers, INITIAL, steps) && After(INITIAL, steps) == s;
    RunKeepsOneConsumer(consumers, c, INITIAL, steps);
  }

  lemma SomeOther(consumers: set<Task>, c: Task) returns (x: Task)
    requires !(consumers <= {c})
    ensures x in consumers && x != c
  {
    assert (forall x :: x in consumers ==> x == c) ==> consumers <= {c};
    x :| x in consumers && x != c;
  }

  /** Wakes are never lost in any run if and only if at most one task consumes from the queue. */
  lemma SafeIffOneConsumer(consumers: set<Task>)
    ensures (forall s :: Reachable(consumers, s) ==> NoLostWake(s)) <==> exists c :: consumers <= {c}
  {
    if c :| consumers <= {c} {
      forall s | Reachable(consumers, s) ensures NoLostWake(s) {
        SafeWithOneConsumer(consumers, c, s);
      }
    } else {
      var a := SomeOther(consumers, 0);
      var b := SomeOther(consumers, a);
      var lost := TwoConsumersLoseAWake(consumers, a, b);
    }
  }
}
