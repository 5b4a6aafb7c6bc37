/**
 Progress of the solidification protocol: once no new insert begins, the tasks run out of work under
 every scheduler, so the answers of `is_solid_transaction` do become exact.
 */
module SolidificationProgress {

  import opened TangleGraph
  import opened Solidification

  /** A step of an insertion in flight or of the solidifier. */
  predicate IsTaskStep(a: Action) {
    a.StepInsert? || a.StepSolidifier?
  }

  /** A scheduler that, as long as something is in flight, picks some task that can step. */
  ghost predicate Schedules(pick: State -> Action) {
    forall s :: !Quiescent(s) ==> IsTaskStep(pick(s)) && Enabled(s, pick(s))
  }

  ghost function InsertionsAt(s: State, stage: InsertStage): set<Hash> {
    set h | h in s.insertions && s.insertions[h].next == stage
  }

  /** Vertices the current propagation may still flag. */
  ghost function Unflagged(s: State): set<Hash> {
    if s.solidifier.stage == Receive then {} else s.vertices.Keys - s.solidifier.alreadySolid
  }

  /** Bound on the steps left before the next vertex is flagged or the propagation ends. */
  ghost function StepsLeft(s: State): nat {
    var n := |s.solidifier.stack|;
    match s.solidifier.stage
    case Receive => 0
    case Pop => 5 * n + 1
    case CheckTrunk(_) => 5 * n + 4
    case CheckBranch(_) => 5 * n + 3
    case SetSolid(_) => 5 * n + 2
    case PushApprovers(h) => 5 * (n + if h in s.approvers then |s.approvers[h]| else 0) + 2
  }

  /** `s'` has less work left than `s`. */
  ghost predicate LessWork(s: State, s': State) {
    (InsertionsAt(s, IndexTrunk), InsertionsAt(s, IndexBranch), InsertionsAt(s, StoreVertex), s.insertions.Keys,
     |s.channel|, Unflagged(s), StepsLeft(s)
     decreases to
     InsertionsAt(s', IndexTrunk), InsertionsAt(s', IndexBranch), InsertionsAt(s', StoreVertex), s'.insertions.Keys,
     |s'.channel|, Unflagged(s'), StepsLeft(s'))
  }

  lemma InsertStepIsProgress(s: State, h: Hash)
    requires h in s.insertions
    ensures LessWork(s, InsertStep(s, h))
  {
    var s' := InsertStep(s, h);
    var stage := s.insertions[h].next;
    assert h in InsertionsAt(s, stage) && h !in InsertionsAt(s', stage);
    if stage.SendHash? {
      assert InsertionsAt(s', IndexTrunk) == InsertionsAt(s, IndexTrunk);
      assert InsertionsAt(s', IndexBranch) == InsertionsAt(s, IndexBranch);
      assert InsertionsAt(s', StoreVertex) == InsertionsAt(s, StoreVertex);
      assert s'.insertions.Keys == s.insertions.Keys - {h};
    } else {
      assert InsertionsAt(s', stage) == InsertionsAt(s, stage) - {h};
      assert stage != IndexTrunk ==> InsertionsAt(s', IndexTrunk) == InsertionsAt(s, IndexTrunk);
      assert stage == StoreVertex ==> InsertionsAt(s', IndexBranch) == InsertionsAt(s, IndexBranch);
    }
  }

  lemma SolidifierStepIsProgress(s: State)
    requires SolidifierCanStep(s) && SolidifierInv(s.seps, s.vertices, s.solidifier)
    ensures LessWork(s, Next(s, StepSolidifier))
  {
    var s' := Next(s, StepSolidifier);
    assert InsertionsAt(s', IndexTrunk) == InsertionsAt(s, IndexTrunk);
    assert InsertionsAt(s', IndexBranch) == InsertionsAt(s, IndexBranch);
    assert InsertionsAt(s', StoreVertex) == InsertionsAt(s, StoreVertex);
    if s.solidifier.stage.SetSolid? {
      assert s'.vertices.Keys == s.vertices.Keys;
      assert Unflagged(s') == Unflagged(s) - {s.solidifier.stage.hash};
    }
  }

  /** Where the protocol ends up when `pick` schedules the tasks from `s` until nothing is in flight. */
  ghost function Drained(s: State, pick: State -> Action, snapshotIndex: nat): State
    requires Inv(s, snapshotIndex) && Schedules(pick)
    decreases InsertionsAt(s, IndexTrunk), InsertionsAt(s, IndexBranch), InsertionsAt(s, StoreVertex),
              s.insertions.Keys, |s.channel|, Unflagged(s), StepsLeft(s)
  {
    if Quiescent(s) then s
    else
      var a := pick(s);
      NextKeepsInv(s, a, snapshotIndex);
      assert LessWork(s, Next(s, a)) by {
        if a.StepInsert? { InsertStepIsProgress(s, a.hash); } else { SolidifierStepIsProgress(s); }
      }
      Drained(Next(s, a), pick, snapshotIndex)
  }

  lemma {:induction false} DrainedIsARun(s: State, pick: State -> Action, snapshotIndex: nat) returns (actions: seq<Action>)
    requires Inv(s, snapshotIndex) && Schedules(pick)
    ensures Run(s, actions, Drained(s, pick, snapshotIndex))
    ensures forall a :: a in actions ==> IsTaskStep(a)
    ensures Quiescent(Drained(s, pick, snapshotIndex))
    decreases InsertionsAt(s, IndexTrunk), InsertionsAt(s, IndexBranch), InsertionsAt(s, StoreVertex),
              s.insertions.Keys, |s.channel|, Unflagged(s), StepsLeft(s)
  {
    if Quiescent(s) {
      actions := [];
    } else {
      var a := pick(s);
      NextKeepsInv(s, a, snapshotIndex);
      if a.StepInsert? { InsertStepIsProgress(s, a.hash); } else { SolidifierStepIsProgress(s); }
      var rest := DrainedIsARun(Next(s, a), pick, snapshotIndex);
      actions := [a] + rest;
      assert actions[1..] == rest;
    }
  }

  lemma {:induction false} RunsCompose(s0: State, first: seq<Action>, s1: State, second: seq<Action>, s2: State)
    requires Run(s0, first, s1) && Run(s1, second, s2)
    ensures Run(s0, first + second, s2)
    decreases |first|
  {
    if first == [] {
      assert first + second == second;
    } else {
      RunsCompose(Next(s0, first[0]), first[1..], s1, second, s2);
      assert (first + second)[1..] == first[1..] + second;
    }
  }

  /** Under a scheduler that looks at the state only and steps nothing but these tasks, the end is exact. */
  lemma DrainedIsExact(seps: set<Hash>, snapshotIndex: nat, before: seq<Action>, s: State, pick: State -> Action)
    requires Run(Init(seps, snapshotIndex), before, s) && Schedules(pick)
    ensures Inv(s, snapshotIndex)
    ensures var end := Drained(s, pick, snapshotIndex);
      && Quiescent(end) && end.seps == seps && Exact(end)
      && forall h :: IsSolidTransaction(seps, end.vertices, h) <==> PastComplete(seps, end.vertices, h)
  {
    RunKeepsInv(Init(seps, snapshotIndex), before, s, snapshotIndex);
    var actions := DrainedIsARun(s, pick, snapshotIndex);
    var end := Drained(s, pick, snapshotIndex);
    RunsCompose(Init(seps, snapshotIndex), before, s, actions, end);
    CompleteAtQuiescence(seps, snapshotIndex, before + actions, end);
  }

  // ----- Infinite runs

  /** An infinite run in which no insert begins any more; milestones come, go and are solidified. */
  ghost predicate Forever(states: nat -> State, actions: nat -> Action) {
    forall n: nat :: !actions(n).BeginInsert? && Enabled(states(n), actions(n)) && states(n + 1) == Next(states(n), actions(n))
  }

  /** As long as something is in flight, some task that can step eventually does. */
  ghost predicate Fair(states: nat -> State, actions: nat -> Action) {
    forall n: nat :: !Quiescent(states(n)) ==> exists m: nat :: m >= n && IsTaskStep(actions(m))
  }

  /** Milestone steps leave the work as it is. */
  lemma MilestoneStepsKeepWork(s: State, a: Action)
    requires Enabled(s, a) && !IsTaskStep(a) && !a.BeginInsert?
    ensures var t := Next(s, a);
      && t.insertions == s.insertions && t.channel == s.channel && t.solidifier == s.solidifier
      && t.approvers == s.approvers && t.vertices.Keys == s.vertices.Keys
  {
  }

  lemma {:induction false} ForeverKeepsInv(states: nat -> State, actions: nat -> Action, snapshotIndex: nat, n: nat)
    requires Forever(states, actions) && Inv(states(0), snapshotIndex)
    ensures Inv(states(n), snapshotIndex) && states(n).seps == states(0).seps
  {
    if n > 0 {
      ForeverKeepsInv(states, actions, snapshotIndex, n - 1);
      assert Enabled(states(n - 1), actions(n - 1)) && states(n - 1 + 1) == Next(states(n - 1), actions(n - 1));
      NextKeepsInv(states(n - 1), actions(n - 1), snapshotIndex);
    }
  }

  /** From `n` on no task steps any more. */
  ghost predicate NoTaskStepFrom(actions: nat -> Action, n: nat) {
    forall m: nat :: m >= n ==> !IsTaskStep(actions(m))
  }

  /** After any position at which a task steps, there is one from which none does; `m` is such a position. */
  lemma {:induction false} TaskStepsEndAfter(states: nat -> State, actions: nat -> Action, snapshotIndex: nat, n: nat, m: nat)
    returns (last: nat)
    requires Forever(states, actions) && Inv(states(0), snapshotIndex) && n <= m && IsTaskStep(actions(m))
    ensures NoTaskStepFrom(actions, last)
    decreases InsertionsAt(states(n), IndexTrunk), InsertionsAt(states(n), IndexBranch), InsertionsAt(states(n), StoreVertex),
              states(n).insertions.Keys, |states(n).channel|, Unflagged(states(n)), StepsLeft(states(n)), m - n
  {
    ForeverKeepsInv(states, actions, snapshotIndex, n);
    var s, a := states(n), actions(n);
    assert Enabled(s, a) && states(n + 1) == Next(s, a) && !a.BeginInsert?;
    if IsTaskStep(a) {
      assert LessWork(s, states(n + 1)) by {
        if a.StepInsert? { InsertStepIsProgress(s, a.hash); } else { SolidifierStepIsProgress(s); }
      }
      if next: nat :| next >= n + 1 && IsTaskStep(actions(next)) {
        last := TaskStepsEndAfter(states, actions, snapshotIndex, n + 1, next);
      } else {
        last := n + 1;
      }
    } else {
      SameWork(s, a);
      last := TaskStepsEndAfter(states, actions, snapshotIndex, n + 1, m);
    }
  }

  lemma SameWork(s: State, a: Action)
    requires Enabled(s, a) && !IsTaskStep(a) && !a.BeginInsert?
    ensures var t := Next(s, a);
      && InsertionsAt(t, IndexTrunk) == InsertionsAt(s, IndexTrunk) && InsertionsAt(t, IndexBranch) == InsertionsAt(s, IndexBranch)
      && InsertionsAt(t, StoreVertex) == InsertionsAt(s, StoreVertex) && t.insertions.Keys == s.insertions.Keys
      && |t.channel| == |s.channel| && Unflagged(t) == Unflagged(s) && StepsLeft(t) == StepsLeft(s)
  {
    MilestoneStepsKeepWork(s, a);
  }

  /** Every infinite run without new inserts holds finitely many steps of insertions and solidifier,
      whatever the milestone tasks do in between. */
  lemma FinitelyManyTaskSteps(states: nat -> State, actions: nat -> Action, snapshotIndex: nat) returns (last: nat)
    requires Forever(states, actions) && Inv(states(0), snapshotIndex)
    ensures NoTaskStepFrom(actions, last)
  {
    if m: nat :| IsTaskStep(actions(m)) {
      last := TaskStepsEndAfter(states, actions, snapshotIndex, 0, m);
    } else {
      last := 0;
    }
  }

  /** Eventual consistency: from any point of any run, whatever schedule the tasks and the milestones follow
      from then on, if no new insert begins and no enabled task is passed over for ever, there is a point
      from which on nothing is in flight and every solidity answer and every SOLID flag is exact. */
  lemma EventuallyExact(seps: set<Hash>, snapshotIndex: nat, before: seq<Action>, states: nat -> State, actions: nat -> Action)
    returns (last: nat)
    requires Run(Init(seps, snapshotIndex), before, states(0)) && Forever(states, actions) && Fair(states, actions)
    ensures forall n: nat :: n >= last ==> Quiescent(states(n)) && states(n).seps == seps && Exact(states(n))
    ensures forall n: nat, h :: n >= last ==>
      (IsSolidTransaction(seps, states(n).vertices, h) <==> PastComplete(seps, states(n).vertices, h))
  {
    RunKeepsInv(Init(seps, snapshotIndex), before, states(0), snapshotIndex);
    last := FinitelyManyTaskSteps(states, actions, snapshotIndex);
    forall n: nat | n >= last
      ensures Quiescent(states(n)) && states(n).seps == seps && Exact(states(n))
    {
      ForeverKeepsInv(states, actions, snapshotIndex, n);
      QuiescentIsExact(states(n), snapshotIndex);
    }
  }

  // ----- Every insertion can happen

  /** Some task that can step. */
  ghost function SomeTaskStep(s: State): Action {
    if exists h :: h in s.insertions then
      var h :| h in s.insertions;
      StepInsert(h)
    else StepSolidifier
  }

  lemma SomeTaskStepSchedules()
    ensures Schedules(SomeTaskStep)
  {
    forall s | !Quiescent(s) ensures IsTaskStep(SomeTaskStep(s)) && Enabled(s, SomeTaskStep(s)) {
      if forall h :: h !in s.insertions {
        assert s.insertions == map[];
      }
    }
  }

  function Begins(inserts: seq<(Hash, Transaction)>): (actions: seq<Action>)
    ensures |actions| == |inserts| && forall i :: 0 <= i < |inserts| ==> actions[i] == BeginInsert(inserts[i].0, inserts[i].1)
  {
    seq(|inserts|, (i: nat) requires i < |inserts| => BeginInsert(inserts[i].0, inserts[i].1))
  }

  ghost predicate DistinctHashes(inserts: seq<(Hash, Transaction)>) {
    forall i, j :: 0 <= i < j < |inserts| ==> inserts[i].0 != inserts[j].0
  }

  lemma {:induction false} AllBegin(seps: set<Hash>, snapshotIndex: nat, inserts: seq<(Hash, Transaction)>) returns (s: State)
    requires DistinctHashes(inserts)
    ensures Run(Init(seps, snapshotIndex), Begins(inserts), s) && s.vertices == map[]
    ensures forall h :: h in s.insertions ==> exists i :: 0 <= i < |inserts| && inserts[i].0 == h
  {
    if inserts == [] {
      s := Init(seps, snapshotIndex);
    } else {
      var n := |inserts| - 1;
      var before := AllBegin(seps, snapshotIndex, inserts[..n]);
      var a := BeginInsert(inserts[n].0, inserts[n].1);
      s := Next(before, a);
      assert [a][1..] == [] && Run(s, [], s) && Run(before, [a], s);
      RunsCompose(Init(seps, snapshotIndex), Begins(inserts[..n]), before, [a], s);
      assert Begins(inserts) == Begins(inserts[..n]) + [a];
    }
  }

  /** Whatever transactions are inserted under distinct hashes, some run inserts them all and comes to rest,
      with exactly these stored, and solid exactly those whose whole past is among them. */
  lemma InsertsSettle(seps: set<Hash>, snapshotIndex: nat, inserts: seq<(Hash, Transaction)>)
    returns (actions: seq<Action>, s: State)
    requires DistinctHashes(inserts)
    ensures Run(Init(seps, snapshotIndex), actions, s) && Quiescent(s)
    ensures forall i :: 0 <= i < |inserts| ==> inserts[i].0 in s.vertices && s.vertices[inserts[i].0].tx == inserts[i].1
    ensures forall h :: h in s.vertices ==> exists i :: 0 <= i < |inserts| && inserts[i].0 == h
    ensures forall h :: IsSolidTransaction(seps, s.vertices, h) <==> PastComplete(seps, s.vertices, h)
  {
    var begun := AllBegin(seps, snapshotIndex, inserts);
    RunKeepsInv(Init(seps, snapshotIndex), Begins(inserts), begun, snapshotIndex);
    SomeTaskStepSchedules();
    var steps := DrainedIsARun(begun, SomeTaskStep, snapshotIndex);
    s := Drained(begun, SomeTaskStep, snapshotIndex);
    RunsCompose(Init(seps, snapshotIndex), Begins(inserts), begun, steps, s);
    actions := Begins(inserts) + steps;
    CompleteAtQuiescence(seps, snapshotIndex, actions, s);
    StoredIsInserted(seps, snapshotIndex, actions, s);
    ExactlyTheseStored(inserts, steps, s);
  }

  lemma ExactlyTheseStored(inserts: seq<(Hash, Transaction)>, steps: seq<Action>, s: State)
    requires Provenance(Begins(inserts) + steps, s) && s.insertions == map[] && forall a :: a in steps ==> IsTaskStep(a)
    ensures forall i :: 0 <= i < |inserts| ==> inserts[i].0 in s.vertices && s.vertices[inserts[i].0].tx == inserts[i].1
    ensures forall h :: h in s.vertices ==> exists i :: 0 <= i < |inserts| && inserts[i].0 == h
  {
    var begins := Begins(inserts);
    assert forall a :: a in begins + steps <==> a in begins || a in steps;
    forall i | 0 <= i < |inserts|
      ensures inserts[i].0 in s.vertices && s.vertices[inserts[i].0].tx == inserts[i].1
    {
      assert begins[i] == BeginInsert(inserts[i].0, inserts[i].1) && begins[i] in begins;
    }
    forall h | h in s.vertices ensures exists i :: 0 <= i < |inserts| && inserts[i].0 == h {
      assert BeginInsert(h, s.vertices[h].tx) in begins;
      var i :| 0 <= i < |begins| && begins[i] == BeginInsert(h, s.vertices[h].tx);
      assert inserts[i].0 == h;
    }
  }
}
