/**
 Insertion and solidification as a concurrent protocol: any number of `insert_transaction` calls,
 the solidifier task, and the milestone solidifier task interleave at the granularity of their
 accesses to shared state.
 */
module Solidification {

  import opened TangleGraph

  const MAX_MILESTONE_INDEX := 0xFFFF_FFFF

  /** What an `insert_transaction` call in flight does next. */
  datatype InsertStage = IndexTrunk | IndexBranch | StoreVertex | SendHash

  datatype Insertion = Insertion(tx: Transaction, next: InsertStage)

  /** What the solidifier task does next. */
  datatype SolidifierStage =
    | Receive
    | Pop
    | CheckTrunk(hash: Hash)
    | CheckBranch(hash: Hash)
    | SetSolid(hash: Hash)
    | PushApprovers(hash: Hash)

  /** The solidifier task: its program counter and the two locals of `propagate`. */
  datatype Solidifier = Solidifier(stage: SolidifierStage, stack: seq<Hash>, alreadySolid: set<Hash>)

  /** What the milestone solidifier task does next. */
  datatype MilestoneStage =
    | ReadIndex
    | Lookup(target: nat)
    | CheckSolid(target: nat, hash: Hash)
    | UpdateIndex(target: nat, hash: Hash)

  /** The milestone map, the solid index and the milestone task. `registered` and `advances` are
      histories: every milestone ever registered, and the milestones the solid index moved to. */
  datatype Milestones = Milestones(
    known: map<nat, Hash>,
    task: MilestoneStage,
    solidIndex: nat,
    registered: set<(nat, Hash)>,
    advances: seq<Hash>)

  type Approvers = map<Hash, seq<Hash>>

  datatype State = State(
    seps: set<Hash>,
    vertices: Vertices,
    approvers: Approvers,
    insertions: map<Hash, Insertion>,
    channel: seq<Hash>,
    solidifier: Solidifier,
    milestones: Milestones)

  function Init(seps: set<Hash>, snapshotIndex: nat): State {
    State(seps, map[], map[], map[], [], Solidifier(Receive, [], {}), Milestones(map[], ReadIndex, snapshotIndex, {}, []))
  }

  function AddApprover(approvers: Approvers, approvee: Hash, h: Hash): Approvers {
    approvers[approvee := (if approvee in approvers then approvers[approvee] else []) + [h]]
  }

  predicate Indexed(approvers: Approvers, approvee: Hash, h: Hash) {
    approvee in approvers && h in approvers[approvee]
  }

  /** One atomic step of the insertion of `h`. */
  function InsertStep(s: State, h: Hash): State
    requires h in s.insertions
  {
    var Insertion(tx, next) := s.insertions[h];
    match next
    case IndexTrunk =>
      var following := if tx.trunk != tx.branch then IndexBranch else StoreVertex;
      s.(approvers := AddApprover(s.approvers, tx.trunk, h), insertions := s.insertions[h := Insertion(tx, following)])
    case IndexBranch =>
      s.(approvers := AddApprover(s.approvers, tx.branch, h), insertions := s.insertions[h := Insertion(tx, StoreVertex)])
    case StoreVertex =>
      s.(vertices := s.vertices[h := Vertex(tx, false, false)], insertions := s.insertions[h := Insertion(tx, SendHash)])
    case SendHash =>
      s.(channel := s.channel + [h], insertions := s.insertions - {h})
  }

  /** The part of the state a solidifier step can change. */
  datatype Work = Work(vertices: Vertices, channel: seq<Hash>, solidifier: Solidifier)

  /** The solidifier has something to do: it is propagating, or a message waits. */
  predicate SolidifierCanStep(s: State) {
    s.solidifier.stage == Receive ==> s.channel != []
  }

  /** One atomic step of the solidifier task. */
  function SolidifierStep(s: State): Work
    requires SolidifierCanStep(s)
  {
    var Solidifier(stage, stack, alreadySolid) := s.solidifier;
    var same := Work(s.vertices, s.channel, s.solidifier);
    match stage
    case Receive =>
      Work(s.vertices, s.channel[1..], Solidifier(Pop, [s.channel[0]], {}))
    case Pop =>
      if stack == [] then same.(solidifier := Solidifier(Receive, [], alreadySolid))
      else
        var h, rest := stack[|stack| - 1], stack[..|stack| - 1];
        var following := if h in alreadySolid || h !in s.vertices then Pop else CheckTrunk(h);
        same.(solidifier := Solidifier(following, rest, alreadySolid))
    case CheckTrunk(h) =>
      var ok := h in s.vertices && IsSolidTransaction(s.seps, s.vertices, s.vertices[h].tx.trunk);
      same.(solidifier := Solidifier(if ok then CheckBranch(h) else Pop, stack, alreadySolid))
    case CheckBranch(h) =>
      var ok := h in s.vertices && IsSolidTransaction(s.seps, s.vertices, s.vertices[h].tx.branch);
      same.(solidifier := Solidifier(if ok then SetSolid(h) else Pop, stack, alreadySolid))
    case SetSolid(h) =>
      var vs := if h in s.vertices then s.vertices[h := s.vertices[h].(solid := true)] else s.vertices;
      Work(vs, s.channel, Solidifier(PushApprovers(h), stack, alreadySolid + {h}))
    case PushApprovers(h) =>
      var waiting := if h in s.approvers then s.approvers[h] else [];
      same.(solidifier := Solidifier(Pop, stack + waiting, alreadySolid))
  }

  /** The milestone solidifier can step unless the next index would not fit a `u32`. */
  predicate MilestoneTaskCanStep(m: Milestones) {
    m.task == ReadIndex ==> m.solidIndex < MAX_MILESTONE_INDEX
  }

  /** One atomic step of the milestone solidifier task. */
  function MilestoneTaskStep(seps: set<Hash>, vs: Vertices, m: Milestones): Milestones
    requires MilestoneTaskCanStep(m)
  {
    match m.task
    case ReadIndex => m.(task := Lookup(m.solidIndex + 1))
    case Lookup(target) => m.(task := if target in m.known then CheckSolid(target, m.known[target]) else ReadIndex)
    case CheckSolid(target, h) =>
      m.(task := if IsSolidTransaction(seps, vs, h) then UpdateIndex(target, h) else ReadIndex)
    case UpdateIndex(target, h) => m.(solidIndex := target, advances := m.advances + [h], task := ReadIndex)
  }

  datatype Action =
    | BeginInsert(hash: Hash, tx: Transaction)
    | StepInsert(hash: Hash)
    | StepSolidifier
    | RegisterMilestone(index: nat, hash: Hash)
    | FlagMilestone(hash: Hash)
    | RemoveMilestone(index: nat)
    | StepMilestoneTask

  /** A hash is inserted at most once; everything else may happen at any time. */
  predicate Enabled(s: State, a: Action) {
    match a
    case BeginInsert(h, tx) => h !in s.vertices && h !in s.insertions
    case StepInsert(h) => h in s.insertions
    case StepSolidifier => SolidifierCanStep(s)
    case RegisterMilestone(_, _) => true
    case FlagMilestone(_) => true
    case RemoveMilestone(_) => true
    case StepMilestoneTask => MilestoneTaskCanStep(s.milestones)
  }

  function Next(s: State, a: Action): State
    requires Enabled(s, a)
  {
    match a
    case BeginInsert(h, tx) => s.(insertions := s.insertions[h := Insertion(tx, IndexTrunk)])
    case StepInsert(h) => InsertStep(s, h)
    case StepSolidifier =>
      var w := SolidifierStep(s);
      s.(vertices := w.vertices, channel := w.channel, solidifier := w.solidifier)
    case RegisterMilestone(i, h) =>
      var m := s.milestones;
      s.(milestones := m.(known := m.known[i := h], registered := m.registered + {(i, h)}))
    case FlagMilestone(h) =>
      if h in s.vertices then s.(vertices := s.vertices[h := s.vertices[h].(milestone := true)]) else s
    case RemoveMilestone(i) => s.(milestones := s.milestones.(known := s.milestones.known - {i}))
    case StepMilestoneTask => s.(milestones := MilestoneTaskStep(s.seps, s.vertices, s.milestones))
  }

  /** `s` is reached from `s0` by performing the actions in order. */
  ghost predicate Run(s0: State, actions: seq<Action>, s: State)
    decreases |actions|
  {
    if actions == [] then s == s0
    else Enabled(s0, actions[0]) && Run(Next(s0, actions[0]), actions[1..], s)
  }

  /** Nothing is in flight: no insert, an empty channel, an idle solidifier. */
  predicate Quiescent(s: State) {
    s.insertions == map[] && s.channel == [] && s.solidifier.stage == Receive
  }

  // ----- Invariants

  /** A stored vertex is in the approver lists of both its approvees. */
  ghost predicate StoredIndexed(vs: Vertices, approvers: Approvers) {
    forall h :: h in vs ==> Indexed(approvers, vs[h].tx.trunk, h) && Indexed(approvers, vs[h].tx.branch, h)
  }

  /** So is an insertion past its indexing steps; its vertex is stored exactly when only the send is left. */
  ghost predicate InsertionsIndexed(vs: Vertices, approvers: Approvers, insertions: map<Hash, Insertion>) {
    forall h :: h in insertions ==>
      var i := insertions[h];
      && (i.next != IndexTrunk ==> Indexed(approvers, i.tx.trunk, h))
      && (i.next.StoreVertex? || i.next.SendHash? ==> Indexed(approvers, i.tx.branch, h))
      && (h in vs <==> i.next.SendHash?)
  }

  /** The local state of the solidifier agrees with the flags it has read or written. */
  ghost predicate SolidifierInv(seps: set<Hash>, vs: Vertices, w: Solidifier) {
    && (w.stage == Receive ==> w.stack == [])
    && (forall h :: h in w.alreadySolid ==> h in vs && vs[h].solid)
    && match w.stage
       case Receive => true
       case Pop => true
       case CheckTrunk(h) => h in vs && h !in w.alreadySolid
       case CheckBranch(h) => h in vs && h !in w.alreadySolid && IsSolidTransaction(seps, vs, vs[h].tx.trunk)
       case SetSolid(h) => h in vs && h !in w.alreadySolid && ApproveesSolid(seps, vs, h)
       case PushApprovers(h) => h in vs && vs[h].solid
  }

  /** Someone will still look at the stored vertex `h`. */
  ghost predicate WillBeExamined(vs: Vertices, insertions: map<Hash, Insertion>, channel: seq<Hash>, w: Solidifier, h: Hash)
    requires h in vs
  {
    || h in channel
    || h in w.stack
    || (h in insertions && insertions[h].next.SendHash?)
    || w.stage == CheckTrunk(h) || w.stage == CheckBranch(h) || w.stage == SetSolid(h)
    || (w.stage.PushApprovers? && (w.stage.hash == vs[h].tx.trunk || w.stage.hash == vs[h].tx.branch))
  }

  /** No lost work: an unflagged vertex whose approvees are both solid will still be examined. */
  ghost predicate NoLostWork(seps: set<Hash>, vs: Vertices, insertions: map<Hash, Insertion>, channel: seq<Hash>,
                             w: Solidifier)
  {
    forall h :: h in vs && !vs[h].solid && ApproveesSolid(seps, vs, h) ==> WillBeExamined(vs, insertions, channel, w, h)
  }

  /** The solid index moved by one per advance, each time to a milestone that had been registered
      under that index and that answers solid. */
  ghost predicate MilestoneInv(seps: set<Hash>, vs: Vertices, m: Milestones, snapshotIndex: nat) {
    && m.solidIndex == snapshotIndex + |m.advances|
    && (forall k :: 0 <= k < |m.advances| ==>
          (snapshotIndex + 1 + k, m.advances[k]) in m.registered && IsSolidTransaction(seps, vs, m.advances[k]))
    && (forall i :: i in m.known ==> (i, m.known[i]) in m.registered)
    && (m.task != ReadIndex ==> m.task.target == m.solidIndex + 1)
    && (m.task.CheckSolid? || m.task.UpdateIndex? ==> (m.task.target, m.task.hash) in m.registered)
    && (m.task.UpdateIndex? ==> IsSolidTransaction(seps, vs, m.task.hash))
  }

  ghost predicate Inv(s: State, snapshotIndex: nat) {
    && StoredIndexed(s.vertices, s.approvers)
    && InsertionsIndexed(s.vertices, s.approvers, s.insertions)
    && SolidifierInv(s.seps, s.vertices, s.solidifier)
    && Sound(s.seps, s.vertices)
    && NoLostWork(s.seps, s.vertices, s.insertions, s.channel, s.solidifier)
    && MilestoneInv(s.seps, s.vertices, s.milestones, snapshotIndex)
  }

  /** Storing a vertex and setting flags is all that ever happens to the vertex map. */
  ghost predicate Grows(vs: Vertices, vs': Vertices) {
    Extends(vs, vs') && forall h :: h in vs && vs[h].solid ==> vs'[h].solid
  }

  lemma MilestoneInvGrows(seps: set<Hash>, vs: Vertices, vs': Vertices, m: Milestones, snapshotIndex: nat)
    requires MilestoneInv(seps, vs, m, snapshotIndex) && Grows(vs, vs')
    ensures MilestoneInv(seps, vs', m, snapshotIndex)
  {
    assert forall x :: IsSolidTransaction(seps, vs, x) ==> IsSolidTransaction(seps, vs', x);
  }

  // ----- Insertion steps

  lemma InsertKeepsIndex(s: State, h: Hash)
    requires h in s.insertions
    requires StoredIndexed(s.vertices, s.approvers) && InsertionsIndexed(s.vertices, s.approvers, s.insertions)
    ensures var s' := InsertStep(s, h);
      StoredIndexed(s'.vertices, s'.approvers) && InsertionsIndexed(s'.vertices, s'.approvers, s'.insertions)
  {
    var s', i := InsertStep(s, h), s.insertions[h];
    assert forall a, x :: Indexed(s.approvers, a, x) ==> Indexed(s'.approvers, a, x);
    assert i.next.IndexTrunk? ==> Indexed(s'.approvers, i.tx.trunk, h);
    assert i.next.IndexBranch? ==> Indexed(s'.approvers, i.tx.branch, h);
  }

  /** An insertion step changes no solidity answer, and a vertex it stores will be examined. */
  lemma InsertKeepsWork(s: State, h: Hash)
    requires h in s.insertions && InsertionsIndexed(s.vertices, s.approvers, s.insertions)
    requires SolidifierInv(s.seps, s.vertices, s.solidifier)
    requires NoLostWork(s.seps, s.vertices, s.insertions, s.channel, s.solidifier)
    ensures var s' := InsertStep(s, h);
      && SolidifierInv(s.seps, s'.vertices, s.solidifier)
      && NoLostWork(s.seps, s'.vertices, s'.insertions, s'.channel, s.solidifier)
      && Grows(s.vertices, s'.vertices)
  {
    var s' := InsertStep(s, h);
    forall x | x in s'.vertices && !s'.vertices[x].solid && ApproveesSolid(s.seps, s'.vertices, x)
      ensures WillBeExamined(s'.vertices, s'.insertions, s'.channel, s.solidifier, x)
    {
      if x in s.vertices {
        assert s'.vertices[x] == s.vertices[x] && ApproveesSolid(s.seps, s.vertices, x);
        assert WillBeExamined(s.vertices, s.insertions, s.channel, s.solidifier, x);
      }
    }
  }

  lemma InsertKeepsInv(s: State, h: Hash, snapshotIndex: nat)
    requires Inv(s, snapshotIndex) && h in s.insertions
    ensures Inv(InsertStep(s, h), snapshotIndex) && Grows(s.vertices, InsertStep(s, h).vertices)
  {
    InsertKeepsIndex(s, h);
    InsertKeepsWork(s, h);
    SoundExtends(s.seps, s.vertices, InsertStep(s, h).vertices);
    MilestoneInvGrows(s.seps, s.vertices, InsertStep(s, h).vertices, s.milestones, snapshotIndex);
  }

  // ----- Solidifier steps

  /** A solidifier step at most flags one vertex whose approvees are both solid. */
  lemma SolidifierFlagsJustified(s: State)
    requires SolidifierCanStep(s) && SolidifierInv(s.seps, s.vertices, s.solidifier)
    ensures var w := SolidifierStep(s);
      && Grows(s.vertices, w.vertices)
      && w.vertices.Keys == s.vertices.Keys
      && (forall h :: h in w.vertices && w.vertices[h].solid ==> s.vertices[h].solid || ApproveesSolid(s.seps, s.vertices, h))
      && SolidifierInv(s.seps, w.vertices, w.solidifier)
  {
    var w := SolidifierStep(s);
    assert forall x :: IsSolidTransaction(s.seps, s.vertices, x) ==> IsSolidTransaction(s.seps, w.vertices, x);
  }

  /** Whatever the solidifier does, it does not forget a vertex that is ready to be flagged. */
  lemma StillExamined(s: State, x: Hash)
    requires SolidifierCanStep(s) && SolidifierInv(s.seps, s.vertices, s.solidifier)
    requires StoredIndexed(s.vertices, s.approvers)
    requires NoLostWork(s.seps, s.vertices, s.insertions, s.channel, s.solidifier)
    requires x in SolidifierStep(s).vertices && !SolidifierStep(s).vertices[x].solid
    requires ApproveesSolid(s.seps, SolidifierStep(s).vertices, x)
    ensures var w := SolidifierStep(s); WillBeExamined(w.vertices, s.insertions, w.channel, w.solidifier, x)
  {
    var stage, stack := s.solidifier.stage, s.solidifier.stack;
    if ApproveesSolid(s.seps, s.vertices, x) {
      assert WillBeExamined(s.vertices, s.insertions, s.channel, s.solidifier, x);
      if stage.Receive? && x in s.channel && x != s.channel[0] {
        assert x in s.channel[1..];
      }
      if stage.Pop? && x in stack && x != stack[|stack| - 1] {
        assert x in stack[..|stack| - 1];
      }
      if stage.PushApprovers? && (stage.hash == s.vertices[x].tx.trunk || stage.hash == s.vertices[x].tx.branch) {
        assert Indexed(s.approvers, stage.hash, x);
      }
    } else {
      assert stage.SetSolid?;
    }
  }

  lemma SolidifierKeepsInv(s: State, snapshotIndex: nat)
    requires Inv(s, snapshotIndex) && SolidifierCanStep(s)
    ensures Inv(Next(s, StepSolidifier), snapshotIndex) && Grows(s.vertices, Next(s, StepSolidifier).vertices)
  {
    var w := SolidifierStep(s);
    SolidifierFlagsJustified(s);
    forall x | x in w.vertices && !w.vertices[x].solid && ApproveesSolid(s.seps, w.vertices, x)
      ensures WillBeExamined(w.vertices, s.insertions, w.channel, w.solidifier, x)
    {
      StillExamined(s, x);
    }
    SoundExtends(s.seps, s.vertices, w.vertices);
    MilestoneInvGrows(s.seps, s.vertices, w.vertices, s.milestones, snapshotIndex);
  }

  // ----- The other steps

  lemma FlagMilestoneKeepsInv(s: State, h: Hash, snapshotIndex: nat)
    requires Inv(s, snapshotIndex) && h in s.vertices
    ensures Inv(Next(s, FlagMilestone(h)), snapshotIndex) && Grows(s.vertices, Next(s, FlagMilestone(h)).vertices)
  {
    var vs := s.vertices[h := s.vertices[h].(milestone := true)];
    assert forall x :: IsSolidTransaction(s.seps, vs, x) == IsSolidTransaction(s.seps, s.vertices, x);
    forall x | x in vs && !vs[x].solid && ApproveesSolid(s.seps, vs, x)
      ensures WillBeExamined(vs, s.insertions, s.channel, s.solidifier, x)
    {
      assert WillBeExamined(s.vertices, s.insertions, s.channel, s.solidifier, x);
    }
    SoundExtends(s.seps, s.vertices, vs);
    MilestoneInvGrows(s.seps, s.vertices, vs, s.milestones, snapshotIndex);
  }

  lemma BeginInsertKeepsInv(s: State, h: Hash, tx: Transaction, snapshotIndex: nat)
    requires Inv(s, snapshotIndex) && h !in s.vertices && h !in s.insertions
    ensures Inv(Next(s, BeginInsert(h, tx)), snapshotIndex)
  {
    var insertions := s.insertions[h := Insertion(tx, IndexTrunk)];
    forall x | x in s.vertices && !s.vertices[x].solid && ApproveesSolid(s.seps, s.vertices, x)
      ensures WillBeExamined(s.vertices, insertions, s.channel, s.solidifier, x)
    {
      assert WillBeExamined(s.vertices, s.insertions, s.channel, s.solidifier, x);
    }
  }

  /** The milestone task advances the index only to what it looked up and found solid. */
  lemma MilestonesKeepInv(s: State, a: Action, snapshotIndex: nat)
    requires MilestoneInv(s.seps, s.vertices, s.milestones, snapshotIndex) && Enabled(s, a)
    requires a.RegisterMilestone? || a.RemoveMilestone? || a.StepMilestoneTask?
    ensures MilestoneInv(s.seps, s.vertices, Next(s, a).milestones, snapshotIndex)
    ensures s.milestones.advances <= Next(s, a).milestones.advances
  {
  }

  /** Every step of every task keeps the invariant. */
  lemma NextKeepsInv(s: State, a: Action, snapshotIndex: nat)
    requires Inv(s, snapshotIndex) && Enabled(s, a)
    ensures Inv(Next(s, a), snapshotIndex) && Grows(s.vertices, Next(s, a).vertices)
    ensures Next(s, a).seps == s.seps && s.milestones.advances <= Next(s, a).milestones.advances
  {
    match a
    case StepInsert(h) => InsertKeepsInv(s, h, snapshotIndex);
    case StepSolidifier => SolidifierKeepsInv(s, snapshotIndex);
    case BeginInsert(h, tx) => BeginInsertKeepsInv(s, h, tx, snapshotIndex);
    case FlagMilestone(h) => if h in s.vertices { FlagMilestoneKeepsInv(s, h, snapshotIndex); }
    case _ => MilestonesKeepInv(s, a, snapshotIndex);
  }

  lemma {:induction false} RunKeepsInv(s0: State, actions: seq<Action>, s: State, snapshotIndex: nat)
    requires Inv(s0, snapshotIndex) && Run(s0, actions, s)
    ensures Inv(s, snapshotIndex) && s.seps == s0.seps
    ensures Grows(s0.vertices, s.vertices) && s0.milestones.advances <= s.milestones.advances
    decreases |actions|
  {
    if actions != [] {
      NextKeepsInv(s0, actions[0], snapshotIndex);
      RunKeepsInv(Next(s0, actions[0]), actions[1..], s, snapshotIndex);
    }
  }

  // ----- Main results

  /** Soundness over whole runs: wherever a run stands, what answers solid has its whole past stored
      down to solid entry points, and it stays so for the rest of the run. */
  lemma SoundOverRuns(seps: set<Hash>, snapshotIndex: nat, before: seq<Action>, mid: State,
                      after: seq<Action>, s: State)
    requires Run(Init(seps, snapshotIndex), before, mid) && Run(mid, after, s)
    ensures forall h :: IsSolidTransaction(seps, mid.vertices, h) ==>
      IsSolidTransaction(seps, s.vertices, h) && PastComplete(seps, mid.vertices, h) && PastComplete(seps, s.vertices, h)
    ensures forall h :: h in s.vertices && s.vertices[h].solid ==> ApproveesComplete(seps, s.vertices, h)
  {
    RunKeepsInv(Init(seps, snapshotIndex), before, mid, snapshotIndex);
    RunKeepsInv(mid, after, s, snapshotIndex);
    forall h | IsSolidTransaction(seps, mid.vertices, h)
      ensures IsSolidTransaction(seps, s.vertices, h)
      ensures PastComplete(seps, mid.vertices, h) && PastComplete(seps, s.vertices, h)
    {
      SolidHasCompletePast(seps, mid.vertices, h);
      PastCompleteExtends(seps, mid.vertices, s.vertices, h);
    }
  }

  /** Once nothing is in flight, no stored vertex waits for its flag. */
  lemma QuiescentIsExact(s: State, snapshotIndex: nat)
    requires Inv(s, snapshotIndex) && Quiescent(s)
    ensures Exact(s)
  {
    forall x | x in s.vertices && ApproveesSolid(s.seps, s.vertices, x)
      ensures s.vertices[x].solid
    {
      assert !WillBeExamined(s.vertices, s.insertions, s.channel, s.solidifier, x);
    }
    SettledIsExact(s.seps, s.vertices);
  }

  /** Solidity answers and SOLID flags are exact. */
  ghost predicate Exact(s: State) {
    && (forall h :: IsSolidTransaction(s.seps, s.vertices, h) <==> PastComplete(s.seps, s.vertices, h))
    && (forall h :: h in s.vertices ==> (s.vertices[h].solid <==> ApproveesComplete(s.seps, s.vertices, h)))
  }

  // ----- Where the state comes from

  /** The state holds exactly what the actions so far brought in: a vertex is stored for a transaction whose
      insertion began, with that very transaction; every insertion begun is in flight or stored; a milestone
      flag was set and a milestone registered by an action that says so. */
  ghost predicate Provenance(actions: seq<Action>, s: State) {
    && (forall h :: h in s.vertices ==> BeginInsert(h, s.vertices[h].tx) in actions)
    && (forall h :: h in s.insertions ==> BeginInsert(h, s.insertions[h].tx) in actions)
    && (forall h, tx :: BeginInsert(h, tx) in actions ==>
          || (h in s.vertices && s.vertices[h].tx == tx)
          || (h in s.insertions && h !in s.vertices && s.insertions[h].tx == tx))
    && (forall h :: h in s.vertices && s.vertices[h].milestone ==> FlagMilestone(h) in actions)
    && (forall i, h :: (i, h) in s.milestones.registered ==> RegisterMilestone(i, h) in actions)
  }

  lemma InsertKeepsProvenance(actions: seq<Action>, s: State, h: Hash)
    requires Provenance(actions, s) && h in s.insertions
    requires InsertionsIndexed(s.vertices, s.approvers, s.insertions)
    ensures Provenance(actions, InsertStep(s, h))
  {
  }

  lemma SolidifierKeepsProvenance(actions: seq<Action>, s: State)
    requires Provenance(actions, s) && SolidifierCanStep(s)
    ensures Provenance(actions, Next(s, StepSolidifier))
  {
    var vs := SolidifierStep(s).vertices;
    assert vs.Keys == s.vertices.Keys && forall h :: h in vs ==> vs[h].tx == s.vertices[h].tx;
  }

  lemma ProvenanceGrows(actions: seq<Action>, a: Action, s: State)
    requires Provenance(actions, s) && (a.BeginInsert? ==> a.hash !in s.vertices && a.hash !in s.insertions)
    ensures a.BeginInsert? ==> forall tx :: BeginInsert(a.hash, tx) !in actions
    ensures !a.BeginInsert? ==> Provenance(actions + [a], s)
  {
    assert forall x :: x in actions + [a] <==> x in actions || x == a;
  }

  lemma NextKeepsProvenance(actions: seq<Action>, s: State, a: Action)
    requires Provenance(actions, s) && Enabled(s, a)
    requires InsertionsIndexed(s.vertices, s.approvers, s.insertions)
    ensures Provenance(actions + [a], Next(s, a))
  {
    ProvenanceGrows(actions, a, s);
    assert forall x :: x in actions + [a] <==> x in actions || x == a;
    match a
    case StepInsert(h) => InsertKeepsProvenance(actions + [a], s, h);
    case StepSolidifier => SolidifierKeepsProvenance(actions + [a], s);
    case _ =>
  }

  lemma {:induction false} RunKeepsProvenance(done: seq<Action>, s0: State, rest: seq<Action>, s: State, snapshotIndex: nat)
    requires Inv(s0, snapshotIndex) && Provenance(done, s0) && Run(s0, rest, s)
    ensures Provenance(done + rest, s)
    decreases |rest|
  {
    if rest == [] {
      assert done + rest == done;
    } else {
      NextKeepsProvenance(done, s0, rest[0]);
      NextKeepsInv(s0, rest[0], snapshotIndex);
      RunKeepsProvenance(done + [rest[0]], Next(s0, rest[0]), rest[1..], s, snapshotIndex);
      assert done + [rest[0]] + rest[1..] == done + rest;
    }
  }

  /** What is stored is what was inserted: in every run each vertex carries the transaction its insertion
      began with, no hash is begun with two transactions, and once no insertion is in flight the stored hashes
      are exactly the ones begun. */
  lemma StoredIsInserted(seps: set<Hash>, snapshotIndex: nat, actions: seq<Action>, s: State)
    requires Run(Init(seps, snapshotIndex), actions, s)
    ensures Provenance(actions, s)
    ensures forall h, tx :: h in s.vertices && BeginInsert(h, tx) in actions ==> s.vertices[h].tx == tx
    ensures s.insertions == map[] ==> forall h :: h in s.vertices <==> exists tx :: BeginInsert(h, tx) in actions
  {
    assert [] + actions == actions;
    RunKeepsProvenance([], Init(seps, snapshotIndex), actions, s, snapshotIndex);
  }

  /** Over the actions alone: the whole past of `h` has been inserted, down to solid entry points. */
  ghost predicate InsertedWithin(seps: set<Hash>, actions: seq<Action>, h: Hash, depth: nat)
    decreases depth, 1
  {
    h in seps || (depth > 0 && exists tx :: BeginInsert(h, tx) in actions && BothInserted(seps, actions, tx, depth - 1))
  }

  ghost predicate BothInserted(seps: set<Hash>, actions: seq<Action>, tx: Transaction, depth: nat)
    decreases depth, 2
  {
    InsertedWithin(seps, actions, tx.trunk, depth) && InsertedWithin(seps, actions, tx.branch, depth)
  }

  ghost predicate PastInserted(seps: set<Hash>, actions: seq<Action>, h: Hash) {
    exists depth: nat :: InsertedWithin(seps, actions, h, depth)
  }

  lemma {:induction false} InsertedIsStored(s: State, actions: seq<Action>, h: Hash, depth: nat)
    requires Provenance(actions, s) && s.insertions == map[]
    ensures InsertedWithin(s.seps, actions, h, depth) <==> PastWithin(s.seps, s.vertices, h, depth)
    decreases depth
  {
    if h !in s.seps && depth > 0 {
      if h in s.vertices {
        var tx := s.vertices[h].tx;
        InsertedIsStored(s, actions, tx.trunk, depth - 1);
        InsertedIsStored(s, actions, tx.branch, depth - 1);
        assert forall t :: BeginInsert(h, t) in actions ==> t == tx;
      } else {
        assert forall t :: BeginInsert(h, t) !in actions;
      }
    }
  }

  // ----- Completeness

  /** Completeness: in every interleaving, once nothing is in flight, solidity answers and SOLID flags are
      exact: a hash answers solid if and only if its whole past has been inserted. */
  lemma CompleteAtQuiescence(seps: set<Hash>, snapshotIndex: nat, actions: seq<Action>, s: State)
    requires Run(Init(seps, snapshotIndex), actions, s) && Quiescent(s)
    ensures s.seps == seps && Exact(s)
    ensures forall h :: IsSolidTransaction(seps, s.vertices, h) <==> PastInserted(seps, actions, h)
    ensures forall h :: h in s.vertices <==> exists tx :: BeginInsert(h, tx) in actions
  {
    RunKeepsInv(Init(seps, snapshotIndex), actions, s, snapshotIndex);
    QuiescentIsExact(s, snapshotIndex);
    StoredIsInserted(seps, snapshotIndex, actions, s);
    forall h ensures PastComplete(seps, s.vertices, h) <==> PastInserted(seps, actions, h) {
      forall depth: nat
        ensures InsertedWithin(seps, actions, h, depth) <==> PastWithin(seps, s.vertices, h, depth)
      {
        InsertedIsStored(s, actions, h, depth);
      }
    }
  }

  /** The solid milestone index: between any two points of a run it moves one advance at a time, each
      to a milestone registered under that very index, and every milestone ever passed keeps its
      complete past for the rest of the run. */
  lemma MilestoneAdvancesAreSolid(seps: set<Hash>, snapshotIndex: nat, before: seq<Action>, mid: State,
                                  after: seq<Action>, s: State)
    requires Run(Init(seps, snapshotIndex), before, mid) && Run(mid, after, s)
    ensures mid.milestones.solidIndex == snapshotIndex + |mid.milestones.advances|
    ensures s.milestones.solidIndex == snapshotIndex + |s.milestones.advances|
    ensures mid.milestones.advances <= s.milestones.advances
    ensures forall k :: 0 <= k < |s.milestones.advances| ==>
      && RegisterMilestone(snapshotIndex + 1 + k, s.milestones.advances[k]) in before + after
      && PastComplete(seps, s.vertices, s.milestones.advances[k])
  {
    assert [] + before == before;
    RunKeepsProvenance([], Init(seps, snapshotIndex), before, mid, snapshotIndex);
    RunKeepsInv(Init(seps, snapshotIndex), before, mid, snapshotIndex);
    RunKeepsInv(mid, after, s, snapshotIndex);
    RunKeepsProvenance(before, mid, after, s, snapshotIndex);
    forall k | 0 <= k < |s.milestones.advances|
      ensures PastComplete(seps, s.vertices, s.milestones.advances[k])
    {
      SolidHasCompletePast(seps, s.vertices, s.milestones.advances[k]);
    }
  }

  /** The milestones known after some actions: the last one registered under each index, unless removed. */
  function KnownAfter(actions: seq<Action>): map<nat, Hash> {
    if actions == [] then map[]
    else
      var before, a := KnownAfter(actions[..|actions| - 1]), actions[|actions| - 1];
      match a
      case RegisterMilestone(i, h) => before[i := h]
      case RemoveMilestone(i) => before - {i}
      case _ => before
  }

  lemma {:induction false} MilestonesKnown(done: seq<Action>, s0: State, rest: seq<Action>, s: State)
    requires s0.milestones.known == KnownAfter(done) && Run(s0, rest, s)
    ensures s.milestones.known == KnownAfter(done + rest)
    decreases |rest|
  {
    if rest == [] {
      assert done + rest == done;
    } else {
      assert (done + [rest[0]])[..|done|] == done;
      MilestonesKnown(done + [rest[0]], Next(s0, rest[0]), rest[1..], s);
      assert done + [rest[0]] + rest[1..] == done + rest;
    }
  }

  /** The milestone task left alone for `n` steps. */
  function MilestoneTaskSteps(seps: set<Hash>, vs: Vertices, m: Milestones, n: nat): Milestones
    decreases n
  {
    if n == 0 || !MilestoneTaskCanStep(m) then m
    else MilestoneTaskSteps(seps, vs, MilestoneTaskStep(seps, vs, m), n - 1)
  }

  /** The next milestone is known and answers solid. */
  predicate NextIsSolid(seps: set<Hash>, vs: Vertices, m: Milestones) {
    && m.solidIndex < MAX_MILESTONE_INDEX && m.solidIndex + 1 in m.known
    && IsSolidTransaction(seps, vs, m.known[m.solidIndex + 1])
  }

  /** From the start of its round the task reaches a known, solid next milestone in four steps. */
  lemma RoundReachesMilestone(seps: set<Hash>, vs: Vertices, m: Milestones)
    requires m.task == ReadIndex && NextIsSolid(seps, vs, m)
    ensures var r := MilestoneTaskSteps(seps, vs, m, 4);
      r.solidIndex == m.solidIndex + 1 && r.advances == m.advances + [m.known[m.solidIndex + 1]]
  {
    var m1 := MilestoneTaskStep(seps, vs, m);
    var m2 := MilestoneTaskStep(seps, vs, m1);
    var m3 := MilestoneTaskStep(seps, vs, m2);
    var m4 := MilestoneTaskStep(seps, vs, m3);
    assert MilestoneTaskSteps(seps, vs, m4, 0) == m4;
    assert MilestoneTaskSteps(seps, vs, m3, 1) == m4;
    assert MilestoneTaskSteps(seps, vs, m2, 2) == m4;
    assert MilestoneTaskSteps(seps, vs, m1, 3) == m4;
  }

  /** Wherever the task stands, a known, solid next milestone is reached within seven of its steps. */
  lemma {:induction false} SolidMilestoneReached(seps: set<Hash>, vs: Vertices, m: Milestones, snapshotIndex: nat, budget: nat)
    returns (n: nat)
    requires MilestoneInv(seps, vs, m, snapshotIndex) && NextIsSolid(seps, vs, m)
    requires budget == match m.task { case ReadIndex => 0 case Lookup(_) => 3 case CheckSolid(_, _) => 2 case UpdateIndex(_, _) => 1 }
    ensures n <= budget + 4 && MilestoneTaskSteps(seps, vs, m, n).solidIndex == m.solidIndex + 1
    decreases budget
  {
    if m.task == ReadIndex {
      RoundReachesMilestone(seps, vs, m);
      n := 4;
    } else {
      var next := MilestoneTaskStep(seps, vs, m);
      if m.task.UpdateIndex? {
        assert MilestoneTaskSteps(seps, vs, next, 0) == next;
        n := 1;
      } else {
        var k := SolidMilestoneReached(seps, vs, next, snapshotIndex,
          match next.task { case ReadIndex => 0 case Lookup(_) => 3 case CheckSolid(_, _) => 2 case UpdateIndex(_, _) => 1 });
        n := k + 1;
      }
    }
  }
}
