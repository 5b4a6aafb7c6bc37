/**
 The tangle object: insertion, the solidifier's propagation, the graph walks, and the transaction and
 milestone solidifiers, each call running by itself. Interleavings are the subject of `Solidification`.
 */
module TangleObject {

  import opened Common
  import opened TangleGraph
  import opened TangleWalks
  import opened Solidification

  /** Unflagged vertices whose approvees are both solid: what the solidifier still has to flag. */
  ghost function Ready(seps: set<Hash>, vs: Vertices): set<Hash> {
    set h | h in vs && !vs[h].solid && ApproveesSolid(seps, vs, h)
  }

  /** Only SOLID flags may have been added. */
  ghost predicate OnlySolidAdded(vs: Vertices, vs': Vertices) {
    && vs'.Keys == vs.Keys
    && forall h :: h in vs ==> vs'[h] == vs[h] || vs'[h] == vs[h].(solid := true)
  }

  /** Stored vertices are indexed, flags are justified, and what is ready to be flagged is queued. */
  ghost predicate ValidTangle(seps: set<Hash>, vs: Vertices, approvers: Approvers, channel: seq<Hash>) {
    && StoredIndexed(vs, approvers)
    && Sound(seps, vs)
    && forall h :: h in Ready(seps, vs) ==> h in channel
  }

  /** Exactly the two approvals of `hash` have been added to the index. */
  ghost predicate IndexedAlso(approvers: Approvers, approvers': Approvers, hash: Hash, tx: Transaction) {
    forall a, h :: Indexed(approvers', a, h) <==>
      Indexed(approvers, a, h) || (h == hash && (a == tx.trunk || a == tx.branch))
  }

  /** The approvers after an insertion has indexed both approvals. */
  function IndexBoth(approvers: Approvers, hash: Hash, tx: Transaction): Approvers {
    var withTrunk := AddApprover(approvers, tx.trunk, hash);
    if tx.trunk != tx.branch then AddApprover(withTrunk, tx.branch, hash) else withTrunk
  }

  /** Every ready vertex is on the stack, or is another one that was ready from the start. */
  ghost predicate Pending(seps: set<Hash>, vs: Vertices, stack: seq<Hash>, others: set<Hash>) {
    forall h :: h in Ready(seps, vs) ==> h in stack || h in others
  }

  class Tangle {
    var vertices: Vertices
    var approvers: Approvers
    var milestones: map<nat, Hash>
    var solidEntryPoints: set<Hash>
    var channel: seq<Hash>
    var solidMilestoneIndex: nat

    ghost predicate Valid()
      reads this
    {
      ValidTangle(solidEntryPoints, vertices, approvers, channel)
    }

    constructor ()
      ensures Valid() && vertices == map[] && approvers == map[] && milestones == map[]
      ensures solidEntryPoints == {} && channel == [] && solidMilestoneIndex == 0
    {
      vertices, approvers, milestones, solidEntryPoints, channel, solidMilestoneIndex := map[], map[], map[], {}, [], 0;
    }

    /** Records `hash` as an approver of `approvee`. */
    method IndexApprover(approvee: Hash, hash: Hash)
      modifies this`approvers
      ensures approvers == AddApprover(old(approvers), approvee, hash)
    {
      if approvee in approvers {
        approvers := approvers[approvee := approvers[approvee] + [hash]];
      } else {
        assert [] + [hash] == [hash];
        approvers := approvers[approvee := [hash]];
      }
    }

    /** Inserting a new hash keeps the tangle valid. Re-inserting a stored transaction drops its flags
        without queueing it again, which keeps the tangle valid exactly when the transaction is still
        queued or not ready to be flagged. */
    method InsertTransaction(tx: Transaction, hash: Hash) returns (r: Option<Transaction>)
      requires Valid()
      modifies this`vertices, this`approvers, this`channel
      ensures r == if hash in old(vertices) then None else Some(tx)
      ensures vertices == old(vertices)[hash := Vertex(tx, false, false)]
      ensures channel == if hash in old(vertices) then old(channel) else old(channel) + [hash]
      ensures approvers == IndexBoth(old(approvers), hash, tx) && IndexedAlso(old(approvers), approvers, hash, tx)
      ensures old(hash !in vertices) ==> Valid()
      ensures old(hash in vertices && vertices[hash].tx == tx) ==>
        (Valid() <==> hash in channel || !ApproveesSolid(solidEntryPoints, vertices, hash))
    {
      IndexApprover(tx.trunk, hash);
      if tx.trunk != tx.branch {
        IndexApprover(tx.branch, hash);
      }
      IndexBothExact(old(approvers), hash, tx);
      var replaced := hash in vertices;
      vertices := vertices[hash := Vertex(tx, false, false)];
      if !replaced {
        channel := channel + [hash];
        r := Some(tx);
        InsertKeepsValid(solidEntryPoints, old(vertices), old(approvers), approvers, old(channel), hash, tx);
      } else {
        r := None;
        if old(vertices)[hash].tx == tx {
          ReinsertValidIff(solidEntryPoints, old(vertices), old(approvers), approvers, channel, hash, tx);
        }
      }
    }

    /** Flags every vertex that becomes ready from `hash` upwards: afterwards the only ready vertices
        are others that were ready before. Terminates on every graph, cycles included. */
    method Propagate(hash: Hash)
      requires StoredIndexed(vertices, approvers) && Sound(solidEntryPoints, vertices)
      modifies this`vertices
      ensures vertices.Keys == old(vertices).Keys
      ensures forall h :: h in vertices ==> vertices[h] == old(vertices)[h] || vertices[h] == old(vertices)[h].(solid := true)
      ensures StoredIndexed(vertices, approvers) && Sound(solidEntryPoints, vertices)
      ensures Ready(solidEntryPoints, vertices) <= old(Ready(solidEntryPoints, vertices)) - {hash}
    {
      var stack := [hash];
      var alreadySolid: set<Hash> := {};
      ghost var others := Ready(solidEntryPoints, vertices) - {hash};
      while stack != []
        invariant OnlySolidAdded(old(vertices), vertices)
        invariant StoredIndexed(vertices, approvers) && Sound(solidEntryPoints, vertices)
        invariant forall h :: h in alreadySolid ==> h in vertices && vertices[h].solid
        invariant Pending(solidEntryPoints, vertices, stack, others)
        decreases vertices.Keys - alreadySolid, |stack|
      {
        ghost var pending := stack;
        var h := stack[|stack| - 1];
        stack := stack[..|stack| - 1];
        if h !in alreadySolid && h in vertices && ApproveesSolid(solidEntryPoints, vertices, h) {
          FlagOne(solidEntryPoints, vertices, approvers, pending, others, h);
          FlagKeepsOnlySolid(old(vertices), vertices, h);
          vertices := vertices[h := vertices[h].(solid := true)];
          alreadySolid := alreadySolid + {h};
          if h in approvers {
            stack := stack + approvers[h];
          }
        } else {
          SkipOne(solidEntryPoints, vertices, pending, others, h);
        }
      }
    }

    /** The solidifier's receive loop: with no insert in flight it leaves every answer exact. */
    method RunSolidifier()
      requires Valid()
      modifies this`vertices, this`channel
      ensures Valid() && channel == [] && vertices.Keys == old(vertices).Keys
      ensures forall h :: h in vertices ==> vertices[h] == old(vertices)[h] || vertices[h] == old(vertices)[h].(solid := true)
      ensures forall h :: IsSolidTransaction(solidEntryPoints, vertices, h) <==> PastComplete(solidEntryPoints, vertices, h)
    {
      while channel != []
        invariant Valid() && OnlySolidAdded(old(vertices), vertices)
        decreases |channel|
      {
        var hash := channel[0];
        ghost var queued := channel;
        channel := channel[1..];
        assert forall x :: x in queued ==> x == hash || x in channel;
        Propagate(hash);
      }
      forall x | x in vertices && ApproveesSolid(solidEntryPoints, vertices, x)
        ensures vertices[x].solid
      {
        assert x !in Ready(solidEntryPoints, vertices);
      }
      SettledIsExact(solidEntryPoints, vertices);
    }

    /** The explicit-stack depth-first walk performs exactly the callbacks of the recursion. */
    method WalkApproveesDepthFirst(root: Hash, follow: Vertex -> bool) returns (events: seq<Event>)
      ensures var g := Graph(solidEntryPoints, vertices, follow, Hashes(vertices, root));
        Closed(g) && events == DepthFirst(g, root, START).events
    {
      var nonAnalyzed := [root];
      var analyzed: set<Hash> := {};
      events := [];
      ghost var g := Graph(solidEntryPoints, vertices, follow, Hashes(vertices, root));
      assert [root][..0] == [];
      while nonAnalyzed != []
        invariant forall h :: h in nonAnalyzed ==> h in g.hashes
        invariant DepthFirstStack(g, nonAnalyzed, Walk(events, analyzed)) == DepthFirst(g, root, START)
        decreases g.hashes - analyzed, |nonAnalyzed|
      {
        ghost var w, stack := Walk(events, analyzed), nonAnalyzed;
        var hash := nonAnalyzed[|nonAnalyzed| - 1];
        nonAnalyzed := nonAnalyzed[..|nonAnalyzed| - 1];
        assert stack == nonAnalyzed + [hash];
        if hash !in analyzed {
          if hash in vertices {
            var vertex := vertices[hash];
            events := events + [Mapped(hash)];
            if follow(vertex) {
              DepthFirstStackStep(g, nonAnalyzed, hash, w);
              nonAnalyzed := nonAnalyzed + [vertex.tx.branch, vertex.tx.trunk];
            }
          } else if hash !in solidEntryPoints {
            events := events + [Missing(hash)];
          } else {
            assert events + [] == events;
          }
          analyzed := analyzed + {hash};
        }
      }
    }

    /** The explicit-stack post-order walk terminates on every acyclic tangle and performs exactly the
        callbacks of the recursive trunk, branch, vertex post-order. */
    method WalkApproversPostOrderDfs(root: Hash, follow: Vertex -> bool, ghost rank: Hash -> nat) returns (events: seq<Event>)
      requires Ranked(vertices, rank)
      ensures events == PostOrder(Graph(solidEntryPoints, vertices, (v: Vertex) => true, {}), rank, root, START).events
    {
      var nonAnalyzed := [root];
      var analyzed: set<Hash> := {};
      events := [];
      ghost var g := Graph(solidEntryPoints, vertices, (v: Vertex) => true, {});
      ghost var all := Hashes(vertices, root);
      assert [root][..0] == [];
      while nonAnalyzed != []
        invariant Descending(rank, all, nonAnalyzed, analyzed)
        invariant PostOrderStack(g, rank, nonAnalyzed, Walk(events, analyzed)) == PostOrder(g, rank, root, START)
        decreases all - analyzed, if nonAnalyzed == [] then 0 else rank(nonAnalyzed[|nonAnalyzed| - 1])
      {
        ghost var w := Walk(events, analyzed);
        var hash := nonAnalyzed[|nonAnalyzed| - 1];
        if hash in vertices {
          var tx := vertices[hash].tx;
          if tx.trunk in analyzed && tx.branch in analyzed {
            DescendingPop(rank, all, nonAnalyzed, analyzed);
            assert PostOrder(g, rank, tx.branch, PostOrder(g, rank, tx.trunk, w)) == w;
            events := events + [Mapped(hash)];
            analyzed := analyzed + {hash};
            nonAnalyzed := nonAnalyzed[..|nonAnalyzed| - 1];
          } else if tx.trunk !in analyzed {
            PostOrderStackPush(g, rank, nonAnalyzed, tx.trunk, w);
            DescendingPush(rank, all, nonAnalyzed, analyzed, tx.trunk);
            nonAnalyzed := nonAnalyzed + [tx.trunk];
          } else if tx.branch !in analyzed {
            PostOrderStackPush(g, rank, nonAnalyzed, tx.branch, w);
            DescendingPush(rank, all, nonAnalyzed, analyzed, tx.branch);
            nonAnalyzed := nonAnalyzed + [tx.branch];
          }
        } else {
          DescendingPop(rank, all, nonAnalyzed, analyzed);
          if hash !in solidEntryPoints {
            events := events + [Missing(hash)];
          } else {
            assert events + [] == events;
          }
          analyzed := analyzed + {hash};
          nonAnalyzed := nonAnalyzed[..|nonAnalyzed| - 1];
        }
      }
    }

    /** The transaction solidifier: requests every absent hash met along unflagged vertices, each once,
        and answers true exactly when there is none. On an acyclic sound tangle that stores no solid
        entry point as a vertex this is exactly when the whole past of the hash is stored. */
    method Solidify(hash: Hash) returns (solid: bool, requested: seq<Hash>)
      ensures var g := Unsolid(solidEntryPoints, vertices, Hashes(vertices, hash));
        && (forall h :: h in requested <==> Reaches(g, hash, h) && h !in vertices && h !in solidEntryPoints)
        && Distinct(requested)
        && (solid <==> NothingMissing(g, hash))
      ensures forall rank: Hash -> nat ::
        Ranked(vertices, rank) && Sound(solidEntryPoints, vertices) && solidEntryPoints !! vertices.Keys ==>
          (solid <==> PastComplete(solidEntryPoints, vertices, hash))
    {
      var events := WalkApproveesDepthFirst(hash, (v: Vertex) => !v.solid);
      ghost var g := Unsolid(solidEntryPoints, vertices, Hashes(vertices, hash));
      DepthFirstWalkExact(g, hash);
      var missing: set<Hash> := set e | e in events && e.Missing? :: e.hash;
      assert forall h :: h in missing <==> Missing(h) in events;
      solid, requested := missing == {}, [];
      var left := missing;
      while left != {}
        invariant left <= missing
        invariant forall h :: h in requested <==> h in missing && h !in left
        invariant Distinct(requested)
        decreases left
      {
        var h :| h in left;
        requested := requested + [h];
        left := left - {h};
      }
      assert !solid ==> exists h :: h in missing;
      forall rank: Hash -> nat |
        Ranked(vertices, rank) && Sound(solidEntryPoints, vertices) && solidEntryPoints !! vertices.Keys
        ensures solid <==> PastComplete(solidEntryPoints, vertices, hash)
      {
        NothingMissingDecidesPast(g, rank, hash);
      }
    }

    /** One run of the milestone solidifier: the index moves, by one, only to a known milestone whose
        whole past is stored; a known milestone that is not solid yet is handed to the transaction
        solidifier. The next index must fit a `u32`. */
    method SolidifyMilestone() returns (trigger: Option<Hash>)
      requires Valid() && solidMilestoneIndex < MAX_MILESTONE_INDEX
      modifies this`solidMilestoneIndex
      ensures solidMilestoneIndex == old(solidMilestoneIndex) || solidMilestoneIndex == old(solidMilestoneIndex) + 1
      ensures var target := old(solidMilestoneIndex) + 1;
        && (solidMilestoneIndex == target <==>
            target in milestones && IsSolidTransaction(solidEntryPoints, vertices, milestones[target]))
        && (solidMilestoneIndex == target ==> PastComplete(solidEntryPoints, vertices, milestones[target]))
        && trigger == if target in milestones && !IsSolidTransaction(solidEntryPoints, vertices, milestones[target])
                      then Some(milestones[target]) else None
    {
      trigger := None;
      var target := solidMilestoneIndex + 1;
      if target in milestones {
        var hash := milestones[target];
        if IsSolidTransaction(solidEntryPoints, vertices, hash) {
          SolidHasCompletePast(solidEntryPoints, vertices, hash);
          solidMilestoneIndex := target;
        } else {
          trigger := Some(hash);
        }
      }
    }
  }

  /** Storing an unflagged vertex makes nothing else ready. */
  lemma InsertReady(seps: set<Hash>, vs: Vertices, hash: Hash, tx: Transaction)
    ensures var vs' := vs[hash := Vertex(tx, false, false)];
      && Ready(seps, vs') <= Ready(seps, vs) + {hash}
      && (hash in Ready(seps, vs') <==> ApproveesSolid(seps, vs', hash))
  {
    var vs' := vs[hash := Vertex(tx, false, false)];
    assert forall x :: IsSolidTransaction(seps, vs', x) ==> IsSolidTransaction(seps, vs, x);
  }

  lemma IndexBothExact(approvers: Approvers, hash: Hash, tx: Transaction)
    ensures IndexedAlso(approvers, IndexBoth(approvers, hash, tx), hash, tx)
  {
  }

  lemma IndexedAlsoKeeps(vs: Vertices, approvers: Approvers, approvers': Approvers, hash: Hash, tx: Transaction)
    requires StoredIndexed(vs, approvers) && IndexedAlso(approvers, approvers', hash, tx)
    ensures StoredIndexed(vs[hash := Vertex(tx, false, false)], approvers')
  {
  }

  lemma InsertKeepsValid(seps: set<Hash>, vs: Vertices, approvers: Approvers, approvers': Approvers, channel: seq<Hash>,
                         hash: Hash, tx: Transaction)
    requires ValidTangle(seps, vs, approvers, channel) && hash !in vs && IndexedAlso(approvers, approvers', hash, tx)
    ensures ValidTangle(seps, vs[hash := Vertex(tx, false, false)], approvers', channel + [hash])
  {
    IndexedAlsoKeeps(vs, approvers, approvers', hash, tx);
    SoundExtends(seps, vs, vs[hash := Vertex(tx, false, false)]);
    InsertReady(seps, vs, hash, tx);
  }

  lemma ReinsertValidIff(seps: set<Hash>, vs: Vertices, approvers: Approvers, approvers': Approvers, channel: seq<Hash>,
                         hash: Hash, tx: Transaction)
    requires ValidTangle(seps, vs, approvers, channel) && hash in vs && vs[hash].tx == tx
    requires IndexedAlso(approvers, approvers', hash, tx)
    ensures var vs' := vs[hash := Vertex(tx, false, false)];
      ValidTangle(seps, vs', approvers', channel) <==> hash in channel || !ApproveesSolid(seps, vs', hash)
  {
    IndexedAlsoKeeps(vs, approvers, approvers', hash, tx);
    SoundExtends(seps, vs, vs[hash := Vertex(tx, false, false)]);
    InsertReady(seps, vs, hash, tx);
  }

  /** Re-inserting loses a flag: a transaction on two entry points is flagged, inserted again, and left
      unflagged with nothing queued, although its whole past is stored. */
  method ReinsertedStaysUnflagged() returns (tangle: Tangle, hash: Hash)
    ensures fresh(tangle) && tangle.channel == [] && hash in tangle.vertices && !tangle.vertices[hash].solid
    ensures PastComplete(tangle.solidEntryPoints, tangle.vertices, hash) && !tangle.Valid()
  {
    var tx := Transaction(0, 0);
    hash := 1;
    tangle := new Tangle();
    tangle.solidEntryPoints := {0};
    var first := tangle.InsertTransaction(tx, hash);
    tangle.RunSolidifier();
    var second := tangle.InsertTransaction(tx, hash);
    PastCompleteUnfolds({0}, tangle.vertices, 0);
    PastCompleteUnfolds({0}, tangle.vertices, hash);
  }

  /** Flagging `h` makes at most its indexed approvers ready, and `h` itself stops being so. */
  lemma FlaggingReady(seps: set<Hash>, vs: Vertices, vs': Vertices, approvers: Approvers, h: Hash)
    requires StoredIndexed(vs, approvers) && h in vs && vs' == vs[h := vs[h].(solid := true)]
    ensures forall x :: x in Ready(seps, vs') ==> x != h && (x in Ready(seps, vs) || Indexed(approvers, h, x))
  {
    forall x | x in Ready(seps, vs') && x !in Ready(seps, vs)
      ensures Indexed(approvers, h, x)
    {
      assert vs[x].tx.trunk == h || vs[x].tx.branch == h;
    }
  }

  /** Flagging the top of the stack and pushing its approvers. */
  lemma FlagOne(seps: set<Hash>, vs: Vertices, approvers: Approvers, stack: seq<Hash>, others: set<Hash>, h: Hash)
    requires StoredIndexed(vs, approvers) && Sound(seps, vs) && Pending(seps, vs, stack, others)
    requires stack != [] && h == stack[|stack| - 1] && h in vs && ApproveesSolid(seps, vs, h)
    ensures var vs', rest := vs[h := vs[h].(solid := true)], stack[..|stack| - 1];
      && StoredIndexed(vs', approvers) && Sound(seps, vs')
      && Pending(seps, vs', if h in approvers then rest + approvers[h] else rest, others)
  {
    var vs' := vs[h := vs[h].(solid := true)];
    SoundExtends(seps, vs, vs');
    FlaggingReady(seps, vs, vs', approvers, h);
    assert stack == stack[..|stack| - 1] + [h];
  }

  /** Dropping the top of the stack when it is not ready. */
  lemma SkipOne(seps: set<Hash>, vs: Vertices, stack: seq<Hash>, others: set<Hash>, h: Hash)
    requires Pending(seps, vs, stack, others) && stack != [] && h == stack[|stack| - 1] && h !in Ready(seps, vs)
    ensures Pending(seps, vs, stack[..|stack| - 1], others)
  {
    assert stack == stack[..|stack| - 1] + [h];
  }

  lemma FlagKeepsOnlySolid(vs0: Vertices, vs: Vertices, h: Hash)
    requires OnlySolidAdded(vs0, vs) && h in vs
    ensures OnlySolidAdded(vs0, vs[h := vs[h].(solid := true)])
  {
  }
}
