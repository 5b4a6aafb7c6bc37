/**
 The two graph walks of the tangle, as recursive reference functions, and what they visit.

 A walk is the sequence of callbacks it performs, in order, together with its `analyzed_hashes` set.
 */
module TangleWalks {

  import opened Common
  import opened TangleGraph

  datatype Event = Mapped(hash: Hash) | Missing(hash: Hash)

  datatype Walk = Walk(events: seq<Event>, analyzed: set<Hash>)

  const START := Walk([], {})

  /** What a walk reads: the tangle, which vertices it follows, and a finite set of hashes that holds
      everything the walk can meet. */
  datatype Graph = Graph(seps: set<Hash>, vs: Vertices, follow: Vertex -> bool, hashes: set<Hash>)

  /** All hashes a walk from `root` can meet. */
  ghost function Hashes(vs: Vertices, root: Hash): set<Hash> {
    {root} + (set h | h in vs :: vs[h].tx.trunk) + (set h | h in vs :: vs[h].tx.branch)
  }

  ghost predicate Closed(g: Graph) {
    forall h :: h in g.vs ==> g.vs[h].tx.trunk in g.hashes && g.vs[h].tx.branch in g.hashes
  }

  // ----- Reachability

  /** `x` is stored, followed, and approves `y`. */
  predicate Edge(g: Graph, x: Hash, y: Hash) {
    x in g.vs && g.follow(g.vs[x]) && (y == g.vs[x].tx.trunk || y == g.vs[x].tx.branch)
  }

  ghost predicate Path(g: Graph, x: Hash, p: seq<Hash>, y: Hash)
    decreases |p|
  {
    if p == [] then x == y else Edge(g, x, p[0]) && Path(g, p[0], p[1..], y)
  }

  ghost predicate Reaches(g: Graph, x: Hash, y: Hash) {
    exists p :: Path(g, x, p, y)
  }

  lemma ReachesSelf(g: Graph, x: Hash)
    ensures Reaches(g, x, x)
  {
    assert Path(g, x, [], x);
  }

  lemma ReachesVia(g: Graph, x: Hash, y: Hash, z: Hash)
    requires Edge(g, x, y) && Reaches(g, y, z)
    ensures Reaches(g, x, z)
  {
    var p :| Path(g, y, p, z);
    assert ([y] + p)[1..] == p;
    assert Path(g, x, [y] + p, z);
  }

  /** A set that holds `x` and is closed under edges holds everything `x` reaches. */
  lemma {:induction false} ClosedSetHoldsPath(g: Graph, s: set<Hash>, x: Hash, p: seq<Hash>, y: Hash)
    requires x in s && Path(g, x, p, y)
    requires forall a, b :: a in s && Edge(g, a, b) ==> b in s
    ensures y in s
    decreases |p|
  {
    if p != [] {
      ClosedSetHoldsPath(g, s, p[0], p[1..], y);
    }
  }

  // ----- What a walk has done so far

  /** Every analysed hash that is stored was mapped, every other one that is not a solid entry point
      was reported missing, and nothing was called back twice. */
  ghost predicate Faithful(g: Graph, w: Walk) {
    && Distinct(w.events)
    && (forall h :: Mapped(h) in w.events <==> h in w.analyzed && h in g.vs)
    && (forall h :: Missing(h) in w.events <==> h in w.analyzed && h !in g.vs && h !in g.seps)
  }

  /** Between `w` and `r` only hashes reachable from `h` were analysed, and their approvees with them. */
  ghost predicate Explores(g: Graph, h: Hash, w: Walk, r: Walk) {
    && h in r.analyzed
    && w.analyzed <= r.analyzed
    && (forall x :: x in r.analyzed && x !in w.analyzed ==> Reaches(g, h, x))
    && (forall x, y :: x in r.analyzed && x !in w.analyzed && Edge(g, x, y) ==> y in r.analyzed)
  }

  function OnMissing(g: Graph, h: Hash): seq<Event> {
    if h in g.seps then [] else [Missing(h)]
  }

  lemma FaithfulVisit(g: Graph, w: Walk, h: Hash)
    requires Faithful(g, w) && h !in w.analyzed
    ensures h in g.vs ==> Faithful(g, Walk(w.events + [Mapped(h)], w.analyzed + {h}))
    ensures h !in g.vs ==> Faithful(g, Walk(w.events + OnMissing(g, h), w.analyzed + {h}))
  {
    assert Mapped(h) !in w.events && Missing(h) !in w.events;
  }

  /** Two explorations in a row, one through each approvee of `h`. */
  lemma ExploresBoth(g: Graph, h: Hash, w: Walk, w1: Walk, w2: Walk)
    requires h in g.vs && g.follow(g.vs[h])
    requires Explores(g, g.vs[h].tx.trunk, w, w1) && Explores(g, g.vs[h].tx.branch, w1, w2)
    ensures w.analyzed <= w2.analyzed
    ensures forall x :: x in w2.analyzed && x !in w.analyzed ==> Reaches(g, h, x)
    ensures forall x, y :: x in w2.analyzed && x !in w.analyzed && Edge(g, x, y) ==> y in w2.analyzed
    ensures forall y :: Edge(g, h, y) ==> y in w2.analyzed
  {
    forall x | x in w2.analyzed && x !in w.analyzed
      ensures Reaches(g, h, x)
    {
      var y := if x in w1.analyzed then g.vs[h].tx.trunk else g.vs[h].tx.branch;
      ReachesVia(g, h, y, x);
    }
  }

  /** An exploration from scratch analyses exactly the reachable hashes. */
  lemma ExploresAll(g: Graph, root: Hash, r: Walk)
    requires Explores(g, root, START, r)
    ensures forall x :: x in r.analyzed <==> Reaches(g, root, x)
  {
    forall x | Reaches(g, root, x)
      ensures x in r.analyzed
    {
      var p :| Path(g, root, p, x);
      ClosedSetHoldsPath(g, r.analyzed, root, p, x);
    }
  }

  // ----- Depth-first walk: vertex first, then trunk, then branch

  /** Recursive depth-first visit of `h`, continuing the walk `w`. */
  ghost function DepthFirst(g: Graph, h: Hash, w: Walk): (r: Walk)
    requires Closed(g) && h in g.hashes
    ensures w.analyzed <= r.analyzed
    decreases g.hashes - w.analyzed
  {
    if h in w.analyzed then w
    else if h !in g.vs then Walk(w.events + OnMissing(g, h), w.analyzed + {h})
    else
      var w' := Walk(w.events + [Mapped(h)], w.analyzed + {h});
      if g.follow(g.vs[h]) then
        DepthFirst(g, g.vs[h].tx.branch, DepthFirst(g, g.vs[h].tx.trunk, w'))
      else w'
  }

  /** Depth-first visits of everything on a stack, top (last element) first. */
  ghost function DepthFirstStack(g: Graph, stack: seq<Hash>, w: Walk): Walk
    requires Closed(g) && forall h :: h in stack ==> h in g.hashes
    decreases |stack|
  {
    if stack == [] then w
    else DepthFirstStack(g, stack[..|stack| - 1], DepthFirst(g, stack[|stack| - 1], w))
  }

  /** One iteration of the explicit-stack loop agrees with the recursion. */
  lemma DepthFirstStackStep(g: Graph, rest: seq<Hash>, h: Hash, w: Walk)
    requires Closed(g) && h in g.hashes && forall x :: x in rest ==> x in g.hashes
    requires h !in w.analyzed && h in g.vs && g.follow(g.vs[h])
    ensures var t, b := g.vs[h].tx.trunk, g.vs[h].tx.branch;
      && (forall x :: x in rest + [b, t] ==> x in g.hashes)
      && (forall x :: x in rest + [h] ==> x in g.hashes)
      && DepthFirstStack(g, rest + [h], w) ==
         DepthFirstStack(g, rest + [b, t], Walk(w.events + [Mapped(h)], w.analyzed + {h}))
  {
    var t, b := g.vs[h].tx.trunk, g.vs[h].tx.branch;
    assert (rest + [h])[..|rest|] == rest;
    assert (rest + [b, t])[..|rest| + 1] == rest + [b];
    assert (rest + [b])[..|rest|] == rest;
  }

  lemma {:induction false} DepthFirstIsFaithful(g: Graph, h: Hash, w: Walk)
    requires Closed(g) && h in g.hashes && Faithful(g, w)
    ensures Faithful(g, DepthFirst(g, h, w)) && Explores(g, h, w, DepthFirst(g, h, w))
    decreases g.hashes - w.analyzed
  {
    ReachesSelf(g, h);
    if h !in w.analyzed {
      FaithfulVisit(g, w, h);
      if h in g.vs && g.follow(g.vs[h]) {
        var w0 := Walk(w.events + [Mapped(h)], w.analyzed + {h});
        var w1 := DepthFirst(g, g.vs[h].tx.trunk, w0);
        DepthFirstIsFaithful(g, g.vs[h].tx.trunk, w0);
        DepthFirstIsFaithful(g, g.vs[h].tx.branch, w1);
        ExploresBoth(g, h, w0, w1, DepthFirst(g, g.vs[h].tx.branch, w1));
      }
    }
  }

  // ----- Post-order walk: trunk, then branch, then the vertex

  /** Recursive post-order visit of `h`, continuing the walk `w`. */
  ghost function PostOrder(g: Graph, rank: Hash -> nat, h: Hash, w: Walk): (r: Walk)
    requires Ranked(g.vs, rank)
    decreases rank(h)
  {
    if h in w.analyzed then w
    else if h !in g.vs then Walk(w.events + OnMissing(g, h), w.analyzed + {h})
    else
      var w' := PostOrder(g, rank, g.vs[h].tx.branch, PostOrder(g, rank, g.vs[h].tx.trunk, w));
      Walk(w'.events + [Mapped(h)], w'.analyzed + {h})
  }

  /** Post-order visits of everything on a stack, top (last element) first. */
  ghost function PostOrderStack(g: Graph, rank: Hash -> nat, stack: seq<Hash>, w: Walk): Walk
    requires Ranked(g.vs, rank)
    decreases |stack|
  {
    if stack == [] then w
    else PostOrderStack(g, rank, stack[..|stack| - 1], PostOrder(g, rank, stack[|stack| - 1], w))
  }

  /** A visit analyses `h`, forgets nothing, and meets nothing of higher rank. */
  lemma {:induction false} PostOrderRank(g: Graph, rank: Hash -> nat, h: Hash, w: Walk)
    requires Ranked(g.vs, rank)
    ensures var r := PostOrder(g, rank, h, w);
      h in r.analyzed && w.analyzed <= r.analyzed &&
      forall x :: x in r.analyzed && x !in w.analyzed ==> rank(x) <= rank(h)
    decreases rank(h)
  {
    if h !in w.analyzed && h in g.vs {
      PostOrderRank(g, rank, g.vs[h].tx.trunk, w);
      PostOrderRank(g, rank, g.vs[h].tx.branch, PostOrder(g, rank, g.vs[h].tx.trunk, w));
    }
  }

  /** Visiting a not yet settled approvee first, and then the vertex, changes nothing: this is why
      the loop may push the approvee and look at the vertex again later. */
  lemma PostOrderApproveeFirst(g: Graph, rank: Hash -> nat, h: Hash, a: Hash, w: Walk)
    requires Ranked(g.vs, rank) && h in g.vs && h !in w.analyzed
    requires a == g.vs[h].tx.trunk || (a == g.vs[h].tx.branch && g.vs[h].tx.trunk in w.analyzed)
    ensures PostOrder(g, rank, h, PostOrder(g, rank, a, w)) == PostOrder(g, rank, h, w)
  {
    PostOrderRank(g, rank, a, w);
  }

  lemma PostOrderStackPush(g: Graph, rank: Hash -> nat, stack: seq<Hash>, a: Hash, w: Walk)
    requires Ranked(g.vs, rank) && stack != []
    requires var h := stack[|stack| - 1];
      h in g.vs && h !in w.analyzed &&
      (a == g.vs[h].tx.trunk || (a == g.vs[h].tx.branch && g.vs[h].tx.trunk in w.analyzed))
    ensures PostOrderStack(g, rank, stack + [a], w) == PostOrderStack(g, rank, stack, w)
  {
    PostOrderApproveeFirst(g, rank, stack[|stack| - 1], a, w);
    assert (stack + [a])[..|stack|] == stack;
  }

  /** A stack as the loop keeps it: known hashes, none settled yet, of strictly decreasing rank. */
  ghost predicate Descending(rank: Hash -> nat, hashes: set<Hash>, stack: seq<Hash>, analyzed: set<Hash>) {
    && (forall h :: h in stack ==> h in hashes && h !in analyzed)
    && (forall i, j :: 0 <= i < j < |stack| ==> rank(stack[j]) < rank(stack[i]))
  }

  lemma DescendingPush(rank: Hash -> nat, hashes: set<Hash>, stack: seq<Hash>, analyzed: set<Hash>, a: Hash)
    requires Descending(rank, hashes, stack, analyzed) && stack != []
    requires a in hashes && a !in analyzed && rank(a) < rank(stack[|stack| - 1])
    ensures Descending(rank, hashes, stack + [a], analyzed)
  {
  }

  lemma DescendingPop(rank: Hash -> nat, hashes: set<Hash>, stack: seq<Hash>, analyzed: set<Hash>)
    requires Descending(rank, hashes, stack, analyzed) && stack != []
    ensures Descending(rank, hashes, stack[..|stack| - 1], analyzed + {stack[|stack| - 1]})
  {
  }

  /** The approvee `a` was dealt with before position `i` of the callbacks. */
  ghost predicate SettledBefore(g: Graph, events: seq<Event>, i: nat, a: Hash)
    requires i <= |events|
  {
    (a in g.vs ==> Mapped(a) in events[..i]) && (a !in g.vs && a !in g.seps ==> Missing(a) in events[..i])
  }

  predicate Approves(g: Graph, h: Hash, a: Hash) {
    h in g.vs && (a == g.vs[h].tx.trunk || a == g.vs[h].tx.branch)
  }

  /** Every mapped vertex comes after both its approvees were mapped or reported missing. */
  ghost predicate ApproveesFirst(g: Graph, events: seq<Event>) {
    forall i :: 0 <= i < |events| && events[i].Mapped? && events[i].hash in g.vs ==>
      var tx := g.vs[events[i].hash].tx;
      SettledBefore(g, events, i, tx.trunk) && SettledBefore(g, events, i, tx.branch)
  }

  lemma ApproveesFirstAppend(g: Graph, events: seq<Event>, e: Event)
    requires ApproveesFirst(g, events)
    requires e.Mapped? && e.hash in g.vs ==>
      var tx := g.vs[e.hash].tx;
      SettledBefore(g, events, |events|, tx.trunk) && SettledBefore(g, events, |events|, tx.branch)
    ensures ApproveesFirst(g, events + [e])
  {
    forall i | 0 <= i <= |events|
      ensures (events + [e])[..i] == events[..i]
    {
    }
  }

  lemma {:induction false} PostOrderIsFaithful(g: Graph, rank: Hash -> nat, h: Hash, w: Walk)
    requires Ranked(g.vs, rank) && (forall v :: g.follow(v)) && Faithful(g, w)
    ensures Faithful(g, PostOrder(g, rank, h, w)) && Explores(g, h, w, PostOrder(g, rank, h, w))
    decreases rank(h)
  {
    ReachesSelf(g, h);
    if h !in w.analyzed && h !in g.vs {
      FaithfulVisit(g, w, h);
    } else if h !in w.analyzed {
      var t, b := g.vs[h].tx.trunk, g.vs[h].tx.branch;
      var w1 := PostOrder(g, rank, t, w);
      PostOrderIsFaithful(g, rank, t, w);
      PostOrderIsFaithful(g, rank, b, w1);
      PostOrderRank(g, rank, t, w);
      PostOrderRank(g, rank, b, w1);
      ExploresBoth(g, h, w, w1, PostOrder(g, rank, b, w1));
      FaithfulVisit(g, PostOrder(g, rank, b, w1), h);
    }
  }

  lemma {:induction false} PostOrderApproveesFirst(g: Graph, rank: Hash -> nat, h: Hash, w: Walk)
    requires Ranked(g.vs, rank) && (forall v :: g.follow(v)) && Faithful(g, w) && ApproveesFirst(g, w.events)
    ensures ApproveesFirst(g, PostOrder(g, rank, h, w).events)
    decreases rank(h)
  {
    if h !in w.analyzed && h !in g.vs {
      if h in g.seps {
        assert w.events + [] == w.events;
      } else {
        ApproveesFirstAppend(g, w.events, Missing(h));
      }
    } else if h !in w.analyzed {
      var t, b := g.vs[h].tx.trunk, g.vs[h].tx.branch;
      var w1 := PostOrder(g, rank, t, w);
      var w2 := PostOrder(g, rank, b, w1);
      PostOrderIsFaithful(g, rank, t, w);
      PostOrderApproveesFirst(g, rank, t, w);
      PostOrderIsFaithful(g, rank, b, w1);
      PostOrderApproveesFirst(g, rank, b, w1);
      assert w2.events[..|w2.events|] == w2.events;
      ApproveesFirstAppend(g, w2.events, Mapped(h));
    }
  }

  // ----- Main results about the reference walks

  /** The depth-first walk from `root`: on every graph, cycles included, it maps each stored vertex
      reachable along followed vertices once, reports each reachable absent hash that is not a solid
      entry point once, and calls back nothing else. */
  lemma DepthFirstWalkExact(g: Graph, root: Hash)
    requires Closed(g) && root in g.hashes
    ensures var events := DepthFirst(g, root, START).events;
      && Distinct(events)
      && (forall h :: Mapped(h) in events <==> Reaches(g, root, h) && h in g.vs)
      && (forall h :: Missing(h) in events <==> Reaches(g, root, h) && h !in g.vs && h !in g.seps)
  {
    DepthFirstIsFaithful(g, root, START);
    ExploresAll(g, root, DepthFirst(g, root, START));
  }

  /** The post-order walk from `root` on an acyclic graph: each stored ancestor is mapped once and only
      after both its approvees were settled, each absent ancestor that is not a solid entry point is
      reported once, and nothing else is called back. */
  lemma PostOrderWalkExact(g: Graph, rank: Hash -> nat, root: Hash)
    requires Ranked(g.vs, rank) && forall v :: g.follow(v)
    ensures var events := PostOrder(g, rank, root, START).events;
      && Distinct(events)
      && (forall h :: Mapped(h) in events <==> Reaches(g, root, h) && h in g.vs)
      && (forall h :: Missing(h) in events <==> Reaches(g, root, h) && h !in g.vs && h !in g.seps)
      && (forall i, a :: 0 <= i < |events| && events[i].Mapped? && Approves(g, events[i].hash, a) ==>
            (a in g.vs ==> Mapped(a) in events[..i]) && (a !in g.vs && a !in g.seps ==> Missing(a) in events[..i]))
  {
    PostOrderIsFaithful(g, rank, root, START);
    PostOrderApproveesFirst(g, rank, root, START);
    ExploresAll(g, root, PostOrder(g, rank, root, START));
  }

  // ----- What the ignored `follow` predicate would change

  /** The post-order that goes below a vertex only if `follow` holds of it. */
  ghost function FollowedPostOrder(g: Graph, rank: Hash -> nat, h: Hash, w: Walk): (r: Walk)
    requires Ranked(g.vs, rank)
    decreases rank(h)
  {
    if h in w.analyzed then w
    else if h !in g.vs then Walk(w.events + OnMissing(g, h), w.analyzed + {h})
    else
      var w' :=
        if g.follow(g.vs[h]) then
          FollowedPostOrder(g, rank, g.vs[h].tx.branch, FollowedPostOrder(g, rank, g.vs[h].tx.trunk, w))
        else w;
      Walk(w'.events + [Mapped(h)], w'.analyzed + {h})
  }

  /** Visiting the hash calls nothing back: it is a solid entry point that is not stored. */
  predicate Silent(g: Graph, h: Hash) {
    h !in g.vs && h in g.seps
  }

  /** The same callbacks, and the same hashes analysed but for silent ones. */
  ghost predicate SameWalk(g: Graph, w: Walk, u: Walk) {
    w.events == u.events && forall x :: !Silent(g, x) ==> (x in w.analyzed <==> x in u.analyzed)
  }

  /** Every vertex that `follow` rejects approves silent hashes only. */
  ghost predicate RejectsOnlyBottom(g: Graph) {
    forall h :: h in g.vs && !g.follow(g.vs[h]) ==> Silent(g, g.vs[h].tx.trunk) && Silent(g, g.vs[h].tx.branch)
  }

  lemma {:induction false} FollowedIsSame(g: Graph, rank: Hash -> nat, h: Hash, w: Walk, u: Walk)
    requires Ranked(g.vs, rank) && RejectsOnlyBottom(g) && SameWalk(g, w, u)
    ensures SameWalk(g, PostOrder(g, rank, h, w), FollowedPostOrder(g, rank, h, u))
    decreases rank(h)
  {
    if h in g.vs && h !in w.analyzed {
      var t, b := g.vs[h].tx.trunk, g.vs[h].tx.branch;
      if g.follow(g.vs[h]) {
        FollowedIsSame(g, rank, t, w, u);
        FollowedIsSame(g, rank, b, PostOrder(g, rank, t, w), FollowedPostOrder(g, rank, t, u));
      } else {
        SilentVisit(g, rank, t, w);
        SilentVisit(g, rank, b, PostOrder(g, rank, t, w));
      }
    } else if Silent(g, h) {
      assert w.events + OnMissing(g, h) == w.events && u.events + OnMissing(g, h) == u.events;
    }
  }

  lemma SilentVisit(g: Graph, rank: Hash -> nat, h: Hash, w: Walk)
    requires Ranked(g.vs, rank) && Silent(g, h)
    ensures SameWalk(g, PostOrder(g, rank, h, w), w) && PostOrder(g, rank, h, w).analyzed == w.analyzed + {h}
  {
    assert w.events + OnMissing(g, h) == w.events;
  }

  lemma {:induction false} PostOrderCalls(g: Graph, rank: Hash -> nat, h: Hash, w: Walk)
    requires Ranked(g.vs, rank)
    ensures |PostOrder(g, rank, h, w).events| >= |w.events|
    ensures h !in w.analyzed && !Silent(g, h) ==> |PostOrder(g, rank, h, w).events| > |w.events|
    decreases rank(h)
  {
    if h !in w.analyzed && h in g.vs {
      PostOrderCalls(g, rank, g.vs[h].tx.trunk, w);
      PostOrderCalls(g, rank, g.vs[h].tx.branch, PostOrder(g, rank, g.vs[h].tx.trunk, w));
    }
  }

  /** From a rejected vertex with an approvee that is not silent, the two walks differ. */
  lemma FollowShows(g: Graph, rank: Hash -> nat, h: Hash)
    requires Ranked(g.vs, rank) && h in g.vs && !g.follow(g.vs[h])
    requires !Silent(g, g.vs[h].tx.trunk) || !Silent(g, g.vs[h].tx.branch)
    ensures FollowedPostOrder(g, rank, h, START).events != PostOrder(g, rank, h, START).events
  {
    var t, b := g.vs[h].tx.trunk, g.vs[h].tx.branch;
    var w := PostOrder(g, rank, t, START);
    PostOrderCalls(g, rank, t, START);
    PostOrderCalls(g, rank, b, w);
    if Silent(g, t) {
      SilentVisit(g, rank, t, START);
    }
    assert |FollowedPostOrder(g, rank, h, START).events| == 1;
  }

  /** Ignoring `follow` makes no difference, from whatever root, if and only if every vertex it rejects
      approves nothing but solid entry points that are not stored. */
  lemma FollowIgnoredIff(g: Graph, rank: Hash -> nat)
    requires Ranked(g.vs, rank)
    ensures (forall root :: FollowedPostOrder(g, rank, root, START).events == PostOrder(g, rank, root, START).events)
      <==> RejectsOnlyBottom(g)
  {
    if RejectsOnlyBottom(g) {
      forall root ensures FollowedPostOrder(g, rank, root, START).events == PostOrder(g, rank, root, START).events {
        FollowedIsSame(g, rank, root, START, START);
      }
    } else {
      var h :| h in g.vs && !g.follow(g.vs[h]) && !(Silent(g, g.vs[h].tx.trunk) && Silent(g, g.vs[h].tx.branch));
      FollowShows(g, rank, h);
    }
  }

  // ----- Deciding whether a past is complete

  /** Follow only vertices that are not flagged solid, as the transaction solidifier does. */
  function Unsolid(seps: set<Hash>, vs: Vertices, hashes: set<Hash>): Graph {
    Graph(seps, vs, (v: Vertex) => !v.solid, hashes)
  }

  ghost predicate NothingMissing(g: Graph, x: Hash) {
    forall y :: Reaches(g, x, y) ==> y in g.vs || y in g.seps
  }

  lemma {:induction false} NothingMissingIsComplete(g: Graph, rank: Hash -> nat, x: Hash)
    requires g == Unsolid(g.seps, g.vs, g.hashes) && Ranked(g.vs, rank) && Sound(g.seps, g.vs)
    requires NothingMissing(g, x)
    ensures PastComplete(g.seps, g.vs, x)
    decreases rank(x)
  {
    ReachesSelf(g, x);
    if x !in g.seps && !g.vs[x].solid {
      var t, b := g.vs[x].tx.trunk, g.vs[x].tx.branch;
      forall y | Reaches(g, t, y) ensures y in g.vs || y in g.seps { ReachesVia(g, x, t, y); }
      forall y | Reaches(g, b, y) ensures y in g.vs || y in g.seps { ReachesVia(g, x, b, y); }
      NothingMissingIsComplete(g, rank, t);
      NothingMissingIsComplete(g, rank, b);
    }
    PastCompleteUnfolds(g.seps, g.vs, x);
  }

  lemma {:induction false} CompleteAlongPath(g: Graph, x: Hash, p: seq<Hash>, y: Hash)
    requires g.seps !! g.vs.Keys && PastComplete(g.seps, g.vs, x) && Path(g, x, p, y)
    ensures y in g.vs || y in g.seps
    decreases |p|
  {
    PastCompleteUnfolds(g.seps, g.vs, x);
    if p != [] {
      CompleteAlongPath(g, p[0], p[1..], y);
    }
  }

  /** On an acyclic sound tangle that stores no solid entry point as a vertex, a walk that follows only
      unflagged vertices meets nothing missing exactly when the whole past is stored. */
  lemma NothingMissingDecidesPast(g: Graph, rank: Hash -> nat, x: Hash)
    requires g == Unsolid(g.seps, g.vs, g.hashes) && Ranked(g.vs, rank) && Sound(g.seps, g.vs)
    requires g.seps !! g.vs.Keys
    ensures NothingMissing(g, x) <==> PastComplete(g.seps, g.vs, x)
  {
    if NothingMissing(g, x) {
      NothingMissingIsComplete(g, rank, x);
    }
    if PastComplete(g.seps, g.vs, x) {
      forall y | Reaches(g, x, y)
        ensures y in g.vs || y in g.seps
      {
        var p :| Path(g, x, p, y);
        CompleteAlongPath(g, x, p, y);
      }
    }
  }
}
