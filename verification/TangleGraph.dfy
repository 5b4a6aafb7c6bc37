/**
 The transaction graph that the tangle stores, and what "solid" means for it.

 A hash is used by the tangle only as an identity, so it is modelled by an integer. A transaction
 is reduced to the two hashes it approves.
 */
module TangleGraph {

  type Hash = int

  datatype Transaction = Transaction(trunk: Hash, branch: Hash)

  datatype Vertex = Vertex(tx: Transaction, solid: bool, milestone: bool)

  type Vertices = map<Hash, Vertex>

  /** The whole past of `h` is stored, down to solid entry points, and is at most `depth` deep. */
  ghost predicate PastWithin(seps: set<Hash>, vs: Vertices, h: Hash, depth: nat)
    decreases depth
  {
    h in seps ||
    (h in vs && depth > 0 &&
     PastWithin(seps, vs, vs[h].tx.trunk, depth - 1) &&
     PastWithin(seps, vs, vs[h].tx.branch, depth - 1))
  }

  /** The whole past of `h` is stored, down to solid entry points. */
  ghost predicate PastComplete(seps: set<Hash>, vs: Vertices, h: Hash) {
    exists depth: nat :: PastWithin(seps, vs, h, depth)
  }

  /** Both approvees of the stored vertex `h` have a complete past. */
  ghost predicate ApproveesComplete(seps: set<Hash>, vs: Vertices, h: Hash)
    requires h in vs
  {
    PastComplete(seps, vs, vs[h].tx.trunk) && PastComplete(seps, vs, vs[h].tx.branch)
  }

  /** What `is_solid_transaction` answers. */
  predicate IsSolidTransaction(seps: set<Hash>, vs: Vertices, h: Hash) {
    h in seps || (h in vs && vs[h].solid)
  }

  /** Both approvees of the stored vertex `h` answer solid. */
  predicate ApproveesSolid(seps: set<Hash>, vs: Vertices, h: Hash)
    requires h in vs
  {
    IsSolidTransaction(seps, vs, vs[h].tx.trunk) && IsSolidTransaction(seps, vs, vs[h].tx.branch)
  }

  /** `vs'` stores everything `vs` stores, with the same transactions (flags may differ). */
  ghost predicate Extends(vs: Vertices, vs': Vertices) {
    forall h :: h in vs ==> h in vs' && vs'[h].tx == vs[h].tx
  }

  /** Every vertex flagged solid has its whole past stored. */
  ghost predicate Sound(seps: set<Hash>, vs: Vertices) {
    forall h :: h in vs && vs[h].solid ==> ApproveesComplete(seps, vs, h)
  }

  /** A rank that strictly decreases along every approval: the stored graph has no cycle. */
  ghost predicate Ranked(vs: Vertices, rank: Hash -> nat) {
    forall h :: h in vs ==> rank(vs[h].tx.trunk) < rank(h) && rank(vs[h].tx.branch) < rank(h)
  }

  lemma {:induction false} PastWithinExtends(seps: set<Hash>, vs: Vertices, vs': Vertices, h: Hash, d: nat, d': nat)
    requires Extends(vs, vs') && d <= d' && PastWithin(seps, vs, h, d)
    ensures PastWithin(seps, vs', h, d')
    decreases d
  {
    if h !in seps {
      PastWithinExtends(seps, vs, vs', vs[h].tx.trunk, d - 1, d' - 1);
      PastWithinExtends(seps, vs, vs', vs[h].tx.branch, d - 1, d' - 1);
    }
  }

  /** A complete past stays complete when vertices are added or flags change. */
  lemma PastCompleteExtends(seps: set<Hash>, vs: Vertices, vs': Vertices, h: Hash)
    requires Extends(vs, vs') && PastComplete(seps, vs, h)
    ensures PastComplete(seps, vs', h)
  {
    var d: nat :| PastWithin(seps, vs, h, d);
    PastWithinExtends(seps, vs, vs', h, d, d);
  }

  /** Unfolding the inductive definition one approval down, in both directions. */
  lemma PastCompleteUnfolds(seps: set<Hash>, vs: Vertices, h: Hash)
    ensures PastComplete(seps, vs, h) <==> h in seps || (h in vs && ApproveesComplete(seps, vs, h))
  {
    if h in seps {
      assert PastWithin(seps, vs, h, 0);
    } else {
      if PastComplete(seps, vs, h) {
        var d: nat :| PastWithin(seps, vs, h, d);
        assert PastWithin(seps, vs, vs[h].tx.trunk, d - 1) && PastWithin(seps, vs, vs[h].tx.branch, d - 1);
      }
      if h in vs && ApproveesComplete(seps, vs, h) {
        ApproveesCompleteSuffice(seps, vs, h);
      }
    }
  }

  lemma ApproveesCompleteSuffice(seps: set<Hash>, vs: Vertices, h: Hash)
    requires h in vs && ApproveesComplete(seps, vs, h)
    ensures PastComplete(seps, vs, h)
  {
    var a: nat :| PastWithin(seps, vs, vs[h].tx.trunk, a);
    var b: nat :| PastWithin(seps, vs, vs[h].tx.branch, b);
    PastWithinExtends(seps, vs, vs, vs[h].tx.trunk, a, a + b);
    PastWithinExtends(seps, vs, vs, vs[h].tx.branch, b, a + b);
    assert PastWithin(seps, vs, h, a + b + 1);
  }

  lemma SolidHasCompletePast(seps: set<Hash>, vs: Vertices, h: Hash)
    requires Sound(seps, vs) && IsSolidTransaction(seps, vs, h)
    ensures PastComplete(seps, vs, h)
  {
    PastCompleteUnfolds(seps, vs, h);
  }

  /** Adding vertices or flags keeps soundness as long as every solid flag of `vs'` is justified. */
  lemma SoundExtends(seps: set<Hash>, vs: Vertices, vs': Vertices)
    requires Sound(seps, vs) && Extends(vs, vs')
    requires forall h :: h in vs' && vs'[h].solid ==> h in vs && (vs[h].solid || ApproveesSolid(seps, vs, h))
    ensures Sound(seps, vs')
  {
    forall h | h in vs' && vs'[h].solid
      ensures ApproveesComplete(seps, vs', h)
    {
      if !vs[h].solid {
        SolidHasCompletePast(seps, vs, vs[h].tx.trunk);
        SolidHasCompletePast(seps, vs, vs[h].tx.branch);
      }
      PastCompleteExtends(seps, vs, vs', vs[h].tx.trunk);
      PastCompleteExtends(seps, vs, vs', vs[h].tx.branch);
    }
  }

  /** The graph-theoretic core of completeness: when no stored vertex is left unflagged with both
      approvees solid, every vertex with a complete past is flagged. */
  lemma {:induction false} SettledIsComplete(seps: set<Hash>, vs: Vertices, h: Hash, d: nat)
    requires forall x :: x in vs && ApproveesSolid(seps, vs, x) ==> vs[x].solid
    requires PastWithin(seps, vs, h, d)
    ensures IsSolidTransaction(seps, vs, h)
    decreases d
  {
    if h !in seps {
      SettledIsComplete(seps, vs, vs[h].tx.trunk, d - 1);
      SettledIsComplete(seps, vs, vs[h].tx.branch, d - 1);
    }
  }

  /** In a sound and settled graph the solidity answers are exact, for hashes and for flags. */
  lemma SettledIsExact(seps: set<Hash>, vs: Vertices)
    requires Sound(seps, vs)
    requires forall x :: x in vs && ApproveesSolid(seps, vs, x) ==> vs[x].solid
    ensures forall h :: IsSolidTransaction(seps, vs, h) <==> PastComplete(seps, vs, h)
    ensures forall h :: h in vs ==> (vs[h].solid <==> ApproveesComplete(seps, vs, h))
  {
    forall h
      ensures IsSolidTransaction(seps, vs, h) <==> PastComplete(seps, vs, h)
    {
      if PastComplete(seps, vs, h) {
        var d: nat :| PastWithin(seps, vs, h, d);
        SettledIsComplete(seps, vs, h, d);
      }
      if IsSolidTransaction(seps, vs, h) {
        SolidHasCompletePast(seps, vs, h);
      }
    }
  }
}
