/** The cache with which the transaction worker drops transactions it has seen recently. */
module HashCache {

  import opened Common

  type Hash = int

  function Min(a: int, b: int): int {
    if a <= b then a else b
  }

  // ----- A sliding window over the accepted hashes

  /** The last `capacity` of the accepted hashes. */
  function Window(accepted: seq<Hash>, capacity: nat): (w: seq<Hash>)
    ensures |w| == Min(|accepted|, capacity)
  {
    accepted[|accepted| - Min(|accepted|, capacity)..]
  }

  /** What has been accepted after offering `offers` in turn: a hash is accepted unless it is in the window. */
  function AcceptedAfter(capacity: nat, offers: seq<Hash>): seq<Hash> {
    if offers == [] then []
    else
      var before, h := AcceptedAfter(capacity, offers[..|offers| - 1]), offers[|offers| - 1];
      if h in Window(before, capacity) then before else before + [h]
  }

  /** Equal hashes are never accepted within `capacity` acceptances of each other. */
  ghost predicate Spaced(accepted: seq<Hash>, capacity: nat) {
    forall i, j :: 0 <= i < j < |accepted| && accepted[i] == accepted[j] ==> j - i > capacity
  }

  /** A hash is accepted twice only if `capacity` other hashes were accepted in between. */
  lemma {:induction false} AcceptedIsSpaced(capacity: nat, offers: seq<Hash>)
    ensures Spaced(AcceptedAfter(capacity, offers), capacity)
    ensures var accepted := AcceptedAfter(capacity, offers);
      forall i, j :: 0 <= i < j < |accepted| && accepted[i] == accepted[j] ==> j - i > capacity
  {
    if offers != [] {
      var earlier, h := offers[..|offers| - 1], offers[|offers| - 1];
      AcceptedIsSpaced(capacity, earlier);
      if h !in Window(AcceptedAfter(capacity, earlier), capacity) {
        SpacedAppend(AcceptedAfter(capacity, earlier), capacity, h);
      }
    }
  }

  /** No offer slips through: every hash offered was accepted at some time, and no other was. */
  lemma {:induction false} OfferedIsAccepted(capacity: nat, offers: seq<Hash>, h: Hash)
    ensures h in AcceptedAfter(capacity, offers) <==> h in offers
  {
    if offers != [] {
      var earlier, last := offers[..|offers| - 1], offers[|offers| - 1];
      var before := AcceptedAfter(capacity, earlier);
      OfferedIsAccepted(capacity, earlier, h);
      InAppended(earlier, last, h);
      assert offers == earlier + [last];
      if last in Window(before, capacity) {
        InSuffix(before, |before| - Min(|before|, capacity), last);
      } else {
        InAppended(before, last, h);
      }
    }
  }

  lemma InAppended(s: seq<Hash>, x: Hash, h: Hash)
    ensures h in s + [x] <==> h in s || h == x
  {
  }

  lemma InSuffix(s: seq<Hash>, from: nat, h: Hash)
    requires from <= |s| && h in s[from..]
    ensures h in s
  {
  }

  /** Offering a hash again right away is refused. */
  lemma {:induction false} LastOfferInWindow(capacity: nat, offers: seq<Hash>, h: Hash)
    requires capacity >= 1
    ensures h in Window(AcceptedAfter(capacity, offers + [h]), capacity)
  {
    AcceptedStep(capacity, offers, h);
    WindowSlides(AcceptedAfter(capacity, offers), capacity, h);
  }

  /** The window without its oldest hash, if it is full. */
  function Trimmed(accepted: seq<Hash>, capacity: nat): seq<Hash>
    requires capacity >= 1
  {
    var w := Window(accepted, capacity);
    if |w| >= capacity then w[1..] else w
  }

  /** Accepting a hash pushes the oldest one out of a full window. */
  lemma WindowSlides(accepted: seq<Hash>, capacity: nat, h: Hash)
    requires capacity >= 1
    ensures Window(accepted + [h], capacity) == Trimmed(accepted, capacity) + [h]
  {
  }

  lemma {:induction false} AcceptedStep(capacity: nat, offers: seq<Hash>, h: Hash)
    ensures var before := AcceptedAfter(capacity, offers);
      AcceptedAfter(capacity, offers + [h]) == if h in Window(before, capacity) then before else before + [h]
  {
    assert (offers + [h])[..|offers|] == offers;
  }

  lemma SpacedAppend(accepted: seq<Hash>, capacity: nat, h: Hash)
    requires Spaced(accepted, capacity) && h !in Window(accepted, capacity)
    ensures Spaced(accepted + [h], capacity)
  {
    var n := |accepted|;
    forall i | 0 <= i < n && accepted[i] == h ensures n - i > capacity {
      if n - i <= capacity {
        RecentInWindow(accepted, capacity, i);
      }
    }
  }

  lemma RecentInWindow(accepted: seq<Hash>, capacity: nat, i: nat)
    requires |accepted| - capacity <= i < |accepted|
    ensures accepted[i] in Window(accepted, capacity)
  {
    assert accepted[i] == Window(accepted, capacity)[i - (|accepted| - Min(|accepted|, capacity))];
  }

  /** The set and the deque hold the same distinct hashes. */
  ghost predicate SameDistinct(cache: set<Hash>, order: seq<Hash>) {
    && |cache| == |order|
    && (forall h :: h in cache <==> h in order)
    && (forall i, j :: 0 <= i < j < |order| ==> order[i] != order[j])
  }

  lemma DropOldest(cache: set<Hash>, order: seq<Hash>)
    requires SameDistinct(cache, order) && order != []
    ensures SameDistinct(cache - {order[0]}, order[1..])
  {
    assert order == [order[0]] + order[1..];
    assert order[0] in order;
  }

  lemma AddNewest(cache: set<Hash>, order: seq<Hash>, h: Hash)
    requires SameDistinct(cache, order) && h !in order
    ensures SameDistinct(cache + {h}, order + [h])
  {
  }

  // ----- The cache as a value

  datatype Outcome = Inserted | AlreadyPresent | Panic

  datatype Contents = Contents(cache: set<Hash>, order: seq<Hash>)

  /** The deque is the window of the accepted hashes, and the set holds the same. */
  ghost predicate IsCache(capacity: nat, accepted: seq<Hash>, c: Contents) {
    c.order == Window(accepted, capacity) && SameDistinct(c.cache, c.order)
  }

  /** What an insertion answers and leaves behind. */
  function Offered(capacity: nat, c: Contents, h: Hash): (Outcome, Contents) {
    if h in c.cache then (AlreadyPresent, c)
    else if |c.cache| < capacity then (Inserted, Contents(c.cache + {h}, c.order + [h]))
    else if c.order == [] then (Panic, c)
    else (Inserted, Contents(c.cache - {c.order[0]} + {h}, c.order[1..] + [h]))
  }

  /** Inserting refuses exactly the hashes of the window, panics exactly without capacity, and keeps the
      cache the window of the accepted hashes. */
  lemma {:induction false} OfferedExact(capacity: nat, accepted: seq<Hash>, c: Contents, h: Hash)
    requires IsCache(capacity, accepted, c)
    ensures var (r, next) := Offered(capacity, c, h);
      && (r == Panic <==> capacity == 0)
      && (r == AlreadyPresent <==> h in Window(accepted, capacity))
      && IsCache(capacity, if r == Inserted then accepted + [h] else accepted, next)
  {
    if h !in c.cache && capacity >= 1 {
      WindowSlides(accepted, capacity, h);
      if |c.cache| < capacity {
        AddNewest(c.cache, c.order, h);
      } else {
        DropOldest(c.cache, c.order);
        AddNewest(c.cache - {c.order[0]}, c.order[1..], h);
      }
    }
  }

  /** The cache after offering hashes one after the other to an empty one. */
  function OfferedAll(capacity: nat, offers: seq<Hash>): Contents {
    if offers == [] then Contents({}, [])
    else Offered(capacity, OfferedAll(capacity, offers[..|offers| - 1]), offers[|offers| - 1]).1
  }

  /** Over every run the cache is the sliding window over what the reference accepts. */
  lemma {:induction false} RunIsWindow(capacity: nat, offers: seq<Hash>)
    requires capacity >= 1
    ensures IsCache(capacity, AcceptedAfter(capacity, offers), OfferedAll(capacity, offers))
    ensures var c := OfferedAll(capacity, offers);
      && c.order == Window(AcceptedAfter(capacity, offers), capacity) && |c.cache| == |c.order| <= capacity
      && (forall h :: h in c.cache <==> h in c.order)
      && (forall i, j :: 0 <= i < j < |c.order| ==> c.order[i] != c.order[j])
  {
    if offers != [] {
      var earlier, h := offers[..|offers| - 1], offers[|offers| - 1];
      RunIsWindow(capacity, earlier);
      OfferedExact(capacity, AcceptedAfter(capacity, earlier), OfferedAll(capacity, earlier), h);
    }
  }

  /** After every run the next hash is refused if and only if it is among the last accepted ones. */
  lemma {:induction false} RunAnswers(capacity: nat, offers: seq<Hash>, h: Hash)
    requires capacity >= 1
    ensures Offered(capacity, OfferedAll(capacity, offers), h).0 ==
      if h in Window(AcceptedAfter(capacity, offers), capacity) then AlreadyPresent else Inserted
  {
    RunIsWindow(capacity, offers);
    CacheAnswers(capacity, AcceptedAfter(capacity, offers), OfferedAll(capacity, offers), h);
  }

  lemma CacheAnswers(capacity: nat, accepted: seq<Hash>, c: Contents, h: Hash)
    requires capacity >= 1 && IsCache(capacity, accepted, c)
    ensures Offered(capacity, c, h).0 == if h in Window(accepted, capacity) then AlreadyPresent else Inserted
  {
    OfferedExact(capacity, accepted, c, h);
  }

  // ----- The cache object

  class TinyHashCache {
    const maxCapacity: nat
    /** The 64-bit hash of the bytes, not part of this model. */
    const xxHash: seq<byte> -> Hash
    var cache: set<Hash>
    var elemOrder: seq<Hash>

    ghost function Value(): Contents
      reads this
    {
      Contents(cache, elemOrder)
    }

    constructor (maxCapacity: nat, xxHash: seq<byte> -> Hash)
      ensures Value() == Contents({}, []) && this.maxCapacity == maxCapacity && this.xxHash == xxHash
    {
      this.maxCapacity, this.xxHash := maxCapacity, xxHash;
      cache, elemOrder := {}, [];
    }

    /** Whatever hashes the cache has accepted so far: it refuses exactly the last `maxCapacity` of them,
        panics exactly without capacity, and remains their window. */
    method Insert(bytes: seq<byte>) returns (r: Outcome)
      modifies this`cache, this`elemOrder
      ensures (r, Value()) == Offered(maxCapacity, old(Value()), xxHash(bytes))
      ensures forall accepted :: IsCache(maxCapacity, accepted, old(Value())) ==>
        && (r == AlreadyPresent <==> xxHash(bytes) in Window(accepted, maxCapacity))
        && (r == Panic <==> maxCapacity == 0)
        && IsCache(maxCapacity, if r == Inserted then accepted + [xxHash(bytes)] else accepted, Value())
    {
      r := InsertHash(xxHash(bytes));
      forall accepted | IsCache(maxCapacity, accepted, old(Value()))
        ensures r == AlreadyPresent <==> xxHash(bytes) in Window(accepted, maxCapacity)
        ensures r == Panic <==> maxCapacity == 0
        ensures IsCache(maxCapacity, if r == Inserted then accepted + [xxHash(bytes)] else accepted, Value())
      {
        OfferedExact(maxCapacity, accepted, old(Value()), xxHash(bytes));
      }
    }

    method InsertHash(hash: Hash) returns (r: Outcome)
      modifies this`cache, this`elemOrder
      ensures (r, Value()) == Offered(maxCapacity, old(Value()), hash)
    {
      if hash in cache {
        return AlreadyPresent;
      }
      if |cache| >= maxCapacity {
        if |elemOrder| == 0 {
          return Panic;
        }
        var first := elemOrder[0];
        elemOrder := elemOrder[1..];
        cache := cache - {first};
      }
      cache := cache + {hash};
      elemOrder := elemOrder + [hash];
      r := Inserted;
    }
  }
}
