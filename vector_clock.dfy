/**
  The bounded vector clock of context_router.py (class EfficientVectorClock).

  The clock maps node identifiers to event counters. The first half of this
  module gives the meaning of each operation as a function on maps and proves
  what the operations promise; the class at the end mutates its `vector`
  field in place, step by step as the source does, and each method is proved
  to leave exactly the map the matching function describes.
*/
module VectorClock {
  import opened Identifiers

  /** Size above which a merge triggers one pruning pass. */
  const MaxVectorSize: int := 25

  /** PRUNE_RATIO (0.2) as a percentage, so that no floating point is needed. */
  const PruneRatioPercent: int := 20

  /** int(MAX_VECTOR_SIZE * PRUNE_RATIO): entries removed by one pruning pass. */
  const PruneCount: nat := MaxVectorSize * PruneRatioPercent / 100

  /** A (node, counter) item of the map, as the source's `vector.items()` yields it. */
  type Entry = (NodeId, int)

  /** dict.get(node, 0) */
  function Get(m: map<NodeId, int>, k: NodeId): int
  {
    if k in m then m[k] else 0
  }

  function Min(a: int, b: int): int { if a < b then a else b }

  /** The invariant every clock keeps: each stored counter is at least 1. */
  predicate AllPositive(m: map<NodeId, int>)
  {
    forall k :: k in m ==> m[k] > 0
  }

  // ---------------------------------------------------------------------------
  // increment

  /** The map after `increment`: the owner's counter is one more than before (absent counts as 0). */
  function Incremented(m: map<NodeId, int>, owner: NodeId): (r: map<NodeId, int>)
    ensures r.Keys == m.Keys + {owner}
    ensures r[owner] == Get(m, owner) + 1
    ensures forall k :: k in m && k != owner ==> r[k] == m[k]
  {
    m[owner := Get(m, owner) + 1]
  }

  /** Three increments of an empty clock leave the owner at 3 and nothing else. */
  lemma IncrementThriceScenario(owner: NodeId)
    ensures Incremented(Incremented(Incremented(map[], owner), owner), owner) == map[owner := 3]
  {
  }

  /** `increment` never prunes: a clock already holding 25 other nodes grows to 26 entries. */
  lemma IncrementMayExceedCap(m: map<NodeId, int>, owner: NodeId)
    requires |m| == MaxVectorSize && owner !in m
    ensures |Incremented(m, owner)| == MaxVectorSize + 1
  {
    assert Incremented(m, owner).Keys == m.Keys + {owner};
  }

  // ---------------------------------------------------------------------------
  // merge, before any pruning

  /**
    The map after the loop of `merge`: each node takes the larger of its local
    and remote counters; a node the clock does not know is added only when its
    remote counter is positive.
  */
  function MaxMerge(m: map<NodeId, int>, other: map<NodeId, int>): (r: map<NodeId, int>)
    ensures forall k :: k in r <==> k in m || (k in other && other[k] > 0)
    ensures forall k :: k in m ==> r[k] >= m[k]
    ensures forall k :: k in other && k in r ==> r[k] >= other[k]
    ensures forall k :: k in r ==> (k in m && r[k] == m[k]) || (k in other && r[k] == other[k])
  {
    map k | k in m.Keys + other.Keys && (k in m || other[k] > 0) ::
      if k in other && other[k] > Get(m, k) then other[k] else m[k]
  }

  /** Merging the same remote map twice is the same as merging it once. */
  lemma MaxMergeIdempotent(m: map<NodeId, int>, other: map<NodeId, int>)
    ensures MaxMerge(MaxMerge(m, other), other) == MaxMerge(m, other)
  {
    var once := MaxMerge(m, other);
    var twice := MaxMerge(once, other);
    assert twice.Keys == once.Keys;
  }

  /** Merging A then B is the same as merging B then A. */
  lemma MaxMergeCommutes(m: map<NodeId, int>, a: map<NodeId, int>, b: map<NodeId, int>)
    ensures MaxMerge(MaxMerge(m, a), b) == MaxMerge(MaxMerge(m, b), a)
  {
    var ab := MaxMerge(MaxMerge(m, a), b);
    var ba := MaxMerge(MaxMerge(m, b), a);
    forall k | k in ab ensures k in ba && ab[k] == ba[k] {
      if k in a && k in b {
        assert ab[k] == ba[k];
      }
    }
    assert ab.Keys == ba.Keys;
  }

  /** One more remote entry processed by the loop of `merge`, whose map so far is `current`. */
  lemma MaxMergeStep(m: map<NodeId, int>, done: map<NodeId, int>, current: map<NodeId, int>, node: NodeId, counter: int)
    requires node !in done && current == MaxMerge(m, done)
    ensures MaxMerge(m, done[node := counter]) ==
      if counter > Get(current, node) then current[node := counter] else current
  {
    var after := MaxMerge(m, done[node := counter]);
    assert Get(current, node) == Get(m, node);
    if counter > Get(current, node) {
      assert after.Keys == current[node := counter].Keys;
    } else {
      assert after.Keys == current.Keys;
    }
  }

  // ---------------------------------------------------------------------------
  // the sort that `_prune` runs

  /**
    The order `sorted(vector.items(), key=counter)` produces. Python's sort is
    stable, so the source breaks ties by insertion order, which a map does not
    record; this model breaks them by node identifier. The pruning lemmas
    below hold for every counter-sorted order.
  */
  predicate SortsBefore(a: Entry, b: Entry)
  {
    a.1 < b.1 || (a.1 == b.1 && a.0 <= b.0)
  }

  /** Every non-empty clock has an entry that sorts first. */
  lemma {:induction false} LeastEntry(m: map<NodeId, int>) returns (least: NodeId)
    requires m != map[]
    ensures least in m && forall j :: j in m ==> SortsBefore((least, m[least]), (j, m[j]))
    decreases |m|
  {
    var x :| x in m;
    var rest := m - {x};
    assert rest.Keys == m.Keys - {x};
    if rest == map[] {
      least := x;
      forall j | j in m ensures j == x {
        assert j !in rest.Keys;
      }
    } else {
      var y := LeastEntry(rest);
      least := if SortsBefore((x, m[x]), (y, m[y])) then x else y;
      forall j | j in m ensures SortsBefore((least, m[least]), (j, m[j])) {
        if j != x {
          assert j in rest.Keys && rest[j] == m[j];
          assert SortsBefore((y, rest[y]), (j, rest[j]));
        }
      }
    }
  }

  lemma LeastEntryExists(m: map<NodeId, int>)
    requires m != map[]
    ensures exists k :: k in m && forall j :: j in m ==> SortsBefore((k, m[k]), (j, m[j]))
  {
    var k := LeastEntry(m);
  }

  /** The node that comes first in the sort. */
  function LeastKey(m: map<NodeId, int>): (k: NodeId)
    requires m != map[]
    ensures k in m && forall j :: j in m ==> SortsBefore((k, m[k]), (j, m[j]))
  {
    LeastEntryExists(m);
    var k :| k in m && forall j :: j in m ==> SortsBefore((k, m[k]), (j, m[j]));
    k
  }

  /** `s` lists entries of `m` (with their current counters), each node once, in ascending counter order. */
  ghost predicate SortedListing(s: seq<Entry>, m: map<NodeId, int>)
  {
    && (forall i :: 0 <= i < |s| ==> s[i].0 in m && s[i].1 == m[s[i].0])
    && (forall i, j :: 0 <= i < j < |s| ==> s[i].0 != s[j].0 && s[i].1 <= s[j].1)
  }

  /** Putting the entry that sorts first in front of a sorted listing of the rest lists the whole map. */
  lemma ListingCons(m: map<NodeId, int>, k: NodeId, tail: seq<Entry>)
    requires k in m && forall j :: j in m ==> SortsBefore((k, m[k]), (j, m[j]))
    requires SortedListing(tail, m - {k}) && forall j :: j in m - {k} ==> (j, m[j]) in tail
    ensures SortedListing([(k, m[k])] + tail, m)
    ensures forall j :: j in m ==> (j, m[j]) in [(k, m[k])] + tail
  {
    var rest := m - {k};
    var s := [(k, m[k])] + tail;
    forall i | 0 <= i < |s| ensures s[i].0 in m && s[i].1 == m[s[i].0] {
      if i > 0 { assert s[i] == tail[i - 1]; }
    }
    forall i, j | 0 <= i < j < |s| ensures s[i].0 != s[j].0 && s[i].1 <= s[j].1 {
      assert s[j] == tail[j - 1] && s[j].0 in rest;
      if i > 0 { assert s[i] == tail[i - 1]; }
    }
    forall j | j in m ensures (j, m[j]) in s {
      if j != k {
        assert j in rest;
      }
    }
  }

  /** The items of `m` in the order the sort yields them: the entry that sorts first, then the rest. */
  function SortedByCounter(m: map<NodeId, int>): seq<Entry>
    decreases |m|
  {
    if m == map[] then []
    else
      var k := LeastKey(m);
      assert (m - {k}).Keys == m.Keys - {k};
      [(k, m[k])] + SortedByCounter(m - {k})
  }

  /** The sorted items list every entry of the map with its counter, each node once, in ascending counter order. */
  lemma {:induction false} SortedByCounterListsAll(m: map<NodeId, int>)
    ensures SortedListing(SortedByCounter(m), m)
    ensures forall k :: k in m ==> (k, m[k]) in SortedByCounter(m)
    decreases |m|
  {
    if m != map[] {
      var k := LeastKey(m);
      assert (m - {k}).Keys == m.Keys - {k};
      SortedByCounterListsAll(m - {k});
      ListingCons(m, k, SortedByCounter(m - {k}));
    }
  }

  // ---------------------------------------------------------------------------
  // _prune

  /** The nodes of `s` other than the owner. */
  ghost function NonOwnerNodes(s: seq<Entry>, owner: NodeId): set<NodeId>
  {
    set e | e in s && e.0 != owner :: e.0
  }

  /**
    The loop of `_prune` run over the sorted items `s`: with `budget` deletions
    left, walk `s` in order, skip the owner, delete every other node, and stop
    when the budget is spent.
  */
  function PruneAlong(m: map<NodeId, int>, s: seq<Entry>, owner: NodeId, budget: nat): (r: map<NodeId, int>)
    ensures r.Keys <= m.Keys
    ensures forall k :: k in r ==> r[k] == m[k]
    ensures owner in m ==> owner in r
    decreases |s|
  {
    if s == [] || budget == 0 then m
    else if s[0].0 == owner then PruneAlong(m, s[1..], owner, budget)
    else PruneAlong(m - {s[0].0}, s[1..], owner, budget - 1)
  }

  /** The rest of a sorted listing still lists the map. */
  lemma ListingTail(s: seq<Entry>, m: map<NodeId, int>)
    requires s != [] && SortedListing(s, m)
    ensures SortedListing(s[1..], m)
  {
    var tail := s[1..];
    forall i, j | 0 <= i < j < |tail| ensures tail[i].0 != tail[j].0 && tail[i].1 <= tail[j].1 {
      assert tail[i] == s[i + 1] && tail[j] == s[j + 1];
    }
  }

  /** The rest of a sorted listing lists the map without its first node, and nothing in it sorts before that node. */
  lemma ListingTailWithout(s: seq<Entry>, m: map<NodeId, int>)
    requires s != [] && SortedListing(s, m)
    ensures SortedListing(s[1..], m - {s[0].0})
    ensures forall e :: e in s[1..] ==> e.0 != s[0].0 && s[0].1 <= e.1
  {
    var tail := s[1..];
    forall i | 0 <= i < |tail| ensures tail[i].0 != s[0].0 && s[0].1 <= tail[i].1 {
      assert tail[i] == s[i + 1];
    }
    forall i, j | 0 <= i < j < |tail| ensures tail[i].0 != tail[j].0 && tail[i].1 <= tail[j].1 {
      assert tail[i] == s[i + 1] && tail[j] == s[j + 1];
    }
  }

  /** How the non-owner nodes of a listing split at its first entry. */
  lemma NonOwnerNodesCons(s: seq<Entry>, owner: NodeId)
    requires s != []
    requires forall e :: e in s[1..] ==> e.0 != s[0].0
    ensures s[0].0 == owner ==> NonOwnerNodes(s, owner) == NonOwnerNodes(s[1..], owner)
    ensures s[0].0 != owner ==> NonOwnerNodes(s, owner) == {s[0].0} + NonOwnerNodes(s[1..], owner)
    ensures s[0].0 !in NonOwnerNodes(s[1..], owner)
  {
    assert s == [s[0]] + s[1..];
  }

  /** `s` names nodes of `m`, each at most once; all that counting deletions needs. */
  ghost predicate DistinctNodes(s: seq<Entry>, m: map<NodeId, int>)
  {
    && (forall i :: 0 <= i < |s| ==> s[i].0 in m)
    && (forall i, j :: 0 <= i < j < |s| ==> s[i].0 != s[j].0)
  }

  /** What one step of the walk changes: the nodes left to walk, and the sizes it counts. */
  lemma PruneStep(m: map<NodeId, int>, s: seq<Entry>, owner: NodeId)
    requires s != [] && DistinctNodes(s, m)
    ensures DistinctNodes(s[1..], m) && DistinctNodes(s[1..], m - {s[0].0})
    ensures s[0].0 == owner ==> |NonOwnerNodes(s, owner)| == |NonOwnerNodes(s[1..], owner)|
    ensures s[0].0 != owner ==> |NonOwnerNodes(s, owner)| == |NonOwnerNodes(s[1..], owner)| + 1
    ensures |m - {s[0].0}| == |m| - 1
  {
    var tail := s[1..];
    forall i | 0 <= i < |tail| ensures tail[i].0 != s[0].0 && tail[i].0 in m {
      assert tail[i] == s[i + 1];
    }
    forall i, j | 0 <= i < j < |tail| ensures tail[i].0 != tail[j].0 {
      assert tail[i] == s[i + 1] && tail[j] == s[j + 1];
    }
    NonOwnerNodesCons(s, owner);
    assert (m - {s[0].0}).Keys == m.Keys - {s[0].0};
  }

  /** Walking a listing of distinct nodes deletes min(budget, non-owner nodes listed) entries. */
  lemma {:induction false} PruneAlongCount(m: map<NodeId, int>, s: seq<Entry>, owner: NodeId, budget: nat)
    requires DistinctNodes(s, m)
    ensures |m| - |PruneAlong(m, s, owner, budget)| == Min(budget, |NonOwnerNodes(s, owner)|)
    decreases |s|
  {
    if s == [] {
      assert NonOwnerNodes(s, owner) == {};
    } else if budget > 0 {
      PruneStep(m, s, owner);
      if s[0].0 == owner {
        PruneAlongCount(m, s[1..], owner, budget);
      } else {
        PruneAlongCount(m - {s[0].0}, s[1..], owner, budget - 1);
      }
    }
  }

  /** Every deleted counter is at most every counter listed in `s` that survives, the owner's aside. */
  lemma {:induction false} PruneAlongRemovesLowest(m: map<NodeId, int>, s: seq<Entry>, owner: NodeId, budget: nat)
    requires SortedListing(s, m)
    ensures var r := PruneAlong(m, s, owner, budget);
      forall d, e :: d in m && d !in r && e in s && e.0 != owner && e.0 in r ==> m[d] <= e.1
    decreases |s|
  {
    if s == [] || budget == 0 {
    } else {
      var tail := s[1..];
      assert s == [s[0]] + tail;
      var r := PruneAlong(m, s, owner, budget);
      if s[0].0 == owner {
        ListingTail(s, m);
        PruneAlongRemovesLowest(m, tail, owner, budget);
      } else {
        ListingTailWithout(s, m);
        var rest := m - {s[0].0};
        assert r == PruneAlong(rest, tail, owner, budget - 1);
        PruneAlongRemovesLowest(rest, tail, owner, budget - 1);
        forall d, e | d in m && d !in r && e in s && e.0 != owner && e.0 in r
          ensures m[d] <= e.1
        {
          assert e in tail;
          if d != s[0].0 {
            assert d in rest;
          }
        }
      }
    }
  }

  /** The map after `_prune`: the loop run over the sorted items with PruneCount deletions. */
  function Pruned(m: map<NodeId, int>, owner: NodeId): (r: map<NodeId, int>)
    ensures r.Keys <= m.Keys
    ensures forall k :: k in r ==> r[k] == m[k]
    ensures owner in m ==> owner in r
  {
    PruneAlong(m, SortedByCounter(m), owner, PruneCount)
  }

  /** The sorted items name every node of the map once, so their non-owner nodes are all of them. */
  lemma SortedCoversNodes(m: map<NodeId, int>, owner: NodeId)
    ensures DistinctNodes(SortedByCounter(m), m)
    ensures NonOwnerNodes(SortedByCounter(m), owner) == m.Keys - {owner}
  {
    var s := SortedByCounter(m);
    SortedByCounterListsAll(m);
    forall k | k in m.Keys - {owner} ensures k in NonOwnerNodes(s, owner) {
      assert (k, m[k]) in s;
    }
  }

  /** One pruning pass deletes exactly min(5, number of non-owner entries). */
  lemma PrunedRemovesCount(m: map<NodeId, int>, owner: NodeId)
    ensures |m| - |Pruned(m, owner)| == Min(PruneCount, |m.Keys - {owner}|)
  {
    SortedCoversNodes(m, owner);
    PruneAlongCount(m, SortedByCounter(m), owner, PruneCount);
  }

  /** Every deleted counter is at most every surviving non-owner counter. */
  lemma PrunedRemovesLowest(m: map<NodeId, int>, owner: NodeId)
    ensures forall d, k :: d in m && d !in Pruned(m, owner) && k in Pruned(m, owner) && k != owner ==>
      m[d] <= m[k]
  {
    var s := SortedByCounter(m);
    SortedByCounterListsAll(m);
    PruneAlongRemovesLowest(m, s, owner, PruneCount);
    forall d, k | d in m && d !in Pruned(m, owner) && k in Pruned(m, owner) && k != owner
      ensures m[d] <= m[k]
    {
      assert (k, m[k]) in s;
    }
  }

  // ---------------------------------------------------------------------------
  // merge, with its pruning pass

  /** The map after `merge`: the element-wise maximum, pruned once if it has grown past MaxVectorSize. */
  function MergeResult(m: map<NodeId, int>, other: map<NodeId, int>, owner: NodeId): (r: map<NodeId, int>)
    ensures r.Keys <= MaxMerge(m, other).Keys
    ensures forall k :: k in r ==> r[k] == MaxMerge(m, other)[k]
    ensures owner in MaxMerge(m, other) ==> owner in r
  {
    var merged := MaxMerge(m, other);
    if |merged| > MaxVectorSize then Pruned(merged, owner) else merged
  }

  /** Pruning runs only when the merged map has more than MaxVectorSize entries, and then once. */
  lemma MergeResultPrunesOnlyAboveCap(m: map<NodeId, int>, other: map<NodeId, int>, owner: NodeId)
    ensures |MaxMerge(m, other)| <= MaxVectorSize ==> MergeResult(m, other, owner) == MaxMerge(m, other)
    ensures |MaxMerge(m, other)| > MaxVectorSize ==> MergeResult(m, other, owner) == Pruned(MaxMerge(m, other), owner)
  {
  }

  /** No surviving entry decreases, and the owner's entry, once present, survives. */
  lemma MergeResultNeverDecreases(m: map<NodeId, int>, other: map<NodeId, int>, owner: NodeId)
    ensures forall k :: k in m && k in MergeResult(m, other, owner) ==> MergeResult(m, other, owner)[k] >= m[k]
    ensures owner in m ==> owner in MergeResult(m, other, owner)
  {
  }

  /** When pruning fires it removes exactly min(5, number of non-owner entries) from the merged map. */
  lemma MergeResultPruneCount(m: map<NodeId, int>, other: map<NodeId, int>, owner: NodeId)
    requires |MaxMerge(m, other)| > MaxVectorSize
    ensures |MaxMerge(m, other)| - |MergeResult(m, other, owner)| ==
      Min(PruneCount, |MaxMerge(m, other).Keys - {owner}|)
  {
    PrunedRemovesCount(MaxMerge(m, other), owner);
  }

  /** There is no hard cap: a merge that adds many nodes leaves the clock above MaxVectorSize. */
  lemma MergeMayExceedCap(m: map<NodeId, int>, other: map<NodeId, int>, owner: NodeId)
    requires |MaxMerge(m, other)| > MaxVectorSize + PruneCount
    ensures |MergeResult(m, other, owner)| > MaxVectorSize
  {
    MergeResultPruneCount(m, other, owner);
  }

  /** Without pruning, merging the same map twice equals merging it once. */
  lemma MergeResultIdempotent(m: map<NodeId, int>, other: map<NodeId, int>, owner: NodeId)
    requires |MaxMerge(m, other)| <= MaxVectorSize
    ensures MergeResult(MergeResult(m, other, owner), other, owner) == MergeResult(m, other, owner)
  {
    MaxMergeIdempotent(m, other);
  }

  /** A merge only adds nodes, so a merge that follows it sees at least as many entries. */
  lemma MaxMergeOnlyAdds(m: map<NodeId, int>, a: map<NodeId, int>, b: map<NodeId, int>)
    ensures |MaxMerge(m, a)| <= |MaxMerge(MaxMerge(m, a), b)|
  {
    var ma := MaxMerge(m, a);
    var mab := MaxMerge(ma, b);
    assert ma.Keys <= mab.Keys;
    SubsetCard(ma.Keys, mab.Keys);
  }

  lemma {:induction false} SubsetCard(s: set<NodeId>, t: set<NodeId>)
    requires s <= t
    ensures |s| <= |t|
    decreases s
  {
    if s != {} {
      var x :| x in s;
      SubsetCard(s - {x}, t - {x});
    }
  }

  /** Without pruning, merging A then B equals merging B then A. */
  lemma MergeResultCommutes(m: map<NodeId, int>, a: map<NodeId, int>, b: map<NodeId, int>, owner: NodeId)
    requires |MaxMerge(MaxMerge(m, a), b)| <= MaxVectorSize
    ensures MergeResult(MergeResult(m, a, owner), b, owner) == MergeResult(MergeResult(m, b, owner), a, owner)
  {
    MaxMergeCommutes(m, a, b);
    MaxMergeOnlyAdds(m, a, b);
    MaxMergeOnlyAdds(m, b, a);
  }

  /**
    With pruning, merging is not idempotent: a remote node that the first
    merge prunes is added back by the second merge's loop, and survives it
    when that merge does not prune.
  */
  lemma MergePrunedNodeReturns(m: map<NodeId, int>, other: map<NodeId, int>, owner: NodeId, d: NodeId)
    requires d in other && other[d] > 0 && d !in MergeResult(m, other, owner)
    ensures d in MaxMerge(MergeResult(m, other, owner), other)
    ensures |MaxMerge(MergeResult(m, other, owner), other)| <= MaxVectorSize ==>
      MergeResult(MergeResult(m, other, owner), other, owner) != MergeResult(m, other, owner)
  {
  }

  /**
    With pruning, merging is not order-independent: a remote node of `b` that
    pruning removes when `b` is merged first survives when `b` is merged last
    without pruning.
  */
  lemma MergeOrderMatters(m: map<NodeId, int>, a: map<NodeId, int>, b: map<NodeId, int>, owner: NodeId, d: NodeId)
    requires d in b && b[d] > 0
    requires d !in MergeResult(MergeResult(m, b, owner), a, owner)
    requires |MaxMerge(MergeResult(m, a, owner), b)| <= MaxVectorSize
    ensures MergeResult(MergeResult(m, a, owner), b, owner) != MergeResult(MergeResult(m, b, owner), a, owner)
  {
  }

  /** Merging, with or without its pruning pass, keeps every counter positive. */
  lemma MergeKeepsPositive(m: map<NodeId, int>, other: map<NodeId, int>, owner: NodeId)
    requires AllPositive(m)
    ensures AllPositive(MaxMerge(m, other))
    ensures AllPositive(MergeResult(m, other, owner))
  {
  }

  /** Incrementing keeps every counter positive. */
  lemma IncrementKeepsPositive(m: map<NodeId, int>, owner: NodeId)
    requires AllPositive(m)
    ensures AllPositive(Incremented(m, owner))
  {
  }

  // ---------------------------------------------------------------------------
  // the clock object

  class EfficientVectorClock {
    const localNode: NodeId
    var vector: map<NodeId, int>

    /**
      Every stored counter is at least 1. A clock built empty, as the router
      builds it, has this from the start; each method keeps it once it holds.
    */
    ghost predicate Valid()
      reads this
    {
      AllPositive(vector)
    }

    /** The dataclass constructor: `vector` may be given (the router passes the empty default). */
    constructor (localNode: NodeId, vector: map<NodeId, int>)
      ensures this.localNode == localNode && this.vector == vector
    {
      this.localNode := localNode;
      this.vector := vector;
    }

    /** Count one local event. */
    method Increment()
      modifies this
      ensures old(Valid()) ==> Valid()
      ensures vector == Incremented(old(vector), localNode)
    {
      if Valid() {
        IncrementKeepsPositive(vector, localNode);
      }
      vector := vector[localNode := Get(vector, localNode) + 1];
    }

    /** Take the element-wise maximum with `otherVector`, then prune once if over MaxVectorSize. */
    method Merge(otherVector: map<NodeId, int>)
      modifies this
      ensures old(Valid()) ==> Valid()
      ensures vector == MergeResult(old(vector), otherVector, localNode)
    {
      MergeEntries(otherVector);
      if |vector| > MaxVectorSize {
        Prune();
      }
    }

    /** The `for` loop of `merge`: raise each local counter to the remote one where that is larger. */
    method MergeEntries(otherVector: map<NodeId, int>)
      modifies this
      ensures old(Valid()) ==> Valid()
      ensures vector == MaxMerge(old(vector), otherVector)
    {
      ghost var start := vector;
      var pending := otherVector.Keys;
      // `done` holds the remote entries the loop has already processed
      ghost var done: map<NodeId, int> := map[];
      while pending != {}
        invariant pending <= otherVector.Keys
        invariant done.Keys == otherVector.Keys - pending
        invariant forall k :: k in done ==> done[k] == otherVector[k]
        invariant vector == MaxMerge(start, done)
        decreases pending
      {
        var node :| node in pending;
        var counter := otherVector[node];
        MaxMergeStep(start, done, vector, node, counter);
        if counter > Get(vector, node) {
          vector := vector[node := counter];
        }
        pending := pending - {node};
        done := done[node := counter];
      }
      assert done == otherVector;
      if AllPositive(start) {
        MergeKeepsPositive(start, otherVector, localNode);
      }
    }

    /** Delete the PruneCount lowest-counter entries other than the owner's. */
    method Prune()
      modifies this
      ensures old(Valid()) ==> Valid()
      ensures vector == Pruned(old(vector), localNode)
    {
      var sortedNodes := SortedByCounter(vector);
      var cutoff := PruneCount;
      var pruned := 0;
      var i := 0;
      // `budget` is the number of deletions left; the walk still to do starts at sortedNodes[i]
      ghost var budget: nat := PruneCount;
      ghost var target := Pruned(vector, localNode);
      assert sortedNodes[i..] == sortedNodes;
      while i < |sortedNodes|
        invariant 0 <= i <= |sortedNodes|
        invariant 0 <= pruned <= cutoff && budget == cutoff - pruned
        invariant PruneAlong(vector, sortedNodes[i..], localNode, budget) == target
      {
        if pruned >= cutoff {
          break;
        }
        var (nodeId, _) := sortedNodes[i];
        ghost var walk := sortedNodes[i..];
        assert walk[0].0 == nodeId && walk[1..] == sortedNodes[i + 1..];
        if nodeId != localNode {
          assert PruneAlong(vector, walk, localNode, budget) ==
            PruneAlong(vector - {nodeId}, walk[1..], localNode, budget - 1);
          vector := vector - {nodeId};
          pruned := pruned + 1;
          budget := budget - 1;
        } else {
          assert PruneAlong(vector, walk, localNode, budget) == PruneAlong(vector, walk[1..], localNode, budget);
        }
        i := i + 1;
      }
    }
  }
}
