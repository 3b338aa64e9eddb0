/** What find_node answers: the first eight good nodes of the walk are the closest ones, up to
    the order inside one distance band. */
module DhtClosest {
  import opened Collections
  import opened Id160
  import opened DhtMetric
  import opened DhtBuckets
  import opened DhtTable
  import opened DhtRoom
  import opened DhtChain
  import opened DhtRouters

  lemma {:induction false} GoodNodesMembers(nodes: seq<DhtNode>, bad: set<DhtNode>, x: DhtNode)
    ensures x in GoodNodes(nodes, bad) <==> x in nodes && x !in bad
  {
    if nodes != [] {
      GoodNodesMembers(nodes[..|nodes| - 1], bad, x);
      assert nodes == nodes[..|nodes| - 1] + [nodes[|nodes| - 1]];
    }
  }

  lemma {:induction false} GoodNodesDistinct(nodes: seq<DhtNode>, bad: set<DhtNode>)
    requires Distinct(nodes)
    ensures Distinct(GoodNodes(nodes, bad))
  {
    if nodes != [] {
      GoodNodesDistinct(nodes[..|nodes| - 1], bad);
      GoodNodesMembers(nodes[..|nodes| - 1], bad, nodes[|nodes| - 1]);
    }
  }

  /** No node is in two lists, or twice in one. */
  ghost predicate Disjoint(lists: seq<seq<DhtNode>>) {
    && (forall a :: 0 <= a < |lists| ==> Distinct(lists[a]))
    && (forall a, b, x :: 0 <= a < |lists| && 0 <= b < |lists| && x in lists[a] && x in lists[b] ==> a == b)
  }

  /** The step of the walk from bucket s that reaches bucket m. */
  function WalkStep(n: nat, s: nat, m: nat): (j: nat)
    requires s < n && m < n
    ensures j < n && WalkIndex(n, s, j) == m
  {
    if m >= s then m - s else n - 1 - m
  }

  lemma {:induction false} MetMembers(lists: seq<seq<DhtNode>>, bad: set<DhtNode>, s: nat, j: nat, m: nat, x: DhtNode)
    requires s < |lists| && j <= |lists| && Disjoint(lists) && m < |lists| && x in lists[m]
    ensures x in Met(lists, bad, s, j) <==> x !in bad && WalkStep(|lists|, s, m) < j
  {
    if j > 0 {
      MetMembers(lists, bad, s, j - 1, m, x);
      GoodNodesMembers(lists[WalkIndex(|lists|, s, j - 1)], bad, x);
      WalkVisitsEachOnce(|lists|, s, m, j - 1);
    }
  }

  lemma {:induction false} MetListed(lists: seq<seq<DhtNode>>, bad: set<DhtNode>, s: nat, j: nat, x: DhtNode)
    returns (m: nat)
    requires s < |lists| && j <= |lists| && x in Met(lists, bad, s, j)
    ensures m < |lists| && x in lists[m] && x !in bad
  {
    m := WalkIndex(|lists|, s, j - 1);
    GoodNodesMembers(lists[m], bad, x);
    if x !in lists[m] || x in bad { m := MetListed(lists, bad, s, j - 1, x); }
  }

  lemma {:induction false} MetDistinct(lists: seq<seq<DhtNode>>, bad: set<DhtNode>, s: nat, j: nat)
    requires s < |lists| && j <= |lists| && Disjoint(lists)
    ensures Distinct(Met(lists, bad, s, j))
  {
    if j > 0 {
      var m := WalkIndex(|lists|, s, j - 1);
      MetDistinct(lists, bad, s, j - 1);
      GoodNodesDistinct(lists[m], bad);
      forall x | x in GoodNodes(lists[m], bad) ensures x !in Met(lists, bad, s, j - 1) {
        GoodNodesMembers(lists[m], bad, x);
        MetMembers(lists, bad, s, j - 1, m, x);
        WalkVisitsEachOnce(|lists|, s, m, j - 1);
      }
      DistinctConcat(Met(lists, bad, s, j - 1), GoodNodes(lists[m], bad));
    }
  }

  lemma DistinctConcat<T>(a: seq<T>, b: seq<T>)
    requires Distinct(a) && Distinct(b) && forall x :: x in b ==> x !in a
    ensures Distinct(a + b)
  {
    forall i, j | 0 <= i < j < |a + b| ensures (a + b)[i] != (a + b)[j] {
      if i < |a| <= j { assert b[j - |a|] in b; }
    }
  }

  lemma {:induction false} DistinctCount<T>(s: seq<T>)
    requires Distinct(s)
    ensures |set x | x in s| == |s|
  {
    if s != [] {
      var rest := s[..|s| - 1];
      DistinctCount(rest);
      assert (set x | x in s) == (set x | x in rest) + {s[|s| - 1]};
    }
  }

  ghost function GoodSet(lists: seq<seq<DhtNode>>, bad: set<DhtNode>): set<DhtNode> {
    set m, x | 0 <= m < |lists| && x in lists[m] && x !in bad :: x
  }

  /** Exactly min(8, number of good nodes) nodes are stored. */
  lemma StoredCount(lists: seq<seq<DhtNode>>, bad: set<DhtNode>, s: nat)
    requires s < |lists| && Disjoint(lists)
    ensures var good := |GoodSet(lists, bad)|;
            |FirstEight(Met(lists, bad, s, |lists|))| == if good < NUM_NODES then good else NUM_NODES
  {
    var met := Met(lists, bad, s, |lists|);
    MetDistinct(lists, bad, s, |lists|);
    DistinctCount(met);
    var good := GoodSet(lists, bad);
    forall x | x in met ensures x in good {
      var m := MetListed(lists, bad, s, |lists|, x);
    }
    forall x | x in good ensures x in met {
      var m :| 0 <= m < |lists| && x in lists[m];
      MetMembers(lists, bad, s, |lists|, m, x);
    }
    assert (set x | x in met) == good;
  }

  /** A good node met before the bucket of a stored node is stored too. */
  lemma EarlierIsStored(lists: seq<seq<DhtNode>>, bad: set<DhtNode>, s: nat, a: nat, x: DhtNode, b: nat, y: DhtNode)
    requires s < |lists| && Disjoint(lists) && a < |lists| && b < |lists|
    requires x in lists[a] && x !in bad && y in lists[b] && y in FirstEight(Met(lists, bad, s, |lists|))
    requires WalkStep(|lists|, s, a) < WalkStep(|lists|, s, b)
    ensures x in FirstEight(Met(lists, bad, s, |lists|))
  {
    var j := WalkStep(|lists|, s, b);
    var before, all := Met(lists, bad, s, j), Met(lists, bad, s, |lists|);
    MetMembers(lists, bad, s, j, a, x);
    MetMembers(lists, bad, s, j, b, y);
    MetPrefix(lists, bad, s, j, |lists|);
    if |before| >= NUM_NODES {
      FirstEightOfPrefix(before, all);
    } else {
      assert before <= FirstEight(all);
    }
  }

  ghost function Lists(t: Table): (lists: seq<seq<DhtNode>>)
    ensures |lists| == |t.buckets|
    ensures forall m :: 0 <= m < |lists| ==> lists[m] == t.buckets[m].nodes
  {
    seq(|t.buckets|, m requires 0 <= m < |t.buckets| => t.buckets[m].nodes)
  }

  lemma TableListsDisjoint(id: Id, t: Table)
    requires TableOk(id, t)
    ensures Disjoint(Lists(t))
  {
    hide RangesOk, LinksOk, KeysOk, HomesOk, BucketIndex;
    var lists := Lists(t);
    forall a | 0 <= a < |lists| ensures Distinct(lists[a]) { assert ListOk(t.buckets[a], t.nodes); }
    forall a, b, x | 0 <= a < |lists| && 0 <= b < |lists| && x in lists[a] && x in lists[b] ensures a == b {
      OnlyInItsBucket(id, t, a, x);
      OnlyInItsBucket(id, t, b, x);
    }
  }

  /** For every target: a good node left out is farther from it than each stored node, or in the same
      distance band. */
  lemma StoredAreClosest(id: Id, t: Table, target: Id, bad: set<DhtNode>, a: nat, x: DhtNode, b: nat, y: DhtNode)
    requires TableOk(id, t) && a < |t.buckets| && b < |t.buckets|
    requires x in t.buckets[a].nodes && x !in bad && y in t.buckets[b].nodes
    requires var stored := FirstEight(Met(Lists(t), bad, BucketIndex(id, |t.buckets|, target), |t.buckets|));
             y in stored && x !in stored
    ensures var s := BucketIndex(id, |t.buckets|, target);
            Band(s, b) <= Band(s, a) && (Band(s, b) < Band(s, a) ==> Distance(y.id, target) < Distance(x.id, target))
  {
    hide TableOk, BucketIndex;
    ChainFacts(id, t);
    var n := |t.buckets|;
    var s := BucketIndex(id, n, target);
    TableListsDisjoint(id, t);
    if WalkStep(n, s, a) < WalkStep(n, s, b) {
      EarlierIsStored(Lists(t), bad, s, a, x, b, y);
    }
    if Band(s, b) < Band(s, a) {
      InBucketOfIndex(id, t, target, s);
      ListedInBucket(id, t, a, x);
      ListedInBucket(id, t, b, y);
      BandsAreOrdered(8 * |id|, Val(id), n, s, Val(target), b, Val(y.id), a, Val(x.id));
    }
  }

  lemma {:induction false} MetInOrder(lists: seq<seq<DhtNode>>, bad: set<DhtNode>, s: nat, j: nat, i: nat, k: nat,
                                      a: nat, b: nat)
    requires s < |lists| && j <= |lists| && Disjoint(lists) && a < |lists| && b < |lists|
    requires var met := Met(lists, bad, s, j); i < k < |met| && met[i] in lists[a] && met[k] in lists[b]
    ensures WalkStep(|lists|, s, a) <= WalkStep(|lists|, s, b)
  {
    var before, met := Met(lists, bad, s, j - 1), Met(lists, bad, s, j);
    if k < |before| {
      MetInOrder(lists, bad, s, j - 1, i, k, a, b);
    } else {
      var m := WalkIndex(|lists|, s, j - 1);
      assert met[k] in GoodNodes(lists[m], bad);
      GoodNodesMembers(lists[m], bad, met[k]);
      MetMembers(lists, bad, s, j, a, met[i]);
      WalkVisitsEachOnce(|lists|, s, m, j - 1);
    }
  }

  /** The answer is in order: a node is in no farther band than those after it. */
  lemma StoredInOrder(id: Id, t: Table, target: Id, bad: set<DhtNode>, i: nat, k: nat, a: nat, b: nat)
    requires TableOk(id, t) && a < |t.buckets| && b < |t.buckets|
    requires var stored := FirstEight(Met(Lists(t), bad, BucketIndex(id, |t.buckets|, target), |t.buckets|));
             i < k < |stored| && stored[i] in t.buckets[a].nodes && stored[k] in t.buckets[b].nodes
    ensures var s := BucketIndex(id, |t.buckets|, target); Band(s, a) <= Band(s, b)
  {
    hide TableOk, BucketIndex;
    ChainFacts(id, t);
    TableListsDisjoint(id, t);
    MetInOrder(Lists(t), bad, BucketIndex(id, |t.buckets|, target), |t.buckets|, i, k, a, b);
  }

  lemma InBucketOfIndex(id: Id, t: Table, x: Id, m: nat)
    requires TableOk(id, t) && m == BucketIndex(id, |t.buckets|, x)
    ensures m < |t.buckets| <= 8 * |id| + 1 && InBucket(8 * |id|, Val(id), |t.buckets|, m, Val(x))
  {
    hide ListsOk, LinksOk, KeysOk, HomesOk, RangesOk;
    ValWidth(x, id);
    ValWidth(id, id);
    BucketsPartition(8 * |id|, Val(id), |t.buckets|, Val(x), m);
  }

  lemma ListedInBucket(id: Id, t: Table, m: nat, n: DhtNode)
    requires TableOk(id, t) && m < |t.buckets| && n in t.buckets[m].nodes
    ensures |t.buckets| <= 8 * |id| + 1 && InBucket(8 * |id|, Val(id), |t.buckets|, m, Val(n.id))
  {
    hide RangesOk, LinksOk, KeysOk, HomesOk, BucketIndex, InBucket;
    OnlyInItsBucket(id, t, m, n);
    InBucketOfIndex(id, t, n.id, m);
  }

  /** The router does not depend on the caches. */
  twostate lemma StillValid(router: DhtRouter)
    requires old(router.Valid()) && unchanged(router)
    requires forall c: DhtBucket :: c in router.t.chain ==> c.State() == old(c.State())
    requires forall k :: k in router.nodes ==> router.nodes[k].bucket == old(router.nodes[k].bucket)
    ensures router.Valid()
  {
    hide TableOk, DhtBucket.State;
  }

  /** The cache of bucket s of the table is built anew. */
  method RebuildCache(router: DhtRouter, b: DhtBucket, ghost s: nat) returns (ghost bad: set<DhtNode>)
    requires router.Valid() && s < |router.t.chain| && router.t.chain[s] == b
    modifies b`fullCacheLength, b.fullCache
    ensures router.Valid() && router.t == old(router.t)
    ensures bad == set k | k in router.nodes && old(router.nodes[k].IsBad()) :: router.nodes[k]
    ensures Stored(b.fullCache[..], b.fullCacheLength, Met(Lists(router.t), bad, s, |router.t.buckets|))
  {
    hide TableOk, BucketIndex, Snapshot, Met, Stored, Shows, DhtRouter.Valid;
    ghost var t := router.t;
    bad := set k | k in router.nodes && router.nodes[k].IsBad() :: router.nodes[k];
    ghost var buckets: set<object> := set c | c in t.chain :: c;
    ghost var nodes: set<object> := set k | k in router.nodes :: router.nodes[k];
    ShownSnapshot(router, bad, buckets + nodes);
    BuildFullCache(b, t.chain, s, Lists(t), bad, buckets + nodes);
    StillValid(router);
  }

  /** With every node placed, the good nodes of the buckets are the known ones that are not bad. */
  lemma GoodAreKnown(id: Id, t: Table, bad: set<DhtNode>)
    requires TableOk(id, t) && forall k :: k in t.nodes ==> k in t.homes && t.homes[k] != null
    ensures GoodSet(Lists(t), bad) == t.nodes.Values - bad
  {
    hide TableOk, BucketIndex;
    ChainFacts(id, t);
    var lists := Lists(t);
    forall m, x | 0 <= m < |lists| && x in lists[m] ensures x in t.nodes.Values { ListedIsKnown(id, t, m, x); }
    forall k | k in t.nodes && t.nodes[k] !in bad ensures t.nodes[k] in GoodSet(lists, bad) {
      HomeIsItsBucket(id, t, t.nodes[k]);
      assert t.nodes[k] in lists[BucketIndex(id, |t.buckets|, k)];
    }
  }

  lemma StoredLength(cache: seq<Byte>, length: nat, id: Id, t: Table, bad: set<DhtNode>, s: nat)
    requires TableOk(id, t) && s < |t.buckets| && forall k :: k in t.nodes ==> k in t.homes && t.homes[k] != null
    requires Stored(cache, length, Met(Lists(t), bad, s, |t.buckets|))
    ensures length == COMPACT_SIZE * Eight(|t.nodes.Values - bad|)
  {
    hide TableOk, Met, GoodSet, FirstEight;
    TableListsDisjoint(id, t);
    GoodAreKnown(id, t, bad);
    StoredCount(Lists(t), bad, s);
  }

  lemma HomesShown(router: DhtRouter)
    requires router.Valid()
    ensures router.t.nodes == router.nodes
    ensures router.AllPlaced() ==> forall k :: k in router.t.nodes ==> k in router.t.homes && router.t.homes[k] != null
  {
    hide TableOk;
  }

  /** At most eight. */
  function Eight(n: nat): nat { if n < NUM_NODES then n else NUM_NODES }

  /** get_closest_nodes: the cache of the bucket for the target, freshly built. */
  method ClosestNodes(router: DhtRouter, target: Id) returns (b: DhtBucket, ghost bad: set<DhtNode>)
    requires router.Valid()
    modifies router.t.chain`fullCacheLength, set c | c in router.t.chain :: c.fullCache
    ensures router.Valid() && router.t == old(router.t) && b in router.t.chain
    ensures bad == set k | k in router.nodes && old(router.nodes[k].IsBad()) :: router.nodes[k]
    ensures var t := router.t;
            Stored(b.fullCache[..], b.fullCacheLength,
                   Met(Lists(t), bad, BucketIndex(router.id, |t.buckets|, target), |t.buckets|))
    ensures old(router.AllPlaced()) ==> b.fullCacheLength == COMPACT_SIZE * Eight(|router.nodes.Values - bad|)
  {
    hide TableOk, BucketIndex, Snapshot, Met, Stored, Shows, DhtRouter.BucketFor, DhtRouter.AllPlaced;
    b := router.FindBucket(target);
    HomesShown(router);
    ghost var s, placed := BucketIndex(router.id, |router.t.buckets|, target), router.AllPlaced();
    bad := RebuildCache(router, b, s);
    if placed { StoredLength(b.fullCache[..], b.fullCacheLength, router.id, router.t, bad, s); }
  }

  lemma ShownSnapshot(router: DhtRouter, bad: set<DhtNode>, repr: set<object>)
    requires router.Valid()
    requires forall c: DhtBucket :: c in router.t.chain ==> c in repr
    requires forall k :: k in router.nodes ==>
               router.nodes[k] in repr && (router.nodes[k] in bad <==> router.nodes[k].IsBad())
    ensures Snapshot(router.t.chain, Lists(router.t), bad, repr)
    ensures forall m :: 0 <= m < |router.t.chain| ==> router.t.chain[m].fullCache.Length == CACHE_SIZE
  {
    hide TableOk, BucketIndex, Linked;
    var t := router.t;
    ShownLinked(router);
    forall m, n: DhtNode | 0 <= m < |t.buckets| && n in t.buckets[m].nodes
      ensures n in repr && (n in bad <==> n.IsBad()) {
      ListedIsKnown(router.id, t, m, n);
    }
  }

  lemma ShownLinked(router: DhtRouter)
    requires router.Valid()
    ensures Linked(router.t.chain)
    ensures forall m :: 0 <= m < |router.t.chain| ==> router.t.chain[m].fullCache.Length == CACHE_SIZE
  {
    hide ListsOk, RangesOk, KeysOk, HomesOk, BucketIndex;
  }
}
