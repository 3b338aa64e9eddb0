/** What splitting the router's own bucket does to the routing table. */
module DhtSplit {
  import opened Collections
  import opened Id160
  import opened DhtRange
  import opened DhtMetric
  import opened DhtBuckets
  import opened DhtTable

  function WithLastChild(buckets: seq<BucketState>, child: DhtBucket): (r: seq<BucketState>)
    ensures |r| == |buckets|
    ensures forall m :: 0 <= m < |buckets| ==>
              r[m] == if m == |buckets| - 1 then buckets[m].(child := child) else buckets[m]
  {
    if buckets == [] then [] else buckets[|buckets| - 1 := buckets[|buckets| - 1].(child := child)]
  }

  /** The nodes and ranges of the two halves of the last bucket. */
  ghost predicate Halves(id: Id, t: Table, low: BucketState, high: BucketState) {
    var n := |t.buckets|;
    && 0 < n <= 8 * |id| &&
    var whole := t.buckets[n - 1];
    && low.begin == whole.begin && high.end == whole.end && Val(high.begin) == Val(low.end) + 1
    && IsBlock(low.begin, low.end, 8 * |id| - n) && IsBlock(high.begin, high.end, 8 * |id| - n)
    && |low.nodes| + |high.nodes| == |whole.nodes| && Distinct(low.nodes) && Distinct(high.nodes)
    && (forall x :: x in whole.nodes ==> x in (if high.Has(x.id) then high.nodes else low.nodes))
    && (forall x :: x in high.nodes ==> x in whole.nodes && high.Has(x.id))
    && (forall x :: x in low.nodes ==> x in whole.nodes && !high.Has(x.id))
  }

  /** t' is t after its last bucket was split: `other` takes the lower half, the old bucket keeps
      the upper one, and the half with the router's ID comes last. */
  ghost predicate IsSplit(id: Id, t: Table, t': Table, other: DhtBucket, low: BucketState, high: BucketState) {
    var n := |t.buckets|;
    && 0 < n == |t.chain| <= 8 * |id| && other !in t.chain && other.fullCache.Length == CACHE_SIZE
    && t.own == t.chain[n - 1]
    && Halves(id, t, low, high)
    && (if low.Has(id)
        then && t'.chain == t.chain[..n - 1] + [t.own, other] && t'.own == other
             && t'.buckets == t.buckets[..n - 1] + [high, low]
             && high.parent == BucketAt(t.chain, n - 2) && high.child == other
             && low.parent == t.own && low.child == null
        else && t'.chain == t.chain[..n - 1] + [other, t.own] && t'.own == t.own
             && t'.buckets == WithLastChild(t.buckets[..n - 1], other) + [low, high]
             && low.parent == BucketAt(t.chain, n - 2) && low.child == t.own
             && high.parent == other && high.child == null)
    && t'.keys == t.keys[low.end := other] && t'.nodes == t.nodes
    && t'.homes.Keys == t.nodes.Keys
    && (forall k :: k in t.nodes ==>
          t'.homes[k] == if t.nodes[k] in low.nodes then other else if k in t.homes then t.homes[k] else null)
  }

  /** Where things are after the split, whichever half holds the router's ID. */
  lemma SplitPositions(id: Id, t: Table, t': Table, other: DhtBucket, low: BucketState, high: BucketState)
    requires IsSplit(id, t, t', other, low, high)
    ensures var n := |t.buckets|;
            var l, h := if low.Has(id) then n else n - 1, if low.Has(id) then n - 1 else n;
            && |t'.buckets| == |t'.chain| == n + 1
            && t'.buckets[l] == low && t'.buckets[h] == high && t'.chain[l] == other && t'.chain[h] == t.chain[n - 1]
            && (forall m :: 0 <= m < n - 1 ==> t'.chain[m] == t.chain[m] && t'.buckets[m].nodes == t.buckets[m].nodes)
            && (forall m :: 0 <= m < n - 1 ==>
                  t'.buckets[m].begin == t.buckets[m].begin && t'.buckets[m].end == t.buckets[m].end)
  {
    hide Halves, InRange;
  }

  lemma SplitRangesOk(id: Id, t: Table, t': Table, other: DhtBucket, low: BucketState, high: BucketState)
    requires IsSplit(id, t, t', other, low, high) && RangesOk(id, |t.buckets|, t.buckets)
    ensures RangesOk(id, |t'.buckets|, t'.buckets)
  {
    hide IsBlock, InRange, InBucket, Distinct;
    var n := |t.buckets|;
    SplitPositions(id, t, t', other, low, high);
    SplitRanges(id, n, t.buckets[n - 1].begin, t.buckets[n - 1].end, low.end, high.begin);
    forall m | 0 <= m < n + 1 ensures BucketOk(id, n + 1, m, t'.buckets[m].begin, t'.buckets[m].end) {
      if m < n - 1 { WiderBucketStays(id, n, m, t.buckets[m].begin, t.buckets[m].end); }
    }
  }

  lemma WiderBucketStays(id: Id, n: nat, m: nat, begin: Id, end: Id)
    requires m + 1 < n <= 8 * |id| && BucketOk(id, n, m, begin, end)
    ensures BucketOk(id, n + 1, m, begin, end)
  {
  }

  lemma SplitListsOk(id: Id, t: Table, t': Table, other: DhtBucket, low: BucketState, high: BucketState)
    requires IsSplit(id, t, t', other, low, high) && ListsOk(t.buckets, t.nodes)
    ensures ListsOk(t'.buckets, t'.nodes)
  {
    var n := |t.buckets|;
    SplitPositions(id, t, t', other, low, high);
    HalfLists(id, t, low, high);
    forall m | 0 <= m < n + 1 ensures ListOk(t'.buckets[m], t'.nodes) {
      hide Halves, InRange, Distinct;
      if m < n - 1 { assert ListOk(t.buckets[m], t.nodes); }
    }
  }

  lemma HalfLists(id: Id, t: Table, low: BucketState, high: BucketState)
    requires Halves(id, t, low, high) && ListsOk(t.buckets, t.nodes)
    ensures ListOk(low, t.nodes) && ListOk(high, t.nodes)
  {
    hide IsBlock, InRange;
    var n := |t.buckets|;
    assert ListOk(t.buckets[n - 1], t.nodes);
    forall x | x in low.nodes ensures low.Has(x.id) {
      HalvesAreDisjoint(low.begin, high.end, low.end, high.begin, 8 * |id| - n, x.id);
    }
  }

  lemma SplitLinksOk(id: Id, t: Table, t': Table, other: DhtBucket, low: BucketState, high: BucketState)
    requires IsSplit(id, t, t', other, low, high) && LinksOk(t.chain, t.buckets)
    ensures LinksOk(t'.chain, t'.buckets)
  {
    hide Halves, InRange;
    var n := |t.buckets|;
    SplitPositions(id, t, t', other, low, high);
    forall m | 0 <= m < n + 1
      ensures t'.buckets[m].parent == BucketAt(t'.chain, m - 1) && t'.buckets[m].child == BucketAt(t'.chain, m + 1)
    {
      SplitLink(id, t, t', other, low, high, m);
    }
  }

  lemma SplitLink(id: Id, t: Table, t': Table, other: DhtBucket, low: BucketState, high: BucketState, m: nat)
    requires IsSplit(id, t, t', other, low, high) && LinksOk(t.chain, t.buckets) && m <= |t.buckets|
    ensures |t'.buckets| == |t'.chain| == |t.buckets| + 1
    ensures t'.buckets[m].parent == BucketAt(t'.chain, m - 1) && t'.buckets[m].child == BucketAt(t'.chain, m + 1)
  {
    hide Halves, InRange, Distinct;
  }

  /** Reading off the new table which bucket an ID is in. */
  lemma NewIndex(id: Id, n: nat, buckets: seq<BucketState>, m: nat, x: Id)
    requires RangesOk(id, n, buckets) && m < |buckets| && buckets[m].Has(x)
    ensures 0 < n <= 8 * |id| + 1 && BucketIndex(id, n, x) == m
  {
    assert BucketOk(id, n, m, buckets[m].begin, buckets[m].end);
    RangeIsIndex(id, n, m, buckets[m].begin, buckets[m].end, x);
  }

  lemma EndIsInRange(id: Id, n: nat, buckets: seq<BucketState>, m: nat)
    requires RangesOk(id, n, buckets) && m < |buckets|
    ensures 0 < n <= 8 * |id| + 1 && BucketIndex(id, n, buckets[m].end) == m
  {
    assert BucketOk(id, n, m, buckets[m].begin, buckets[m].end);
    EndsInRange(buckets[m].begin, buckets[m].end, BucketBits(8 * |id|, n, m));
    NewIndex(id, n, buckets, m, buckets[m].end);
  }

  lemma SplitKeysAre(id: Id, t: Table, t': Table, other: DhtBucket, low: BucketState, high: BucketState)
    requires IsSplit(id, t, t', other, low, high)
    ensures var n := |t.buckets|;
            0 < n == |t.chain| <= 8 * |id| && high.end == t.buckets[n - 1].end && t'.keys == t.keys[low.end := other]
  {
    hide InRange, IsBlock, Distinct;
  }

  lemma SplitKeysOk(id: Id, t: Table, t': Table, other: DhtBucket, low: BucketState, high: BucketState)
    requires IsSplit(id, t, t', other, low, high) && KeysOk(id, t) && RangesOk(id, |t'.buckets|, t'.buckets)
    ensures |t'.chain| == |t'.buckets| <= 8 * |id| + 1 && KeysOk(id, t')
  {
    hide RangesOk, InRange, BucketIndex, IsSplit;
    var n := |t.buckets|;
    SplitPositions(id, t, t', other, low, high);
    SplitKeysAre(id, t, t', other, low, high);
    forall m | 0 <= m < n + 1
      ensures BucketIndex(id, n + 1, t'.buckets[m].end) == m { EndIsInRange(id, n + 1, t'.buckets, m); }
    forall k | k in t'.keys ensures exists m :: 0 <= m < n + 1 && t'.buckets[m].end == k {
      SplitKey(id, t, t', other, low, high, k);
    }
  }

  lemma SplitKey(id: Id, t: Table, t': Table, other: DhtBucket, low: BucketState, high: BucketState, k: Id)
    requires IsSplit(id, t, t', other, low, high) && KeysOk(id, t) && k in t'.keys
    ensures exists m :: 0 <= m < |t'.buckets| && t'.buckets[m].end == k
  {
    hide InRange, BucketIndex, IsSplit;
    var n := |t.buckets|;
    SplitPositions(id, t, t', other, low, high);
    SplitKeysAre(id, t, t', other, low, high);
    if k != low.end {
      var m := BucketIndex(id, n, k);
      assert t.buckets[m].end == k;
      if m < n - 1 { assert t'.buckets[m].end == k; }
    }
  }

  lemma SplitHomesOk(id: Id, t: Table, t': Table, other: DhtBucket, low: BucketState, high: BucketState)
    requires IsSplit(id, t, t', other, low, high) && TableOk(id, t)
    requires RangesOk(id, |t'.buckets|, t'.buckets) && ListsOk(t'.buckets, t'.nodes)
    ensures |t'.chain| == |t'.buckets| <= 8 * |id| + 1 && HomesOk(id, t')
  {
    hide RangesOk, ListsOk, LinksOk, KeysOk, InRange, Halves, Home;
    SplitPositions(id, t, t', other, low, high);
    forall k | k in t.nodes ensures t'.homes[k] == Home(id, t', t.nodes[k]) {
      SplitHome(id, t, t', other, low, high, t.nodes[k]);
    }
  }

  lemma SplitHome(id: Id, t: Table, t': Table, other: DhtBucket, low: BucketState, high: BucketState, x: DhtNode)
    requires IsSplit(id, t, t', other, low, high) && TableOk(id, t)
    requires RangesOk(id, |t'.buckets|, t'.buckets) && ListsOk(t'.buckets, t'.nodes)
    requires x.id in t.nodes && t.nodes[x.id] == x
    ensures |t'.chain| == |t'.buckets| <= 8 * |id| + 1 && t'.homes[x.id] == Home(id, t', x)
  {
    hide TableOk, RangesOk, InRange, BucketIndex, IsBlock, Distinct;
    var n := |t.buckets|;
    SplitPositions(id, t, t', other, low, high);
    HomeIsItsBucket(id, t, x);
    var m, m' := BucketIndex(id, n, x.id), BucketIndex(id, n + 1, x.id);
    if x in t.buckets[n - 1].nodes {
      SplitHomeOfHalf(id, t, t', other, low, high, x);
    } else if x in t.buckets[m].nodes {
      assert ListOk(t'.buckets[m], t'.nodes);
      NewIndex(id, n + 1, t'.buckets, m, x.id);
    } else if x in t'.buckets[m'].nodes {
      OnlyInItsBucket(id, t, m', x);
    }
  }

  lemma SplitHomesAre(id: Id, t: Table, t': Table, other: DhtBucket, low: BucketState, high: BucketState, x: DhtNode)
    requires IsSplit(id, t, t', other, low, high) && x.id in t.nodes && t.nodes[x.id] == x
    requires x in t.buckets[|t.buckets| - 1].nodes
    ensures 0 < |t.buckets| == |t.chain| <= 8 * |id| && t'.nodes == t.nodes && (x in low.nodes <==> x !in high.nodes)
    ensures x.id in t'.homes
    ensures t'.homes[x.id] == if x in low.nodes then other else if x.id in t.homes then t.homes[x.id] else null
  {
    hide InRange, IsBlock, Distinct;
  }

  lemma SplitHomeOfHalf(id: Id, t: Table, t': Table, other: DhtBucket, low: BucketState, high: BucketState, x: DhtNode)
    requires IsSplit(id, t, t', other, low, high) && TableOk(id, t)
    requires RangesOk(id, |t'.buckets|, t'.buckets) && ListsOk(t'.buckets, t'.nodes)
    requires x.id in t.nodes && t.nodes[x.id] == x && x in t.buckets[|t.buckets| - 1].nodes
    ensures |t'.chain| == |t'.buckets| <= 8 * |id| + 1 && t'.homes[x.id] == Home(id, t', x)
  {
    hide TableOk, RangesOk, InRange, BucketIndex, IsSplit;
    var n := |t.buckets|;
    SplitPositions(id, t, t', other, low, high);
    SplitHomesAre(id, t, t', other, low, high, x);
    HomeIsItsBucket(id, t, x);
    OnlyInItsBucket(id, t, n - 1, x);
    var j := if low.Has(id) == (x in low.nodes) then n else n - 1;
    assert ListOk(t'.buckets[j], t'.nodes);
    NewIndex(id, n + 1, t'.buckets, j, x.id);
  }

  /** Splitting keeps the invariant of the routing table. */
  lemma SplitOk(id: Id, t: Table, t': Table, other: DhtBucket, low: BucketState, high: BucketState)
    requires TableOk(id, t) && IsSplit(id, t, t', other, low, high)
    ensures TableOk(id, t')
  {
    hide RangesOk, ListsOk, LinksOk, KeysOk, HomesOk, Halves, InRange;
    SplitPositions(id, t, t', other, low, high);
    SplitRangesOk(id, t, t', other, low, high);
    SplitListsOk(id, t, t', other, low, high);
    SplitLinksOk(id, t, t', other, low, high);
    SplitKeysOk(id, t, t', other, low, high);
    SplitHomesOk(id, t, t', other, low, high);
  }
}
