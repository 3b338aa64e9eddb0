/** The routing table as a value, with the invariant it satisfies in every reachable state and
    what each table operation does to it. */
module DhtTable {
  import opened Collections
  import opened Id160
  import opened DhtRange
  import opened DhtMetric
  import opened DhtBuckets

  /** begin..end is bucket m of n in the table of a router with the given ID. */
  ghost predicate BucketOk(id: Id, n: nat, m: nat, begin: Id, end: Id) {
    && m < n <= 8 * |id| + 1
    && IsBlock(begin, end, BucketBits(8 * |id|, n, m))
    && InBucket(8 * |id|, Val(id), n, m, Val(begin))
  }

  lemma ValWidth(x: Id, id: Id)
    ensures Val(x) < Pow2(8 * |id|)
  {
    ValBound(x);
    RadixIsPow2(|x|);
  }

  /** Which bucket of the table an ID belongs to. */
  function BucketIndex(id: Id, n: nat, x: Id): (m: nat)
    requires 0 < n <= 8 * |id| + 1
    ensures m < n
  {
    BucketAtDistance(8 * |id|, n, Xor(Val(x), Val(id)))
  }

  lemma RangeIsIndex(id: Id, n: nat, m: nat, begin: Id, end: Id, x: Id)
    requires BucketOk(id, n, m, begin, end)
    ensures InRange(begin, end, x) <==> BucketIndex(id, n, x) == m
  {
    BlockIsBucket(8 * |id|, Val(id), n, m, begin, end, x);
    ValWidth(x, id);
    ValWidth(id, id);
    BucketsPartition(8 * |id|, Val(id), n, Val(x), m);
  }

  lemma OwnIndex(id: Id, n: nat, begin: Id, end: Id)
    requires n > 0 && BucketOk(id, n, n - 1, begin, end)
    ensures InRange(begin, end, id)
  {
    BlockIsBucket(8 * |id|, Val(id), n, n - 1, begin, end, id);
  }

  lemma EndsInRange(begin: Id, end: Id, bits: nat)
    requires IsBlock(begin, end, bits)
    ensures InRange(begin, end, begin) && InRange(begin, end, end)
  {
    BlockValues(begin, end, bits);
    LessEqIsValueOrder(begin, end);
    LessEqIsValueOrder(begin, begin);
    LessEqIsValueOrder(end, end);
  }

  lemma OwnHalf(id: Id, n: nat, begin: Id, end: Id)
    requires 0 < n <= 8 * |id| && IsBlock(begin, end, 8 * |id| - n) && InRange(begin, end, id)
    ensures BucketOk(id, n + 1, n, begin, end)
  {
    InRangeIsSamePrefix(begin, end, 8 * |id| - n, id);
  }

  lemma OtherHalfOfOwn(id: Id, n: nat, whole: Id, wholeEnd: Id, begin: Id, end: Id)
    requires 0 < n <= 8 * |id| && BucketOk(id, n, n - 1, whole, wholeEnd)
    requires IsBlock(begin, end, 8 * |id| - n) && !InRange(begin, end, id) && InRange(whole, wholeEnd, begin)
    ensures BucketOk(id, n + 1, n - 1, begin, end)
  {
    hide IsBlock, InRange, Pow2;
    InRangeIsShared(begin, end, 8 * |id| - n, id);
    InRangeIsShared(whole, wholeEnd, 8 * |id| + 1 - n, begin);
  }

  /** Splitting the last of n buckets: the half holding the router's ID becomes the last of n + 1,
      the other half the one before it. */
  lemma SplitRanges(id: Id, n: nat, begin: Id, end: Id, mid: Id, upper: Id)
    requires 0 < n <= 8 * |id| && BucketOk(id, n, n - 1, begin, end)
    requires IsBlock(begin, mid, 8 * |id| - n) && IsBlock(upper, end, 8 * |id| - n) && Val(upper) == Val(mid) + 1
    ensures if InRange(begin, mid, id)
            then BucketOk(id, n + 1, n - 1, upper, end) && BucketOk(id, n + 1, n, begin, mid)
            else BucketOk(id, n + 1, n - 1, begin, mid) && BucketOk(id, n + 1, n, upper, end)
  {
    OwnIndex(id, n, begin, end);
    HalvesAreDisjoint(begin, end, mid, upper, 8 * |id| - n, id);
    if InRange(begin, mid, id) {
      OwnHalf(id, n, begin, mid);
      OtherHalfOfOwn(id, n, begin, end, upper, end);
    } else {
      OwnHalf(id, n, upper, end);
      OtherHalfOfOwn(id, n, begin, end, begin, mid);
    }
  }

  lemma InRangeIsBetween(begin: Id, end: Id, x: Id)
    ensures InRange(begin, end, x) <==> Val(begin) <= Val(x) <= Val(end)
  {
    LessEqIsValueOrder(begin, x);
    LessEqIsValueOrder(x, end);
  }

  lemma HalvesAreDisjoint(begin: Id, end: Id, mid: Id, upper: Id, bits: nat, x: Id)
    requires IsBlock(begin, mid, bits) && IsBlock(upper, end, bits) && Val(upper) == Val(mid) + 1
    ensures InRange(begin, end, begin) && InRange(begin, end, upper)
    ensures InRange(begin, end, x) ==> (InRange(upper, end, x) <==> !InRange(begin, mid, x))
  {
    BlockValues(begin, mid, bits);
    BlockValues(upper, end, bits);
    InRangeIsBetween(begin, end, begin);
    InRangeIsBetween(begin, end, upper);
    InRangeIsBetween(begin, end, x);
    InRangeIsBetween(begin, mid, x);
    InRangeIsBetween(upper, end, x);
  }

  /** If x <= k < end then k lies in the block of x, which ends at `end`. */
  lemma BetweenIsInRange(begin: Id, end: Id, x: Id, k: Id)
    requires InRange(begin, end, x) && LessEq(x, k) && !LessEq(end, k)
    ensures InRange(begin, end, k)
  {
    InRangeIsBetween(begin, end, x);
    InRangeIsBetween(begin, end, k);
    LessEqIsValueOrder(x, k);
    LessEqIsValueOrder(end, k);
  }

  lemma WholeSpace(id: Id)
    ensures BucketOk(id, 1, 0, ZERO_ID, ONES_ID)
  {
    ValFill(SIZE, 0);
    ValWidth(id, id);
    DivisionIsUnique(Val(id), 0, Val(id), Pow2(8 * |id|));
    DivisionIsUnique(0, 0, 0, Pow2(8 * |id|));
  }

  /** The nodes of one bucket: at most eight, all different, all known, all in range. */
  ghost predicate ListOk(b: BucketState, nodes: map<Id, DhtNode>) {
    && |b.nodes| <= NUM_NODES && Distinct(b.nodes)
    && (forall n :: n in b.nodes ==> n.id in nodes && nodes[n.id] == n && b.Has(n.id))
  }

  /** The routing table: the buckets in chain order, widest first, with their fields; the map from
      range end to bucket; the router's own bucket; the known nodes and their bucket pointers. */
  datatype Table = Table(chain: seq<DhtBucket>, buckets: seq<BucketState>, keys: map<Id, DhtBucket>, own: DhtBucket,
                         nodes: map<Id, DhtNode>, homes: map<Id, DhtBucket?>)

  /** The bucket at a position, null past either end. */
  function BucketAt(chain: seq<DhtBucket>, m: int): DhtBucket? {
    if 0 <= m < |chain| then chain[m] else null
  }

  ghost predicate RangesOk(id: Id, n: nat, buckets: seq<BucketState>) {
    forall m :: 0 <= m < |buckets| ==> BucketOk(id, n, m, buckets[m].begin, buckets[m].end)
  }

  ghost predicate ListsOk(buckets: seq<BucketState>, nodes: map<Id, DhtNode>) {
    forall m :: 0 <= m < |buckets| ==> ListOk(buckets[m], nodes)
  }

  /** One line of buckets, each with room for its cache, joined by parent and child pointers. */
  ghost predicate LinksOk(chain: seq<DhtBucket>, buckets: seq<BucketState>) {
    && |chain| == |buckets| && Distinct(chain)
    && (forall m :: 0 <= m < |chain| ==> chain[m].fullCache.Length == CACHE_SIZE)
    && (forall m :: 0 <= m < |buckets| ==> buckets[m].parent == BucketAt(chain, m - 1))
    && (forall m :: 0 <= m < |buckets| ==> buckets[m].child == BucketAt(chain, m + 1))
  }

  /** The map holds exactly the buckets of the chain, under the ends of their ranges. */
  ghost predicate KeysOk(id: Id, t: Table)
    requires 0 < |t.chain| == |t.buckets| <= 8 * |id| + 1
  {
    && (forall m :: 0 <= m < |t.chain| ==> t.buckets[m].end in t.keys && t.keys[t.buckets[m].end] == t.chain[m])
    && (forall k :: k in t.keys ==> t.buckets[BucketIndex(id, |t.buckets|, k)].end == k)
  }

  /** A node's bucket pointer names the bucket it is in, and is null if it is in none. */
  ghost predicate HomesOk(id: Id, t: Table)
    requires 0 < |t.chain| == |t.buckets| <= 8 * |id| + 1
  {
    && t.homes.Keys == t.nodes.Keys
    && (forall k :: k in t.nodes ==> t.nodes[k].id == k && t.homes[k] == Home(id, t, t.nodes[k]))
  }

  ghost function Home(id: Id, t: Table, n: DhtNode): DhtBucket?
    requires 0 < |t.chain| == |t.buckets| <= 8 * |id| + 1
  {
    var m := BucketIndex(id, |t.buckets|, n.id);
    if n in t.buckets[m].nodes then t.chain[m] else null
  }

  ghost predicate TableOk(id: Id, t: Table) {
    && 0 < |t.chain| == |t.buckets| <= 8 * |id| + 1
    && t.own == t.chain[|t.chain| - 1]
    && RangesOk(id, |t.buckets|, t.buckets)
    && ListsOk(t.buckets, t.nodes)
    && LinksOk(t.chain, t.buckets)
    && KeysOk(id, t)
    && HomesOk(id, t)
  }

  /** Every ID is in the range of exactly one bucket. */
  lemma RangesPartition(id: Id, t: Table, x: Id, m: nat)
    requires TableOk(id, t) && m < |t.buckets|
    ensures t.buckets[m].Has(x) <==> m == BucketIndex(id, |t.buckets|, x)
  {
    hide ListsOk, LinksOk, KeysOk, HomesOk;
    RangeIsIndex(id, |t.buckets|, m, t.buckets[m].begin, t.buckets[m].end, x);
  }

  /** A node is in at most one bucket: only the one for its ID. */
  lemma OnlyInItsBucket(id: Id, t: Table, m: nat, n: DhtNode)
    requires TableOk(id, t) && m < |t.buckets| && n in t.buckets[m].nodes
    ensures m == BucketIndex(id, |t.buckets|, n.id)
  {
    hide RangesOk, LinksOk, KeysOk, HomesOk, InRange, BucketIndex;
    assert ListOk(t.buckets[m], t.nodes);
    RangesPartition(id, t, n.id, m);
  }

  /** A known node with a bucket pointer is in that bucket, the one for its ID. */
  lemma HomeIsItsBucket(id: Id, t: Table, n: DhtNode)
    requires TableOk(id, t) && n.id in t.nodes && t.nodes[n.id] == n
    ensures var m := BucketIndex(id, |t.buckets|, n.id);
            && ListOk(t.buckets[m], t.nodes) && |t.buckets[m].nodes| <= NUM_NODES && Distinct(t.buckets[m].nodes)
            && n.id in t.homes
            && t.homes[n.id] == if n in t.buckets[m].nodes then t.chain[m] else null
  {
    hide RangesOk, LinksOk, KeysOk, InRange, BucketIndex;
  }

  /** Two tables that differ only in nodes. */
  ghost predicate SameShape(t: Table, t': Table) {
    && t'.chain == t.chain && t'.keys == t.keys && t'.own == t.own && |t'.buckets| == |t.buckets|
    && (forall m :: 0 <= m < |t.buckets| ==>
          t'.buckets[m].begin == t.buckets[m].begin && t'.buckets[m].end == t.buckets[m].end)
    && (forall m :: 0 <= m < |t.buckets| ==>
          t'.buckets[m].parent == t.buckets[m].parent && t'.buckets[m].child == t.buckets[m].child)
  }

  lemma SameShapeOk(id: Id, t: Table, t': Table)
    requires TableOk(id, t) && SameShape(t, t')
    requires ListsOk(t'.buckets, t'.nodes) && HomesOk(id, t')
    ensures TableOk(id, t')
  {
    hide RangesOk, ListsOk, LinksOk, KeysOk, HomesOk;
    SameRanges(id, t, t');
    SameLinks(t, t');
    SameKeys(id, t, t');
  }

  lemma SameRanges(id: Id, t: Table, t': Table)
    requires SameShape(t, t') && RangesOk(id, |t.buckets|, t.buckets)
    ensures RangesOk(id, |t'.buckets|, t'.buckets)
  {
    hide BucketOk;
  }

  lemma SameLinks(t: Table, t': Table)
    requires SameShape(t, t') && LinksOk(t.chain, t.buckets)
    ensures LinksOk(t'.chain, t'.buckets)
  {
  }

  lemma SameKeys(id: Id, t: Table, t': Table)
    requires SameShape(t, t') && 0 < |t.chain| == |t.buckets| <= 8 * |id| + 1 && KeysOk(id, t)
    ensures KeysOk(id, t')
  {
    hide BucketIndex;
  }

  /** Taking a node off the node list and, leaving `list`, out of bucket m. */
  function Deleted(t: Table, m: nat, n: DhtNode, list: seq<DhtNode>): Table
    requires m < |t.buckets|
  {
    t.(buckets := t.buckets[m := t.buckets[m].(nodes := list)], nodes := t.nodes - {n.id}, homes := t.homes - {n.id})
  }

  lemma DeletedOk(id: Id, t: Table, n: DhtNode, list: seq<DhtNode>)
    requires TableOk(id, t) && n.id in t.nodes && t.nodes[n.id] == n
    requires |list| <= NUM_NODES && Distinct(list)
    requires forall x :: x in list <==> x in t.buckets[BucketIndex(id, |t.buckets|, n.id)].nodes && x != n
    ensures TableOk(id, Deleted(t, BucketIndex(id, |t.buckets|, n.id), n, list))
  {
    hide RangesOk, LinksOk, KeysOk, HomesOk, InRange, BucketIndex, Distinct;
    var m := BucketIndex(id, |t.buckets|, n.id);
    var t' := Deleted(t, m, n, list);
    forall j | 0 <= j < |t.buckets| ensures ListOk(t'.buckets[j], t'.nodes) {
      assert ListOk(t.buckets[j], t.nodes);
      if j != m && n in t.buckets[j].nodes { OnlyInItsBucket(id, t, j, n); }
    }
    DeletedHomes(id, t, n, list);
    SameShapeOk(id, t, t');
  }

  lemma DeletedHomes(id: Id, t: Table, n: DhtNode, list: seq<DhtNode>)
    requires 0 < |t.chain| == |t.buckets| <= 8 * |id| + 1 && HomesOk(id, t)
    requires n.id in t.nodes && t.nodes[n.id] == n
    requires forall x :: x in list <==> x in t.buckets[BucketIndex(id, |t.buckets|, n.id)].nodes && x != n
    ensures HomesOk(id, Deleted(t, BucketIndex(id, |t.buckets|, n.id), n, list))
  {
    hide BucketIndex;
  }

  /** Putting a known node into bucket m. */
  function Added(t: Table, m: nat, n: DhtNode): Table
    requires m < |t.buckets| && |t.chain| == |t.buckets|
  {
    t.(buckets := t.buckets[m := t.buckets[m].(nodes := t.buckets[m].nodes + [n])],
        homes := t.homes[n.id := t.chain[m]])
  }

  lemma AddedOk(id: Id, t: Table, n: DhtNode)
    requires TableOk(id, t) && n.id in t.nodes && t.nodes[n.id] == n && t.homes[n.id] == null
    requires |t.buckets[BucketIndex(id, |t.buckets|, n.id)].nodes| < NUM_NODES
    ensures TableOk(id, Added(t, BucketIndex(id, |t.buckets|, n.id), n))
  {
    hide RangesOk, LinksOk, KeysOk, HomesOk, InRange, BucketIndex;
    var m := BucketIndex(id, |t.buckets|, n.id);
    var t' := Added(t, m, n);
    RangesPartition(id, t, n.id, m);
    HomeIsItsBucket(id, t, n);
    AddedHomes(id, t, n);
    SameShapeOk(id, t, t');
  }

  lemma AddedHomes(id: Id, t: Table, n: DhtNode)
    requires 0 < |t.chain| == |t.buckets| <= 8 * |id| + 1 && HomesOk(id, t)
    requires n.id in t.nodes && t.nodes[n.id] == n
    ensures HomesOk(id, Added(t, BucketIndex(id, |t.buckets|, n.id), n))
  {
    hide BucketIndex;
  }

  /** A new node, known but in no bucket yet. */
  function Known(t: Table, n: DhtNode): Table {
    t.(nodes := t.nodes[n.id := n], homes := t.homes[n.id := null])
  }

  lemma KnownOk(id: Id, t: Table, n: DhtNode)
    requires TableOk(id, t) && n.id !in t.nodes
    ensures TableOk(id, Known(t, n))
  {
    hide RangesOk, LinksOk, KeysOk, HomesOk, InRange, BucketIndex;
    var t' := Known(t, n);
    assert ListsOk(t'.buckets, t'.nodes);
    KnownHomes(id, t, n);
    SameShapeOk(id, t, t');
  }

  lemma KnownHomes(id: Id, t: Table, n: DhtNode)
    requires 0 < |t.chain| == |t.buckets| <= 8 * |id| + 1 && HomesOk(id, t) && ListsOk(t.buckets, t.nodes)
    requires n.id !in t.nodes
    ensures HomesOk(id, Known(t, n))
  {
    hide BucketIndex, InRange;
    assert ListOk(t.buckets[BucketIndex(id, |t.buckets|, n.id)], t.nodes);
  }
}
