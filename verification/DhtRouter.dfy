/** The router: a map from range end to bucket, of which only the bucket holding the router's own
    ID is ever split, and the list of known nodes. */
module DhtRouters {
  import opened Collections
  import opened Id160
  import opened DhtRange
  import opened DhtMetric
  import opened DhtBuckets
  import opened DhtTable
  import opened DhtSplit
  import opened DhtRoom

  /** The map, the router's own bucket and the nodes are those of the table t, and so is what the buckets
      and the nodes hold. */
  ghost predicate Shows(t: Table, table: map<Id, DhtBucket>, own: DhtBucket, nodes: map<Id, DhtNode>)
    reads t.chain, nodes.Values`bucket
  {
    && t.keys == table && t.own == own && t.nodes == nodes
    && 0 < |t.chain| == |t.buckets| <= 8 * SIZE + 1
    && (forall m :: 0 <= m < |t.chain| ==> t.buckets[m] == t.chain[m].State())
    && (forall k :: k in nodes ==> k in t.homes && t.homes[k] == nodes[k].bucket)
  }

  lemma ChainFacts(id: Id, t: Table)
    requires TableOk(id, t)
    ensures 0 < |t.chain| == |t.buckets| <= 8 * |id| + 1 && Distinct(t.chain)
    ensures t.own == t.chain[|t.chain| - 1]
    ensures t.buckets[|t.buckets| - 1].parent == BucketAt(t.chain, |t.chain| - 2)
            && t.buckets[|t.buckets| - 1].child == null
    ensures t.homes.Keys == t.nodes.Keys && forall k :: k in t.nodes ==> t.nodes[k].id == k
  {
    hide RangesOk, ListsOk, KeysOk;
  }

  /** How making room in a full bucket ended: by dropping a bad node, by splitting, by turning the
      new node away, or in the internal error raised when no candidate for replacement is found. */
  datatype Room = Dropped(victim: Id) | Divided | Discarded | NoCandidate

  const TIMEOUT_REMOVE_NODE: nat := 4 * 60 * 60

  datatype Event =
    | Replied(x: Id, address: Address, now: Seconds, hasSpace: bool)
    | Queried(x: Id, address: Address, now: Seconds, hasSpace: bool)
    | Inactive(x: Id, address: Address, now: Seconds)
    | Invalid(x: Id)
    | Loaded(x: Id, address: Address, lastSeen: Seconds)

  /** The time that an event may leave as the last one at which a node was seen. */
  function TimeOf(e: Event): Seconds {
    match e
    case Replied(_, _, now, _) => now
    case Queried(_, _, now, _) => now
    case Loaded(_, _, lastSeen) => lastSeen
    case _ => 0
  }

  /** Whom an event counts against: who did not answer, or is not at that address any more. */
  function Struck(e: Event): set<Id> { if e.Inactive? || e.Invalid? then {e.x} else {} }

  function StruckBy(events: seq<Event>): set<Id> {
    if events == [] then {} else StruckBy(events[..|events| - 1]) + Struck(events[|events| - 1])
  }

  lemma StruckMore(events: seq<Event>, i: nat)
    requires i < |events|
    ensures StruckBy(events[..i + 1]) == StruckBy(events[..i]) + Struck(events[i])
  {
    assert events[..i + 1][..i] == events[..i];
  }

  lemma {:induction false} StruckSome(events: seq<Event>, i: nat)
    requires i <= |events|
    ensures StruckBy(events[..i]) <= StruckBy(events)
    decreases |events| - i
  {
    if i < |events| {
      StruckSome(events, i + 1);
      StruckMore(events, i);
    } else {
      assert events[..i] == events;
    }
  }

  /** The node is the first of a list that is bad. */
  ghost predicate FirstBad(nodes: seq<DhtNode>, x: Id)
    reads (set n | n in nodes)`failedReplies
  {
    exists i :: 0 <= i < |nodes| && nodes[i].id == x && nodes[i].IsBad() && forall j :: 0 <= j < i ==> !nodes[j].IsBad()
  }

  class DhtRouter {
    const id: Id
    var table: map<Id, DhtBucket>
    var nodes: map<Id, DhtNode>
    var bucket: DhtBucket
    /** The routing table that the fields of the router, its buckets and its nodes show. */
    ghost var t: Table

    ghost predicate Shown()
      reads this, t.chain, nodes.Values`bucket
    {
      Shows(t, table, bucket, nodes)
    }

    ghost predicate Valid()
      reads this, t.chain, nodes.Values`bucket
    {
      Shown() && TableOk(id, t)
    }

    constructor (id: Id)
      ensures Valid() && this.id == id && nodes == map[] && t.chain == [bucket] && fresh(bucket)
      ensures bucket.begin == ZERO_ID && bucket.end == ONES_ID
    {
      var b := new DhtBucket(ZERO_ID, ONES_ID);
      this.id := id;
      table, nodes, bucket := map[ONES_ID := b], map[], b;
      t := Table([b], [BucketState(ZERO_ID, ONES_ID, [], null, null)], map[ONES_ID := b], b, map[], map[]);
      NewTableOk(id, b);
    }

    /** `key` is what std::map::lower_bound gives for x. */
    predicate IsLowerBound(x: Id, key: Id)
      reads this
    {
      key in table && LessEq(x, key) && forall k :: k in table && LessEq(x, k) ==> LessEq(key, k)
    }

    /** lower_bound on the range ends finds the one bucket whose range holds the ID. */
    method FindBucket(x: Id) returns (b: DhtBucket)
      requires Valid()
      ensures b == BucketFor(x) && b.IsInRange(x)
      ensures 0 < |t.chain| == |t.buckets| <= 8 * |id| + 1 && b == t.chain[BucketIndex(id, |t.buckets|, x)]
    {
      LowerBoundIsBucket(x);
      var key :| key in table && IsLowerBound(x, key);
      b := table[key];
    }

    lemma LowerBoundIsBucket(x: Id)
      requires Valid()
      ensures var m := BucketIndex(id, |t.buckets|, x);
              && t.buckets[m].Has(x) && t.buckets[m].end in table && table[t.buckets[m].end] == t.chain[m]
              && forall key :: IsLowerBound(x, key) <==> key == t.buckets[m].end
    {
      hide ListsOk, LinksOk, HomesOk, RangesOk, BucketIndex, InRange;
      var m := BucketIndex(id, |t.buckets|, x);
      var b := t.buckets[m];
      RangesPartition(id, t, x, m);
      HasEnd(b, x);
      forall k | k in table && LessEq(x, k) ensures LessEq(b.end, k) {
        EndsAfter(id, t, x, k);
      }
      forall key: Id | IsLowerBound(x, key) ensures key == b.end {
        CompareIsValueOrder(key, b.end);
        CompareIsValueOrder(b.end, key);
      }
    }

    /** Removes a node from its bucket, if it is in one, and from the node list. */
    method DeleteNode(node: DhtNode)
      requires Valid() && node.id in nodes && nodes[node.id] == node
      modifies this`nodes, this`t, (if node.bucket == null then {} else {node.bucket})`nodes,
               (if node.bucket == null then {} else {node.bucket})`fullCacheLength
      ensures Valid() && nodes == old(nodes) - {node.id} && t.chain == old(t.chain) && |t.buckets| == |old(t).buckets|
      ensures exists list :: t == Deleted(old(t), BucketIndex(id, |old(t).buckets|, node.id), node, list)
      ensures node.bucket != null ==> |node.bucket.nodes| == old(|node.bucket.nodes|) - 1
    {
      hide TableOk, BucketIndex, InRange, ListOk, Distinct, Shows, BucketFor;
      ChainFacts(id, t);
      BucketForIs(node.id);
      ghost var m := BucketIndex(id, |t.buckets|, node.id);
      HomeIsItsBucket(id, t, node);
      HomeShown(node);
      ghost var list := Unlist(node, m);
      DeletedOk(id, t, node, list);
      nodes := nodes - {node.id};
      t := Deleted(t, m, node, list);
    }

    lemma HomeShown(node: DhtNode)
      requires Shown() && node.id in nodes && nodes[node.id] == node
      ensures node.id in t.homes && t.homes[node.id] == node.bucket
    {
    }

    /** Takes a node out of its bucket's list; `t` still describes the state before. */
    method Unlist(node: DhtNode, ghost m: nat) returns (ghost list: seq<DhtNode>)
      requires Shown() && m < |t.buckets| && Distinct(t.chain)
      requires Distinct(t.buckets[m].nodes) && |t.buckets[m].nodes| <= NUM_NODES
      requires node.bucket == if node in t.buckets[m].nodes then t.chain[m] else null
      modifies (if node.bucket == null then {} else {node.bucket})`nodes,
               (if node.bucket == null then {} else {node.bucket})`fullCacheLength
      ensures m < |t.buckets| == |t.chain| && |list| <= NUM_NODES && Distinct(list)
      ensures forall x :: x in list <==> x in t.buckets[m].nodes && x != node
      ensures Shows(Deleted(t, m, node, list), table, bucket, nodes - {node.id})
      ensures node.bucket != null ==> |node.bucket.nodes| == old(|node.bucket.nodes|) - 1
    {
      if node.bucket != null {
        node.bucket.RemoveNode(node);
        list := node.bucket.nodes;
      } else {
        list := t.buckets[m].nodes;
      }
    }

    /** The buckets and nodes show the table that t becomes when its last bucket is split. */
    ghost predicate ShowsSplit(other: DhtBucket)
      reads this`t, this`nodes, other, t.chain, t.own, nodes.Values
    {
      var n, own, low, high := |t.chain|, t.own, other.State(), t.own.State();
      && 0 < n == |t.buckets| <= 8 * |id| && own == t.chain[n - 1] && other !in t.chain
      && other.fullCache.Length == CACHE_SIZE
      && Halves(id, t, low, high) && SplitLinked(other, low, high) && SplitOthers(other, low) && SplitHomes(other, low)
    }

    ghost predicate SplitLinked(other: DhtBucket, low: BucketState, high: BucketState)
      reads this`t
    {
      if low.Has(id)
      then && high.parent == BucketAt(t.chain, |t.chain| - 2) && high.child == other
           && low.parent == t.own && low.child == null
      else && low.parent == BucketAt(t.chain, |t.chain| - 2) && low.child == t.own
           && high.parent == other && high.child == null
    }

    ghost predicate SplitOthers(other: DhtBucket, low: BucketState)
      requires |t.chain| == |t.buckets|
      reads this`t, t.chain
    {
      var n := |t.chain|;
      forall j :: 0 <= j < n - 1 ==>
        t.chain[j].State() == if j == n - 2 && !low.Has(id) then t.buckets[j].(child := other) else t.buckets[j]
    }

    ghost predicate SplitHomes(other: DhtBucket, low: BucketState)
      reads this`t, this`nodes, nodes.Values`bucket
    {
      t.nodes == nodes
      && forall k :: k in nodes ==>
         k in t.homes && nodes[k].bucket == if nodes[k] in low.nodes then other else t.homes[k]
    }

    method SplitOwn() returns (other: DhtBucket)
      requires Valid() && |t.chain| <= 8 * |id|
      modifies bucket, (if bucket.parent == null then {} else {bucket.parent})`child, (set n | n in bucket.nodes)`bucket
      ensures fresh(other) && ShowsSplit(other)
    {
      hide TableOk, BucketIndex, InRange, IsBlock, Val, Pow2, SplitOthers;
      ChainFacts(id, t);
      OwnBucketFacts(id, t);
      ghost var n := |t.chain|;
      var own := bucket;
      assert own == t.chain[n - 1];
      other := own.Split(id, 8 * |id| + 1 - n);
      OthersShown(other);
    }

    /** After the split of the own bucket: the buckets before it. */
    twostate lemma OthersShown(new other: DhtBucket)
      requires old(Shown()) && unchanged(this) && Distinct(t.chain) && t.own == t.chain[|t.chain| - 1]
      requires old(bucket.parent) == BucketAt(t.chain, |t.chain| - 2)
      requires forall b :: b in t.chain && b != bucket && b != old(bucket.parent) ==> unchanged(b)
      requires var b := old(bucket.parent); b != null ==>
                 && b.begin == old(b.begin) && b.nodes == old(b.nodes) && b.parent == old(b.parent)
                 && b.child == (if other.State().Has(id) then old(b.child) else other)
      ensures SplitOthers(other, other.State())
    {
      hide InRange;
      var n, low := |t.chain|, other.State();
      forall j | 0 <= j < n - 1
        ensures t.chain[j].State() == if j == n - 2 && !low.Has(id) then t.buckets[j].(child := other) else t.buckets[j]
      {
        assert t.chain[j] in t.chain && t.chain[j] != t.chain[n - 1];
        assert t.buckets[j] == old(t.chain[j].State());
        if j < n - 2 { assert t.chain[j] != t.chain[n - 2]; }
      }
    }

    /** Splits the router's own bucket, moves the router into the half with its ID, and enters the
        new bucket in the map. */
    method SplitBucket() returns (other: DhtBucket)
      requires Valid() && |t.chain| <= 8 * |id|
      modifies this`table, this`bucket, this`t, bucket, (if bucket.parent == null then {} else {bucket.parent})`child,
               (set n | n in bucket.nodes)`bucket
      ensures Valid()
      ensures fresh(other) && exists low, high :: IsSplit(id, old(t), t, other, low, high)
    {
      hide TableOk, BucketIndex, InRange, IsBlock, Halves, ShowsSplit, IsSplit, SplitTable, Shows;
      BucketForIs(id);
      other := SplitOwn();
      SplitChild(other);
      if bucket.child != null {
        bucket := bucket.child;
      }
      table := table[other.end := other];
      SplitShown(other);
      t := SplitTable(other);
    }

    lemma SplitChild(other: DhtBucket)
      requires ShowsSplit(other) && bucket == t.own
      ensures bucket.child == if other.IsInRange(id) then other else null
    {
      hide Halves, InRange;
    }

    /** The table that is shown once the fields are updated. */
    ghost function SplitTable(other: DhtBucket): Table
      requires 0 < |t.chain| == |t.buckets|
      reads this, other, t.own, nodes.Values`bucket
    {
      var n, own, low, high := |t.chain|, t.own, other.State(), t.own.State();
      var homes := map k | k in nodes :: nodes[k].bucket;
      if low.Has(id)
      then Table(t.chain[..n - 1] + [own, other], t.buckets[..n - 1] + [high, low], table, bucket, nodes, homes)
      else Table(t.chain[..n - 1] + [other, own], WithLastChild(t.buckets[..n - 1], other) + [low, high], table, bucket,
                 nodes, homes)
    }

    lemma SplitTableIsSplit(other: DhtBucket)
      requires ShowsSplit(other)
      requires bucket == (if other.IsInRange(id) then other else t.own) && table == t.keys[other.end := other]
      ensures IsSplit(id, t, SplitTable(other), other, other.State(), t.own.State())
    {
      hide InRange, Halves;
    }

    lemma SplitTableShows(other: DhtBucket)
      requires ShowsSplit(other)
      requires bucket == (if other.IsInRange(id) then other else t.own) && table == t.keys[other.end := other]
      ensures Shows(SplitTable(other), table, bucket, nodes)
    {
      hide InRange, Halves;
    }

    lemma SplitShown(other: DhtBucket)
      requires TableOk(id, t) && ShowsSplit(other)
      requires bucket == (if other.IsInRange(id) then other else t.own) && table == t.keys[other.end := other]
      ensures 0 < |t.chain| == |t.buckets|
      ensures TableOk(id, SplitTable(other)) && Shows(SplitTable(other), table, bucket, nodes)
      ensures IsSplit(id, t, SplitTable(other), other, other.State(), t.own.State())
    {
      hide TableOk, Halves, IsSplit, SplitTable, Shows;
      SplitTableIsSplit(other);
      SplitTableShows(other);
      SplitOk(id, t, SplitTable(other), other, other.State(), t.own.State());
    }

    ghost function Buckets(): set<DhtBucket>
      reads this`t
    {
      set c | c in t.chain
    }

    /** No node is left without a bucket, as receive_timeout checks. */
    ghost predicate AllPlaced()
      reads this, nodes.Values`bucket
    {
      forall k :: k in nodes ==> nodes[k].bucket != null
    }

    ghost predicate OthersPlaced(x: Id)
      reads this, nodes.Values`bucket
    {
      forall k :: k in nodes && k != x ==> nodes[k].bucket != null
    }

    ghost predicate Unplaced(node: DhtNode)
      reads this, node
    {
      node.id in nodes && nodes[node.id] == node && node.bucket == null
    }

    /** The bucket for an ID. */
    ghost function BucketFor(x: Id): DhtBucket
      reads this`t, this`bucket
    {
      if 0 < |t.chain| == |t.buckets| <= 8 * |id| + 1 then t.chain[BucketIndex(id, |t.buckets|, x)] else bucket
    }

    lemma BucketForIs(x: Id)
      requires Valid()
      ensures t.nodes == nodes && t.own == bucket && t.keys == table && 0 < |t.chain| == |t.buckets| <= 8 * |id| + 1
      ensures BucketFor(x) == t.chain[BucketIndex(id, |t.buckets|, x)]
      ensures BucketFor(x).State() == t.buckets[BucketIndex(id, |t.buckets|, x)]
    {
      hide TableOk, BucketIndex;
    }

    /** The bucket for an ID is full of nodes that are not bad, and is not the router's own. */
    ghost predicate TurnedAway(x: Id)
      reads this`t, this`bucket, BucketFor(x), BucketFor(x).nodes
    {
      var b := BucketFor(x);
      b != bucket && b.IsFull() && b.NoneBad()
    }

    /** The bucket for an ID is full of nodes of which none can be chosen for replacement. */
    ghost predicate Stuck(x: Id)
      reads this`t, this`bucket, BucketFor(x), BucketFor(x).nodes
    {
      var b := BucketFor(x);
      b.IsFull() && b.NoneBad() && b.NoneOlder()
    }

    /** The bucket for an ID is full, and has a bad node to give up its place. */
    ghost predicate Replaces(x: Id)
      reads this`t, this`bucket, BucketFor(x), BucketFor(x).nodes
    {
      var b := BucketFor(x);
      b.IsFull() && !b.NoneBad()
    }

    /** There is no place for an ID: its bucket is full of nodes none of which is bad, though not all of the
        largest time, and is not the router's own, or would not be after splits, for they all go to the same
        side as the ID. */
    ghost predicate Refused(x: Id)
      reads this`t, this`bucket, BucketFor(x), BucketFor(x).nodes
    {
      var b := BucketFor(x);
      b.IsFull() && b.NoneBad() && !b.NoneOlder() && (b != bucket || (x != id && Alike(id, x, b.nodes)))
    }

    /** The neighbours of an unplaced node, after splits, against those it had in the table t0. */
    lemma Compared(t0: Table, node: DhtNode)
      requires Valid() && Unplaced(node) && OthersPlaced(node.id)
      requires Sought(t0, node)
      ensures 0 < |t.chain| == |t.buckets| <= 8 * |id| + 1 && 0 < |t0.buckets| <= 8 * |id| + 1
      ensures var b, was := BucketFor(node.id), Neighbours(id, t0, node.id);
              && (b.IsFull() ==> b.NoneBad() == NoneBadIn(was) && b.NoneOlder() == NoneOlderIn(was))
              && (b.IsFull() && b != bucket ==> node.id != id && Alike(id, node.id, was))
              && (!b.IsFull() && |was| >= NUM_NODES ==> !Alike(id, node.id, was))
    {
      hide TableOk, BucketIndex, Alike, Distinct;
      ChainFacts(id, t);
      PlacedIs(node);
      AfterSplits(id, t0, t, node.id);
      assert BucketFor(node.id).nodes == Neighbours(id, t, node.id);
    }

    lemma PlacedIs(node: DhtNode)
      requires Valid() && Unplaced(node) && OthersPlaced(node.id)
      ensures AllButPlaced(t, node.id)
    {
      hide TableOk;
      ChainFacts(id, t);
    }

    /** One round of the loop in add_node_to_bucket, on a full bucket b for the node's ID. */
    method MakeRoom(b: DhtBucket, node: DhtNode) returns (room: Room, next: DhtBucket)
      requires Valid() && Unplaced(node) && OthersPlaced(node.id) && b.IsFull()
      requires b == BucketFor(node.id)
      modifies this, Buckets(), nodes.Values`bucket
      ensures Valid() && OthersPlaced(node.id) && fresh(Buckets() - old(Buckets()))
      ensures room.Dropped? ==>
                nodes == old(nodes) - {room.victim} && t.chain == old(t.chain) && next == b && !b.IsFull()
                                && room.victim in old(nodes) && old(nodes[room.victim].IsBad())
                                && FirstBad(old(b.nodes), room.victim)
      ensures room.Divided? ==>
                nodes == old(nodes) && |t.chain| == |old(t.chain)| + 1 && old(b == bucket) && old(b.NoneBad())
      ensures room.Dropped? || room.Divided? ==> Unplaced(node) && next == BucketFor(node.id)
      ensures room.Discarded? ==> nodes == old(nodes) - {node.id} && TurnedAway(node.id)
      ensures room.NoCandidate? ==> nodes == old(nodes) && Unplaced(node) && Stuck(node.id)
      ensures room.Discarded? || room.NoCandidate? ==> t.chain == old(t.chain)
      ensures room.Dropped? <==> old(!b.NoneBad())
      ensures room.NoCandidate? <==> old(b.NoneBad() && b.NoneOlder())
      ensures room.Discarded? <==> old(b.NoneBad() && !b.NoneOlder() && b != bucket)
    {
      hide TableOk, BucketIndex, InRange, Shown, DhtBucket.NoneBad, DhtBucket.NoneOlder, DhtBucket.IsCandidate,
           FirstBad;
      assert b in Buckets() by { ChainFacts(id, t); }
      next := b;
      var candidate := b.FindReplacementCandidate(false);
      if candidate == null { return NoCandidate, b; }
      if candidate.IsBad() {
        CandidateIsFirst(b, candidate);
        ghost var listed := b.nodes;
        DropFrom(b, candidate, node);
        return Dropped(candidate.id), b;
      }
      if b != bucket {
        DeleteNode(node);
        return Discarded, b;
      }
      room := Divided;
      next := Divide(node);
    }

    static lemma CandidateIsFirst(b: DhtBucket, candidate: DhtNode)
      requires candidate.IsBad() && exists i: nat :: b.IsCandidate(i, false) && b.nodes[i] == candidate
      ensures FirstBad(b.nodes, candidate.id)
    {
    }

    /** Deletes a node from the full bucket that an unplaced node belongs in. */
    method DropFrom(b: DhtBucket, victim: DhtNode, node: DhtNode)
      requires Valid() && Unplaced(node) && OthersPlaced(node.id) && victim in b.nodes
      requires b == BucketFor(node.id)
      modifies this`nodes, this`t, b`nodes, b`fullCacheLength
      ensures Valid() && Unplaced(node) && OthersPlaced(node.id) && nodes == old(nodes) - {victim.id}
              && t.chain == old(t.chain) && bucket == old(bucket)
      ensures victim.id in old(nodes) && old(nodes)[victim.id] == victim
      ensures b == BucketFor(node.id) && !b.IsFull()
    {
      hide TableOk, BucketIndex, InRange, Distinct, ListOk;
      ChainFacts(id, t);
      HomeIsItsBucket(id, t, node);
      ListedIsKnown(id, t, BucketIndex(id, |t.buckets|, node.id), victim);
      DeleteNode(victim);
    }

    /** Splits the router's own bucket, full and for the node's ID, and returns the half for that ID. */
    method Divide(node: DhtNode) returns (next: DhtBucket)
      requires Valid() && Unplaced(node) && OthersPlaced(node.id) && bucket.IsFull() && bucket == BucketFor(node.id)
      modifies this`table, this`bucket, this`t, Buckets(), nodes.Values`bucket
      ensures Valid() && OthersPlaced(node.id) && fresh(Buckets() - old(Buckets()))
      ensures |t.chain| == |old(t.chain)| + 1 && Unplaced(node) && next == BucketFor(node.id)
    {
      hide TableOk, BucketIndex, InRange, IsBlock, IsSplit;
      ChainFacts(id, t);
      OwnBucketFacts(id, t);
      HomeIsItsBucket(id, t, node);
      RoomToSplit(id, t);
      var own := bucket;
      var other := SplitBucket();
      ghost var l, h := SplitIndex(id, old(t), t, other, node.id);
      next := if other.IsInRange(node.id) then other else own;
    }

    /** The loop of add_node_to_bucket: on a return with Dropped or Divided, b is the bucket for the
        node's ID and has room. */
    method FindRoom(node: DhtNode) returns (room: Room, b: DhtBucket, ghost gone: set<Id>)
      requires Valid() && Unplaced(node) && OthersPlaced(node.id)
      modifies this, Buckets(), nodes.Values`bucket
      ensures Valid() && OthersPlaced(node.id) && gone <= old(nodes.Keys) && nodes == old(nodes) - gone
      ensures fresh(Buckets() - old(Buckets()))
      ensures room.Dropped? || room.Divided? ==>
        && Unplaced(node) && b == BucketFor(node.id) && !b.IsFull()
        && if room.Divided? then gone == {} else gone == {room.victim} && old(nodes[room.victim].IsBad())
      ensures room.Discarded? ==> gone == {node.id} && TurnedAway(node.id)
      ensures room.NoCandidate? ==> gone == {} && Unplaced(node) && Stuck(node.id)
      ensures var full, own := old(BucketFor(node.id).IsFull()), old(BucketFor(node.id) == bucket);
              Outcome(room, full, own, id, node.id, Neighbours(id, old(t), node.id))
              && (!full ==> gone == {} && t.chain == old(t.chain))
              && (|t.chain| > |old(t.chain)| ==> full && own && NoneBadIn(Neighbours(id, old(t), node.id)))
    {
      hide TableOk, BucketIndex, InRange, Shown, DhtBucket.NoneBad, DhtBucket.NoneOlder, TurnedAway, Stuck, Alike,
           NoneBadIn, NoneOlderIn, Neighbours, AllButPlaced, Replaces, Refused, Sought, BucketFor, OthersPlaced, Valid,
           FirstBad;
      gone := {};
      room := Divided;
      b := FindBucket(node.id);
      Before(node);
      ghost var t0, was, own, full := t, Neighbours(id, t, node.id), b == bucket, b.IsFull();
      ghost var good, aged := NoneBadIn(was), NoneOlderIn(was);
      while b.IsFull()
        invariant Valid() && Unplaced(node) && OthersPlaced(node.id) && b == BucketFor(node.id)
                  && |t.chain| <= 8 * |id| + 1
        invariant fresh(Buckets() - old(Buckets()))
        invariant nodes == old(nodes) - gone && (b.IsFull() ==> nodes == old(nodes) && gone == {})
        invariant gone <= old(nodes.Keys)
        invariant good == NoneBadIn(was) && aged == NoneOlderIn(was)
        invariant if room.Dropped? then
                    && !good && !b.IsFull() && full && t.chain == old(t.chain) && FirstBad(was, room.victim)
                    && gone == {room.victim} && old(nodes[room.victim].IsBad())
                  else && room.Divided? && gone == {} && Sought(t0, node)
                       && if t == t0 then b.IsFull() == full && own == (b == bucket)
                          else full && own && good && !aged
        decreases 8 * |id| + 1 - |t.chain|, |b.nodes|
      {
        room, b, gone := TryRoom(b, node, t0);
        if room.Discarded? || room.NoCandidate? { return; }
      }
      if room.Divided? && full { Compared(t0, node); }
    }

    /** How the loop ends, for a node that had the given neighbours at first, in a bucket that was full or
        not, and the router's own or not. */
    static ghost predicate Outcome(room: Room, full: bool, own: bool, id: Id, x: Id, was: seq<DhtNode>)
      reads (set n | n in was)`failedReplies, (set n | n in was)`lastSeen
    {
      && (room.Dropped? <==> full && !NoneBadIn(was)) && (room.Dropped? ==> FirstBad(was, room.victim))
      && (room.NoCandidate? <==> full && NoneBadIn(was) && NoneOlderIn(was))
      && (room.Discarded? <==> full && NoneBadIn(was) && !NoneOlderIn(was) && (!own || (x != id && Alike(id, x, was))))
    }

    /** The table may have been split since t0, to place a node. */
    ghost predicate Sought(t0: Table, node: DhtNode)
      reads this
    {
      TableOk(id, t0) && AllButPlaced(t0, node.id) && t.nodes == t0.nodes && |t0.buckets| <= |t.buckets|
    }

    /** A round of the loop, in terms of the neighbours that the node had at first. */
    method TryRoom(b: DhtBucket, node: DhtNode, ghost t0: Table)
      returns (room: Room, next: DhtBucket, ghost gone: set<Id>)
      requires Valid() && Unplaced(node) && OthersPlaced(node.id) && b.IsFull() && Sought(t0, node)
      requires b == BucketFor(node.id)
      requires var was := Neighbours(id, t0, node.id); t == t0 || (NoneBadIn(was) && !NoneOlderIn(was))
      modifies this, Buckets(), nodes.Values`bucket
      ensures Valid() && OthersPlaced(node.id) && fresh(Buckets() - old(Buckets())) && |t.chain| <= 8 * |id| + 1
      ensures nodes == old(nodes) - gone && gone <= old(nodes.Keys) && |gone| <= 1
      ensures room.Dropped? ==>
                t.chain == old(t.chain) && !next.IsFull() && gone == {room.victim} && old(nodes[room.victim].IsBad())
      ensures room.Divided? ==> gone == {} && |t.chain| == |old(t.chain)| + 1 && old(b == bucket) && Sought(t0, node)
      ensures room.Dropped? || room.Divided? ==> Unplaced(node) && next == BucketFor(node.id)
      ensures room.Discarded? ==> gone == {node.id} && TurnedAway(node.id)
      ensures room.NoCandidate? ==> gone == {} && Unplaced(node) && Stuck(node.id)
      ensures room.Discarded? || room.NoCandidate? ==> t.chain == old(t.chain)
      ensures var was := Neighbours(id, t0, node.id);
              && (room.Dropped? <==> !NoneBadIn(was)) && (room.Dropped? ==> FirstBad(was, room.victim))
              && (room.NoCandidate? <==> NoneBadIn(was) && NoneOlderIn(was))
              && (room.Discarded? <==> NoneBadIn(was) && !NoneOlderIn(was) && old(b != bucket))
              && (room.Discarded? && old(t) != t0 ==> node.id != id && Alike(id, node.id, was))
    {
      hide TableOk, BucketIndex, InRange, Shown, DhtBucket.NoneBad, DhtBucket.NoneOlder, TurnedAway, Stuck, Alike,
           NoneBadIn, NoneOlderIn, Neighbours, AllButPlaced, BucketFor, FirstBad;
      Compared(t0, node);
      ghost var was := Neighbours(id, t0, node.id);
      ghost var good, aged := NoneBadIn(was), NoneOlderIn(was);
      Sized();
      Listed(node);
      room, next := MakeRoom(b, node);
      gone := match room case Dropped(victim) => {victim} case Discarded => {node.id} case _ => {};
      Sized();
      assert good == NoneBadIn(was);
      assert aged == NoneOlderIn(was);
    }

    lemma Sized()
      requires Valid()
      ensures t.nodes == nodes && 0 < |t.chain| == |t.buckets| <= 8 * |id| + 1
    {
      hide TableOk;
    }

    lemma Listed(node: DhtNode)
      requires Valid()
      ensures BucketFor(node.id).nodes == Neighbours(id, t, node.id)
    {
      hide TableOk, BucketIndex;
      ChainBound(id, t);
    }

    /** What is asked of the bucket for an unplaced node, in terms of its nodes. */
    lemma Before(node: DhtNode)
      requires Valid() && Unplaced(node) && OthersPlaced(node.id)
      ensures Sought(t, node) && 0 < |t.chain| == |t.buckets| <= 8 * |id| + 1
      ensures var b, was := BucketFor(node.id), Neighbours(id, t, node.id);
              && b.NoneBad() == NoneBadIn(was) && b.NoneOlder() == NoneOlderIn(was)
              && b.nodes == was && (b.IsFull() <==> |was| >= NUM_NODES)
              && (Replaces(node.id) <==> b.IsFull() && !NoneBadIn(was))
              && (Stuck(node.id) <==> b.IsFull() && NoneBadIn(was) && NoneOlderIn(was))
              && (Refused(node.id) <==> b.IsFull() && NoneBadIn(was) && !NoneOlderIn(was) &&
                                        (b != bucket || (node.id != id && Alike(id, node.id, was))))
    {
      hide TableOk, BucketIndex, Alike;
      ChainBound(id, t);
      PlacedIs(node);
      assert BucketFor(node.id).nodes == Neighbours(id, t, node.id);
    }

    /** Places a known node in the bucket for its ID. At most one node is dropped for it, and only a
        bad one; it is itself turned away only from a bucket that is not the router's own. */
    method AddNodeToBucket(node: DhtNode) returns (room: Room, ghost gone: set<Id>)
      requires Valid() && Unplaced(node) && OthersPlaced(node.id)
      modifies this, Buckets(), nodes.Values`bucket
      ensures Valid() && OthersPlaced(node.id) && gone <= old(nodes.Keys) && nodes == old(nodes) - gone
      ensures fresh(Buckets() - old(Buckets()))
      ensures room.Dropped? || room.Divided? ==>
        && node.bucket != null && node.id in nodes
        && if room.Divided? then gone == {}
           else && gone == {room.victim} && old(nodes[room.victim].IsBad())
                && FirstBad(old(BucketFor(node.id).nodes), room.victim)
      ensures !old(BucketFor(node.id).IsFull()) ==> room.Divided? && gone == {} && t.chain == old(t.chain)
      ensures |t.chain| > |old(t.chain)| ==> old(BucketFor(node.id) == bucket && bucket.NoneBad())
      ensures room.Discarded? ==> gone == {node.id} && TurnedAway(node.id)
      ensures room.NoCandidate? ==> gone == {} && Unplaced(node) && Stuck(node.id)
      ensures room.Dropped? <==> old(Replaces(node.id))
      ensures room.Discarded? <==> old(Refused(node.id))
      ensures room.NoCandidate? <==> old(Stuck(node.id))
      ensures gone - {node.id} !! old(GoodIds())
    {
      hide TableOk, BucketIndex, InRange, Shown, DhtBucket.NoneBad, DhtBucket.NoneOlder, TurnedAway, Stuck,
           NoneBadIn, NoneOlderIn, Neighbours, Replaces, Refused, BucketFor, Alike, FirstBad;
      var b;
      Before(node);
      ghost var was := Neighbours(id, t, node.id);
      ghost var good, aged := NoneBadIn(was), NoneOlderIn(was);
      room, b, gone := FindRoom(node);
      assert good == NoneBadIn(was) && aged == NoneOlderIn(was);
      if room.Discarded? || room.NoCandidate? { return; }
      BucketForIs(node.id);
      assert node in nodes.Values && b in t.chain;
      Place(b, node);
    }

    method Place(b: DhtBucket, node: DhtNode)
      requires Valid() && Unplaced(node) && b == BucketFor(node.id) && !b.IsFull()
      modifies this`t, b`nodes, b`fullCacheLength, node`bucket
      ensures Valid() && node.bucket == b && nodes == old(nodes) && t.chain == old(t.chain)
      ensures t == Added(old(t), BucketIndex(id, |old(t).buckets|, node.id), node)
    {
      hide TableOk, BucketIndex, InRange, Distinct, Shows;
      BucketForIs(node.id);
      HomeShown(node);
      ChainFacts(id, t);
      AddedOk(id, t, node);
      ApartIn(t.chain, BucketIndex(id, |t.buckets|, node.id));
      List(b, node, BucketIndex(id, |t.buckets|, node.id));
      t := Added(t, BucketIndex(id, |t.buckets|, node.id), node);
    }

    /** Lists a node in bucket m; `t` still describes the state before. */
    method List(b: DhtBucket, node: DhtNode, ghost m: nat)
      requires Shown() && m < |t.chain| && b == t.chain[m] && node.id in nodes && nodes[node.id] == node
      requires (forall j :: 0 <= j < |t.chain| && j != m ==> t.chain[j] != b)
               && forall k :: k in nodes ==> nodes[k].id == k
      modifies b`nodes, b`fullCacheLength, node`bucket
      ensures m < |t.buckets| && node.bucket == b && Shows(Added(t, m, node), table, bucket, nodes)
    {
      b.AddNode(node);
      node.bucket := b;
    }

    /** The known nodes that are not bad. */
    ghost function GoodIds(): set<Id>
      reads this`nodes, nodes.Values`failedReplies
    {
      set k | k in nodes && !nodes[k].IsBad()
    }

    /** Enters a new node, as when it first replies or is loaded from the cache. */
    method AddNode(x: Id, address: Address, lastSeen: Seconds) returns (room: Room, node: DhtNode)
      requires Valid() && AllPlaced() && x !in nodes
      modifies this, Buckets(), nodes.Values`bucket
      ensures Valid() && (!room.NoCandidate? ==> AllPlaced())
      ensures fresh(node) && node.id == x && node.address == address && node.lastSeen == lastSeen
              && node.failedReplies == 0
      ensures room.Dropped? || room.Divided? ==> x in nodes && nodes[x] == node
      ensures room.Divided? ==> nodes == old(nodes)[x := node]
      ensures room.Dropped? ==>
                nodes == old(nodes)[x := node] - {room.victim} && FirstBad(old(BucketFor(x).nodes), room.victim)
      ensures room.Discarded? ==> nodes == old(nodes) && TurnedAway(x)
      ensures room.NoCandidate? ==> Stuck(x)
      ensures room.Dropped? <==> old(Replaces(x))
      ensures room.Discarded? <==> old(Refused(x))
      ensures room.NoCandidate? <==> old(Stuck(x))
      ensures !old(BucketFor(x).IsFull()) ==> room.Divided? && nodes == old(nodes)[x := node] && t.chain == old(t.chain)
      ensures Keeps(old(nodes), nodes, old(GoodIds()))
      ensures Gains(old(nodes), nodes, x, node)
      ensures fresh(nodes.Values - old(nodes.Values)) && fresh(Buckets() - old(Buckets()))
    {
      hide TableOk, Shown, TurnedAway, Stuck, Replaces, Refused, BucketIndex, BucketFor, Gains, Keeps, GoodIds,
           FirstBad;
      node := NewNode(x, address, lastSeen);
      Enter(node);
      assert BucketFor(x).IsFull() == old(BucketFor(x).IsFull());
      ghost var gone;
      room, gone := AddNodeToBucket(node);
      EnteredThenGone(old(nodes), node, gone, nodes, old(GoodIds()));
    }

    method NewNode(x: Id, address: Address, lastSeen: Seconds) returns (node: DhtNode)
      requires Valid()
      ensures fresh(node) && node.id == x && node.address == address && node.lastSeen == lastSeen
      ensures node.failedReplies == 0 && node.bucket == null && 0 < |t.chain| == |t.buckets| <= 8 * |id| + 1
      ensures Replaces(x) == old(Replaces(x)) && Refused(x) == old(Refused(x)) && Stuck(x) == old(Stuck(x))
      ensures BucketFor(x) == old(BucketFor(x)) && GoodIds() == old(GoodIds())
              && BucketFor(x).nodes == old(BucketFor(x).nodes)
    {
      hide TableOk, BucketIndex;
      Sized();
      node := new DhtNode(x, address, lastSeen);
    }

    method Enter(node: DhtNode)
      requires Valid() && AllPlaced() && node.id !in nodes && node.bucket == null
      modifies this`nodes, this`t
      ensures Valid() && Unplaced(node) && OthersPlaced(node.id) && nodes == old(nodes)[node.id := node]
              && t.chain == old(t.chain)
      ensures Replaces(node.id) == old(Replaces(node.id)) && Refused(node.id) == old(Refused(node.id))
      ensures Stuck(node.id) == old(Stuck(node.id)) && BucketFor(node.id) == old(BucketFor(node.id))
              && BucketFor(node.id).nodes == old(BucketFor(node.id).nodes)
      ensures old(GoodIds()) <= GoodIds()
    {
      hide TableOk, BucketIndex, Shows;
      BucketForIs(node.id);
      KnownOk(id, t, node);
      ChainFacts(id, t);
      KnownShown(node);
      nodes := nodes[node.id := node];
      t := Known(t, node);
    }

    lemma KnownShown(node: DhtNode)
      requires Shown() && node.id !in nodes && node.bucket == null
      ensures Shows(Known(t, node), table, bucket, nodes[node.id := node])
    {
    }

    /** New nodes are for the router's own bucket, or for one with space, and are not the router itself
        or a node with the all-zero ID. */
    ghost predicate Wanted(x: Id, hasSpace: bool)
      reads this
    {
      x != id && x != ZERO_ID && (BucketFor(x) == bucket || hasSpace)
    }

    method Wants(x: Id, hasSpace: bool) returns (wanted: bool)
      requires Valid()
      ensures wanted <==> Wanted(x, hasSpace)
    {
      hide TableOk, BucketIndex;
      if x == id || x == ZERO_ID { return false; }
      var b := FindBucket(x);
      wanted := b == bucket || hasSpace;
    }

    /** Enters an unknown node that answered, if it is wanted. */
    method Admit(x: Id, address: Address, hasSpace: bool) returns (node: DhtNode?, failed: bool)
      requires Valid() && AllPlaced() && x !in nodes
      modifies this, Buckets(), nodes.Values`bucket
      ensures Valid() && (!failed ==> AllPlaced()) && fresh(Buckets() - old(Buckets()))
              && fresh(nodes.Values - old(nodes.Values))
      ensures node != null ==> !failed && fresh(node) && x in nodes && nodes[x] == node && node.address == address
      ensures failed <==> old(Wanted(x, hasSpace) && Stuck(x))
      ensures node != null <==> old(Wanted(x, hasSpace) && !Stuck(x) && !Refused(x))
      ensures !failed && node == null ==> nodes == old(nodes)
      ensures failed ==> Stuck(x)
      ensures node != null ==> Gains(old(nodes), nodes, x, node)
      ensures Keeps(old(nodes), nodes, old(GoodIds()))
    {
      hide TableOk, Shown, BucketIndex, TurnedAway, Stuck, Replaces, Refused, GoodIds, Gains, Keeps, Wanted, FirstBad;
      SameNodes(nodes, GoodIds());
      var wanted := Wants(x, hasSpace);
      if !wanted { return null, false; }
      var room;
      room, node := AddNode(x, address, 0);
      failed := room.NoCandidate?;
      if room.Discarded? || room.NoCandidate? { node := null; }
    }

    /** A node answered a query: a known one is refreshed if the address is its own, an unknown one is
        entered if it is wanted. */
    method NodeReplied(x: Id, address: Address, now: Seconds, hasSpace: bool) returns (node: DhtNode?, failed: bool)
      requires Valid() && AllPlaced()
      modifies this, Buckets(), nodes.Values
      ensures Valid() && (!failed ==> AllPlaced()) && fresh(Buckets() - old(Buckets()))
              && fresh(nodes.Values - old(nodes.Values))
      ensures node != null ==>
                x in nodes && nodes[x] == node && node.address == address && node.lastSeen == now
                  && node.failedReplies == 0
      ensures x in old(nodes) ==> nodes == old(nodes) && !failed && (node != null <==> nodes[x].address == address)
      ensures failed <==> x !in old(nodes) && old(Wanted(x, hasSpace) && Stuck(x))
      ensures x !in old(nodes) ==> (node != null <==> old(Wanted(x, hasSpace) && !Stuck(x) && !Refused(x)))
      ensures !failed && node == null ==> nodes == old(nodes)
      ensures failed ==> Stuck(x)
      ensures node != null && x !in old(nodes) ==> Gains(old(nodes), nodes, x, node)
      ensures Keeps(old(nodes), nodes, old(GoodIds()))
      ensures forall n :: n in old(nodes.Values) && n != node ==>
                n.lastSeen == old(n.lastSeen) && n.failedReplies == old(n.failedReplies)
    {
      hide TableOk, Shown, BucketIndex, TurnedAway, Stuck, Wanted, Replaces, Refused;
      failed := false;
      if x in nodes {
        node := nodes[x];
        assert node in nodes.Values;
      } else {
        node, failed := Admit(x, address, hasSpace);
        if node == null { return; }
      }
      if node.address != address { return null, false; }
      node.lastSeen := now;
      node.failedReplies := 0;
    }

    /** A node did not answer: it turns bad after five failures, and is deleted once it has also not
        been seen for four hours. */
    method NodeInactive(x: Id, address: Address, now: Seconds)
      requires Valid() && AllPlaced()
      modifies this, Buckets(), nodes.Values`failedReplies
      ensures Valid() && AllPlaced() && t.chain == old(t.chain)
      ensures var known := x in old(nodes) && old(nodes)[x].address == address;
              && (forall n :: n in old(nodes.Values) ==>
                    n.failedReplies == old(n.failedReplies) + if known && n == old(nodes)[x] then 1 else 0)
              && nodes == if known && old(nodes[x].failedReplies) >= 4
                              && Unseen(old(nodes)[x].lastSeen, now, 4 * 60 * 60)
                          then old(nodes) - {x} else old(nodes)
    {
      hide TableOk, BucketIndex;
      if x !in nodes || nodes[x].address != address { return; }
      var node := nodes[x];
      assert node in nodes.Values;
      node.failedReplies := node.failedReplies + 1;
      if node.IsBad() && Age(node, now) >= TIMEOUT_REMOVE_NODE {
        Delete(x);
      }
    }

    /** Seconds since a node was seen, as an unsigned 32-bit difference. */
    static function Age(node: DhtNode, now: Seconds): (r: nat)
      reads node
      ensures forall span: nat :: r >= span <==> Unseen(node.lastSeen, now, span)
    {
      (now - node.lastSeen) % (UINT_MAX + 1)
    }

    /** Nothing was seen for a span of time; or the time seen last is ahead of the clock, but not by so much
        that the clock would come around to it within the span. */
    static ghost predicate Unseen(seen: Seconds, now: Seconds, span: nat) {
      if seen <= now then seen + span <= now else seen + span <= now + 0x1_0000_0000
    }

    /** The address of a known node is no longer valid: the node is deleted. */
    method NodeInvalid(x: Id)
      requires Valid() && AllPlaced()
      modifies this, Buckets()
      ensures Valid() && AllPlaced() && nodes == old(nodes) - {x} && t.chain == old(t.chain)
    {
      hide TableOk, Shown;
      if x in nodes {
        Delete(x);
      }
    }

    method Delete(x: Id)
      requires Valid() && AllPlaced() && x in nodes
      modifies this, Buckets()
      ensures Valid() && AllPlaced() && nodes == old(nodes) - {x} && t.chain == old(t.chain)
    {
      hide TableOk, BucketIndex;
      ChainFacts(id, t);
      HomeIsItsBucket(id, t, nodes[x]);
      DeleteNode(nodes[x]);
    }

    /** A node sent a query: a known one that was seen before is refreshed if the address is its own, an
        unknown one is to be asked for a reply if it is wanted. */
    method NodeQueried(x: Id, address: Address, now: Seconds, hasSpace: bool) returns (node: DhtNode?, ping: bool)
      requires Valid() && AllPlaced()
      modifies nodes.Values`lastSeen, nodes.Values`failedReplies
      ensures Valid() && AllPlaced() && nodes == old(nodes) && t == old(t)
      ensures node != null <==> x in nodes && nodes[x].address == address
      ensures node != null ==> node == nodes[x]
      ensures ping <==> x !in nodes && Wanted(x, hasSpace)
      ensures forall n :: n in nodes.Values ==>
                if n == node && old(n.lastSeen) != 0 then n.lastSeen == now && n.failedReplies == 0
                else n.lastSeen == old(n.lastSeen) && n.failedReplies == old(n.failedReplies)
    {
      hide TableOk, BucketIndex;
      if x !in nodes {
        var wanted := Wants(x, hasSpace);
        return null, wanted;
      }
      node, ping := nodes[x], false;
      assert node in nodes.Values;
      if node.address != address { return null, false; }
      if node.lastSeen != 0 {
        node.lastSeen := now;
        node.failedReplies := 0;
      }
    }

    /** No known node has the largest time. */
    ghost predicate Timely()
      reads this`nodes, nodes.Values`lastSeen
    {
      forall k :: k in nodes ==> nodes[k].lastSeen < UINT_MAX
    }

    lemma TimelyIsNotStuck(x: Id)
      requires Valid() && Timely()
      ensures 0 < |t.chain| == |t.buckets| <= 8 * |id| + 1 && !Stuck(x)
    {
      hide TableOk, BucketIndex;
      Sized();
      if Stuck(x) {
        ListedIsKnown(id, t, BucketIndex(id, |t.buckets|, x), BucketFor(x).nodes[0]);
      }
    }

    /** An event meets the internal error raised when no candidate for replacement is found. */
    ghost predicate Fails(e: Event)
      reads this, BucketFor(e.x), BucketFor(e.x).nodes
    {
      e.x !in nodes && Stuck(e.x) && (e.Loaded? || (e.Replied? && Wanted(e.x, e.hasSpace)))
    }

    method Handle(e: Event) returns (failed: bool)
      requires Valid() && AllPlaced()
      modifies this, Buckets(), nodes.Values
      ensures Valid() && (!failed ==> AllPlaced())
      ensures fresh(Buckets() - old(Buckets())) && fresh(nodes.Values - old(nodes.Values))
      ensures failed <==> old(Fails(e))
      ensures old(Timely()) && TimeOf(e) < UINT_MAX ==> !failed && Timely()
      ensures old(GoodIds()) - Struck(e) <= GoodIds() && (e.Invalid? ==> e.x !in nodes)
    {
      hide TableOk, Shown, BucketIndex, Stuck, Refused, Replaces, Wanted, TurnedAway, Timely, GoodIds;
      failed := false;
      match e
      case Replied(x, address, now, hasSpace) => failed := Reply(x, address, now, hasSpace);
      case Queried(x, address, now, hasSpace) => Query(x, address, now, hasSpace);
      case Inactive(x, address, now) => Drop(e);
      case Invalid(x) => Drop(e);
      case Loaded(x, address, lastSeen) => failed := Load(x, address, lastSeen);
    }

    method Reply(x: Id, address: Address, now: Seconds, hasSpace: bool) returns (failed: bool)
      requires Valid() && AllPlaced()
      modifies this, Buckets(), nodes.Values
      ensures Valid() && (!failed ==> AllPlaced())
      ensures fresh(Buckets() - old(Buckets())) && fresh(nodes.Values - old(nodes.Values))
      ensures failed <==> x !in old(nodes) && old(Wanted(x, hasSpace) && Stuck(x))
      ensures old(Timely()) && now < UINT_MAX ==> !failed && Timely()
      ensures old(GoodIds()) <= GoodIds()
    {
      hide TableOk, Shown, BucketIndex, Stuck, Refused, Replaces, Wanted, TurnedAway;
      if Timely() { TimelyIsNotStuck(x); }
      var node;
      node, failed := NodeReplied(x, address, now, hasSpace);
    }

    method Query(x: Id, address: Address, now: Seconds, hasSpace: bool)
      requires Valid() && AllPlaced()
      modifies nodes.Values`lastSeen, nodes.Values`failedReplies
      ensures Valid() && AllPlaced() && nodes == old(nodes) && t == old(t)
      ensures old(Timely()) && now < UINT_MAX ==> Timely()
      ensures old(GoodIds()) <= GoodIds()
    {
      hide TableOk, Shown, BucketIndex, Wanted;
      var node, ping := NodeQueried(x, address, now, hasSpace);
    }

    lemma KnownById()
      requires Valid()
      ensures forall k :: k in nodes ==> nodes[k].id == k
    {
      hide TableOk;
      ChainFacts(id, t);
    }

    method Drop(e: Event)
      requires Valid() && AllPlaced() && (e.Inactive? || e.Invalid?)
      modifies this, Buckets(), nodes.Values`failedReplies
      ensures Valid() && AllPlaced() && t.chain == old(t.chain) && nodes.Keys <= old(nodes.Keys)
      ensures nodes.Values <= old(nodes.Values) && (old(Timely()) ==> Timely())
      ensures old(GoodIds()) - {e.x} <= GoodIds() && (e.Invalid? ==> e.x !in nodes)
    {
      hide TableOk, Shown, BucketIndex;
      KnownById();
      if e.Inactive? { NodeInactive(e.x, e.address, e.now); } else { NodeInvalid(e.x); }
    }

    /** A node comes from the cache of an earlier session. */
    method Load(x: Id, address: Address, lastSeen: Seconds) returns (failed: bool)
      requires Valid() && AllPlaced()
      modifies this, Buckets(), nodes.Values`bucket
      ensures Valid() && (!failed ==> AllPlaced())
      ensures fresh(Buckets() - old(Buckets())) && fresh(nodes.Values - old(nodes.Values))
      ensures failed <==> x !in old(nodes) && old(Stuck(x))
      ensures old(Timely()) && lastSeen < UINT_MAX ==> !failed && Timely()
      ensures old(GoodIds()) <= GoodIds()
    {
      hide TableOk, Shown, BucketIndex, Stuck, Refused, Replaces, TurnedAway, FirstBad;
      if Timely() { TimelyIsNotStuck(x); }
      if x in nodes { return false; }
      var room, node := AddNode(x, address, lastSeen);
      failed := room.NoCandidate?;
    }

    /** A node comes to a bucket with room. */
    method AddWithRoom(x: Id, address: Address, lastSeen: Seconds) returns (node: DhtNode)
      requires Valid() && AllPlaced() && x !in nodes && |t.chain| == |t.buckets| == 1 && !BucketFor(x).IsFull()
      modifies this, Buckets(), nodes.Values`bucket
      ensures Valid() && AllPlaced() && t.chain == old(t.chain) && nodes == old(nodes)[x := node] && fresh(node)
      ensures old(AllLatest()) && lastSeen == UINT_MAX ==> AllLatest()
    {
      hide TableOk, Shown, BucketIndex, Stuck, Refused, Replaces, TurnedAway, FirstBad, Keeps, Gains, GoodIds;
      var room;
      room, node := AddNode(x, address, lastSeen);
    }

    /** All known nodes have the largest time, and none has failed to reply. */
    ghost predicate AllLatest()
      reads this`nodes, nodes.Values`lastSeen, nodes.Values`failedReplies
    {
      forall k :: k in nodes ==> nodes[k].lastSeen == UINT_MAX && nodes[k].failedReplies == 0
    }

    /** Any sequence of table events keeps the routing table valid; and unless some node is given the largest
        time there is, none of them fails. A node that is not bad is not lost, and does not turn bad, unless
        an event counts against it. */
    method Run(events: seq<Event>) returns (failed: bool)
      requires Valid() && AllPlaced()
      modifies this, Buckets(), nodes.Values
      ensures Valid() && (!failed ==> AllPlaced())
      ensures old(Timely()) && (forall e :: e in events ==> TimeOf(e) < UINT_MAX) ==> !failed && Timely()
      ensures old(GoodIds()) - StruckBy(events) <= GoodIds()
      ensures events != [] && events[|events| - 1].Invalid? && !failed ==> events[|events| - 1].x !in nodes
    {
      hide TableOk, Shown, Fails, GoodIds, Struck, StruckBy, Timely, Valid, AllPlaced;
      failed := false;
      for i := 0 to |events|
        invariant Valid() && AllPlaced() && !failed
        invariant fresh(Buckets() - old(Buckets())) && fresh(nodes.Values - old(nodes.Values))
        invariant old(Timely()) && (forall e :: e in events ==> TimeOf(e) < UINT_MAX) ==> Timely()
        invariant old(GoodIds()) - StruckBy(events[..i]) <= GoodIds()
        invariant i > 0 && events[i - 1].Invalid? ==> events[i - 1].x !in nodes
      {
        assert events[i] in events;
        failed := Handle(events[i]);
        StruckMore(events, i);
        if failed {
          StruckSome(events, i + 1);
          return;
        }
      }
      assert events[..|events|] == events;
    }
  }

  /** IDs that differ in the last byte only. */
  function Numbered(i: Byte): (x: Id)
    ensures x[SIZE - 1] == i
  {
    seq(SIZE, k => if k == SIZE - 1 then i else 0)
  }

  /** In a table of one bucket, with every node placed, the bucket holds all. */
  lemma OneBucket(r: DhtRouter, x: Id)
    requires r.Valid() && r.AllPlaced() && |r.t.chain| == 1
    ensures |r.t.buckets| == 1 && r.BucketFor(x) == r.bucket && |r.bucket.nodes| == |r.nodes|
    ensures forall n :: n in r.bucket.nodes ==> n in r.nodes.Values
  {
    hide TableOk, BucketIndex;
    r.Sized();
    ChainFacts(r.id, r.t);
    var b := r.bucket;
    NeighboursOk(r.id, r.t, x);
    forall k | k in r.nodes ensures r.nodes[k] in b.nodes { HomeIsItsBucket(r.id, r.t, r.nodes[k]); }
    forall i | 0 <= i < |b.nodes| ensures b.nodes[i].id in r.nodes && r.nodes[b.nodes[i].id] == b.nodes[i] {
      ListedIsKnown(r.id, r.t, 0, b.nodes[i]);
    }
    CountIds(b.nodes, r.nodes);
  }

  lemma {:induction false} CountIds(s: seq<DhtNode>, m: map<Id, DhtNode>)
    requires Distinct(s) && (forall n :: n in s ==> n.id in m && m[n.id] == n)
             && forall k :: k in m ==> m[k] in s && m[k].id == k
    ensures |m| == |s|
  {
    if s == [] {
      assert m.Keys == {};
    } else {
      var i := |s| - 1;
      var rest := m - {s[i].id};
      assert s[i] !in s[..i];
      assert m.Keys == rest.Keys + {s[i].id};
      CountIds(s[..i], rest);
    }
  }

  /** IDs whose last bytes are below i. */
  ghost predicate AreNumbered(ids: set<Id>, i: nat) {
    forall k :: k in ids ==> k[SIZE - 1] as int < i
  }

  /** A table of one bucket with i nodes, numbered and of the largest time. */
  ghost predicate Filled(r: DhtRouter, i: nat)
    reads r, r.t.chain, r.nodes.Values
  {
    && r.Valid() && r.AllPlaced() && |r.t.chain| == 1 && |r.nodes| == i && AreNumbered(r.nodes.Keys, i)
    && r.AllLatest()
  }

  /** Up to eight go in. */
  method FillOne(r: DhtRouter, i: nat, address: Address)
    requires Filled(r, i) && i < NUM_NODES
    modifies r, r.Buckets(), r.nodes.Values`bucket
    ensures r.t.chain == old(r.t.chain) && fresh(r.nodes.Values - old(r.nodes.Values)) && Filled(r, i + 1)
  {
    hide TableOk, BucketIndex, DhtRouter.Shown, AreNumbered, Numbered, Filled, DhtRouter.AllLatest, DhtRouter.AllPlaced,
         DhtRouter.BucketFor, DhtRouter.Valid;
    var x := Numbered(i as Byte);
    NotFull(r, i, x);
    NewNumber(i, r.nodes.Keys);
    var node := r.AddWithRoom(x, address, UINT_MAX);
    OneMore(old(r.nodes), x, node);
    NowFilled(r, i + 1);
  }

  lemma OneMore(m: map<Id, DhtNode>, x: Id, node: DhtNode)
    requires x !in m
    ensures var after := m[x := node];
            after.Keys == m.Keys + {x} && |after| == |m| + 1 && after.Values <= m.Values + {node}
  {
  }

  lemma NotFull(r: DhtRouter, i: nat, x: Id)
    requires Filled(r, i) && i < NUM_NODES
    ensures r.Valid() && r.AllPlaced() && |r.t.chain| == |r.t.buckets| == 1 && !r.BucketFor(x).IsFull()
            && |r.nodes| == i
    ensures AreNumbered(r.nodes.Keys, i)
    ensures r.AllLatest()
  {
    hide TableOk, BucketIndex, DhtRouter.Shown;
    OneBucket(r, x);
  }

  lemma NowFilled(r: DhtRouter, i: nat)
    requires r.Valid() && r.AllPlaced() && |r.t.chain| == 1 && |r.nodes| == i && AreNumbered(r.nodes.Keys, i)
    requires r.AllLatest()
    ensures Filled(r, i)
  {
    hide TableOk, AreNumbered;
  }

  /** A ninth one is too many. */
  lemma FilledIsStuck(r: DhtRouter, x: Id)
    requires Filled(r, NUM_NODES)
    ensures |r.t.buckets| == 1 && r.Stuck(x)
  {
    hide TableOk, BucketIndex, DhtRouter.Shown;
    OneBucket(r, x);
  }

  /** Nine nodes loaded with the largest time are one too many. */
  method NoCandidateIsFound(id: Id, address: Address) returns (r: DhtRouter, room: Room)
    ensures room.NoCandidate?
  {
    hide TableOk, DhtRouter.Shown, DhtRouter.Refused, DhtRouter.Replaces, DhtRouter.Stuck, AreNumbered, BucketIndex;
    r := Fill(id, address);
    FilledIsStuck(r, Numbered(NUM_NODES as Byte));
    NewNumber(NUM_NODES, r.nodes.Keys);
    var node;
    room, node := r.AddNode(Numbered(NUM_NODES as Byte), address, UINT_MAX);
  }

  method Fill(id: Id, address: Address) returns (r: DhtRouter)
    ensures fresh(r) && fresh(r.Buckets()) && fresh(r.nodes.Values) && Filled(r, NUM_NODES)
  {
    hide TableOk, DhtRouter.Shown, Filled;
    r := Empty(id);
    for i := 0 to NUM_NODES
      invariant fresh(r) && fresh(r.Buckets()) && fresh(r.nodes.Values) && Filled(r, i)
    {
      FillOne(r, i, address);
    }
  }

  method Empty(id: Id) returns (r: DhtRouter)
    ensures fresh(r) && fresh(r.Buckets()) && r.nodes == map[] && Filled(r, 0)
  {
    hide TableOk, DhtRouter.Shown;
    r := new DhtRouter(id);
  }

  lemma NewNumber(i: nat, ids: set<Id>)
    requires i <= NUM_NODES && AreNumbered(ids, i)
    ensures Numbered(i as Byte) !in ids && AreNumbered(ids + {Numbered(i as Byte)}, i + 1)
  {
  }

  lemma ApartIn(chain: seq<DhtBucket>, m: nat)
    requires Distinct(chain) && m < |chain|
    ensures forall j :: 0 <= j < |chain| && j != m ==> chain[j] != chain[m]
  {
  }

  /** Nodes that are kept, of those known before. */
  ghost predicate Keeps(before: map<Id, DhtNode>, after: map<Id, DhtNode>, ids: set<Id>) {
    forall k :: k in ids && k in before ==> k in after && after[k] == before[k]
  }

  /** No node is new but the given one. */
  ghost predicate Gains(before: map<Id, DhtNode>, after: map<Id, DhtNode>, x: Id, node: DhtNode) {
    forall k :: k in after ==> if k in before then after[k] == before[k] else k == x && after[k] == node
  }

  lemma SameNodes(nodes: map<Id, DhtNode>, good: set<Id>)
    ensures Keeps(nodes, nodes, good)
  {
  }

  lemma EnteredThenGone(before: map<Id, DhtNode>, node: DhtNode, gone: set<Id>, after: map<Id, DhtNode>, good: set<Id>)
    requires node.id !in before && after == before[node.id := node] - gone && gone - {node.id} !! good
    ensures gone == {node.id} ==> after == before
    ensures gone == {} ==> after == before[node.id := node]
    ensures after.Values <= before.Values + {node}
    ensures Keeps(before, after, good) && Gains(before, after, node.id, node)
  {
  }

  /** What splitting needs to know about the last bucket. */
  lemma OwnBucketFacts(id: Id, t: Table)
    requires TableOk(id, t)
    ensures var own := t.buckets[|t.buckets| - 1];
            && IsBlock(own.begin, own.end, 8 * |id| + 1 - |t.buckets|) && Distinct(own.nodes)
            && (forall n :: n in own.nodes ==> n.id in t.nodes && t.nodes[n.id] == n)
  {
    hide LinksOk, KeysOk, HomesOk, InRange, IsBlock;
    assert BucketOk(id, |t.buckets|, |t.buckets| - 1, t.buckets[|t.buckets| - 1].begin, t.buckets[|t.buckets| - 1].end);
    assert ListOk(t.buckets[|t.buckets| - 1], t.nodes);
  }

  lemma ChainBound(id: Id, t: Table)
    requires TableOk(id, t)
    ensures 0 < |t.chain| == |t.buckets| <= 8 * |id| + 1
  {
    hide RangesOk, ListsOk, LinksOk, KeysOk, HomesOk;
  }

  /** A full bucket is wide enough to be split: its nodes have different IDs. */
  lemma RoomToSplit(id: Id, t: Table)
    requires TableOk(id, t) && |t.buckets[|t.buckets| - 1].nodes| >= NUM_NODES
    ensures |t.buckets| <= 8 * |id|
  {
    hide LinksOk, KeysOk, HomesOk, InRange, IsBlock, InBucket, BucketIndex;
    var own := t.buckets[|t.buckets| - 1];
    assert BucketOk(id, |t.buckets|, |t.buckets| - 1, own.begin, own.end);
    assert ListOk(own, t.nodes);
    if |t.buckets| > 8 * |id| {
      OneIdBlock(own.begin, own.end, own.nodes[0].id, own.nodes[1].id);
    }
  }

  lemma OneIdBlock(begin: Id, end: Id, x: Id, y: Id)
    requires IsBlock(begin, end, 0) && InRange(begin, end, x) && InRange(begin, end, y)
    ensures x == y
  {
    InRangeIsBetween(begin, end, x);
    InRangeIsBetween(begin, end, y);
    CompareIsValueOrder(x, y);
  }

  /** Where the two halves are after a split, and which of them an ID of the split bucket is in. */
  lemma SplitIndex(id: Id, t: Table, t': Table, other: DhtBucket, x: Id) returns (l: nat, h: nat)
    requires TableOk(id, t) && TableOk(id, t') && exists low, high :: IsSplit(id, t, t', other, low, high)
    requires BucketIndex(id, |t.buckets|, x) == |t.buckets| - 1
    ensures |t'.chain| == |t'.buckets| == |t.chain| + 1 && l < |t'.chain| && h < |t'.chain| && t'.nodes == t.nodes
    ensures t'.chain[l] == other && t'.chain[h] == t.own && (forall c :: c in t'.chain ==> c in t.chain || c == other)
    ensures BucketIndex(id, |t'.buckets|, x) == if t'.buckets[l].Has(x) then l else h
    ensures other !in t.chain && forall k :: k in t.nodes ==>
              k in t'.homes && (k in t.homes && t.homes[k] != null ==> t'.homes[k] != null)
  {
    hide TableOk, InRange, IsBlock, Distinct, BucketIndex;
    var low, high :| IsSplit(id, t, t', other, low, high);
    ChainFacts(id, t);
    SplitPositions(id, t, t', other, low, high);
    var n := |t.buckets|;
    l, h := if low.Has(id) then n else n - 1, if low.Has(id) then n - 1 else n;
    RangesPartition(id, t, x, n - 1);
    HalvesAreDisjoint(low.begin, high.end, low.end, high.begin, 8 * |id| - n, x);
    RangesPartition(id, t', x, l);
    RangesPartition(id, t', x, h);
  }

  lemma HasEnd(b: BucketState, x: Id)
    requires b.Has(x)
    ensures LessEq(x, b.end)
  {
  }

  /** The range end found for x is not after any key that is not before x. */
  lemma EndsAfter(id: Id, t: Table, x: Id, k: Id)
    requires TableOk(id, t) && k in t.keys && LessEq(x, k)
    ensures LessEq(t.buckets[BucketIndex(id, |t.buckets|, x)].end, k)
  {
    hide ListsOk, LinksOk, HomesOk, RangesOk, BucketIndex, InRange;
    var m, j := BucketIndex(id, |t.buckets|, x), BucketIndex(id, |t.buckets|, k);
    var b := t.buckets[m];
    if !LessEq(b.end, k) {
      RangesPartition(id, t, x, m);
      BetweenIsInRange(b.begin, b.end, x, k);
      RangesPartition(id, t, k, m);
      CompareIsValueOrder(b.end, k);
    }
  }

  lemma NewTableOk(id: Id, b: DhtBucket)
    requires b.fullCache.Length == CACHE_SIZE
    ensures TableOk(id, Table([b], [BucketState(ZERO_ID, ONES_ID, [], null, null)], map[ONES_ID := b], b, map[], map[]))
  {
    hide IsBlock, InBucket;
    WholeSpace(id);
  }
}
