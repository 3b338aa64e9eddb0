/** The walk over the chain of buckets, and the compact node list built from it. */
module DhtChain {
  import opened Collections
  import opened Id160
  import opened DhtBuckets
  import opened DhtTable

  /** Buckets joined in one line by their parent and child pointers, widest first. */
  ghost predicate Linked(chain: seq<DhtBucket>)
    reads chain
  {
    && Distinct(chain)
    && (forall m :: 0 <= m < |chain| ==> chain[m].parent == BucketAt(chain, m - 1))
    && (forall m :: 0 <= m < |chain| ==> chain[m].child == BucketAt(chain, m + 1))
  }

  lemma NeighboursAt(chain: seq<DhtBucket>, m: nat)
    requires Linked(chain) && m < |chain|
    ensures chain[m].parent == (if m == 0 then null else chain[m - 1])
    ensures chain[m].child == (if m + 1 == |chain| then null else chain[m + 1])
  {
  }

  /** The position in a chain of n buckets of the j-th bucket visited from bucket s. */
  function WalkIndex(n: nat, s: nat, j: nat): (m: nat)
    requires s < n && j < n
    ensures m < n
  {
    if j < n - s then s + j else n - 1 - j
  }

  /** The walk is a permutation: it reaches every bucket, at exactly one step. */
  lemma WalkVisitsEachOnce(n: nat, s: nat, m: nat, j: nat)
    requires s < n && m < n && j < n
    ensures WalkIndex(n, s, j) == m <==> j == if m >= s then m - s else n - 1 - m
  {
  }

  class DhtBucketChain {
    var restart: DhtBucket?
    var cur: DhtBucket?

    constructor (b: DhtBucket)
      ensures restart == b && cur == b
    {
      restart, cur := b, b;
    }

    /** The walk that started at bucket s has reached its j-th bucket. */
    ghost predicate At(chain: seq<DhtBucket>, s: nat, j: nat)
      requires s < |chain| && j < |chain|
      reads this
    {
      && cur == chain[WalkIndex(|chain|, s, j)]
      && restart == if j < |chain| - s then chain[s] else null
    }

    method Next(ghost chain: seq<DhtBucket>, ghost s: nat, ghost j: nat) returns (b: DhtBucket?)
      requires s < |chain| && j < |chain| && Linked(chain) && At(chain, s, j)
      modifies this
      ensures b == cur
      ensures j + 1 < |chain| ==> At(chain, s, j + 1)
      ensures j + 1 == |chain| ==> b == null
    {
      hide Linked;
      ghost var m := WalkIndex(|chain|, s, j);
      NeighboursAt(chain, m);
      NeighboursAt(chain, s);
      if restart == null {
        cur := cur.parent;
      } else {
        cur := cur.child;
        if cur == null {
          cur := restart.parent;
          restart := null;
        }
      }
      b := cur;
    }
  }

  /** The nodes that are not in `bad`, in order. */
  ghost function GoodNodes(nodes: seq<DhtNode>, bad: set<DhtNode>): seq<DhtNode> {
    if nodes == [] then [] else
      var n := nodes[|nodes| - 1];
      GoodNodes(nodes[..|nodes| - 1], bad) + if n in bad then [] else [n]
  }

  /** The good nodes met in the first j buckets of the walk from bucket s, in walk order. */
  ghost function Met(lists: seq<seq<DhtNode>>, bad: set<DhtNode>, s: nat, j: nat): seq<DhtNode>
    requires s < |lists| && j <= |lists|
  {
    if j == 0 then []
    else Met(lists, bad, s, j - 1) + GoodNodes(lists[WalkIndex(|lists|, s, j - 1)], bad)
  }

  function FirstEight<T>(s: seq<T>): (r: seq<T>)
  {
    if |s| <= NUM_NODES then s else s[..NUM_NODES]
  }

  /** The record of a node, as a reader of compact node information takes it apart: 20 bytes of ID, then
      6 of address and port. */
  ghost predicate IsRecord(record: seq<Byte>, n: DhtNode) {
    |record| == COMPACT_SIZE && record[..20] == n.id && record[20..] == n.address
  }

  method StoreCompact(n: DhtNode, buffer: array<Byte>, pos: nat) returns (end: nat)
    requires pos + COMPACT_SIZE <= buffer.Length
    modifies buffer
    ensures end == pos + COMPACT_SIZE
    ensures buffer[..pos] == old(buffer[..pos]) && IsRecord(buffer[pos..end], n) && buffer[end..] == old(buffer[end..])
  {
    end := pos + COMPACT_SIZE;
    forall k | 0 <= k < 20 {
      buffer[pos + k] := n.id[k];
    }
    forall k | 0 <= k < 6 {
      buffer[pos + 20 + k] := n.address[k];
    }
    assert buffer[pos..end][..20] == n.id && buffer[pos..end][20..] == n.address;
  }

  lemma {:induction false} GoodNodesPrefix(nodes: seq<DhtNode>, bad: set<DhtNode>, i: nat)
    requires i <= |nodes|
    ensures GoodNodes(nodes[..i], bad) <= GoodNodes(nodes, bad)
  {
    if i < |nodes| {
      GoodNodesPrefix(nodes[..|nodes| - 1], bad, i);
      assert nodes[..|nodes| - 1][..i] == nodes[..i];
    } else {
      assert nodes[..i] == nodes;
    }
  }

  lemma {:induction false} MetPrefix(lists: seq<seq<DhtNode>>, bad: set<DhtNode>, s: nat, j: nat, k: nat)
    requires s < |lists| && j <= k <= |lists|
    ensures Met(lists, bad, s, j) <= Met(lists, bad, s, k)
  {
    if j < k { MetPrefix(lists, bad, s, j, k - 1); }
  }

  lemma FirstEightOfPrefix<T>(a: seq<T>, b: seq<T>)
    requires a <= b && |FirstEight(a)| == NUM_NODES
    ensures FirstEight(a) == FirstEight(b)
  {
  }

  /** The records of the nodes, one after the other. */
  ghost predicate Records(buffer: seq<Byte>, nodes: seq<DhtNode>) {
    && COMPACT_SIZE * |nodes| <= |buffer|
    && forall k :: 0 <= k < |nodes| ==> IsRecord(buffer[COMPACT_SIZE * k..COMPACT_SIZE * k + COMPACT_SIZE], nodes[k])
  }

  /** The buffer holds the first eight of the nodes met so far. */
  ghost predicate Stored(buffer: seq<Byte>, pos: nat, met: seq<DhtNode>) {
    pos == COMPACT_SIZE * |FirstEight(met)| && Records(buffer, FirstEight(met))
  }

  lemma OneMoreRecord(buffer: seq<Byte>, buffer': seq<Byte>, nodes: seq<DhtNode>, n: DhtNode)
    requires var pos := COMPACT_SIZE * |nodes|;
             && Records(buffer, nodes) && |buffer'| == |buffer| && pos + COMPACT_SIZE <= |buffer|
             && buffer'[..pos] == buffer[..pos] && IsRecord(buffer'[pos..pos + COMPACT_SIZE], n)
    ensures Records(buffer', nodes + [n])
  {
    hide IsRecord;
    forall k | 0 <= k < |nodes|
      ensures IsRecord(buffer'[COMPACT_SIZE * k..COMPACT_SIZE * k + COMPACT_SIZE], nodes[k]) {
      var i, pos := COMPACT_SIZE * k, COMPACT_SIZE * |nodes|;
      assert buffer'[i..i + COMPACT_SIZE] == buffer'[..pos][i..i + COMPACT_SIZE] == buffer[i..i + COMPACT_SIZE];
    }
  }

  lemma StoredOneMore(buffer: seq<Byte>, buffer': seq<Byte>, pos: nat, met: seq<DhtNode>, n: DhtNode)
    requires Stored(buffer, pos, met) && |buffer'| == |buffer| == CACHE_SIZE && pos < CACHE_SIZE
    requires buffer'[..pos] == buffer[..pos] && IsRecord(buffer'[pos..pos + COMPACT_SIZE], n)
    ensures Stored(buffer', pos + COMPACT_SIZE, met + [n])
  {
    hide Records, IsRecord;
    assert FirstEight(met) == met && FirstEight(met + [n]) == met + [n];
    OneMoreRecord(buffer, buffer', met, n);
  }

  lemma StoredWhenFull(buffer: seq<Byte>, pos: nat, met: seq<DhtNode>, all: seq<DhtNode>)
    requires Stored(buffer, pos, met) && pos >= CACHE_SIZE && met <= all
    ensures Stored(buffer, pos, all)
  {
    FirstEightOfPrefix(met, all);
  }

  /** One more node is stored, while there is room. */
  method StoreNode(n: DhtNode, buffer: array<Byte>, start: nat, ghost met: seq<DhtNode>) returns (pos: nat)
    requires buffer.Length == CACHE_SIZE && start < CACHE_SIZE && Stored(buffer[..], start, met)
    modifies buffer
    ensures Stored(buffer[..], pos, met + [n])
  {
    hide Records, IsRecord;
    ghost var before := buffer[..];
    pos := StoreCompact(n, buffer, start);
    StoredOneMore(before, buffer[..], start, met, n);
  }

  /** Stores the non-bad nodes of one bucket, as far as there is room. */
  method StoreBucket(nodes: seq<DhtNode>, buffer: array<Byte>, start: nat, ghost met: seq<DhtNode>,
      ghost bad: set<DhtNode>) returns (pos: nat)
    requires buffer.Length == CACHE_SIZE && Stored(buffer[..], start, met)
    requires forall n :: n in nodes ==> (n in bad <==> n.IsBad())
    modifies buffer
    ensures Stored(buffer[..], pos, met + GoodNodes(nodes, bad))
  {
    hide Stored;
    pos := start;
    ghost var now := met;
    var i := 0;
    while i < |nodes| && pos < CACHE_SIZE
      invariant 0 <= i <= |nodes|
      invariant now == met + GoodNodes(nodes[..i], bad)
      invariant Stored(buffer[..], pos, now)
    {
      assert nodes[..i + 1][..i] == nodes[..i];
      if !nodes[i].IsBad() {
        pos := StoreNode(nodes[i], buffer, pos, now);
        now := now + [nodes[i]];
      }
      i := i + 1;
    }
    GoodNodesPrefix(nodes, bad, i);
    if i < |nodes| {
      StoredWhenFull(buffer[..], pos, now, met + GoodNodes(nodes, bad));
    } else {
      assert nodes[..i] == nodes;
    }
  }

  /** What the walk reads, all of it within `repr`: the chain, its node lists, and which nodes are bad. */
  ghost predicate Snapshot(chain: seq<DhtBucket>, lists: seq<seq<DhtNode>>, bad: set<DhtNode>, repr: set<object>)
    reads repr
  {
    && (forall b: DhtBucket :: b in chain ==> b in repr)
    && (forall m, n: DhtNode :: 0 <= m < |lists| && n in lists[m] ==> n in repr && (n in bad <==> n.IsBad()))
    && Linked(chain) && |lists| == |chain|
    && (forall m :: 0 <= m < |chain| ==> lists[m] == chain[m].nodes)
  }

  /** One round of the loop: on to the next bucket, if there is one, and store its nodes. */
  method StoreNext(walk: DhtBucketChain, buffer: array<Byte>, start: nat, ghost chain: seq<DhtBucket>, ghost s: nat,
      ghost j: nat,
                   ghost lists: seq<seq<DhtNode>>, ghost bad: set<DhtNode>, ghost repr: set<object>)
    returns (more: bool, pos: nat)
    requires Snapshot(chain, lists, bad, repr) && s < |chain| && j < |chain| && walk.At(chain, s, j)
    requires walk !in repr && buffer !in repr && buffer.Length == CACHE_SIZE
             && Stored(buffer[..], start, Met(lists, bad, s, j + 1))
    modifies walk, buffer
    ensures more == (j + 1 < |chain|)
    ensures more ==> walk.At(chain, s, j + 1) && Stored(buffer[..], pos, Met(lists, bad, s, j + 2))
    ensures !more ==> Stored(buffer[..], pos, Met(lists, bad, s, j + 1))
  {
    var b := walk.Next(chain, s, j);
    if b == null { return false, start; }
    ghost var m := WalkIndex(|chain|, s, j + 1);
    assert b == chain[m] && b.nodes == lists[m];
    pos := StoreBucket(b.nodes, buffer, start, Met(lists, bad, s, j + 1), bad);
    more := true;
  }

  /** Walks the chain from bucket s and stores the non-bad nodes met until the buffer is full. */
  method StoreWalk(bucket: DhtBucket, buffer: array<Byte>, ghost chain: seq<DhtBucket>, ghost s: nat,
                   ghost lists: seq<seq<DhtNode>>, ghost bad: set<DhtNode>, ghost repr: set<object>)
    returns (pos: nat)
    requires Snapshot(chain, lists, bad, repr) && s < |chain| && chain[s] == bucket && buffer !in repr
             && buffer.Length == CACHE_SIZE
    modifies buffer
    ensures Stored(buffer[..], pos, Met(lists, bad, s, |lists|))
  {
    pos := StoreBucket(bucket.nodes, buffer, 0, Met(lists, bad, s, 0), bad);
    pos := StoreRest(bucket, buffer, pos, chain, s, lists, bad, repr);
  }

  /** Walks on from bucket s, whose own nodes are stored already. */
  method StoreRest(bucket: DhtBucket, buffer: array<Byte>, start: nat, ghost chain: seq<DhtBucket>, ghost s: nat,
                   ghost lists: seq<seq<DhtNode>>, ghost bad: set<DhtNode>, ghost repr: set<object>)
    returns (pos: nat)
    requires Snapshot(chain, lists, bad, repr) && |lists| == |chain| && s < |chain| && chain[s] == bucket
    requires buffer !in repr && buffer.Length == CACHE_SIZE
    requires Stored(buffer[..], start, Met(lists, bad, s, 1))
    modifies buffer
    ensures Stored(buffer[..], pos, Met(lists, bad, s, |lists|))
  {
    hide Stored, Met, GoodNodes, Snapshot;
    var walk := new DhtBucketChain(bucket);
    ghost var j := 0;
    pos := start;
    while pos < CACHE_SIZE
      invariant j < |chain| && walk.At(chain, s, j) && Snapshot(chain, lists, bad, repr)
      invariant Stored(buffer[..], pos, Met(lists, bad, s, j + 1))
      decreases |chain| - j
    {
      var more;
      more, pos := StoreNext(walk, buffer, pos, chain, s, j, lists, bad, repr);
      if !more { return; }
      j := j + 1;
    }
    MetPrefix(lists, bad, s, j + 1, |lists|);
    StoredWhenFull(buffer[..], pos, Met(lists, bad, s, j + 1), Met(lists, bad, s, |lists|));
  }

  /** Fills the bucket's cache with the compact form of the first eight non-bad nodes of the walk. */
  method BuildFullCache(bucket: DhtBucket, ghost chain: seq<DhtBucket>, ghost s: nat,
                        ghost lists: seq<seq<DhtNode>>, ghost bad: set<DhtNode>, ghost repr: set<object>)
    requires Snapshot(chain, lists, bad, repr) && s < |chain| && chain[s] == bucket
    requires bucket.fullCache !in repr && bucket.fullCache.Length == CACHE_SIZE
    modifies bucket`fullCacheLength, bucket.fullCache
    ensures Stored(bucket.fullCache[..], bucket.fullCacheLength, Met(lists, bad, s, |lists|))
  {
    var pos := StoreWalk(bucket, bucket.fullCache, chain, s, lists, bad, repr);
    bucket.fullCacheLength := pos;
  }
}
