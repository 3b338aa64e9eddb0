/** Who is in the bucket for an ID as the router's own bucket is split again and again: the nodes that share
    with the router as many leading bits of their ID, up to what the table tells apart. */
module DhtRoom {
  import opened Collections
  import opened Id160
  import opened DhtRange
  import opened DhtMetric
  import opened DhtBuckets
  import opened DhtTable

  /** How many leading bits an ID shares with the router's. */
  function Depth(id: Id, x: Id): (d: nat)
    ensures d <= 8 * |id|
  {
    BucketIndex(id, 8 * |id| + 1, x)
  }

  lemma {:induction false} CoarserIndex(w: nat, n: nat, k: nat, d: nat)
    requires 0 < n <= k <= w + 1
    ensures BucketAtDistance(w, n, d) ==
            if BucketAtDistance(w, k, d) < n - 1 then BucketAtDistance(w, k, d) else n - 1
    decreases k
  {
    if k > n {
      CoarserIndex(w, n, k - 1, d);
      Pow2Monotone(w + 1 - k, w + 1 - n);
    }
  }

  /** A table of n buckets tells depths apart below n - 1. */
  lemma IndexIsDepth(id: Id, n: nat, x: Id)
    requires 0 < n <= 8 * |id| + 1
    ensures BucketIndex(id, n, x) == if Depth(id, x) < n - 1 then Depth(id, x) else n - 1
  {
    CoarserIndex(8 * |id|, n, 8 * |id| + 1, Xor(Val(x), Val(id)));
  }

  lemma DepthOfOwn(id: Id)
    ensures Depth(id, id) == 8 * |id|
  {
    XorZero(Val(id), Val(id));
  }

  /** All nodes are as deep as x. */
  ghost predicate Alike(id: Id, x: Id, nodes: seq<DhtNode>) {
    forall n :: n in nodes ==> Depth(id, n.id) == Depth(id, x)
  }

  /** The nodes in the bucket for x. */
  ghost function Neighbours(id: Id, t: Table, x: Id): seq<DhtNode>
  {
    if 0 < |t.buckets| <= 8 * |id| + 1 then t.buckets[BucketIndex(id, |t.buckets|, x)].nodes else []
  }

  /** Every known node has its place, but the one with ID x. */
  ghost predicate AllButPlaced(t: Table, x: Id) {
    x in t.homes && t.homes[x] == null && forall k :: k in t.nodes && k != x ==> k in t.homes && t.homes[k] != null
  }

  lemma ListedIsKnown(id: Id, t: Table, m: nat, n: DhtNode)
    requires TableOk(id, t) && m < |t.buckets| && n in t.buckets[m].nodes
    ensures n.id in t.nodes && t.nodes[n.id] == n && n.id in t.homes && t.homes[n.id] == t.chain[m]
  {
    hide RangesOk, LinksOk, KeysOk, InRange, BucketIndex;
    assert ListOk(t.buckets[m], t.nodes);
    OnlyInItsBucket(id, t, m, n);
  }

  /** The neighbours of x are the known nodes that the table does not tell from it. */
  lemma NeighbourIs(id: Id, t: Table, x: Id, n: DhtNode)
    requires TableOk(id, t) && AllButPlaced(t, x)
    ensures 0 < |t.buckets| <= 8 * |id| + 1
    ensures n in Neighbours(id, t, x) <==>
              n.id in t.nodes && t.nodes[n.id] == n && n.id != x
                && BucketIndex(id, |t.buckets|, n.id) == BucketIndex(id, |t.buckets|, x)
  {
    hide RangesOk, ListsOk, LinksOk, KeysOk, HomesOk, BucketIndex;
    var m := BucketIndex(id, |t.buckets|, x);
    if n in Neighbours(id, t, x) {
      ListedIsKnown(id, t, m, n);
      OnlyInItsBucket(id, t, m, n);
    } else if n.id in t.nodes && t.nodes[n.id] == n {
      HomeIsItsBucket(id, t, n);
    }
  }

  lemma NeighboursOk(id: Id, t: Table, x: Id)
    requires TableOk(id, t)
    ensures 0 < |t.buckets| <= 8 * |id| + 1 && |Neighbours(id, t, x)| <= NUM_NODES && Distinct(Neighbours(id, t, x))
  {
    hide RangesOk, LinksOk, KeysOk, HomesOk, BucketIndex, Distinct;
    assert ListOk(t.buckets[BucketIndex(id, |t.buckets|, x)], t.nodes);
  }

  /** With more buckets, x has no other neighbours than before. */
  lemma FewerNeighbours(id: Id, t0: Table, t: Table, x: Id, n: DhtNode)
    requires TableOk(id, t0) && TableOk(id, t) && AllButPlaced(t0, x) && AllButPlaced(t, x)
    requires t.nodes == t0.nodes && |t0.buckets| <= |t.buckets|
    ensures 0 < |t0.buckets| <= |t.buckets| <= 8 * |id| + 1
    ensures n in Neighbours(id, t, x) ==> n in Neighbours(id, t0, x)
    ensures n in Neighbours(id, t0, x) && Depth(id, n.id) == Depth(id, x) ==> n in Neighbours(id, t, x)
    ensures n in Neighbours(id, t, x) && BucketIndex(id, |t.buckets|, x) < |t.buckets| - 1 ==>
              Depth(id, n.id) == Depth(id, x) && x != id
  {
    hide TableOk, BucketIndex, Neighbours, Depth, AllButPlaced;
    NeighbourIs(id, t0, x, n);
    NeighbourIs(id, t, x, n);
    IndexIsDepth(id, |t0.buckets|, x);
    IndexIsDepth(id, |t.buckets|, x);
    IndexIsDepth(id, |t0.buckets|, n.id);
    IndexIsDepth(id, |t.buckets|, n.id);
    DepthOfOwn(id);
  }

  /** A sequence without repetitions that is as long as one that holds all its elements holds all of that. */
  lemma {:induction false} AsMany<T>(a: seq<T>, b: seq<T>)
    requires Distinct(a) && Distinct(b) && |a| >= |b| && forall x :: x in a ==> x in b
    ensures forall x :: x in b ==> x in a
  {
    if b != [] {
      var k := |a| - 1;
      assert a[k] in b;
      var i :| 0 <= i < |b| && b[i] == a[k];
      var c := b[..i] + b[i + 1..];
      assert forall x :: x in b <==> x in c || x == a[k];
      assert Distinct(c) && a[k] !in a[..k];
      AsMany(a[..k], c);
    }
  }

  /** After splits, x has either the same eight neighbours, or fewer because they are not all as deep. */
  lemma AfterSplits(id: Id, t0: Table, t: Table, x: Id)
    requires TableOk(id, t0) && TableOk(id, t) && AllButPlaced(t0, x) && AllButPlaced(t, x)
    requires t.nodes == t0.nodes && |t0.buckets| <= |t.buckets|
    ensures 0 < |t0.buckets| <= |t.buckets| <= 8 * |id| + 1
    ensures |Neighbours(id, t, x)| >= NUM_NODES ==>
              forall n :: n in Neighbours(id, t, x) <==> n in Neighbours(id, t0, x)
    ensures |Neighbours(id, t, x)| >= NUM_NODES && BucketIndex(id, |t.buckets|, x) < |t.buckets| - 1 ==>
              x != id && Alike(id, x, Neighbours(id, t0, x))
    ensures |Neighbours(id, t, x)| < NUM_NODES <= |Neighbours(id, t0, x)| ==> !Alike(id, x, Neighbours(id, t0, x))
  {
    hide TableOk, BucketIndex, Neighbours, Depth, AllButPlaced, Distinct;
    NeighboursOk(id, t0, x);
    NeighboursOk(id, t, x);
    var a, b := Neighbours(id, t, x), Neighbours(id, t0, x);
    forall i | 0 <= i < |a| ensures a[i] in b { FewerNeighbours(id, t0, t, x, a[i]); }
    forall i | 0 <= i < |b| && Depth(id, b[i].id) == Depth(id, x)
      ensures b[i] in a { FewerNeighbours(id, t0, t, x, b[i]); }
    if |a| >= NUM_NODES {
      AsMany(a, b);
      forall n | n in b && BucketIndex(id, |t.buckets|, x) < |t.buckets| - 1
        ensures Depth(id, n.id) == Depth(id, x) && x != id {
        FewerNeighbours(id, t0, t, x, n);
      }
      FewerNeighbours(id, t0, t, x, a[0]);
    } else if |b| >= NUM_NODES && Alike(id, x, b) {
      TooFew(b, a);
    }
  }

  lemma {:induction false} TooFew<T>(b: seq<T>, a: seq<T>)
    requires Distinct(b) && forall x :: x in b ==> x in a
    ensures |b| <= |a|
  {
    if b != [] {
      var k := |b| - 1;
      assert b[k] in a;
      var i :| 0 <= i < |a| && a[i] == b[k];
      var c := a[..i] + a[i + 1..];
      assert forall x :: x in a ==> x in c || x == b[k];
      TooFew(b[..k], c);
    }
  }
}
