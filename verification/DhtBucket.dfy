/** Nodes and buckets of the routing table, and the chain of buckets walked to answer find_node. */
module DhtBuckets {
  import opened Collections
  import opened Id160
  import opened DhtRange

  const NUM_NODES: nat := 8
  const COMPACT_SIZE: nat := 26
  const CACHE_SIZE: nat := 208
  const MAX_FAILED_REPLIES: nat := 5
  const UINT_MAX: nat := 0xFFFF_FFFF

  type Address = s: seq<Byte> | |s| == 6 witness seq(6, _ => 0)
  type Seconds = x: nat | x <= UINT_MAX

  class DhtNode {
    const id: Id
    const address: Address
    var lastSeen: Seconds
    var failedReplies: nat
    var bucket: DhtBucket?

    constructor (id: Id, address: Address, lastSeen: Seconds)
      ensures this.id == id && this.address == address && this.lastSeen == lastSeen
      ensures failedReplies == 0 && bucket == null
    {
      this.id, this.address, this.lastSeen := id, address, lastSeen;
      failedReplies, bucket := 0, null;
    }

    predicate IsBad()
      reads this`failedReplies
    {
      failedReplies >= MAX_FAILED_REPLIES
    }
  }

  /** The fields of a bucket that make up its part of the routing table. */
  datatype BucketState = BucketState(begin: Id, end: Id, nodes: seq<DhtNode>, parent: DhtBucket?, child: DhtBucket?) {
    predicate Has(x: Id) { InRange(begin, end, x) }
  }

  /** `ys`, with `carry` in front of it, is `xs` plus one. */
  ghost predicate IsIncrement(xs: seq<Byte>, ys: seq<Byte>, carry: nat) {
    |xs| == |ys| && Val(ys) + carry * Radix(|ys|) == Val(xs) + 1
  }

  method Successor(x: Id) returns (y: Id)
    ensures Val(y) == (Val(x) + 1) % Radix(|x|)
  {
    hide Val, Radix, IsIncrement;
    y := x;
    var carry: nat := 1;
    var i := SIZE;
    NoIncrement();
    assert x[i..] == [] && y[i..] == [];
    while i > 0
      invariant 0 <= i <= SIZE
      invariant IsIncrement(x[i..], y[i..], carry)
    {
      var sum := x[i - 1] as int + carry;
      ghost var tail := y[i..];
      CarryStep(x[i - 1], x[i..], tail, carry, sum / 256, (sum % 256) as Byte);
      y := y[i - 1 := (sum % 256) as Byte];
      assert y[i - 1..] == [(sum % 256) as Byte] + tail;
      assert x[i - 1..] == [x[i - 1]] + x[i..];
      carry := sum / 256;
      i := i - 1;
    }
    assert y[0..] == y && x[0..] == x;
    IncrementIsModular(x, y, carry);
  }

  lemma NoIncrement()
    ensures IsIncrement([], [], 1)
  {
    assert Radix(0) == 1;
  }

  lemma IncrementIsModular(x: Id, y: Id, carry: nat)
    requires IsIncrement(x, y, carry)
    ensures Val(y) == (Val(x) + 1) % Radix(|x|)
  {
    hide Val, Radix;
    ValBound(y);
    DivisionIsUnique(Val(x) + 1, carry, Val(y), Radix(|x|));
  }

  /** One byte of the addition, with its carry. */
  lemma CarryStep(x: Byte, xs: seq<Byte>, ys: seq<Byte>, carry: nat, q: nat, r: Byte)
    requires IsIncrement(xs, ys, carry) && r as int + q * 256 == x as int + carry
    ensures IsIncrement([x] + xs, [r] + ys, q)
  {
    ValCons(r, ys);
    ValCons(x, xs);
    CarryArithmetic(x as int, carry, q, r as int, Radix(|ys|), Radix(|ys| + 1));
  }

  lemma CarryArithmetic(x: int, carry: int, q: int, r: int, p: int, p': int)
    requires r + q * 256 == x + carry && p' == 256 * p
    ensures r * p + q * p' == x * p + carry * p
  {
    assert r * p + q * p' == (r + q * 256) * p;
  }

  /** std::partition by range: which side each node lands on is fixed, the order is not. */
  method Partition(nodes: seq<DhtNode>, begin: Id, end: Id) returns (inside: seq<DhtNode>, outside: seq<DhtNode>)
    ensures multiset(inside) + multiset(outside) == multiset(nodes)
    ensures forall n :: n in inside <==> n in nodes && InRange(begin, end, n.id)
    ensures forall n :: n in outside <==> n in nodes && !InRange(begin, end, n.id)
    ensures |inside| + |outside| == |nodes|
    ensures Distinct(nodes) ==> Distinct(inside) && Distinct(outside)
  {
    hide InRange;
    inside, outside := [], [];
    var i := 0;
    while i < |nodes|
      invariant 0 <= i <= |nodes| && |inside| + |outside| == i
      invariant multiset(inside) + multiset(outside) == multiset(nodes[..i])
      invariant forall n :: n in inside <==> n in nodes[..i] && InRange(begin, end, n.id)
      invariant forall n :: n in outside <==> n in nodes[..i] && !InRange(begin, end, n.id)
      invariant Distinct(nodes) ==> Distinct(inside) && Distinct(outside)
    {
      assert nodes[..i + 1] == nodes[..i] + [nodes[i]];
      if InRange(begin, end, nodes[i].id) {
        inside := inside + [nodes[i]];
      } else {
        outside := outside + [nodes[i]];
      }
      i := i + 1;
    }
    assert nodes[..i] == nodes;
  }

  method SetBuckets(nodes: seq<DhtNode>, bucket: DhtBucket)
    modifies (set n | n in nodes)`bucket
    ensures forall n :: n in nodes ==> n.bucket == bucket
  {
    var i := 0;
    while i < |nodes|
      invariant 0 <= i <= |nodes|
      invariant forall j :: 0 <= j < i ==> nodes[j].bucket == bucket
    {
      nodes[i].bucket := bucket;
      i := i + 1;
    }
  }

  ghost predicate NoneBadIn(nodes: seq<DhtNode>)
    reads (set n | n in nodes)`failedReplies
  {
    forall n :: n in nodes ==> !n.IsBad()
  }

  ghost predicate NoneOlderIn(nodes: seq<DhtNode>)
    reads (set n | n in nodes)`lastSeen
  {
    forall n :: n in nodes ==> n.lastSeen == UINT_MAX
  }

  class DhtBucket {
    var begin: Id
    const end: Id
    var nodes: seq<DhtNode>
    var parent: DhtBucket?
    var child: DhtBucket?
    const fullCache: array<Byte>
    var fullCacheLength: nat

    constructor (begin: Id, end: Id)
      ensures this.begin == begin && this.end == end && nodes == []
      ensures parent == null && child == null
      ensures fresh(fullCache) && fullCache.Length == CACHE_SIZE && fullCacheLength == 0
    {
      this.begin, this.end := begin, end;
      nodes, parent, child := [], null, null;
      fullCache := new Byte[CACHE_SIZE];
      fullCacheLength := 0;
    }

    function State(): BucketState
      reads this
    {
      BucketState(begin, end, nodes, parent, child)
    }

    predicate IsInRange(id: Id)
      reads this
    {
      InRange(begin, end, id)
    }

    predicate IsFull()
      reads this
    {
      |nodes| >= NUM_NODES
    }

    /** The midpoint of the range: its lower half is begin..middle. */
    method GetMidPoint(ghost bits: nat) returns (middle: Id)
      requires IsBlock(begin, end, bits) && bits > 0
      ensures middle == end[SplitByte(bits) := Average(begin[SplitByte(bits)], end[SplitByte(bits)])]
      ensures Val(middle) == Val(begin) + Pow2(bits - 1) - 1
    {
      middle := end;
      ghost var split := SplitByte(bits);
      var i := 0;
      while i < SIZE && begin[i] == end[i]
        invariant 0 <= i <= split
        invariant begin[..i] == end[..i]
      {
        assert i != split;
        i := i + 1;
      }
      middle := end[i := Average(begin[i], end[i])];
      LowerHalf(begin, end, bits, middle);
      BlockValues(begin, middle, bits - 1);
    }

    /** Each byte is drawn between the two ends; the random number's low byte is what matters. Every ID of
        the range can be drawn. */
    method GetRandomId(random: seq<nat>, ghost bits: nat) returns (id: Id)
      requires |random| == SIZE
      requires IsBlock(begin, end, bits)
      ensures IsInRange(id)
      ensures forall x: Id :: InRange(begin, end, x) && Draws(random, begin, x) ==> id == x
    {
      hide IsBlock, InRange, BitAnd;
      id := begin;
      var i := 0;
      while i < SIZE
        invariant 0 <= i <= SIZE
        invariant forall j :: 0 <= j < i ==>
                    && begin[j] <= id[j] <= end[j]
                    && id[j] as int == begin[j] as int + BitAnd(random[j] % 256, end[j] as int - begin[j] as int)
      {
        BlockBytes(begin, end, bits, i);
        id := id[i := ((begin[i] as int + BitAnd(random[i] % 256, end[i] as int - begin[i] as int)) % 256) as Byte];
        i := i + 1;
      }
      BytewiseInBlock(begin, end, bits, id);
      forall x: Id | InRange(begin, end, x) && Draws(random, begin, x) ensures id == x {
        Drawn(begin, end, bits, random, x, id);
      }
    }

    /** Splits the range in two. The new bucket takes the lower half, this one keeps the upper half;
        whichever of the two holds `id` becomes the child of the other. */
    method Split(id: Id, ghost bits: nat) returns (other: DhtBucket)
      requires IsBlock(begin, end, bits) && bits > 0 && parent != this
      modifies this, (if parent == null then {} else {parent})`child, (set n | n in nodes)`bucket
      ensures fresh(other) && fresh(other.fullCache) && other.fullCache.Length == CACHE_SIZE
              && other.fullCacheLength == 0
      ensures other.begin == old(begin) && Val(begin) == Val(other.end) + 1
      ensures IsBlock(other.begin, other.end, bits - 1) && IsBlock(begin, end, bits - 1)
      ensures multiset(nodes) + multiset(other.nodes) == multiset(old(nodes)) && |nodes| + |other.nodes| == |old(nodes)|
      ensures forall n :: n in nodes <==> n in old(nodes) && InRange(begin, end, n.id)
      ensures forall n :: n in other.nodes <==> n in old(nodes) && !InRange(begin, end, n.id)
      ensures old(Distinct(nodes)) ==> Distinct(nodes) && Distinct(other.nodes)
      ensures forall n :: n in old(nodes) ==> n.bucket == if n in nodes then old(n.bucket) else other
      ensures if other.IsInRange(id)
              then child == other && parent == old(parent) && other.parent == this && other.child == null
                   && (old(parent) != null ==> old(parent).child == old(parent.child))
              else child == old(child) && parent == other && other.parent == old(parent) && other.child == this
                   && (old(parent) != null ==> old(parent).child == other)
      ensures fullCacheLength == old(fullCacheLength)
    {
      other := SplitRange(bits);
      var inside, outside := Partition(nodes, begin, end);
      other.nodes := outside;
      SetBuckets(outside, other);
      nodes := inside;
      Link(other, id);
    }

    /** Cuts this range down to its upper half and makes an empty bucket for the lower half. */
    method SplitRange(ghost bits: nat) returns (other: DhtBucket)
      requires IsBlock(begin, end, bits) && bits > 0
      modifies this`begin
      ensures fresh(other) && fresh(other.fullCache) && other.fullCache.Length == CACHE_SIZE
              && other.fullCacheLength == 0
      ensures other.nodes == [] && other.parent == null && other.child == null
      ensures other.begin == old(begin) && Val(begin) == Val(other.end) + 1
      ensures IsBlock(other.begin, other.end, bits - 1) && IsBlock(begin, end, bits - 1)
    {
      hide Val, Radix, IsBlock, Pow2, Average, SplitByte;
      var middle := GetMidPoint(bits);
      other := new DhtBucket(begin, middle);
      var upper := Successor(middle);
      MiddleHasSuccessor(begin, end, bits, middle);
      BlockHalves(begin, end, bits, middle, upper);
      begin := upper;
    }

    method Link(other: DhtBucket, id: Id)
      requires other.parent == null && other.child == null && other != this && parent != this && parent != other
      modifies this`parent, this`child, other`parent, other`child, (if parent == null then {} else {parent})`child
      ensures if other.IsInRange(id)
              then child == other && parent == old(parent) && other.parent == this && other.child == null
                   && (old(parent) != null ==> old(parent).child == old(parent.child))
              else child == old(child) && parent == other && other.parent == old(parent) && other.child == this
                   && (old(parent) != null ==> old(parent).child == other)
    {
      if other.IsInRange(id) {
        child := other;
        other.parent := this;
      } else {
        if parent != null {
          parent.child := other;
          other.parent := parent;
        }
        parent := other;
        other.child := this;
      }
    }

    method AddNode(n: DhtNode)
      modifies this`nodes, this`fullCacheLength
      ensures nodes == old(nodes) + [n] && fullCacheLength == 0
    {
      nodes := nodes + [n];
      fullCacheLength := 0;
    }

    /** Removes the first occurrence; the source throws when there is none. */
    method RemoveNode(n: DhtNode)
      requires n in nodes
      modifies this`nodes, this`fullCacheLength
      ensures exists i :: 0 <= i < |old(nodes)| && old(nodes)[i] == n && nodes == old(nodes)[..i] + old(nodes)[i + 1..]
      ensures old(Distinct(nodes)) ==> Distinct(nodes) && forall x :: x in nodes <==> x in old(nodes) && x != n
      ensures fullCacheLength == 0
    {
      var i := 0;
      while nodes[i] != n
        invariant 0 <= i < |nodes|
        invariant n in nodes[i..]
        decreases |nodes| - i
      {
        assert nodes[i..] == [nodes[i]] + nodes[i + 1..];
        i := i + 1;
      }
      nodes := nodes[..i] + nodes[i + 1..];
      fullCacheLength := 0;
    }

    ghost predicate NoneBad()
      reads this, nodes
    {
      NoneBadIn(nodes)
    }

    /** All nodes have the largest time there is, so that none counts as older. */
    ghost predicate NoneOlder()
      reads this, nodes
    {
      NoneOlderIn(nodes)
    }

    /** Node i is the first bad one, or, if none is bad or only age counts, the first of those not
        seen for longest. */
    ghost predicate IsCandidate(i: nat, onlyOldest: bool)
      reads this, nodes
    {
      && i < |nodes|
      && if !onlyOldest && !NoneBad()
         then nodes[i].IsBad() && forall j :: 0 <= j < i ==> !nodes[j].IsBad()
         else && (forall j :: 0 <= j < |nodes| ==> nodes[i].lastSeen <= nodes[j].lastSeen)
              && (forall j :: 0 <= j < i ==> nodes[i].lastSeen < nodes[j].lastSeen)
    }

    /** The node to give up its place; none exactly when no node counts as bad and none has a
        last-seen time below the largest one. */
    method FindReplacementCandidate(onlyOldest: bool) returns (candidate: DhtNode?)
      ensures candidate != null ==>
                candidate in nodes && exists i: nat :: IsCandidate(i, onlyOldest) && nodes[i] == candidate
      ensures candidate == null <==> (onlyOldest || NoneBad()) && NoneOlder()
      ensures candidate != null && !onlyOldest ==> (candidate.IsBad() <==> !NoneBad())
    {
      candidate := null;
      var oldest := UINT_MAX;
      var i := 0;
      ghost var c: nat := 0;
      while i < |nodes|
        invariant 0 <= i <= |nodes|
        invariant candidate == null ==> oldest == UINT_MAX
        invariant candidate != null ==> c < i && nodes[c] == candidate && candidate.lastSeen == oldest < UINT_MAX
        invariant forall j :: 0 <= j < i ==> (onlyOldest || !nodes[j].IsBad()) && oldest <= nodes[j].lastSeen
        invariant candidate != null ==> forall j :: 0 <= j < c ==> oldest < nodes[j].lastSeen
      {
        if nodes[i].IsBad() && !onlyOldest {
          candidate := nodes[i];
          assert IsCandidate(i, onlyOldest);
          return;
        }
        if nodes[i].lastSeen < oldest {
          oldest := nodes[i].lastSeen;
          candidate := nodes[i];
          c := i;
        }
        i := i + 1;
      }
      assert candidate != null ==> IsCandidate(c, onlyOldest);
    }
  }

  lemma MiddleHasSuccessor(begin: Id, end: Id, bits: nat, middle: Id)
    requires IsBlock(begin, end, bits) && bits > 0
    requires Val(middle) == Val(begin) + Pow2(bits - 1) - 1
    ensures (Val(middle) + 1) % Radix(|middle|) == Val(middle) + 1
  {
    hide Val, Radix, IsBlock;
    BlockValues(begin, end, bits);
    ValBound(end);
    DivisionIsUnique(Val(middle) + 1, 0, Val(middle) + 1, Radix(|middle|));
  }

  lemma BlockBytes(begin: Id, end: Id, bits: nat, i: nat)
    requires IsBlock(begin, end, bits) && i < SIZE
    ensures begin[i] <= end[i] && IsMask(end[i] as int - begin[i] as int)
  {
    if bits > 0 {
      var s := SplitByte(bits);
      if i < s { assert begin[..s][i] == end[..s][i]; }
    }
  }

  /** Staying between the ends in every byte keeps an ID inside the block. */
  lemma BytewiseInBlock(begin: Id, end: Id, bits: nat, id: Id)
    requires IsBlock(begin, end, bits)
    requires forall j :: 0 <= j < SIZE ==> begin[j] <= id[j] <= end[j]
    ensures InRange(begin, end, id)
  {
    BytewiseOrder(begin, id);
    BytewiseOrder(id, end);
  }

  /** The random numbers that an ID takes to be drawn. */
  ghost predicate Draws(random: seq<nat>, begin: Id, x: Id) {
    |random| == SIZE && forall j :: 0 <= j < SIZE ==> random[j] % 256 == x[j] as int - begin[j] as int
  }

  lemma Drawn(begin: Id, end: Id, bits: nat, random: seq<nat>, x: Id, id: Id)
    requires IsBlock(begin, end, bits) && InRange(begin, end, x) && Draws(random, begin, x)
    requires forall j :: 0 <= j < SIZE ==>
               && begin[j] <= end[j]
               && id[j] as int == begin[j] as int + BitAnd(random[j] % 256, end[j] as int - begin[j] as int)
    ensures id == x
  {
    hide IsBlock, InRange, BitAnd;
    forall j | 0 <= j < SIZE ensures id[j] == x[j] {
      InBlockBytewise(begin, end, bits, x, j);
      BlockBytes(begin, end, bits, j);
      BitAndMask(random[j] % 256, end[j] as int - begin[j] as int);
    }
  }

  lemma InBlockBytewise(begin: Id, end: Id, bits: nat, x: Id, j: nat)
    requires IsBlock(begin, end, bits) && InRange(begin, end, x) && j < SIZE
    ensures begin[j] <= x[j] <= end[j]
  {
    hide Compare;
    var s := if bits == 0 then SIZE - 1 else SplitByte(bits);
    PrefixForced(begin, end, x, s);
    if j < s { assert x[..s][j] == begin[..s][j] == end[..s][j]; }
  }

  lemma {:induction false} BytewiseOrder(a: seq<Byte>, b: seq<Byte>)
    requires |a| == |b| && forall j :: 0 <= j < |a| ==> a[j] <= b[j]
    ensures Compare(a, b) <= 0
  {
    if a != [] { BytewiseOrder(a[1..], b[1..]); }
  }
}
