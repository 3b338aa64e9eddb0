/** How many connected peers have each chunk, kept up to date as peers come, go and get chunks. */
module ChunkStatistic {
  import opened Collections
  import opened Bitfields

  const MAX_ACCOUNTED := 255

  class PeerChunks {
    const bitfield: Bitfield
    var usingCounter: bool

    constructor (b: Bitfield)
      ensures bitfield == b && !usingCounter
    {
      bitfield, usingCounter := b, false;
    }
  }

  /** The peers that are counted, with the chunks they have. */
  type Counted = map<PeerChunks, seq<bool>>

  predicate Full(s: seq<bool>) { forall i :: 0 <= i < |s| ==> s[i] }

  predicate Empty(s: seq<bool>) { forall i :: 0 <= i < |s| ==> !s[i] }

  ghost function Fulls(m: Counted): set<PeerChunks> { set p | p in m && Full(m[p]) }

  ghost function Partials(m: Counted): set<PeerChunks> { set p | p in m && !Full(m[p]) }

  /** The counted partial peers that have chunk i. */
  ghost function Holders(m: Counted, i: nat): set<PeerChunks> {
    set p | p in m && !Full(m[p]) && i < |m[p]| && m[p][i]
  }

  lemma HoldersBound(m: Counted, i: nat)
    ensures |Holders(m, i)| <= |Partials(m)|
  {
    assert Holders(m, i) <= Partials(m);
    SubsetSize(Holders(m, i), Partials(m));
  }

  lemma SubsetSize<T>(a: set<T>, b: set<T>)
    requires a <= b
    ensures |a| <= |b|
  {
    assert b == a + (b - a);
  }

  lemma AddedCounts(m: Counted, p: PeerChunks, s: seq<bool>)
    requires p !in m
    ensures |Fulls(m[p := s])| == |Fulls(m)| + One(Full(s))
    ensures |Partials(m[p := s])| == |Partials(m)| + One(!Full(s))
  {
    hide Full, Fulls, Partials;
    if Full(s) {
      AddedFull(m, p, s);
    } else {
      AddedPartial(m, p, s);
    }
  }

  lemma AddedFull(m: Counted, p: PeerChunks, s: seq<bool>)
    requires p !in m && Full(s)
    ensures p !in Fulls(m) && Fulls(m[p := s]) == Fulls(m) + {p} && Partials(m[p := s]) == Partials(m)
  {
    hide Full;
  }

  lemma AddedPartial(m: Counted, p: PeerChunks, s: seq<bool>)
    requires p !in m && !Full(s)
    ensures p !in Partials(m) && Fulls(m[p := s]) == Fulls(m) && Partials(m[p := s]) == Partials(m) + {p}
  {
    hide Full;
  }

  lemma AddedHolders(m: Counted, p: PeerChunks, s: seq<bool>, i: nat)
    requires p !in m && i < |s|
    ensures |Holders(m[p := s], i)| == |Holders(m, i)| + One(!Full(s) && s[i])
  {
    if !Full(s) && s[i] {
      assert Holders(m[p := s], i) == Holders(m, i) + {p};
    } else {
      assert Holders(m[p := s], i) == Holders(m, i);
    }
  }

  lemma RemovedCounts(m: Counted, p: PeerChunks)
    requires p in m
    ensures |Fulls(m - {p})| == |Fulls(m)| - One(Full(m[p]))
    ensures |Partials(m - {p})| == |Partials(m)| - One(!Full(m[p]))
  {
    AddedCounts(m - {p}, p, m[p]);
    assert (m - {p})[p := m[p]] == m;
  }

  lemma RemovedHolders(m: Counted, p: PeerChunks, i: nat)
    requires p in m && i < |m[p]|
    ensures |Holders(m - {p}, i)| == |Holders(m, i)| - One(!Full(m[p]) && m[p][i])
  {
    AddedHolders(m - {p}, p, m[p], i);
    assert (m - {p})[p := m[p]] == m;
  }

  /** The statistics say of the counted peers what they are: how many are complete, how many are not, at
      most 255, and for each chunk how many of the latter have it. */
  ghost predicate CountsOk(m: Counted, complete: nat, accounted: nat, rarity: seq<nat>) {
    && complete == |Fulls(m)| && accounted == |Partials(m)| <= MAX_ACCOUNTED
    && (forall i :: 0 <= i < |rarity| ==> rarity[i] == |Holders(m, i)|)
    && (forall p :: p in m ==> |m[p]| == |rarity| && !Empty(m[p]))
  }

  /** What a peer with chunks s adds to the rarity of chunk i. */
  function Adds(s: seq<bool>, i: nat): nat
    requires i < |s|
  {
    One(!Full(s) && s[i])
  }

  lemma CountsAdd(m: Counted, p: PeerChunks, s: seq<bool>, complete: nat, accounted: nat, rarity: seq<nat>,
      rarity': seq<nat>)
    requires CountsOk(m, complete, accounted, rarity) && p !in m && |s| == |rarity| == |rarity'| && !Empty(s)
    requires Full(s) || accounted < MAX_ACCOUNTED
    requires forall i :: 0 <= i < |rarity| ==> rarity'[i] == rarity[i] + Adds(s, i)
    ensures CountsOk(m[p := s], complete + One(Full(s)), accounted + One(!Full(s)), rarity')
  {
    hide Full, Empty, Fulls, Partials, Holders;
    AddedCounts(m, p, s);
    forall i | 0 <= i < |rarity| ensures rarity'[i] == |Holders(m[p := s], i)| { AddedHolders(m, p, s, i); }
  }

  lemma CountsRemove(m: Counted, p: PeerChunks, complete: nat, accounted: nat, rarity: seq<nat>, rarity': seq<nat>)
    requires CountsOk(m, complete, accounted, rarity) && p in m && |rarity| == |rarity'|
    requires forall i :: 0 <= i < |rarity| ==> rarity'[i] == rarity[i] - Adds(m[p], i)
    ensures complete >= One(Full(m[p])) && accounted >= One(!Full(m[p]))
    ensures CountsOk(m - {p}, complete - One(Full(m[p])), accounted - One(!Full(m[p])), rarity')
  {
    hide Full, Empty, Fulls, Partials, Holders;
    RemovedCounts(m, p);
    forall i | 0 <= i < |rarity| ensures rarity'[i] == |Holders(m - {p}, i)| { RemovedHolders(m, p, i); }
  }

  /** No rarity byte is beyond the number of accounted peers, and a holder is counted in its byte. */
  lemma RarityBounds(m: Counted, complete: nat, accounted: nat, rarity: seq<nat>, i: nat)
    requires CountsOk(m, complete, accounted, rarity) && i < |rarity|
    ensures rarity[i] <= accounted <= MAX_ACCOUNTED
    ensures forall p :: p in m ==> |m[p]| == |rarity| && Adds(m[p], i) <= rarity[i]
  {
    HoldersBound(m, i);
    forall p | p in m ensures Adds(m[p], i) <= rarity[i] {
      hide Full, Empty, Fulls, Partials;
      RemovedHolders(m, p, i);
    }
  }

  /** A peer's bitfield tells what it has. */
  lemma Summary(b: Bitfield)
    requires b.Valid()
    ensures b.size <= 8 * b.data.Length
    ensures b.count == b.size <==> Full(b.Bits())
    ensures b.count == 0 <==> Empty(b.Bits())
  {
    CountBounds(b.Bits());
  }

  class ChunkStatistics {
    var rarity: seq<nat>
    var complete: nat
    var accounted: nat
    ghost var peers: set<PeerChunks>
    ghost var counted: Counted

    ghost predicate PeerOk(p: PeerChunks)
      reads p, p.bitfield, p.bitfield.data, this`counted, this`rarity
    {
      && p.bitfield.Valid() && p.bitfield.size == |rarity|
      && (p.usingCounter <==> p in counted) && (p in counted ==> counted[p] == p.bitfield.Bits())
    }

    ghost predicate Apart()
      reads this`peers, peers, set p | p in peers :: p.bitfield
    {
      forall p, q :: p in peers && q in peers && p != q ==>
        p.bitfield != q.bitfield && p.bitfield.data != q.bitfield.data
    }

    ghost predicate Valid()
      reads this, peers, set p | p in peers :: p.bitfield, set p | p in peers :: p.bitfield.data
    {
      && |rarity| > 0 && counted.Keys <= peers && Apart()
      && CountsOk(counted, complete, accounted, rarity)
      && forall p :: p in peers ==> PeerOk(p)
    }

    constructor (size: nat)
      requires size > 0
      ensures Valid() && peers == {} && |rarity| == size
    {
      rarity := seq(size, _ => 0);
      complete, accounted, peers, counted := 0, 0, {}, map[];
    }

    /** The chunks of a partial peer are added to the rarity bytes, or taken from them, modulo 256. */
    method AddBits(b: Bitfield)
      requires b.Valid() && b.size == |rarity| && forall i :: 0 <= i < |rarity| ==> rarity[i] < 255
      modifies this`rarity
      ensures |rarity| == |old(rarity)| && forall i :: 0 <= i < |rarity| ==>
                rarity[i] == old(rarity)[i] + One(b.Bits()[i])
    {
      var i := 0;
      ghost var s := b.Bits();
      while i < b.size
        invariant i <= b.size && |rarity| == |old(rarity)|
        invariant forall j :: 0 <= j < |rarity| ==> rarity[j] == old(rarity)[j] + if j < i then One(s[j]) else 0
      {
        rarity := rarity[i := (rarity[i] + One(b.Get(i))) % 256];
        i := i + 1;
      }
    }

    method SubtractBits(b: Bitfield)
      requires b.Valid() && b.size == |rarity| && forall i :: 0 <= i < |rarity| ==> One(b.Bits()[i]) <= rarity[i] <= 255
      modifies this`rarity
      ensures |rarity| == |old(rarity)| && forall i :: 0 <= i < |rarity| ==>
                rarity[i] == old(rarity)[i] - One(b.Bits()[i])
    {
      var i := 0;
      ghost var s := b.Bits();
      while i < b.size
        invariant i <= b.size && |rarity| == |old(rarity)|
        invariant forall j :: 0 <= j < |rarity| ==> rarity[j] == old(rarity)[j] - if j < i then One(s[j]) else 0
      {
        rarity := rarity[i := (rarity[i] - One(b.Get(i))) % 256];
        i := i + 1;
      }
    }

    /** A partial peer is accounted for. */
    method Account(p: PeerChunks)
      requires CountsOk(counted, complete, accounted, rarity) && p !in counted && accounted < MAX_ACCOUNTED
      requires p.bitfield.Valid() && p.bitfield.size == |rarity| && !Full(p.bitfield.Bits())
               && !Empty(p.bitfield.Bits())
      modifies this`rarity, this`accounted, this`counted
      ensures CountsOk(counted, complete, accounted, rarity) && |rarity| == |old(rarity)|
      ensures counted == old(counted)[p := p.bitfield.Bits()]
    {
      hide CountsOk, Full, Empty, Adds, Bitfield.Valid, Bitfield.Bits;
      Summary(p.bitfield);
      ghost var s := p.bitfield.Bits();
      forall i | 0 <= i < |rarity| ensures rarity[i] < 255 && Adds(s, i) == One(s[i]) {
        RarityBounds(counted, complete, accounted, rarity, i);
        PartialAdds(s, i);
      }
      AddBits(p.bitfield);
      CountsAdd(counted, p, s, complete, accounted, old(rarity), rarity);
      accounted := accounted + 1;
      counted := counted[p := s];
    }

    method Unaccount(p: PeerChunks)
      requires CountsOk(counted, complete, accounted, rarity) && p in counted
      requires p.bitfield.Valid() && p.bitfield.size == |rarity| && counted[p] == p.bitfield.Bits() && !Full(counted[p])
      modifies this`rarity, this`accounted, this`counted
      ensures CountsOk(counted, complete, accounted, rarity) && |rarity| == |old(rarity)|
      ensures counted == old(counted) - {p}
    {
      hide CountsOk, Full, Empty, Adds, Bitfield.Valid, Bitfield.Bits;
      Summary(p.bitfield);
      ghost var s := p.bitfield.Bits();
      forall i | 0 <= i < |rarity| ensures One(s[i]) <= rarity[i] <= 255 && Adds(s, i) == One(s[i]) {
        RarityBounds(counted, complete, accounted, rarity, i);
        PartialAdds(s, i);
      }
      SubtractBits(p.bitfield);
      CountsRemove(counted, p, complete, accounted, old(rarity), rarity);
      assert accounted != 0;
      accounted := accounted - 1;
      counted := counted - {p};
    }

    /** A peer connects. It is counted if it is complete, or if it has a chunk and there is room. */
    method ReceivedConnect(p: PeerChunks)
      requires Valid() && p !in peers && !p.usingCounter && p.bitfield.Valid() && p.bitfield.size == |rarity|
      requires forall q :: q in peers ==> q.bitfield != p.bitfield && q.bitfield.data != p.bitfield.data
      modifies this, p
      ensures Valid() && peers == old(peers) + {p} && |rarity| == |old(rarity)|
      ensures var s := p.bitfield.Bits();
              counted ==
                if Full(s) || (!Empty(s) && old(accounted) < MAX_ACCOUNTED) then old(counted)[p := s] else old(counted)
    {
      hide CountsOk, Full, Empty, Adds, Bitfield.Valid, Bitfield.Bits;
      peers := peers + {p};
      Count(p);
    }

    method Count(p: PeerChunks)
      requires CountsOk(counted, complete, accounted, rarity) && p !in counted && !p.usingCounter
      requires |rarity| > 0 && p.bitfield.Valid() && p.bitfield.size == |rarity|
      modifies this`complete, this`rarity, this`accounted, this`counted, p`usingCounter
      ensures CountsOk(counted, complete, accounted, rarity) && |rarity| == |old(rarity)| && p.bitfield.Valid()
      ensures var s := p.bitfield.Bits();
              && (p.usingCounter <==> Full(s) || (!Empty(s) && old(accounted) < MAX_ACCOUNTED))
              && counted == if p.usingCounter then old(counted)[p := s] else old(counted)
    {
      hide CountsOk, Full, Empty, Adds, Bitfield.Valid, Bitfield.Bits;
      Summary(p.bitfield);
      ghost var s := p.bitfield.Bits();
      if p.bitfield.count == p.bitfield.size {
        SeedAdds(s, |rarity|);
        CountsAdd(counted, p, s, complete, accounted, rarity, rarity);
        p.usingCounter := true;
        complete := complete + 1;
        counted := counted[p := s];
      } else if p.bitfield.count != 0 && accounted < MAX_ACCOUNTED {
        p.usingCounter := true;
        Account(p);
      }
    }

    /** A peer disconnects, and is counted no more. */
    method ReceivedDisconnect(p: PeerChunks)
      requires Valid() && p in peers
      modifies this, p
      ensures Valid() && peers == old(peers) - {p} && |rarity| == |old(rarity)|
      ensures counted == old(counted) - {p} && !p.usingCounter
    {
      hide CountsOk, Full, Empty, Adds, Bitfield.Valid, Bitfield.Bits;
      assert PeerOk(p);
      peers := peers - {p};
      if !p.usingCounter {
        assert counted - {p} == counted;
        return;
      }
      p.usingCounter := false;
      Summary(p.bitfield);
      if p.bitfield.count == p.bitfield.size {
        SeedAdds(counted[p], |rarity|);
        CountsRemove(counted, p, complete, accounted, rarity, rarity);
        complete := complete - 1;
        counted := counted - {p};
      } else {
        Unaccount(p);
      }
    }

    /** Chunk `index` of a counted peer is added; a peer that is complete now is no longer accounted for. */
    method CountHave(all: bool, index: nat)
      requires index < |rarity| && rarity[index] < 255 && (all ==> accounted > 0)
      requires all ==> forall i :: 0 <= i < |rarity| ==> 1 <= rarity[i] + One(i == index) <= 255
      modifies this`rarity, this`complete, this`accounted
      ensures |rarity| == |old(rarity)| && forall i :: 0 <= i < |rarity| ==>
                rarity[i] == old(rarity)[i] + One(i == index) - One(all)
      ensures complete == old(complete) + One(all) && accounted == old(accounted) - One(all)
    {
      rarity := rarity[index := (rarity[index] + 1) % 256];
      if all {
        complete := complete + 1;
        accounted := accounted - 1;
        var i := 0;
        ghost var r := rarity;
        while i < |rarity|
          modifies this`rarity
          invariant i <= |rarity| == |r| && forall j :: 0 <= j < |r| ==> rarity[j] == r[j] - if j < i then 1 else 0
        {
          rarity := rarity[i := (rarity[i] - 1) % 256];
          i := i + 1;
        }
      }
    }

    /** The counters follow one peer that got a chunk. */
    method HaveChunk(p: PeerChunks, index: nat)
      requires CountsOk(counted, complete, accounted, rarity) && PeerOk(p) && index < |rarity|
               && !p.bitfield.Bits()[index]
      modifies this`rarity, this`complete, this`accounted, this`counted, p, p.bitfield`count, p.bitfield.data
      ensures CountsOk(counted, complete, accounted, rarity) && PeerOk(p) && |rarity| == |old(rarity)|
      ensures p.bitfield.Bits() == old(p.bitfield.Bits())[index := true]
      ensures var s := old(p.bitfield.Bits()); var t := s[index := true];
              counted == if p in old(counted) || (Empty(s) && old(accounted) < MAX_ACCOUNTED) || Full(t)
                         then old(counted)[p := t] else old(counted)
    {
      hide CountsOk, Full, Empty, Adds, Bitfield.Valid, Bitfield.Bits;
      Summary(p.bitfield);
      ghost var s := p.bitfield.Bits();
      ghost var t := s[index := true];
      if p.bitfield.count == 0 && accounted < MAX_ACCOUNTED {
        CountedIsNotEmpty(counted, complete, accounted, rarity);
        assert !p.usingCounter;
        p.usingCounter := true;
        accounted := accounted + 1;
      }
      p.bitfield.Set(index);
      Summary(p.bitfield);
      NewChunk(s, index);
      if p.usingCounter {
        HaveCounts(old(counted), p, s, index, old(complete), old(accounted), old(rarity));
        CountHave(p.bitfield.count == p.bitfield.size, index);
        HaveCountsOk(old(counted), p, s, index, old(complete), old(accounted), old(rarity), rarity);
        counted := counted[p := t];
      } else if p.bitfield.count == p.bitfield.size {
        SeedAdds(t, |rarity|);
        CountsAdd(counted, p, t, complete, accounted, rarity, rarity);
        p.usingCounter := true;
        complete := complete + 1;
        counted := counted[p := t];
      }
    }

    /** A peer got a chunk it did not have. */
    method ReceivedHaveChunk(p: PeerChunks, index: nat)
      requires Valid() && p in peers && index < |rarity| && PeerOk(p) && !p.bitfield.Bits()[index]
      modifies this`rarity, this`complete, this`accounted, this`counted, p, p.bitfield`count, p.bitfield.data
      ensures Valid() && p.bitfield.Bits() == old(p.bitfield.Bits())[index := true] && |rarity| == |old(rarity)|
      ensures var s := old(p.bitfield.Bits()); var t := s[index := true];
              counted == if p in old(counted) || (Empty(s) && old(accounted) < MAX_ACCOUNTED) || Full(t)
                         then old(counted)[p := t] else old(counted)
    {
      hide CountsOk, Full, Empty, Bitfield.Valid, Bitfield.Bits;
      HaveChunk(p, index);
    }

    /** The peers there are, connected or not, each with a bitfield of its own. */
    ghost predicate Known(all: set<PeerChunks>)
      reads this, all, set p | p in all :: p.bitfield, set p | p in all :: p.bitfield.data
    {
      && peers <= all
      && (forall p, q :: p in all && q in all && p != q ==>
            p.bitfield != q.bitfield && p.bitfield.data != q.bitfield.data)
      && (forall p :: p in all ==> p.bitfield.Valid() && p.bitfield.size == |rarity|)
      && (forall p :: p in all && p !in peers ==> !p.usingCounter)
    }

    /** One event; a connection of a connected peer, and any other event of one that is not, is passed
        over, and so is a chunk that the peer had. */
    method Step(e: Event, connected: set<PeerChunks>, ghost all: set<PeerChunks>) returns (after: set<PeerChunks>)
      requires Valid() && Known(all) && e.peer in all && connected == peers
      modifies this, all, (set p | p in all :: p.bitfield)`count, set p | p in all :: p.bitfield.data
      ensures Valid() && Known(all) && after == peers == Present(e, old(peers)) && |rarity| == |old(rarity)|
    {
      hide CountsOk, Full, Empty, Bitfield.Valid, Bitfield.Bits;
      after := connected;
      match e
      case Connect(p) =>
        if p !in connected {
          ReceivedConnect(p);
          after := connected + {p};
        }
      case Disconnect(p) =>
        if p in connected {
          ReceivedDisconnect(p);
          after := connected - {p};
        }
      case Have(p, index) =>
        if p in connected && index < |rarity| {
          assert PeerOk(p);
          Sizes(p.bitfield);
          if !p.bitfield.Get(index) { ReceivedHaveChunk(p, index); }
        }
    }

    /** Any events: the counters are always those of the peers counted, so no byte wraps. */
    method Run(events: seq<Event>, ghost all: set<PeerChunks>)
      requires Valid() && Known(all) && peers == {} && forall e :: e in events ==> e.peer in all
      modifies this, all, (set p | p in all :: p.bitfield)`count, set p | p in all :: p.bitfield.data
      ensures Valid() && Known(all) && peers == PresentAfter(events)
      ensures complete == |Fulls(counted)| && accounted == |Partials(counted)| <= MAX_ACCOUNTED
      ensures forall i :: 0 <= i < |rarity| ==> rarity[i] == |Holders(counted, i)| <= 255
    {
      hide Known, Bitfield.Valid, Bitfield.Bits;
      var connected: set<PeerChunks> := {};
      for i := 0 to |events|
        invariant Valid() && Known(all) && connected == peers == PresentAfter(events[..i])
      {
        assert events[i] in events && events[..i + 1][..i] == events[..i];
        connected := Step(events[i], connected, all);
      }
      assert events[..|events|] == events;
      forall i | 0 <= i < |rarity| ensures rarity[i] <= 255 { RarityBounds(counted, complete, accounted, rarity, i); }
    }
  }

  datatype Event = Connect(peer: PeerChunks) | Disconnect(peer: PeerChunks) | Have(peer: PeerChunks, index: nat)

  /** Which peers are connected after an event, and after some. */
  ghost function Present(e: Event, peers: set<PeerChunks>): set<PeerChunks> {
    match e
    case Connect(p) => peers + {p}
    case Disconnect(p) => peers - {p}
    case Have(_, _) => peers
  }

  ghost function PresentAfter(events: seq<Event>): set<PeerChunks> {
    if events == [] then {} else Present(events[|events| - 1], PresentAfter(events[..|events| - 1]))
  }

  lemma Sizes(b: Bitfield)
    requires b.Valid()
    ensures |b.Bits()| == b.size && b.size <= 8 * b.data.Length
  {
  }

  lemma CountedIsNotEmpty(m: Counted, complete: nat, accounted: nat, rarity: seq<nat>)
    requires CountsOk(m, complete, accounted, rarity)
    ensures forall p :: p in m ==> !Empty(m[p])
  {
  }

  lemma NewChunk(s: seq<bool>, index: nat)
    requires index < |s| && !s[index]
    ensures !Full(s) && !Empty(s[index := true])
    ensures Full(s[index := true]) ==> forall i :: 0 <= i < |s| ==> s[i] == (i != index)
  {
    assert s[index := true][index];
    if Full(s[index := true]) {
      forall i | 0 <= i < |s| && i != index ensures s[i] { assert s[index := true][i]; }
    }
  }

  /** What the bytes are before one is increased and, for a peer complete now, all are decreased. */
  lemma HaveCounts(m: Counted, p: PeerChunks, s: seq<bool>, index: nat, complete: nat, accounted: nat, rarity: seq<nat>)
    requires CountsOk(m, complete, accounted, rarity) && |s| == |rarity| && index < |s| && !s[index]
    requires if p in m then m[p] == s else Empty(s) && accounted < MAX_ACCOUNTED
    ensures rarity[index] < 255 && (p in m ==> accounted > 0)
    ensures Full(s[index := true]) ==> forall i :: 0 <= i < |rarity| ==> 1 <= rarity[i] + One(i == index) <= 255
  {
    hide CountsOk, Full;
    NewChunk(s, index);
    forall i | 0 <= i < |rarity|
      ensures rarity[i] + One(i == index) <= 255 && (Full(s[index := true]) ==> 1 <= rarity[i] + One(i == index))
              && (p in m ==> accounted > 0)
    {
      RarityBounds(m, complete, accounted, rarity, i);
      if p in m {
        RarityWithout(m, p, complete, accounted, rarity, i);
      } else {
        assert !s[i];
      }
    }
  }

  /** A partial peer that does not have chunk i is one of those accounted for, and not among its holders. */
  lemma RarityWithout(m: Counted, p: PeerChunks, complete: nat, accounted: nat, rarity: seq<nat>, i: nat)
    requires CountsOk(m, complete, accounted, rarity) && i < |rarity| && p in m && !Full(m[p])
    ensures accounted > 0 && rarity[i] + One(!m[p][i]) <= accounted
  {
    hide Full, Empty;
    assert p in Partials(m);
    if !m[p][i] {
      SubsetSize(Holders(m, i) + {p}, Partials(m));
    } else {
      HoldersBound(m, i);
    }
  }

  lemma HaveCountsOk(m: Counted, p: PeerChunks, s: seq<bool>, index: nat, complete: nat, accounted: nat,
                     rarity: seq<nat>, rarity': seq<nat>)
    requires CountsOk(m, complete, accounted, rarity) && |s| == |rarity| == |rarity'| && index < |s| && !s[index]
    requires if p in m then m[p] == s else Empty(s) && accounted < MAX_ACCOUNTED
    requires var all := Full(s[index := true]);
             forall i :: 0 <= i < |rarity| ==> rarity'[i] == rarity[i] + One(i == index) - One(all)
    ensures var all := Full(s[index := true]);
            && accounted + One(p !in m) >= One(all)
            && CountsOk(m[p := s[index := true]], complete + One(all), accounted + One(p !in m) - One(all), rarity')
  {
    hide CountsOk, Full, Adds;
    var t := s[index := true];
    NewChunk(s, index);
    forall i | 0 <= i < |s|
      ensures Adds(t, i) == One(s[i]) + One(i == index) - One(Full(t)) && Adds(s, i) == One(s[i]) {
      AddsAfter(s, index, i);
    }
    if p in m {
      RarityBounds(m, complete, accounted, rarity, index);
      forall i | 0 <= i < |s| ensures One(s[i]) <= rarity[i] { RarityBounds(m, complete, accounted, rarity, i); }
      var r: seq<nat> := seq(|s|, i requires 0 <= i < |s| => rarity[i] - One(s[i]));
      CountsRemove(m, p, complete, accounted, rarity, r);
      CountsAdd(m - {p}, p, t, complete, accounted - 1, r, rarity');
      assert (m - {p})[p := t] == m[p := t];
    } else {
      CountsAdd(m, p, t, complete, accounted, rarity, rarity');
    }
  }

  lemma AddsAfter(s: seq<bool>, index: nat, i: nat)
    requires index < |s| && !s[index] && i < |s|
    ensures Adds(s, i) == One(s[i])
    ensures Adds(s[index := true], i) == One(s[i]) + One(i == index) - One(Full(s[index := true]))
  {
    NewChunk(s, index);
    if Full(s[index := true]) { assert s[index := true][i]; }
  }

  lemma SeedAdds(s: seq<bool>, n: nat)
    requires Full(s) && |s| == n > 0
    ensures !Empty(s) && forall i :: 0 <= i < n ==> Adds(s, i) == 0
  {
    assert s[0];
  }

  lemma PartialAdds(s: seq<bool>, i: nat)
    requires !Full(s) && i < |s|
    ensures Adds(s, i) == One(s[i])
  {
  }
}
