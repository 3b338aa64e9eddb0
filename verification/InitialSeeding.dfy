/** Initial seeding: each chunk is sent to one peer, which gets no other chunk until somebody else
    has been seen with it. Ends when every chunk is well seeded. */
module InitialSeeds {
  import opened Collections

  class PeerInfo {
    var blocked: bool
    var restart: bool
  }

  datatype Slot = Unsent | Unknown | Done | Sent(peer: PeerInfo)

  /** The chunk statistics, which do not change during one call. */
  datatype Stats = Stats(complete: nat, rarity: seq<nat>)

  /** Finished: initial seeding is over and the connection is closed. */
  datatype Offer = Finished | NoOffer | Offered(index: nat)

  predicate WellSeeded(stats: Stats, i: nat)
    requires i < |stats.rarity|
  {
    stats.complete + stats.rarity[i] >= 2
  }

  predicate AllWellSeeded(stats: Stats) { forall i :: 0 <= i < |stats.rarity| ==> WellSeeded(stats, i) }

  /** How many chunks are not done, and how many of those were never sent. */
  function Undone(s: seq<Slot>): nat {
    if s == [] then 0 else (if s[0].Done? then 0 else 1) + Undone(s[1..])
  }

  function Unsents(s: seq<Slot>): nat {
    if s == [] then 0 else (if s[0].Unsent? then 1 else 0) + Unsents(s[1..])
  }

  lemma {:induction false} CountsAfterUpdate(s: seq<Slot>, i: nat, x: Slot)
    requires i < |s|
    ensures Undone(s[i := x]) == Undone(s) - (if s[i].Done? then 0 else 1) + (if x.Done? then 0 else 1)
    ensures Unsents(s[i := x]) == Unsents(s) - (if s[i].Unsent? then 1 else 0) + (if x.Unsent? then 1 else 0)
  {
    if i == 0 {
      assert s[0 := x][1..] == s[1..];
    } else {
      assert s[i := x][1..] == s[1..][i - 1 := x];
      CountsAfterUpdate(s[1..], i - 1, x);
    }
  }

  lemma {:induction false} NoneUndone(s: seq<Slot>)
    ensures Undone(s) == 0 <==> forall i :: 0 <= i < |s| ==> s[i].Done?
  {
    if s != [] {
      NoneUndone(s[1..]);
      assert forall i :: 0 < i < |s| ==> s[i] == s[1..][i - 1];
    }
  }

  lemma UndoneAfter(s: seq<Slot>, i: nat, x: Slot)
    requires i < |s| && !s[i].Done?
    ensures Undone(s) > 0
    ensures Undone(s[i := x]) == Undone(s) - (if x.Done? then 1 else 0)
  {
    CountsAfterUpdate(s, i, x);
    NoneUndone(s);
  }

  /** Never more chunks unsent when slots only leave that state. */
  lemma {:induction false} UnsentsShrink(s: seq<Slot>, t: seq<Slot>)
    requires |s| == |t| && forall i :: 0 <= i < |s| && t[i].Unsent? ==> s[i].Unsent?
    ensures Unsents(t) <= Unsents(s)
  {
    if s != [] {
      assert forall i :: 0 <= i < |s[1..]| ==> s[1..][i] == s[i + 1] && t[1..][i] == t[i + 1];
      UnsentsShrink(s[1..], t[1..]);
    }
  }

  /** The slot j places ahead of o on a ring of n. */
  function Ahead(o: nat, j: nat, n: nat): (i: nat)
    requires o < n && j <= n
    ensures i < n
  {
    if o + j < n then o + j else o + j - n
  }

  /** Slots after `complete` found chunks to be sent again: those that are too rare, and no others. */
  ghost predicate IsReset(s: seq<Slot>, next: nat, stats: Stats) {
    && |s| == |stats.rarity|
    && (forall i :: 0 <= i < |s| ==> s[i] == if WellSeeded(stats, i) then Done else Unsent)
    && next < |s| && s[next].Unsent? && forall i :: 0 <= i < next ==> s[i].Done?
  }

  /** Slots after chunk i, not done before, was found to be well shared. */
  ghost predicate IsCompleted(s: seq<Slot>, next: nat, i: nat, t: seq<Slot>, next': nat, stats: Stats)
    requires i < |s|
  {
    if Undone(s) > 1 then t == s[i := Done] && next' == next else IsReset(t, next', stats)
  }

  /** Some chunk is neither done nor held by two peers; it keeps `complete` away. */
  ghost predicate HasRare(s: seq<Slot>, stats: Stats) {
    |s| == |stats.rarity| && exists i :: 0 <= i < |s| && !s[i].Done? && stats.rarity[i] <= 1
  }

  /** The secondary search from cursor o in s ends k places ahead in t: what it passed is done, what it
      did not pass is as it was, and only chunks seen with two peers were made done on the way. */
  ghost predicate IsPassed(s: seq<Slot>, o: nat, k: nat, t: seq<Slot>, stats: Stats)
    requires o < |s| == |stats.rarity|
  {
    && |t| == |s| && k <= |s|
    && (forall j :: 1 <= j <= k ==> t[Ahead(o, j, |s|)].Done?)
    && (forall i :: 0 <= i < |s| ==> t[i] == s[i] || (t[i].Done? && !s[i].Done? && stats.rarity[i] > 1))
    && (forall j :: k < j <= |s| ==> t[Ahead(o, j, |s|)] == s[Ahead(o, j, |s|)])
  }

  /** What a search may do to the slots: chunks two peers have become done, unsent chunks somebody has
      become unknown, and nothing else. */
  ghost predicate IsSearched(s: seq<Slot>, t: seq<Slot>, stats: Stats) {
    && |t| == |s| == |stats.rarity|
    && forall i :: 0 <= i < |s| ==>
         t[i] == s[i] || (t[i].Done? && stats.rarity[i] > 1) || (s[i].Unsent? && t[i].Unknown? && stats.rarity[i] > 0)
  }

  lemma PassedIsSearched(s: seq<Slot>, m: seq<Slot>, o: nat, k: nat, t: seq<Slot>, stats: Stats)
    requires IsSearched(s, m, stats) && o < |m| && IsPassed(m, o, k, t, stats)
    ensures IsSearched(s, t, stats)
  {
  }

  lemma SearchedKeepsRare(s: seq<Slot>, t: seq<Slot>, stats: Stats)
    requires IsSearched(s, t, stats) && HasRare(s, stats)
    ensures HasRare(t, stats)
  {
    var i :| 0 <= i < |s| && !s[i].Done? && stats.rarity[i] <= 1;
    assert !t[i].Done?;
  }

  /** The first chunk after o that was never sent and that nobody has. */
  ghost predicate IsFirstFresh(s: seq<Slot>, o: nat, f: nat, stats: Stats) {
    && o < f < |s| == |stats.rarity| && s[f].Unsent? && stats.rarity[f] == 0
    && forall i :: o < i < f && s[i].Unsent? ==> stats.rarity[i] > 0
  }

  lemma PassNone(s: seq<Slot>, o: nat, stats: Stats)
    requires o < |s| == |stats.rarity|
    ensures IsPassed(s, o, 0, s, stats)
  {
  }

  /** One place further: the slot there is done, or two peers are seen with its chunk. */
  lemma PassOne(s: seq<Slot>, o: nat, k: nat, t: seq<Slot>, stats: Stats)
    requires o < |s| == |stats.rarity| && k < |s| && IsPassed(s, o, k, t, stats)
    requires var i := Ahead(o, k + 1, |s|); t[i].Done? || stats.rarity[i] > 1
    ensures IsPassed(s, o, k + 1, t[Ahead(o, k + 1, |s|) := Done], stats)
    ensures t[Ahead(o, k + 1, |s|)].Done? ==> IsPassed(s, o, k + 1, t, stats)
  {
    var i := Ahead(o, k + 1, |s|);
    assert t[i].Done? ==> t[i := Done] == t;
  }

  lemma FullCircle(s: seq<Slot>, o: nat, k: nat, t: seq<Slot>, stats: Stats)
    requires o < |s| == |stats.rarity| && IsPassed(s, o, k, t, stats) && Undone(t) > 0
    ensures k < |s|
  {
    NoneUndone(t);
    var i :| 0 <= i < |t| && !t[i].Done?;
    assert i == Ahead(o, if i > o then i - o else i - o + |s|, |s|);
  }

  /** A rare chunk outlasts the search, so another undone chunk is not the last one. */
  lemma RareRemains(s: seq<Slot>, o: nat, k: nat, t: seq<Slot>, i: nat, stats: Stats)
    requires o < |s| == |stats.rarity| && IsPassed(s, o, k, t, stats)
    requires i < |t| && !t[i].Done? && stats.rarity[i] > 1
    ensures HasRare(s, stats) ==> Undone(t) > 1
  {
    if HasRare(s, stats) {
      var r :| 0 <= r < |s| && !s[r].Done? && stats.rarity[r] <= 1;
      assert t[r] == s[r];
      UndoneAfter(t, i, Done);
      UndoneAfter(t[i := Done], r, Done);
    }
  }

  class InitialSeeding {
    const chunks: array<Slot>
    var next: nat
    var left: nat

    constructor (size: nat)
      requires size > 0
      ensures fresh(chunks) && chunks.Length == size
      ensures forall peers: set<PeerInfo> :: Valid(peers)
      ensures next == 0 && forall i :: 0 <= i < size ==> chunks[i].Unsent?
    {
      chunks := new Slot[size](_ => Unsent);
      next, left := 0, size;
      new;
      AllUndone(chunks[..]);
    }

    /** Recorded peers are blocked, and recorded once. */
    ghost predicate Recorded(peers: set<PeerInfo>)
      reads chunks, peers`blocked
    {
      && (forall i :: 0 <= i < chunks.Length && chunks[i].Sent? ==> chunks[i].peer in peers && chunks[i].peer.blocked)
      && (forall i, j :: 0 <= i < j < chunks.Length && chunks[i].Sent? && chunks[j].Sent? ==>
            chunks[i].peer != chunks[j].peer)
    }

    /** Between calls: the cursor is in range, some chunk is left, and the counter says how many. */
    ghost predicate Valid(peers: set<PeerInfo>)
      reads this, chunks, peers`blocked
    {
      next < chunks.Length && left == Undone(chunks[..]) > 0 && Recorded(peers)
    }

    method UnblockAll(peers: set<PeerInfo>)
      modifies peers`blocked
      ensures forall p :: p in peers ==> !p.blocked
    {
      forall p | p in peers { p.blocked := false; }
    }

    method Complete(stats: Stats, peers: set<PeerInfo>) returns (finished: bool)
      requires |stats.rarity| == chunks.Length
      requires stats.complete > 1 || forall i :: 0 <= i < chunks.Length ==> chunks[i].Done?
      modifies this, chunks, peers`blocked
      ensures finished <==> AllWellSeeded(stats)
      ensures !finished ==> Valid(peers) && IsReset(chunks[..], next, stats)
      ensures forall p :: p in peers ==> !p.blocked
    {
      UnblockAll(peers);
      NoneUndone(chunks[..]);
      left := 0;
      var first: Option<nat> := None;
      var i := 0;
      while i < chunks.Length
        invariant i <= chunks.Length
        invariant left == 0 <==> first.None?
        invariant first.None? ==> forall k :: 0 <= k < i ==> WellSeeded(stats, k)
        invariant first.Some? ==> first.value < i && !WellSeeded(stats, first.value)
        invariant first.Some? ==> forall k :: 0 <= k < first.value ==> WellSeeded(stats, k)
        invariant stats.complete <= 1 ==> left == Undone(chunks[..])
        invariant stats.complete <= 1 ==>
                    forall k :: 0 <= k < i ==> chunks[k] == if WellSeeded(stats, k) then Done else Unsent
        invariant stats.complete <= 1 ==> forall k :: i <= k < chunks.Length ==> chunks[k].Done?
        invariant forall p :: p in peers ==> !p.blocked
      {
        if stats.complete + stats.rarity[i] < 2 {
          left := left + 1;
          CountsAfterUpdate(chunks[..], i, Unsent);
          chunks[i] := Unsent;
          if first.None? { first := Some(i); }
        }
        i := i + 1;
      }
      if first.Some? { next := first.value; }
      return left == 0;
    }

    method ClearPeer(s: Slot)
      modifies (if s.Sent? then {s.peer} else {})`blocked
      ensures s.Sent? ==> !s.peer.blocked
    {
      if s.Sent? { s.peer.blocked := false; }
    }

    /** A peer was seen with chunk `index`: a second peer that has it makes it done. */
    method ChunkSeen(index: nat, peer: PeerInfo, stats: Stats, peers: set<PeerInfo>) returns (finished: bool)
      requires Valid(peers) && |stats.rarity| == chunks.Length && index < chunks.Length
      modifies this, chunks, peers`blocked
      ensures var o := old(chunks[index]); var counts := !o.Unsent? && !o.Done? && o != Sent(peer);
              && (finished <==> stats.complete > 1 || (counts && old(left) == 1 && AllWellSeeded(stats)))
              && (!finished ==>
                    && Valid(peers)
                    && (if counts then IsCompleted(old(chunks[..]), old(next), index, chunks[..], next, stats)
                        else && next == old(next)
                             && chunks[..] == old(chunks[..])[index := if o.Unsent? then Unknown else o])
                    && forall p :: p in peers ==>
                         p.blocked == (old(p.blocked) && !(counts && (o == Sent(p) || old(left) == 1))))
      ensures forall p :: p in peers && p.blocked ==> old(p.blocked)
    {
      if stats.complete > 1 {
        finished := Complete(stats, peers);
        return;
      }
      var o := chunks[index];
      if o.Unsent? {
        UndoneAfter(chunks[..], index, Unknown);
        chunks[index] := Unknown;
        return false;
      }
      if o == Sent(peer) || o.Done? { return false; }
      UndoneAfter(chunks[..], index, Done);
      chunks[index] := Done;
      left := left - 1;
      finished := false;
      if left == 0 {
        NoneUndone(chunks[..]);
        finished := Complete(stats, peers);
      }
      ClearPeer(o);
    }

    /** Chunk `index` is known to be shared, whoever it was sent to. */
    method ChunkComplete(index: nat, peer: PeerInfo, stats: Stats, peers: set<PeerInfo>) returns (finished: bool)
      requires Valid(peers) && |stats.rarity| == chunks.Length && index < chunks.Length && !chunks[index].Done?
      modifies this, chunks, peers`blocked
      ensures finished <==> stats.complete > 1 || (old(left) == 1 && AllWellSeeded(stats))
      ensures !finished ==>
                Valid(peers) && IsCompleted(old(chunks[..]), old(next), index, chunks[..], next, stats)
      ensures !finished ==> forall p :: p in peers ==>
                p.blocked == (old(p.blocked) && old(left) > 1 && old(chunks[index]) != Sent(p))
      ensures forall p :: p in peers && p.blocked ==> old(p.blocked)
    {
      ClearPeer(chunks[index]);
      UndoneAfter(chunks[..], index, Unknown);
      chunks[index] := Unknown;
      assert chunks[..][index := Done] == old(chunks[..])[index := Done];
      finished := ChunkSeen(index, peer, stats, peers);
    }

    /** The rest of a round of chunks never sent: the cursor moves to the first that nobody has. */
    method FindUnsent(stats: Stats, ghost peers: set<PeerInfo>) returns (found: bool)
      requires Valid(peers) && |stats.rarity| == chunks.Length
      modifies this`next, chunks
      ensures Valid(peers)
      ensures forall i :: 0 <= i < chunks.Length ==>
                chunks[i] ==
                  if old(next) < i && (found ==> i < next) && old(chunks[i]).Unsent? then Unknown else old(chunks[i])
      ensures if found then old(next) < next && chunks[next].Unsent? && stats.rarity[next] == 0
              else next == chunks.Length - 1
      ensures forall i :: old(next) < i < chunks.Length && (found ==> i < next) && old(chunks[i]).Unsent? ==>
                stats.rarity[i] > 0
    {
      next := next + 1;
      while next < chunks.Length
        invariant old(next) < next <= chunks.Length
        invariant left == Undone(chunks[..]) > 0 && Recorded(peers)
        invariant forall i :: 0 <= i < chunks.Length ==>
                    chunks[i] == if old(next) < i < next && old(chunks[i]).Unsent? then Unknown else old(chunks[i])
        invariant forall i :: old(next) < i < next && old(chunks[i]).Unsent? ==> stats.rarity[i] > 0
      {
        if chunks[next].Unsent? {
          if stats.rarity[next] == 0 { return true; }
          UndoneAfter(chunks[..], next, Unknown);
          chunks[next] := Unknown;
        }
        next := next + 1;
      }
      next := next - 1;
      return false;
    }

    /** The chunk at the cursor, which at least two peers have, becomes done in the search from cursor o. */
    method CompleteNext(peer: PeerInfo, stats: Stats, peers: set<PeerInfo>, ghost s: seq<Slot>, ghost o: nat,
        ghost k: nat)
      returns (finished: bool)
      requires Valid(peers) && o < |s| == chunks.Length == |stats.rarity| && k < |s| && next == Ahead(o, k + 1, |s|)
      requires !chunks[next].Done? && stats.rarity[next] > 1 && IsPassed(s, o, k, chunks[..], stats)
      modifies this, chunks, peers`blocked
      ensures finished ==> AllWellSeeded(stats) && (HasRare(s, stats) ==> stats.complete > 1)
      ensures !finished ==>
                && Valid(peers)
                && if chunks[next].Done? then next == old(next) && IsPassed(s, o, k + 1, chunks[..], stats)
                   else stats.rarity[next] <= 1 && !HasRare(s, stats) && IsReset(chunks[..], next, stats)
      ensures forall p :: p in peers && p.blocked ==> old(p.blocked)
    {
      hide IsPassed, HasRare, Undone;
      RareRemains(s, o, k, chunks[..], next, stats);
      PassOne(s, o, k, chunks[..], stats);
      finished := ChunkComplete(next, peer, stats, peers);
    }

    /** One turn around the ring at most: the cursor stops on a chunk that is not done, having made done
        what at least two peers have; or the last chunk became done and the round starts again. */
    method FindUndone(peer: PeerInfo, stats: Stats, peers: set<PeerInfo>) returns (finished: bool, ghost k: nat)
      requires Valid(peers) && |stats.rarity| == chunks.Length
      modifies this, chunks, peers`blocked
      ensures !finished ==> Valid(peers) && !chunks[next].Done? && stats.rarity[next] <= 1
      ensures k < chunks.Length && !finished ==>
                || (!old(HasRare(chunks[..], stats)) && IsReset(chunks[..], next, stats))
                || (IsPassed(old(chunks[..]), old(next), k, chunks[..], stats)
                     && next == Ahead(old(next), k + 1, chunks.Length))
      ensures k < chunks.Length
      ensures finished ==> AllWellSeeded(stats) && (old(HasRare(chunks[..], stats)) ==> stats.complete > 1)
      ensures forall p :: p in peers && p.blocked ==> old(p.blocked)
    {
      hide IsPassed, HasRare, Undone;
      finished, k := false, 0;
      ghost var n, o, s := chunks.Length, next, chunks[..];
      PassNone(s, o, stats);
      while true
        invariant chunks.Length == n && k < n && next == Ahead(o, k, n)
        invariant Valid(peers) && !finished
        invariant IsPassed(s, o, k, chunks[..], stats)
        invariant forall p :: p in peers && p.blocked ==> old(p.blocked)
        decreases n - k
      {
        next := next + 1;
        if next == chunks.Length { next := 0; }
        assert next == Ahead(o, k + 1, n);
        if !chunks[next].Done? && stats.rarity[next] > 1 {
          finished := CompleteNext(peer, stats, peers, s, o, k);
          if finished { return; }
        } else if chunks[next].Done? {
          PassOne(s, o, k, chunks[..], stats);
        }
        if !chunks[next].Done? { return; }
        FullCircle(s, o, k + 1, chunks[..], stats);
        k := k + 1;
      }
    }

    /** The next chunk to offer. Either the slots are searched in place, or, with no rare chunk left,
        the round started again; in both cases a rare chunk is left, and the cursor is on one not done. */
    method FindNext(secondary: bool, peer: PeerInfo, stats: Stats, peers: set<PeerInfo>)
      returns (finished: bool, ghost k: nat)
      requires Valid(peers) && |stats.rarity| == chunks.Length
      modifies this, chunks, peers`blocked
      ensures !finished ==> Valid(peers) && !chunks[next].Done? && HasRare(chunks[..], stats)
      ensures finished ==> AllWellSeeded(stats) && (old(HasRare(chunks[..], stats)) ==> stats.complete > 1)
      ensures !finished ==>
                || IsSearched(old(chunks[..]), chunks[..], stats)
                || (!old(HasRare(chunks[..], stats)) && IsReset(chunks[..], next, stats))
      ensures k < chunks.Length
      ensures secondary && !finished && !IsReset(chunks[..], next, stats) ==>
                IsPassed(old(chunks[..]), old(next), k, chunks[..], stats)
                  && next == Ahead(old(next), k + 1, chunks.Length)
      ensures forall f :: !secondary && IsFirstFresh(old(chunks[..]), old(next), f, stats) ==> !finished && next == f
      ensures forall p :: p in peers && p.blocked ==> old(p.blocked)
    {
      hide IsPassed, Undone;
      k := 0;
      ghost var s := chunks[..];
      if !secondary {
        var found := FindUnsent(stats, peers);
        if found { return false, 0; }
      }
      ghost var m, o := chunks[..], next;
      assert IsSearched(s, m, stats);
      if HasRare(s, stats) { SearchedKeepsRare(s, m, stats); }
      hide HasRare, IsSearched, IsReset, Recorded;
      finished, k := FindUndone(peer, stats, peers);
      if !finished {
        RareAt(chunks[..], next, stats);
        if IsPassed(m, o, k, chunks[..], stats) { PassedIsSearched(s, m, o, k, chunks[..], stats); }
      }
    }

    /** A chunk about to be sent for the first time is one that no connected peer has. */
    method NewPeer(peer: PeerInfo, stats: Stats, peers: set<PeerInfo>) returns (finished: bool)
      requires Valid(peers) && |stats.rarity| == chunks.Length
      modifies this, chunks, peers`blocked, peer`restart
      ensures peer.restart == (old(peer.restart) || old(peer.blocked)) && (finished ==> AllWellSeeded(stats))
      ensures !finished ==> Valid(peers) && (chunks[next].Unsent? ==> stats.rarity[next] == 0)
      ensures !old(chunks[next]).Unsent? || stats.rarity[old(next)] == 0 ==>
                !finished && next == old(next) && chunks[..] == old(chunks[..])
      ensures old(chunks[next]).Unsent? && stats.rarity[old(next)] > 0 ==>
                forall f: nat :: IsFirstFresh(old(chunks[..]), old(next), f, stats) ==> !finished && next == f
      ensures forall p :: p in peers && p.blocked ==> old(p.blocked)
    {
      if peer.blocked { peer.restart := true; }
      finished := false;
      if !chunks[next].Unsent? { return; }
      hide Undone, Unsents, IsSearched, IsReset, HasRare, Recorded, AllWellSeeded;
      while chunks[next].Unsent? && stats.rarity[next] != 0
        invariant Valid(peers) && !finished
        invariant peer.restart == (old(peer.restart) || old(peer.blocked))
        invariant forall p :: p in peers && p.blocked ==> old(p.blocked)
        invariant || (next == old(next) && chunks[..] == old(chunks[..]))
                  || (&& old(chunks[next]).Unsent? && stats.rarity[old(next)] > 0
                      && forall f: nat :: IsFirstFresh(old(chunks[..]), old(next), f, stats) ==> next == f)
        decreases !HasRare(chunks[..], stats), Unsents(chunks[..])
      {
        ghost var s := chunks[..];
        BecomesUnknown(next, stats, peers);
        chunks[next] := Unknown;
        ghost var m := chunks[..];
        assert Valid(peers);
        ghost var k;
        finished, k := FindNext(false, peer, stats, peers);
        FreshStays(old(chunks[..]), old(next), stats);
        if finished { return; }
        if HasRare(s, stats) { SearchedKeepsUnsent(m, chunks[..], stats); }
      }
    }

    lemma BecomesUnknown(i: nat, stats: Stats, peers: set<PeerInfo>)
      requires Valid(peers) && i < chunks.Length && !chunks[i].Done?
      ensures var t := chunks[..][i := Unknown];
              && Undone(t) == left && Unsents(t) == Unsents(chunks[..]) - (if chunks[i].Unsent? then 1 else 0)
              && (HasRare(chunks[..], stats) ==> HasRare(t, stats))
    {
      CountsAfterUpdate(chunks[..], i, Unknown);
    }

    ghost predicate RecordedFor(peer: PeerInfo)
      reads chunks
    {
      exists i :: 0 <= i < chunks.Length && chunks[i] == Sent(peer)
    }

    /** The chunk at the cursor, or the next one not done: not done, and when it is not sent for the
        first time, not seen with two peers. */
    method Choose(peer: PeerInfo, stats: Stats, peers: set<PeerInfo>)
      returns (finished: bool, index: nat, secondary: bool)
      requires Valid(peers) && |stats.rarity| == chunks.Length
      modifies this, chunks, peers`blocked
      ensures finished ==> AllWellSeeded(stats) && (old(HasRare(chunks[..], stats)) ==> stats.complete > 1)
      ensures !finished ==> Valid(peers) && index < chunks.Length && !chunks[index].Done?
      ensures secondary == !old(chunks[next]).Unsent? && (!finished && secondary ==> stats.rarity[index] <= 1)
      ensures !secondary ==>
                !finished && index == next == old(next) && chunks[..] == old(chunks[..]) && chunks[next].Unsent?
      ensures !finished ==> forall p :: p in peers && RecordedFor(p) ==> old(RecordedFor(p))
      ensures forall p :: p in peers && p.blocked ==> old(p.blocked)
    {
      finished, index, secondary := false, next, !chunks[next].Unsent?;
      if !secondary { return; }
      if !chunks[index].Done? && stats.rarity[index] > 1 {
        PassNone(chunks[..], next, stats);
        RareRemains(chunks[..], next, 0, chunks[..], index, stats);
        finished := ChunkComplete(index, peer, stats, peers);
        if finished { return; }
      }
      if chunks[index].Done? {
        ghost var k;
        finished, k := FindUndone(peer, stats, peers);
        index := next;
      }
    }

    /** A chunk for a peer that has none to share: recorded for it, unless everybody is offered the last one. */
    method OfferNext(peer: PeerInfo, has: seq<bool>, stats: Stats, peers: set<PeerInfo>) returns (r: Offer)
      requires Valid(peers) && |stats.rarity| == |has| == chunks.Length
      requires peer in peers && !RecordedFor(peer)
      modifies this, chunks, peers`blocked
      ensures if r.Finished? then AllWellSeeded(stats) else Valid(peers)
      ensures r.NoOffer? && peer.blocked ==> old(peer.blocked)
      ensures r.Offered? ==> r.index < chunks.Length
      ensures r.Offered? && stats.rarity[r.index] <= 1 ==>
                peer.blocked && (chunks[r.index] == Sent(peer) || (left == 1 && chunks[r.index].Sent?))
      ensures r.Offered? && has[r.index] ==> left == 1 && chunks[r.index].Sent?
      ensures r.NoOffer? ==> exists i :: 0 <= i < chunks.Length && has[i] && !chunks[i].Done?
      ensures old(chunks[next]).Unsent? ==>
                if has[old(next)] then r.NoOffer? else r.Finished? || r == Offered(old(next))
    {
      var finished, index, secondary := Choose(peer, stats, peers);
      if finished { return Finished; }
      if left == 1 && chunks[index].Sent? {
        peer.blocked := true;
        return Offered(index);
      }
      if has[index] { return NoOffer; }
      UndoneAfter(chunks[..], index, Sent(peer));
      chunks[index] := Sent(peer);
      peer.blocked := true;
      assert Valid(peers);
      if stats.rarity[index] <= 1 { RareAt(chunks[..], index, stats); }
      ghost var k;
      finished, k := FindNext(secondary, peer, stats, peers);
      if finished { return Finished; }
      return Offered(index);
    }

    /** The first chunk recorded for the peer, or the number of chunks. */
    method Find(peer: PeerInfo) returns (i: nat)
      ensures i <= chunks.Length && (i < chunks.Length ==> chunks[i] == Sent(peer))
      ensures forall j :: 0 <= j < i ==> chunks[j] != Sent(peer)
    {
      i := 0;
      while i < chunks.Length && chunks[i] != Sent(peer)
        invariant i <= chunks.Length && forall j :: 0 <= j < i ==> chunks[j] != Sent(peer)
      {
        i := i + 1;
      }
    }

    /** `done` is the chunk the peer has just finished, `free` says that upload slots are to spare. */
    method ChunkOffer(peer: PeerInfo, done: Option<nat>, free: bool, has: seq<bool>, stats: Stats, peers: set<PeerInfo>)
      returns (r: Offer)
      requires Valid(peers) && |stats.rarity| == |has| == chunks.Length && peer in peers
      requires done.Some? ==> done.value < chunks.Length
      modifies this, chunks, peers`blocked, peer`restart
      ensures if r.Finished? then AllWellSeeded(stats) else Valid(peers)
      ensures old(free && done.Some? && chunks[done.value] == Sent(peer)) && r.NoOffer? ==> !peer.blocked
      ensures r.Offered? ==> r.index < chunks.Length
      ensures r.Offered? && stats.rarity[r.index] <= 1 ==>
                peer.blocked && (chunks[r.index] == Sent(peer) || (left == 1 && chunks[r.index].Sent?))
      ensures r.Offered? && has[r.index] ==> chunks[r.index].Sent? && (left == 1 || old(chunks[r.index]) == Sent(peer))
      ensures old(peer.blocked && !(free && done.Some? && chunks[done.value] == Sent(peer))) ==>
                && !peer.restart
                && (!old(peer.restart) ==> r.NoOffer? && chunks[..] == old(chunks[..]) && next == old(next))
                && (old(peer.restart) && old(RecordedFor(peer)) ==>
                      r.Offered? && chunks[r.index] == Sent(peer) && chunks[..] == old(chunks[..]) && next == old(next))
      ensures old(!peer.blocked || (free && done.Some? && chunks[done.value] == Sent(peer))
                || (peer.restart && !RecordedFor(peer))) ==>
                && (r.NoOffer? ==> exists i :: 0 <= i < chunks.Length && has[i] && !chunks[i].Done?)
                && (old(chunks[next]).Unsent? ==>
                      if has[old(next)] then r.NoOffer? else r.Finished? || r == Offered(old(next)))
    {
      if peer.blocked && done.Some? && chunks[done.value] == Sent(peer) && free {
        UndoneAfter(chunks[..], done.value, Unknown);
        chunks[done.value] := Unknown;
        peer.blocked := false;
      } else if peer.blocked {
        if !peer.restart { return NoOffer; }
        peer.restart := false;
        var i := Find(peer);
        if i < chunks.Length { return Offered(i); }
      }
      r := OfferNext(peer, has, stats, peers);
    }

    /** What the connections may call, in any order: initial seeding finishes only upon an event that finds
        every chunk well seeded, and until then it is valid. */
    method Run(events: seq<Event>, peers: set<PeerInfo>) returns (finished: bool, n: nat)
      requires Valid(peers) && forall e :: e in events ==> EventOk(e, chunks.Length, peers)
      modifies this, chunks, peers
      ensures if finished then 0 < n <= |events| && AllWellSeeded(events[n - 1].stats)
              else n == |events| && Valid(peers)
    {
      finished, n := false, 0;
      while n < |events| && !finished
        invariant n <= |events| && if finished then 0 < n && AllWellSeeded(events[n - 1].stats) else Valid(peers)
      {
        hide AllWellSeeded;
        n := n + 1;
        assert EventOk(events[n - 1], chunks.Length, peers);
        match events[n - 1] {
          case Connected(peer, stats) => finished := NewPeer(peer, stats, peers);
          case Have(peer, index, stats) => finished := ChunkSeen(index, peer, stats, peers);
          case Wants(peer, done, free, has, stats) =>
            var r := ChunkOffer(peer, done, free, has, stats, peers);
            finished := r.Finished?;
        }
      }
    }
  }

  datatype Event =
    | Connected(peer: PeerInfo, stats: Stats)
    | Have(peer: PeerInfo, index: nat, stats: Stats)
    | Wants(peer: PeerInfo, done: Option<nat>, free: bool, has: seq<bool>, stats: Stats)

  predicate EventOk(e: Event, size: nat, peers: set<PeerInfo>) {
    && e.peer in peers && |e.stats.rarity| == size
    && (e.Have? ==> e.index < size)
    && (e.Wants? ==> |e.has| == size && (e.done.Some? ==> e.done.value < size))
  }

  /** Where the first fresh chunk is does not depend on the chunk at the cursor; and that one is not passed. */
  lemma FreshStays(s: seq<Slot>, o: nat, stats: Stats)
    requires o < |s|
    ensures forall f: nat :: IsFirstFresh(s, o, f, stats) ==>
              stats.rarity[f] == 0 && IsFirstFresh(s[o := Unknown], o, f, stats)
  {
  }

  lemma SearchedKeepsUnsent(s: seq<Slot>, t: seq<Slot>, stats: Stats)
    requires IsSearched(s, t, stats)
    ensures Unsents(t) <= Unsents(s)
  {
    UnsentsShrink(s, t);
  }

  lemma RareAt(s: seq<Slot>, i: nat, stats: Stats)
    requires i < |s| == |stats.rarity| && !s[i].Done? && stats.rarity[i] <= 1
    ensures HasRare(s, stats)
  {
  }

  lemma {:induction false} AllUndone(s: seq<Slot>)
    requires forall i :: 0 <= i < |s| ==> !s[i].Done?
    ensures Undone(s) == |s|
  {
    if s != [] { AllUndone(s[1..]); }
  }
}
