/** Peer exchange: at every tick, which addresses are new and which are gone since the last one. */
module PeerExchange {

  const MAX_SIZE: nat := 200

  datatype Peer = Peer(addr: nat, port: nat)

  predicate Less(a: Peer, b: Peer) { a.addr < b.addr || (a.addr == b.addr && a.port < b.port) }

  /** The order is that of the six bytes of address and port, as a number. */
  lemma LessIsNumeric(a: Peer, b: Peer)
    requires a.port < 0x1_0000 && b.port < 0x1_0000
    ensures Less(a, b) <==> a.addr * 0x1_0000 + a.port < b.addr * 0x1_0000 + b.port
  {
  }

  predicate Sorted(s: seq<Peer>) { forall i, j :: 0 <= i < j < |s| ==> !Less(s[j], s[i]) }

  /** As `std::sort`, whose way of doing it is not of interest here. */
  method Sort(s: seq<Peer>) returns (r: seq<Peer>)
    ensures Sorted(r) && multiset(r) == multiset(s)
  {
    r := [];
    var k := 0;
    while k < |s|
      invariant k <= |s| && Sorted(r) && multiset(r) == multiset(s[..k])
    {
      var i := 0;
      while i < |r| && !Less(s[k], r[i])
        invariant i <= |r| && forall j :: 0 <= j < i ==> !Less(s[k], r[j])
      {
        i := i + 1;
      }
      Inserted(r, i, s[k]);
      assert s[..k + 1] == s[..k] + [s[k]];
      r := r[..i] + [s[k]] + r[i..];
      k := k + 1;
    }
    assert s[..k] == s;
  }

  lemma Inserted(r: seq<Peer>, i: nat, x: Peer)
    requires Sorted(r) && i <= |r| && (forall j :: 0 <= j < i ==> !Less(x, r[j])) && (i < |r| ==> Less(x, r[i]))
    ensures Sorted(r[..i] + [x] + r[i..]) && multiset(r[..i] + [x] + r[i..]) == multiset(r) + multiset{x}
  {
    assert r == r[..i] + r[i..];
  }

  /** The front of a sorted sequence is not in another one that begins higher. */
  lemma NotAfter(s: seq<Peer>, x: Peer)
    requires Sorted(s) && (s != [] ==> Less(x, s[0]))
    ensures x !in multiset(s)
  {
    assert forall i :: 0 <= i < |s| ==> s[i] != x;
  }

  /** One step of a merge that subtracts b from a. */
  lemma Subtract(a: seq<Peer>, b: seq<Peer>)
    requires Sorted(a) && Sorted(b) && a != []
    ensures b == [] || Less(a[0], b[0]) ==>
              multiset(a) - multiset(b) == multiset{a[0]} + (multiset(a[1..]) - multiset(b))
    ensures b != [] && Less(b[0], a[0]) ==> multiset(a) - multiset(b) == multiset(a) - multiset(b[1..])
    ensures b != [] && !Less(a[0], b[0]) && !Less(b[0], a[0]) ==>
              multiset(a) - multiset(b) == multiset(a[1..]) - multiset(b[1..])
  {
    assert a == [a[0]] + a[1..];
    if b == [] {
    } else if Less(a[0], b[0]) {
      NotAfter(b, a[0]);
    } else {
      assert b == [b[0]] + b[1..];
      if Less(b[0], a[0]) { NotAfter(a, b[0]); }
    }
  }

  /** As `std::set_difference`, on sorted sequences that may hold an address more than once. */
  method SetDifference(a: seq<Peer>, b: seq<Peer>) returns (r: seq<Peer>)
    requires Sorted(a) && Sorted(b)
    ensures Sorted(r) && multiset(r) == multiset(a) - multiset(b)
  {
    var m := new Peer[|a|](i requires 0 <= i < |a| => a[i]);
    assert m[..] == a;
    var n := SubtractInPlace(m, b);
    r := m[..n];
  }

  /** A merge has come to i in a and to j in b: `out` is what it has kept. */
  ghost predicate Kept(a: seq<Peer>, b: seq<Peer>, i: nat, j: nat, out: seq<Peer>) {
    && i <= |a| && j <= |b| && Sorted(a) && Sorted(b) && Sorted(out)
    && (forall x, y :: x in out && i <= y < |a| ==> !Less(a[y], x))
    && multiset(out) + (multiset(a[i..]) - multiset(b[j..])) == multiset(a) - multiset(b)
  }

  lemma KeptNone(a: seq<Peer>, b: seq<Peer>)
    requires Sorted(a) && Sorted(b)
    ensures Kept(a, b, 0, 0, [])
  {
    assert a[0..] == a && b[0..] == b;
  }

  lemma KeptStep(a: seq<Peer>, b: seq<Peer>, i: nat, j: nat, out: seq<Peer>)
    requires Kept(a, b, i, j, out) && i < |a|
    ensures j == |b| || Less(a[i], b[j]) ==> Kept(a, b, i + 1, j, out + [a[i]])
    ensures j < |b| && Less(b[j], a[i]) ==> Kept(a, b, i, j + 1, out)
    ensures j < |b| && !Less(a[i], b[j]) && !Less(b[j], a[i]) ==> Kept(a, b, i + 1, j + 1, out)
  {
    Subtract(a[i..], b[j..]);
    assert a[i..][1..] == a[i + 1..] && a[i..][0] == a[i];
    if j < |b| { assert b[j..][1..] == b[j + 1..] && b[j..][0] == b[j]; }
    if j == |b| || Less(a[i], b[j]) {
      assert forall k :: 0 <= k < |out| ==> out[k] in out;
      Written(out, a[i]);
      assert forall x :: x in out + [a[i]] <==> x in out || x == a[i];
    }
  }

  lemma KeptAll(a: seq<Peer>, b: seq<Peer>, j: nat, out: seq<Peer>)
    requires Kept(a, b, |a|, j, out)
    ensures Sorted(out) && multiset(out) == multiset(a) - multiset(b)
  {
    assert a[|a|..] == [];
  }

  /** The same, with the result written over the sequence that is read: what is written never gets
      beyond what was read. */
  method SubtractInPlace(m: array<Peer>, b: seq<Peer>) returns (w: nat)
    requires Sorted(m[..]) && Sorted(b)
    modifies m
    ensures w <= m.Length && Sorted(m[..w]) && multiset(m[..w]) == multiset(old(m[..])) - multiset(b)
  {
    hide Kept, Sorted, Less;
    ghost var a, out: seq<Peer> := m[..], [];
    var i, j := 0, 0;
    w := 0;
    KeptNone(a, b);
    while i < m.Length
      invariant w <= i <= m.Length && j <= |b| && (forall k :: i <= k < m.Length ==> m[k] == a[k])
      invariant Kept(a, b, i, j, out) && w == |out| && forall k :: 0 <= k < w ==> m[k] == out[k]
      decreases m.Length - i + |b| - j
    {
      KeptStep(a, b, i, j, out);
      if j == |b| || Less(m[i], b[j]) {
        out := out + [m[i]];
        m[w] := m[i];
        w := w + 1;
        i := i + 1;
      } else if Less(b[j], m[i]) {
        j := j + 1;
      } else {
        i := i + 1;
        j := j + 1;
      }
    }
    KeptAll(a, b, j, out);
    assert m[..w] == out;
  }

  lemma Written(s: seq<Peer>, x: Peer)
    requires Sorted(s) && forall i :: 0 <= i < |s| ==> !Less(x, s[i])
    ensures Sorted(s + [x]) && multiset(s + [x]) == multiset(s) + multiset{x}
  {
  }

  class PexList {
    var list: seq<Peer>

    ghost predicate Valid() reads this { Sorted(list) && |list| <= MAX_SIZE }

    constructor ()
      ensures Valid() && list == []
    {
      list := [];
    }

    /** One tick: the list follows the peers connected now, as many as it may hold; `added` and `removed`
        are what it gains and loses. The last of the new peers may be left out. */
    method Exchange(connected: seq<Peer>) returns (added: seq<Peer>, removed: seq<Peer>, ghost rest: seq<Peer>)
      requires Valid()
      modifies this
      ensures Valid() && multiset(list) <= multiset(connected)
      ensures multiset(list) == multiset(old(list)) - multiset(removed) + multiset(added)
      ensures multiset(removed) == multiset(old(list)) - multiset(connected)
      ensures Sorted(removed) && Sorted(added + rest)
              && multiset(added + rest) == multiset(connected) - multiset(old(list))
      ensures |list| == if |connected| > MAX_SIZE then MAX_SIZE else |connected|
    {
      hide Sorted;
      var current := Sort(connected);
      added := SetDifference(current, list);
      removed := SetDifference(list, current);
      Sizes(current, list, added, removed);
      rest := [];
      assert added + rest == added;
      if |current| > MAX_SIZE {
        assert |added| >= |current| - MAX_SIZE;
        ghost var all := added;
        rest := added[|added| - (|current| - MAX_SIZE)..];
        added := added[..|added| - (|current| - MAX_SIZE)];
        assert added + rest == all;
        var kept := SetDifference(list, removed);
        Trimmed(current, list, all, removed, |added|, kept);
        list := Sort(kept + added);
        SameSize(list, kept + added);
      } else {
        list := current;
      }
      SameSize(current, connected);
    }

    /** Over any ticks, what was added and removed in order makes the list. */
    method Ticks(ticks: seq<seq<Peer>>) returns (deltas: seq<Delta>)
      requires Valid()
      modifies this
      ensures Valid() && multiset(list) == Told(multiset(old(list)), deltas) && |deltas| == |ticks|
      ensures ticks != [] ==> multiset(list) <= multiset(ticks[|ticks| - 1])
    {
      hide Sorted, Told;
      deltas := [];
      ToldNone(multiset(list));
      for k := 0 to |ticks|
        invariant Valid() && multiset(list) == Told(multiset(old(list)), deltas) && |deltas| == k
        invariant k > 0 ==> multiset(list) <= multiset(ticks[k - 1])
      {
        var added, removed, _ := Exchange(ticks[k]);
        ToldMore(multiset(old(list)), deltas, Delta(added, removed));
        deltas := deltas + [Delta(added, removed)];
      }
    }
  }

  /** What a peer holds that was told a list and then every change to it. */
  function Told(start: multiset<Peer>, deltas: seq<Delta>): multiset<Peer> {
    if deltas == [] then start
    else
      var d := deltas[|deltas| - 1];
      Told(start, deltas[..|deltas| - 1]) - multiset(d.removed) + multiset(d.added)
  }

  lemma ToldNone(start: multiset<Peer>)
    ensures Told(start, []) == start
  {
  }

  lemma ToldMore(start: multiset<Peer>, deltas: seq<Delta>, d: Delta)
    ensures Told(start, deltas + [d]) == Told(start, deltas) - multiset(d.removed) + multiset(d.added)
  {
    assert (deltas + [d])[..|deltas|] == deltas;
  }

  datatype Delta = Delta(added: seq<Peer>, removed: seq<Peer>)

  lemma SameSize(a: seq<Peer>, b: seq<Peer>)
    requires multiset(a) == multiset(b)
    ensures |a| == |b|
  {
    assert |multiset(a)| == |a| && |multiset(b)| == |b|;
  }

  lemma Sizes(current: seq<Peer>, list: seq<Peer>, added: seq<Peer>, removed: seq<Peer>)
    requires multiset(added) == multiset(current) - multiset(list)
             && multiset(removed) == multiset(list) - multiset(current)
    ensures |added| + |list| == |current| + |removed|
    ensures multiset(current) == multiset(list) - multiset(removed) + multiset(added)
  {
    assert multiset(current + removed) == multiset(list + added);
    SameSize(current + removed, list + added);
  }

  /** What stays of the list, and the first n of the added. */
  lemma Trimmed(current: seq<Peer>, list: seq<Peer>, added: seq<Peer>, removed: seq<Peer>, n: nat, kept: seq<Peer>)
    requires multiset(added) == multiset(current) - multiset(list)
             && multiset(removed) == multiset(list) - multiset(current)
    requires n <= |added| && multiset(kept) == multiset(list) - multiset(removed)
    ensures multiset(kept + added[..n]) <= multiset(current) && |kept + added[..n]| == |current| - (|added| - n)
    ensures multiset(added[..n]) <= multiset(added)
  {
    assert added == added[..n] + added[n..];
    assert multiset(current) == multiset(kept + added);
    SameSize(current, kept + added);
  }
}
