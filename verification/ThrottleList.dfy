/** The quota list of one throttle: active nodes that may transfer, then inactive nodes that wait for
    quota, the most urgent first. */
module ThrottleLists {
  import opened Collections

  /** What a node with quota q is topped up to, from u unallocated. */
  function TopUp(q: nat, u: nat, min: nat, max: nat): (r: nat)
    requires min <= max
    ensures q <= r <= q + u
    ensures if q >= min then r == q else r <= max && (r == max || r == q + u)
  {
    if q >= min then q else q + Min(max - q, u)
  }

  /** Quota handed to waiting nodes in order. */
  datatype Service = Service(quotas: seq<nat>, count: nat, rest: nat)

  /** The waiting nodes are topped up one by one, the next only when the one before reached `min`. */
  function Serve(waiting: seq<nat>, u: nat, min: nat, max: nat): (r: Service)
    requires min <= max
    ensures |r.quotas| == |waiting| && r.count <= |waiting|
  {
    if waiting == [] then Service([], 0, u)
    else
      var q := TopUp(waiting[0], u, min, max);
      if q < min then Service([q] + waiting[1..], 0, 0)
      else
        var r := Serve(waiting[1..], u - (q - waiting[0]), min, max);
        Service([q] + r.quotas, 1 + r.count, r.rest)
  }

  /** Nothing is lost or made; nodes only gain, and never beyond `max`. */
  lemma {:induction false} ServeConserves(waiting: seq<nat>, u: nat, min: nat, max: nat)
    requires min <= max
    ensures var r := Serve(waiting, u, min, max);
            && Sum(r.quotas) + r.rest == Sum(waiting) + u
            && forall i :: 0 <= i < |waiting| ==>
               waiting[i] <= r.quotas[i] && (r.quotas[i] <= max || r.quotas[i] == waiting[i])
  {
    if waiting != [] {
      var q := TopUp(waiting[0], u, min, max);
      var r := Serve(waiting, u, min, max);
      assert waiting == [waiting[0]] + waiting[1..];
      if q < min {
        assert r.quotas[1..] == waiting[1..];
      } else {
        ServeConserves(waiting[1..], u - (q - waiting[0]), min, max);
        assert r.quotas[1..] == Serve(waiting[1..], u - (q - waiting[0]), min, max).quotas;
      }
    }
  }

  /** First come, first served: those before the cut have enough; the first that has not took all that
      was left, so whoever waits behind it got nothing. */
  lemma ServeInOrder(waiting: seq<nat>, u: nat, min: nat, max: nat)
    requires min <= max
    ensures var r := Serve(waiting, u, min, max);
            && (forall i :: 0 <= i < r.count ==> r.quotas[i] >= min)
            && (r.count < |waiting| ==> r.rest == 0 && r.quotas[r.count] < min)
            && (forall i :: r.count < i < |waiting| ==> r.quotas[i] == waiting[i])
            && (r.count == 0 && waiting != [] ==> r.quotas[0] == waiting[0] + u)
  {
    hide Serve, TopUp;
    ServeOrdered(waiting, u, min, max);
    if waiting != [] { ServeFirstOf(waiting, u, min, max); }
  }

  lemma {:induction false} ServeOrdered(waiting: seq<nat>, u: nat, min: nat, max: nat)
    requires min <= max
    ensures InOrder(waiting, Serve(waiting, u, min, max), min)
  {
    hide Serve, TopUp, InOrder;
    if waiting == [] {
      ServeNone(u, min, max);
    } else {
      ServeFirstOf(waiting, u, min, max);
      var q := TopUp(waiting[0], u, min, max);
      if q >= min {
        ServeOrdered(waiting[1..], u - (q - waiting[0]), min, max);
        InOrderMore(waiting, q, Serve(waiting[1..], u - (q - waiting[0]), min, max), min);
      } else {
        InOrderLast(waiting, q, min);
      }
    }
  }

  lemma ServeNone(u: nat, min: nat, max: nat)
    requires min <= max
    ensures InOrder([], Serve([], u, min, max), min)
  {
  }

  ghost predicate InOrder(waiting: seq<nat>, r: Service, min: nat) {
    && r.count <= |waiting| == |r.quotas|
    && (forall i :: 0 <= i < r.count ==> r.quotas[i] >= min)
    && (r.count < |waiting| ==> r.rest == 0 && r.quotas[r.count] < min)
    && (forall i :: r.count < i < |waiting| ==> r.quotas[i] == waiting[i])
  }

  lemma InOrderLast(waiting: seq<nat>, q: nat, min: nat)
    requires waiting != [] && q < min
    ensures InOrder(waiting, Service([q] + waiting[1..], 0, 0), min)
  {
  }

  lemma InOrderMore(waiting: seq<nat>, q: nat, t: Service, min: nat)
    requires waiting != [] && q >= min && InOrder(waiting[1..], t, min)
    ensures InOrder(waiting, Service([q] + t.quotas, 1 + t.count, t.rest), min)
  {
    forall i | 1 + t.count < i < |waiting| ensures ([q] + t.quotas)[i] == waiting[i] {
      assert t.quotas[i - 1] == waiting[1..][i - 1];
    }
  }

  /** Whoever was short and is not any more has the maximum, or took all that was left. */
  lemma {:induction false} ServeFills(waiting: seq<nat>, u: nat, min: nat, max: nat, i: nat)
    requires min <= max && i < Serve(waiting, u, min, max).count
    ensures var r := Serve(waiting, u, min, max);
            if waiting[i] >= min then r.quotas[i] == waiting[i]
            else r.quotas[i] == max || (r.rest == 0 && forall j :: i < j < |waiting| ==> r.quotas[j] == waiting[j])
  {
    hide Serve, TopUp;
    ServeFirstOf(waiting, u, min, max);
    var q := TopUp(waiting[0], u, min, max);
    if q >= min {
      if i > 0 { ServeFills(waiting[1..], u - (q - waiting[0]), min, max, i - 1); }
      if u == q - waiting[0] { ServeNothing(waiting[1..], min, max); }
    }
  }

  lemma {:induction false} ServeNothing(waiting: seq<nat>, min: nat, max: nat)
    requires min <= max
    ensures Serve(waiting, 0, min, max).quotas == waiting && Serve(waiting, 0, min, max).rest == 0
  {
    if waiting != [] {
      hide Serve, TopUp;
      ServeFirstOf(waiting, 0, min, max);
      ServeNothing(waiting[1..], min, max);
      assert waiting == [waiting[0]] + waiting[1..];
    } else {
      assert Serve(waiting, 0, min, max).quotas == [];
    }
  }

  lemma ServeFirstOf(waiting: seq<nat>, u: nat, min: nat, max: nat)
    requires min <= max && waiting != []
    ensures var q := TopUp(waiting[0], u, min, max); var r := Serve(waiting, u, min, max);
            if q < min then r == Service([q] + waiting[1..], 0, 0)
            else var t := Serve(waiting[1..], u - (q - waiting[0]), min, max);
                 r == Service([q] + t.quotas, 1 + t.count, t.rest)
    ensures var q := TopUp(waiting[0], u, min, max);
            if waiting[0] >= min then q == waiting[0] else q == max || q == waiting[0] + u
  {
  }

  lemma FirstWaits(q: seq<nat>, o: nat, u: nat, min: nat, max: nat)
    requires o < |q| && min <= max
    ensures var s := Serve(q[o..], u, min, max); s.count == 0 ==> (q[..o] + s.quotas)[o] == q[o] + u < min
  {
    hide Serve;
    ServeInOrder(q[o..], u, min, max);
  }

  /** From quotas q0, with the nodes from o waiting and u0 to hand out, the first k nodes are dealt with:
      quotas are q, and u is left. */
  ghost predicate IsServing(q0: seq<nat>, o: nat, u0: nat, q: seq<nat>, k: nat, u: nat, min: nat, max: nat) {
    && o <= k <= |q| == |q0| && min <= max
    && q[..o] == q0[..o] && q[k..] == q0[k..]
    && var s := Serve(q[k..], u, min, max);
       Serve(q0[o..], u0, min, max) == Service(q[o..k] + s.quotas, k - o + s.count, s.rest)
  }

  /** All the waiting nodes are dealt with. */
  ghost predicate IsServed(q0: seq<nat>, o: nat, u0: nat, q: seq<nat>, k: nat, u: nat, min: nat, max: nat) {
    && o <= k <= |q| == |q0| && min <= max
    && q[..o] == q0[..o] && Serve(q0[o..], u0, min, max) == Service(q[o..], k - o, u)
  }

  lemma ServeStart(q: seq<nat>, o: nat, u: nat, min: nat, max: nat)
    requires o <= |q| && min <= max
    ensures IsServing(q, o, u, q, o, u, min, max)
  {
    var s := Serve(q[o..], u, min, max);
    assert q[o..o] + s.quotas == s.quotas;
  }

  lemma ServeStep(q0: seq<nat>, o: nat, u0: nat, q: seq<nat>, k: nat, u: nat, min: nat, max: nat)
    requires IsServing(q0, o, u0, q, k, u, min, max) && k < |q|
    ensures var v := TopUp(q[k], u, min, max);
            if v < min then IsServed(q0, o, u0, q[k := v], k, u - (v - q[k]), min, max)
            else IsServing(q0, o, u0, q[k := v], k + 1, u - (v - q[k]), min, max)
  {
    hide Serve, TopUp;
    var v := TopUp(q[k], u, min, max);
    var q1 := q[k := v];
    ServeFirstOf(q[k..], u, min, max);
    assert q1[..o] == q0[..o] && q1[k + 1..] == q0[k + 1..] && q[k..][1..] == q1[k + 1..];
    if v < min {
      assert q[o..k] + ([v] + q[k..][1..]) == q1[o..];
    } else {
      PutBehind(q, o, k, v, Serve(q1[k + 1..], u - (v - q[k]), min, max).quotas);
    }
  }

  lemma PutBehind(q: seq<nat>, o: nat, k: nat, v: nat, rest: seq<nat>)
    requires o <= k < |q|
    ensures q[o..k] + ([v] + rest) == q[k := v][o..k + 1] + rest
  {
    assert q[k := v][o..k + 1] == q[o..k] + [v];
  }

  lemma ServeEnd(q0: seq<nat>, o: nat, u0: nat, q: seq<nat>, u: nat, min: nat, max: nat)
    requires IsServing(q0, o, u0, q, |q|, u, min, max)
    ensures IsServed(q0, o, u0, q, |q|, u, min, max)
  {
    assert q[o..|q|] + [] == q[o..];
  }

  class ThrottleNode {
    var quota: nat
    constructor () ensures quota == 0 { quota := 0; }
  }

  ghost function QuotasOf(nodes: seq<ThrottleNode>): (q: seq<nat>)
    reads nodes
    ensures |q| == |nodes|
  {
    seq(|nodes|, i requires 0 <= i < |nodes| reads nodes => nodes[i].quota)
  }

  /** What a list is, apart from being enabled. */
  datatype ListMark = ListMark(nodes: seq<ThrottleNode>, quotas: seq<nat>, split: nat, unallocated: nat,
                               unthrottled: nat, min: nat, max: nat)

  /** A list after a tick with a quota: what was left of the last quota is served to the waiting nodes, and
      no more than the new one stays unallocated. */
  ghost predicate Updated(was: ListMark, now: ListMark, quota: nat) {
    && was.split <= |was.quotas| && was.min <= was.max
    && var s := Serve(was.quotas[was.split..], was.unallocated + was.unthrottled, was.min, was.max);
       now == ListMark(was.nodes, was.quotas[..was.split] + s.quotas, was.split + s.count, Min(s.rest, quota), quota,
                       was.min, was.max)
  }

  class ThrottleList {
    var enabled: bool
    var nodes: seq<ThrottleNode>
    var split: nat
    var outstanding: nat
    var unallocated: nat
    var unthrottled: nat
    var min: nat
    var max: nat

    /** Quota of every node, in order. */
    ghost function Quotas(): (q: seq<nat>)
      reads this`nodes, nodes
      ensures |q| == |nodes|
    {
      QuotasOf(nodes)
    }

    ghost function Marks(): ListMark
      reads this, nodes
    {
      ListMark(nodes, Quotas(), split, unallocated, unthrottled, min, max)
    }

    /** All the quota in the list. */
    ghost function Total(): nat
      reads this`outstanding, this`unallocated, this`unthrottled
    {
      outstanding + unallocated + unthrottled
    }

    function Active(): seq<ThrottleNode>
      requires split <= |nodes|
      reads this`nodes, this`split
    { nodes[..split] }

    function Inactive(): seq<ThrottleNode>
      requires split <= |nodes|
      reads this`nodes, this`split
    { nodes[split..] }

    ghost predicate Valid()
      reads this, nodes
    {
      && split <= |nodes| && min <= max <= MAX_CHUNK
      && AllBelow(Quotas(), MAX_CHUNK)
      && Distinct(nodes)
      && outstanding == Sum(Quotas())
      && (!enabled ==> split == |nodes| && Total() == 0)
    }

    constructor ()
      ensures Valid() && !enabled && nodes == [] && Total() == 0 && min == 2048 && max == 16384
    {
      enabled, nodes, split, outstanding, unallocated, unthrottled, min, max := false, [], 0, 0, 0, 0, 2048, 16384;
    }

    method SetChunkSizes(low: nat, high: nat)
      requires Valid() && low <= high <= MAX_CHUNK
      modifies this`min, this`max
      ensures Valid() && min == low && max == high
    {
      min, max := low, high;
    }

    /** The quota of a node, and with it what is outstanding. */
    method SetQuota(i: nat, quota: nat)
      requires Valid() && enabled && i < |nodes| && quota <= MAX_CHUNK
      modifies this`outstanding, nodes[i]
      ensures Valid() && Quotas() == old(Quotas())[i := quota] && nodes[i].quota == quota
      ensures outstanding == old(outstanding) + quota - old(nodes[i].quota)
    {
      hide Sum;
      ghost var q := Quotas();
      SumUpdate(q, i, quota);
      outstanding := outstanding - nodes[i].quota + quota;
      nodes[i].quota := quota;
      assert Quotas() == q[i := quota];
    }

    method AllocateQuota(i: nat)
      requires Valid() && enabled && i < |nodes|
      modifies this`outstanding, this`unallocated, nodes[i]
      ensures Valid() && Total() == old(Total())
      ensures Quotas() == old(Quotas())[i := TopUp(old(nodes[i].quota), old(unallocated), min, max)]
      ensures nodes[i].quota == TopUp(old(nodes[i].quota), old(unallocated), min, max)
      ensures unallocated == old(unallocated) - (nodes[i].quota - old(nodes[i].quota))
    {
      if nodes[i].quota >= min {
        return;
      }
      var quota := Min(max - nodes[i].quota, unallocated);
      SetQuota(i, nodes[i].quota + quota);
      unallocated := unallocated - quota;
    }

    /** The first waiting node is topped up, and joins the active ones if that is enough. */
    method ServeFirst(ghost q0: seq<nat>, ghost o: nat, ghost u0: nat) returns (active: bool)
      requires Valid() && enabled && split < |nodes|
      requires IsServing(q0, o, u0, Quotas(), split, unallocated, min, max)
      modifies this`outstanding, this`unallocated, this`split, nodes[split]
      ensures Valid() && Total() == old(Total())
      ensures split == old(split) + (if active then 1 else 0)
      ensures if active then IsServing(q0, o, u0, Quotas(), split, unallocated, min, max)
              else IsServed(q0, o, u0, Quotas(), split, unallocated, min, max)
    {
      hide IsServing, IsServed, Sum, AllBelow;
      ServeStep(q0, o, u0, Quotas(), split, unallocated, min, max);
      assert Quotas()[split] == nodes[split].quota;
      AllocateQuota(split);
      active := nodes[split].quota >= min;
      if active { split := split + 1; }
    }

    /** Waiting nodes are served from the front, until one stays short of quota. */
    method ServeWaiting() returns (activated: seq<ThrottleNode>)
      requires Valid() && enabled
      modifies this`outstanding, this`unallocated, this`split, nodes
      ensures Valid() && Total() == old(Total()) && old(split) <= split <= |nodes|
      ensures old(Inactive()) == activated + Inactive()
      ensures IsServed(old(Quotas()), old(split), old(unallocated), Quotas(), split, unallocated, min, max)
    {
      hide IsServing, IsServed, Sum, Quotas, Serve, AllBelow;
      ghost var q, u, o := Quotas(), unallocated, split;
      ServeStart(q, o, u, min, max);
      hide Valid;
      activated := [];
      var active := true;
      while active && split < |nodes|
        invariant Valid() && o <= split <= |nodes| && Total() == old(Total())
        invariant activated == nodes[o..split]
        invariant if active then IsServing(q, o, u, Quotas(), split, unallocated, min, max)
                  else IsServed(q, o, u, Quotas(), split, unallocated, min, max)
        decreases active, |nodes| - split
      {
        active := ServeFirst(q, o, u);
        if active { activated := activated + [nodes[split - 1]]; }
      }
      if active { ServeEnd(q, o, u, Quotas(), unallocated, min, max); }
    }

    /** One tick. The unthrottled part left from the last tick joins the unallocated quota, which is
        served to the waiting nodes; what the list keeps grows by exactly the value returned. */
    method UpdateQuota(quota: nat) returns (used: int, activated: seq<ThrottleNode>)
      requires Valid() && enabled
      modifies this`outstanding, this`unallocated, this`unthrottled, this`split, nodes
      ensures Valid() && old(Inactive()) == activated + Inactive()
      ensures Total() == old(Total()) + used && used <= quota
      ensures unthrottled == quota && unallocated <= quota && Updated(old(Marks()), Marks(), quota)
    {
      hide Serve, Sum, Quotas, Inactive, AllBelow, Distinct;
      unallocated := unallocated + unthrottled;
      unthrottled := quota;
      activated := ServeWaiting();
      assert Quotas() == Quotas()[..old(split)] + Quotas()[old(split)..];
      used := quota;
      if unallocated > quota {
        used := used - (unallocated - quota);
        unallocated := quota;
      }
    }

    method NodeQuota(node: ThrottleNode) returns (r: nat)
      requires Valid() && (enabled ==> node in Active())
      ensures !enabled ==> r == 0x7fff_ffff
      ensures enabled ==> r == (if node.quota + unallocated >= min then node.quota + unallocated else 0)
    {
      if !enabled { return 0x7fff_ffff; }
      if node.quota + unallocated >= min { return node.quota + unallocated; }
      return 0;
    }

    method IndexOf(node: ThrottleNode) returns (i: nat)
      ensures i <= |nodes| && (i < |nodes| <==> node in nodes) && (i < |nodes| ==> nodes[i] == node)
      ensures forall j :: 0 <= j < i ==> nodes[j] != node
    {
      i := 0;
      while i < |nodes| && nodes[i] != node
        invariant i <= |nodes| && node !in nodes[..i]
      {
        i := i + 1;
      }
    }

    /** Bytes transferred by a node are taken from its own quota, then from the unallocated quota: all of
        them, if they are no more than `NodeQuota` allows. */
    method NodeUsed(node: ThrottleNode, used: nat)
      requires Valid()
      modifies this`outstanding, this`unallocated, node
      ensures Valid() && unthrottled == old(unthrottled)
      ensures !enabled || node !in nodes ==> Total() == old(Total()) && node.quota == old(node.quota)
      ensures enabled && node in nodes ==>
                && Total() == old(Total()) - Min(used, old(node.quota + unallocated))
                && node.quota == old(node.quota) - Min(used, old(node.quota))
    {
      if used == 0 || !enabled { return; }
      var i := IndexOf(node);
      if i == |nodes| { return; }
      var quota := Min(used, node.quota);
      assert Quotas()[i] == node.quota;
      assert quota <= outstanding by { SumSplit(Quotas(), i); }
      SetQuota(i, node.quota - quota);
      unallocated := unallocated - Min(used - quota, unallocated);
    }

    /** Bytes no node accounts for: from the unthrottled quota, then from the unallocated quota. */
    method NodeUsedUnthrottled(used: nat)
      requires Valid()
      modifies this`unallocated, this`unthrottled
      ensures Valid() && Total() == old(Total()) - Min(used, old(unthrottled + unallocated))
      ensures unthrottled == old(unthrottled) - Min(used, old(unthrottled))
    {
      var avail := Min(used, unthrottled);
      unthrottled := unthrottled - avail;
      unallocated := unallocated - Min(used - avail, unallocated);
    }

    /** An active node that ran out of quota goes to the back of the queue. */
    method NodeDeactivate(node: ThrottleNode)
      requires Valid() && enabled && node in Active()
      modifies this`nodes, this`split
      ensures Valid() && Inactive() == old(Inactive()) + [node]
      ensures forall n :: n in nodes ==> n in old(nodes)
      ensures exists i ::
                0 <= i < old(split) && old(nodes[i]) == node && Active() == old(nodes[..i] + nodes[i + 1..split])
    {
      hide Sum, AllBelow, Distinct, QuotasOf;
      var i := IndexOf(node);
      assert i < split by { var j :| 0 <= j < split && nodes[j] == node; }
      Moved(nodes, i);
      nodes := nodes[..i] + nodes[i + 1..] + [node];
      split := split - 1;
      assert Active() == old(nodes[..i] + nodes[i + 1..split]);
    }

    /** A connection with `ready` bytes to transfer: it transfers as much as its quota lets it, and exactly
        that is debited; if there is too little quota, nothing is, and it waits behind the others. */
    method Transfer(node: ThrottleNode, ready: nat) returns (used: nat)
      requires Valid() && (enabled ==> node in Active())
      modifies this`nodes, this`split, this`outstanding, this`unallocated, node
      ensures Valid() && used <= ready && Total() == old(Total()) - if enabled then used else 0
      ensures var quota := old(if enabled then node.quota + unallocated else 0x7fff_ffff);
              if enabled && quota < Max(min, 1) then used == 0 && Inactive() == old(Inactive()) + [node]
              else used == Min(ready, quota) && nodes == old(nodes) && split == old(split)
    {
      hide Sum, AllBelow, Distinct, QuotasOf;
      var quota := NodeQuota(node);
      if quota == 0 {
        NodeDeactivate(node);
        return 0;
      }
      used := Min(ready, quota);
      NodeUsed(node, used);
    }

    /** A new node is active, and last of the active ones. */
    method Insert(node: ThrottleNode)
      requires Valid() && (node !in nodes ==> node.quota == 0)
      modifies this`nodes, this`split, this`outstanding, this`unallocated, node
      ensures Valid() && Total() == old(Total())
      ensures node in old(nodes) ==> nodes == old(nodes) && split == old(split) && node.quota == old(node.quota)
      ensures node !in old(nodes) ==>
                && Active() == old(Active()) + [node] && Inactive() == old(Inactive())
                && node.quota == if enabled then TopUp(0, old(unallocated), min, max) else 0
    {
      hide Sum, AllBelow, Distinct, QuotasOf;
      var i := IndexOf(node);
      if i < |nodes| { return; }
      Inserted(nodes, split, node);
      nodes := nodes[..split] + [node] + nodes[split..];
      split := split + 1;
      if enabled { AllocateQuota(split - 1); }
    }

    /** A removed node gives its quota back. */
    method Erase(node: ThrottleNode)
      requires Valid()
      modifies this`nodes, this`split, this`outstanding, this`unallocated, node
      ensures Valid() && Total() == old(Total())
      ensures node !in old(nodes) ==> nodes == old(nodes) && split == old(split) && node.quota == old(node.quota)
      ensures node in old(nodes) ==> node.quota == 0 && unallocated == old(unallocated + node.quota)
      ensures node in old(nodes) ==>
                exists i :: 0 <= i < |old(nodes)| && old(nodes)[i] == node
                  && nodes == old(nodes)[..i] + old(nodes)[i + 1..] &&
                            split == old(split) - (if i < old(split) then 1 else 0)
    {
      hide Sum, AllBelow, Distinct, QuotasOf;
      var i := IndexOf(node);
      if i == |nodes| { return; }
      Erased(nodes, i);
      assert node.quota <= outstanding;
      outstanding := outstanding - node.quota;
      unallocated := unallocated + node.quota;
      nodes := nodes[..i] + nodes[i + 1..];
      if i < split { split := split - 1; }
      node.quota := 0;
    }

    method Enable()
      requires Valid()
      modifies this`enabled
      ensures Valid() && enabled
    {
      if enabled { return; }
      enabled := true;
      assert nodes == [] || split != 0;
    }

    /** Every quota is dropped, and every waiting node is activated. */
    method Disable() returns (activated: seq<ThrottleNode>)
      requires Valid()
      modifies this, nodes
      ensures Valid() && !enabled && Total() == 0 && Active() == old(nodes) == nodes
      ensures activated == old(Inactive()) && min == old(min) && max == old(max)
      ensures forall n :: n in nodes ==> n.quota <= old(n.quota)
    {
      hide Sum, Distinct;
      if !enabled { return []; }
      enabled, outstanding, unallocated, unthrottled := false, 0, 0, 0;
      forall n | n in nodes { n.quota := 0; }
      activated := nodes[split..];
      split := |nodes|;
      assert AllBelow(Quotas(), 0);
      SumBound(Quotas(), 0);
    }

    /** A tick that leaves the first waiting node waiting has given it everything there was. */
    method WaitTick(quota: nat)
      requires Valid() && enabled
      modifies this`outstanding, this`unallocated, this`unthrottled, this`split, nodes
      ensures Valid() && old(split) <= split <= |nodes| && unthrottled == quota
      ensures split == old(split) < |nodes| ==>
                old(nodes[split].quota + unallocated + unthrottled) == nodes[split].quota < min
    {
      hide Sum, Serve, AllBelow, Distinct;
      if split < |nodes| {
        assert Quotas()[split] == nodes[split].quota;
        FirstWaits(Quotas(), split, unallocated + unthrottled, min, max);
      }
      var used, activated := UpdateQuota(quota);
      if split == old(split) < |nodes| { assert Quotas()[split] == nodes[split].quota; }
    }

    /** Ticks with no other use of the quota: the node that has waited longest is active after
        ceil(min / q) + 1 of them. */
    method Ticks(n: nat, q: nat)
      requires Valid() && enabled && split < |nodes| && q > 0
      modifies this`outstanding, this`unallocated, this`unthrottled, this`split, nodes
      ensures Valid() && old(split) <= split
      ensures n >= (min + q - 1) / q + 1 ==> nodes[old(split)] in Active()
    {
      hide Valid;
      ghost var got, o := 0, split;
      for k := 0 to n
        invariant Valid() && o <= split <= |nodes|
        invariant if k == 0 then got == 0 else unthrottled == q && got + q == k * q
        invariant split == o && k > 0 ==> got <= nodes[o].quota < min
      {
        QuotaTimes(k, q);
        WaitTick(q);
        if k > 0 { got := got + q; }
      }
      if n >= (min + q - 1) / q + 1 {
        QuotaTimes(n - 1, q);
        EnoughTicks(n - 1, q, min);
        assert nodes[o] == Active()[o];
      }
    }

    /** With no tick of more than q and never more than n nodes, the quota in the list stays bounded. */
    ghost predicate Bounded(q: nat, n: nat)
      reads this
    {
      Total() <= 2 * q + n * MAX_CHUNK
    }

    lemma TickBound(q: nat, n: nat)
      requires Valid() && unallocated <= q && unthrottled <= q && |nodes| <= n
      ensures Bounded(q, n)
    {
      SumBound(Quotas(), MAX_CHUNK);
      MulMonotone(|nodes|, n, MAX_CHUNK);
    }

    /** One call on the list. Nodes are deactivated only when active, as `NodeQuota` has told their owner. */
    method Step(e: Event)
      requires Valid() && EventOk(e)
      requires e.Insert? && e.node !in nodes ==> e.node.quota == 0
      modifies this, nodes, if e.Insert? || e.Used? || e.Erase? then {e.node} else {}
      ensures Valid()
      ensures e.Tick? && enabled ==> unallocated <= e.quota && unthrottled <= e.quota
      ensures !(e.Tick? && enabled) ==> Total() <= old(Total())
      ensures forall q, n :: old(Bounded(q, n)) && |nodes| <= n && (e.Tick? ==> e.quota <= q) ==> Bounded(q, n)
    {
      hide Sum, Serve, Quotas;
      match e {
        case Tick(q) => if enabled { var used, activated := UpdateQuota(q); }
        case Used(node, n) => NodeUsed(node, n);
        case UsedUnthrottled(n) => NodeUsedUnthrottled(n);
        case Deactivate(node) => if enabled && node in Active() { NodeDeactivate(node); }
        case Insert(node) => Insert(node);
        case Erase(node) => Erase(node);
        case Enable => Enable();
        case Disable => var activated := Disable();
        case Sizes(low, high) => SetChunkSizes(low, high);
      }
      forall q, n | old(Bounded(q, n)) && |nodes| <= n && (e.Tick? ==> e.quota <= q) ensures Bounded(q, n) {
        if e.Tick? && enabled { TickBound(q, n); }
      }
    }
  }

  /** The largest chunk size a throttle sets. */
  const MAX_CHUNK: nat := 65536

  datatype Event =
    | Tick(quota: nat) | Used(node: ThrottleNode, bytes: nat) | UsedUnthrottled(bytes: nat)
    | Deactivate(node: ThrottleNode) | Insert(node: ThrottleNode) | Erase(node: ThrottleNode)
    | Enable | Disable | Sizes(low: nat, high: nat)

  predicate EventOk(e: Event) { e.Sizes? ==> e.low <= e.high <= MAX_CHUNK }

  lemma EnoughTicks(k: nat, q: nat, min: nat)
    requires q > 0 && k >= (min + q - 1) / q
    ensures k * q >= min
  {
    var c := (min + q - 1) / q;
    assert min + q - 1 == c * q + (min + q - 1) % q;
    assert k * q >= c * q by { MulMonotone(c, k, q); }
  }

  lemma QuotaTimes(k: nat, q: nat)
    ensures k * q + q == (k + 1) * q && (k == 0 ==> k * q == 0)
  {
  }

  lemma MulMonotone(a: nat, b: nat, q: nat)
    requires a <= b
    ensures a * q <= b * q
  {
  }

  lemma Moved(nodes: seq<ThrottleNode>, i: nat)
    requires i < |nodes| && Distinct(nodes)
    ensures var moved := nodes[..i] + nodes[i + 1..] + [nodes[i]];
            && Distinct(moved) && Sum(QuotasOf(moved)) == Sum(QuotasOf(nodes))
            && forall b :: AllBelow(QuotasOf(nodes), b) ==> AllBelow(QuotasOf(moved), b)
  {
    Erased(nodes, i);
    var rest := nodes[..i] + nodes[i + 1..];
    Inserted(rest, |rest|, nodes[i]);
    assert rest[..|rest|] + [nodes[i]] + rest[|rest|..] == rest + [nodes[i]];
    assert QuotasOf(nodes)[i] == nodes[i].quota;
  }

  lemma Inserted(nodes: seq<ThrottleNode>, i: nat, node: ThrottleNode)
    requires i <= |nodes| && Distinct(nodes) && node !in nodes
    ensures var more := nodes[..i] + [node] + nodes[i..];
            && Distinct(more) && Sum(QuotasOf(more)) == Sum(QuotasOf(nodes)) + node.quota
            && forall b :: AllBelow(QuotasOf(nodes), b) && node.quota <= b ==> AllBelow(QuotasOf(more), b)
  {
    var more := nodes[..i] + [node] + nodes[i..];
    var q := QuotasOf(nodes);
    assert QuotasOf(more) == q[..i] + ([node.quota] + q[i..]);
    SumConcat(q[..i], [node.quota] + q[i..]);
    SumConcat([node.quota], q[i..]);
    SumConcat(q[..i], q[i..]);
    assert q == q[..i] + q[i..];
  }

  lemma Erased(nodes: seq<ThrottleNode>, i: nat)
    requires i < |nodes| && Distinct(nodes)
    ensures var rest := nodes[..i] + nodes[i + 1..];
            && Distinct(rest) && nodes[i] !in rest && nodes[i].quota <= Sum(QuotasOf(nodes))
            && Sum(QuotasOf(rest)) == Sum(QuotasOf(nodes)) - nodes[i].quota
            && forall b :: AllBelow(QuotasOf(nodes), b) ==> AllBelow(QuotasOf(rest), b)
  {
    var q := QuotasOf(nodes);
    var rest := nodes[..i] + nodes[i + 1..];
    assert forall j :: 0 <= j < |rest| ==> rest[j] == nodes[if j < i then j else j + 1];
    SumSplit(q, i);
    SumConcat(q[..i], q[i + 1..]);
    assert QuotasOf(nodes[..i] + nodes[i + 1..]) == q[..i] + q[i + 1..];
  }
}
