/** A throttle and its slaves: quota received by the root is handed down the tree. */
module ThrottleTrees {
  import opened Collections
  import opened ThrottleLists

  /** The quota a throttle of the given rate asks for, out of `quota`, with 16 bits of fraction and the
      result cut to 32 bits. */
  function Need(quota: nat, fraction: nat, rate: nat): (r: nat)
    ensures r <= quota && Fair(r, quota, fraction, rate)
  {
    Min(quota, fraction * rate / 0x1_0000 % 0x1_0000_0000)
  }

  /** A share is rate times time, rounded down, or all of the quota if that is less; unless the product
      is cut. Time is in units of 1/65536 seconds. */
  ghost predicate Fair(share: nat, quota: nat, time: nat, rate: nat) {
    time * rate < 0x1_0000_0000_0000 ==>
      && share <= quota && share * 0x1_0000 <= time * rate
      && (share == quota || time * rate < (share + 1) * 0x1_0000)
  }

  /** A tick of one second gives a throttle its rate. */
  lemma OneSecond(quota: nat, rate: nat)
    requires rate < 0x1_0000_0000
    ensures Need(quota, 0x1_0000, rate) == Min(quota, rate)
  {
  }

  /** If served, quota was received once more, and that much; if not, not. */
  ghost predicate ServedIf(served: bool, need: nat, ticks: nat, share: nat, ticksBefore: nat, shareBefore: nat) {
    ticks == ticksBefore + (if served then 1 else 0) && share == if served then need else shareBefore
  }

  class ThrottleInternal {
    const list: ThrottleList
    var maxRate: nat
    var slaves: seq<ThrottleInternal>
    var next: nat
    var unused: nat
    ghost var repr: set<object>
    ghost var held: nat       // all quota in the tree
    ghost var enabled: bool   // no list of the tree is disabled
    ghost var ticks: nat      // how often quota was received
    ghost var share: nat      // how much the last time
    ghost var given: nat      // and with which fraction
    ghost var start: nat      // the slaves served then: from here
    ghost var stop: nat       // up to here

    ghost function Own(): set<object>
      reads list`nodes
    {
      {this, list} + set n | n in list.nodes
    }

    /** The throttle's own parts, and where those of its slaves are: apart, so that the tree is a tree. */
    ghost predicate Shape()
      reads this`repr, this`slaves, list`nodes, slaves`repr
    {
      && Own() <= repr
      && (forall i :: 0 <= i < |slaves| ==> slaves[i].repr < repr && slaves[i].repr !! Own())
      && (forall i, j :: 0 <= i < j < |slaves| ==> slaves[i].repr !! slaves[j].repr)
    }

    /** The quota of a tree is what its root has not used, what its list has, and that of its slaves. */
    ghost predicate Counted()
      reads this, list, slaves
    {
      && held == unused + list.Total() + Sum(HeldBy(slaves))
      && enabled == (list.enabled && AllEnabled(slaves))
    }

    ghost predicate Valid()
      reads this, repr
      decreases repr
    {
      && this in repr && list in repr && next <= |slaves| && (forall i :: 0 <= i < |slaves| ==> slaves[i] in repr)
      && Shape() && Counted() && list.Valid()
      && (forall i :: 0 <= i < |slaves| ==> slaves[i].Valid())
    }

    /** `Valid` without what the slaves and the list are inside. */
    ghost predicate Parts()
      reads this, repr
    {
      && this in repr && list in repr && next <= |slaves| && (forall i :: 0 <= i < |slaves| ==> slaves[i] in repr)
      && Shape() && list.Valid()
      && (forall i :: 0 <= i < |slaves| ==> slaves[i].Valid())
    }

    lemma Unfold()
      requires Valid()
      ensures Parts() && Counted() && this !in slaves && (enabled ==> list.enabled)
      ensures forall i :: 0 <= i < |slaves| ==> slaves[i].Valid() && slaves[i].list != list
      ensures forall i :: 0 <= i < |slaves| ==>
                slaves[i] in slaves[i].repr && slaves[i].Own() <= slaves[i].repr && this !in slaves[i].slaves
      ensures forall i :: 0 <= i < |slaves| ==>
                this !in slaves[i].repr && list !in slaves[i].repr && slaves[i].list !in Own()
    {
    }

    lemma UnfoldHeld()
      requires Valid()
      ensures Parts() && held == unused + list.Total() + Sum(HeldBy(slaves)) && this !in slaves
    {
      hide Sum, ThrottleList.Valid, HeldBy;
    }

    lemma ApartFromBelow()
      requires Valid()
      ensures forall i :: 0 <= i < |slaves| ==> this !in slaves[i].slaves
    {
      hide Sum, ThrottleList.Valid, Counted;
    }

    lemma InTree(i: nat)
      requires Valid() && i < |slaves|
      ensures slaves[i] in repr && slaves[i].list in repr && slaves[i].repr <= repr && slaves[i].Valid()
    {
      assert slaves[i].list in slaves[i].Own();
    }

    lemma Basics()
      requires Valid()
      ensures this in repr && next <= |slaves| && this !in slaves
    {
    }

    lemma Fold()
      requires Parts() && Counted()
      ensures Valid()
    {
    }

    /** A throttle with no slaves yet. */
    constructor (rate: nat)
      ensures fresh(list) && Valid() && fresh(repr) && slaves == [] && unused == 0 && maxRate == rate && held == 0
              && !list.enabled
    {
      list := new ThrottleList();
      maxRate, slaves, next, unused := rate, [], 0, 0;
      held, enabled, ticks, share, given, start, stop := 0, false, 0, 0, 0, 0, 0;
      new;
      repr := {this, list};
    }

    /** The shape of the tree, and which of its lists are enabled, are as they were. */
    twostate predicate Kept()
      reads this`repr, (set s: ThrottleInternal | s in repr)`slaves, (set l: ThrottleList | l in repr)`enabled
    {
      && (forall s: ThrottleInternal :: s in old(repr) && s in repr ==> s.slaves == old(s.slaves))
      && (forall l: ThrottleList :: l in old(repr) && l in repr ==> l.enabled == old(l.enabled))
    }

    /** How the last tick went down the tree: every throttle that was served went on in its round, stopped
        only for lack of quota, gave each slave it served the share for its rate, and if its list was served,
        that was enabled. */
    ghost predicate Ticked()
      reads this, list, repr
      decreases repr
    {
      && start <= stop <= |slaves| && (forall i :: 0 <= i < |slaves| ==> slaves[i] in repr && slaves[i].list in repr)
      && RoundStopped(stop, share, given) && (stop == |slaves| && next == 0 ==> list.enabled)
      && (if start < |slaves| then start < stop else next == 0)
      && (forall i :: start <= i < stop ==>
            && slaves[i].repr < repr && slaves[i].given == given
            && slaves[i].share == Need(share, given, slaves[i].maxRate)
            && slaves[i].Ticked())
    }

    /** How many more ticks may pass before slave k is served: at most one for each of those before it in the
        round, and one for the list. */
    ghost function Turns(k: nat): nat
      reads this`next, this`slaves
    {
      if next <= k then k - next else if next <= |slaves| then |slaves| - next + 1 + k else 0
    }

    ghost predicate SlavesIn()
      reads this, repr
    {
      forall i :: 0 <= i < |slaves| ==> slaves[i] in repr && slaves[i].list in repr && slaves[i].repr < repr
    }

    /** For a tree with a list that is not enabled: how many ticks it can take before one is a fault. */
    ghost function Patience(): nat
      reads this, list, repr
      decreases repr
    {
      if !list.enabled then if next <= |slaves| then |slaves| - next else 0
      else if !SlavesIn() || FirstOff(slaves) == |slaves| then 0
      else
        var k := FirstOff(slaves);
        Rounds(Turns(k), slaves[k].Patience(), |slaves|)
    }

    /** What a slave is, for the throttle above it. */
    ghost function Marks(): Mark
      reads this, list, repr
    {
      Mark(maxRate, enabled, ticks, share, next, Patience())
    }

    /** A slave after a tick of the throttle above it, with quota and fraction: it was served its share, if
        it was its turn, and is as it was if not. */
    ghost predicate After(was: Mark, served: bool, quota: nat, fraction: nat)
      reads this, list, repr
    {
      && maxRate == was.maxRate && enabled == was.enabled
      && ServedIf(served, Need(quota, fraction, maxRate), ticks, share, was.ticks, was.share)
      && PatienceIf(served, enabled, Patience(), was.patience)
      && if served then Ticked() && given == fraction && start == was.next else next == was.next
    }

    /** The throttle as a slave that was not served. */
    twostate predicate Unserved()
      reads this, list, repr
    {
      && Marks() == old(Marks()) && maxRate == old(maxRate)
      && given == old(given) && start == old(start) && (old(Ticked()) ==> Ticked())
    }

    lemma AfterNone(quota: nat, fraction: nat)
      ensures After(Marks(), false, quota, fraction)
    {
    }

    /** Whoever was served was given a fair share. */
    lemma AfterIsFair(was: Mark, quota: nat, fraction: nat)
      requires After(was, true, quota, fraction)
      ensures Fair(share, quota, fraction, maxRate)
    {
      hide Ticked, Patience, Fair;
    }

    twostate lemma AfterUnserved()
      requires Unserved()
      ensures forall was, served, quota, fraction ::
                old(After(was, served, quota, fraction)) ==> After(was, served, quota, fraction)
    {
      hide Ticked, Patience, Need;
    }

    twostate lemma AfterServed()
      ensures forall was, quota, fraction ::
                old(After(was, false, quota, fraction)) && Served(Need(quota, fraction, old(maxRate)), fraction) ==>
                  After(was, true, quota, fraction)
    {
      hide Ticked, Patience, Need;
    }

    /** A slave is apart from its parent and from the other slaves. */
    lemma Apart(k: nat)
      requires Valid() && k < |slaves|
      ensures slaves[k] in slaves[k].repr && slaves[k].Valid() && slaves[k].repr < repr && slaves[k].repr !! Own()
              && Own() <= repr
      ensures forall i :: 0 <= i < |slaves| && i != k ==>
                slaves[i].Valid() && slaves[i] in repr && slaves[i] !in slaves[k].repr
                  && slaves[i].repr <= repr - slaves[k].repr
      ensures AllEnabled(slaves) ==> slaves[k].enabled
    {
      hide Sum, ThrottleList.Valid, Counted;
    }

    /** What follows when nothing but the parts of slave k has changed. */
    twostate lemma OthersOk(k: nat)
      requires k < |old(slaves)| && old(Valid()) && unchanged(old(repr - slaves[k].repr))
      requires slaves[k].Valid() && slaves[k].repr == old(slaves[k].repr)
      ensures Shape() && list.Valid() && forall i :: 0 <= i < |slaves| ==> slaves[i].Valid()
      ensures list.Marks() == old(list.Marks())
    {
      hide Sum, Counted, ThrottleList.Valid;
      assert forall n :: n in list.nodes ==> n in Own();
    }

    twostate lemma OthersCounted(k: nat)
      requires k < |old(slaves)| && old(Valid()) && unchanged(old(repr - slaves[k].repr))
      requires slaves[k].enabled == old(slaves[k].enabled)
      ensures AllEnabled(slaves) == old(AllEnabled(slaves))
      ensures Sum(HeldBy(slaves)) == old(Sum(HeldBy(slaves))) + slaves[k].held - old(slaves[k].held)
    {
      hide Sum, Counted, ThrottleList.Valid;
      ghost var h := old(HeldBy(slaves));
      SumUpdate(h, k, slaves[k].held);
      assert HeldBy(slaves) == h[k := slaves[k].held];
    }

    twostate lemma OthersKept(k: nat)
      requires k < |old(slaves)| && old(Valid()) && unchanged(old(repr - slaves[k].repr)) && slaves[k].Kept()
      requires slaves[k].repr == old(slaves[k].repr)
      ensures Kept()
    {
      hide Counted, ThrottleList.Valid;
    }

    twostate lemma OthersUnserved(k: nat)
      requires k < |old(slaves)| && old(Valid()) && unchanged(old(repr - slaves[k].repr))
      ensures forall i :: 0 <= i < |slaves| && i != k ==> slaves[i].Unserved() && slaves[i].repr == old(slaves[i].repr)
    {
      hide Counted, ThrottleList.Valid, Ticked, Patience;
    }

    twostate lemma SlaveServed(k: nat)
      requires k < |old(slaves)| && old(Valid()) && unchanged(old(repr - slaves[k].repr))
      requires slaves[k].Valid() && slaves[k].repr == old(slaves[k].repr) && slaves[k].enabled == old(slaves[k].enabled)
      requires slaves[k].Kept()
      ensures Shape() && list.Valid() && (forall i :: 0 <= i < |slaves| ==> slaves[i].Valid()) && Kept()
      ensures list.Marks() == old(list.Marks())
      ensures AllEnabled(slaves) == old(AllEnabled(slaves))
      ensures Sum(HeldBy(slaves)) == old(Sum(HeldBy(slaves))) + slaves[k].held - old(slaves[k].held)
      ensures forall i :: 0 <= i < |slaves| && i != k ==> slaves[i].Unserved() && slaves[i].repr == old(slaves[i].repr)
    {
      hide Sum, ThrottleList.Valid, Valid, Shape, HeldBy, AllEnabled, Kept, Unserved;
      OthersOk(k);
      OthersCounted(k);
      OthersKept(k);
      OthersUnserved(k);
    }

    /** Slave k is given its share; the others are as they were. */
    method CallSlave(k: nat, need: nat, fraction: nat) returns (r: Received)
      requires Valid() && k < |slaves|
      modifies slaves[k].repr
      decreases repr, 0
      ensures old(AllEnabled(slaves)) ==> !r.Fault?
      ensures r.Used? ==>
                && r.amount <= need && Shape() && list.Valid() && (forall i :: 0 <= i < |slaves| ==> slaves[i].Valid())
                && AllEnabled(slaves) == old(AllEnabled(slaves))
                && Sum(HeldBy(slaves)) == old(Sum(HeldBy(slaves))) + r.amount && Kept()
                && slaves[k].Served(need, fraction) && list.Marks() == old(list.Marks())
                && (forall i :: 0 <= i < |slaves| ==> slaves[i].repr == old(slaves[i].repr))
                && (forall i :: 0 <= i < |slaves| && i != k ==> slaves[i].Unserved())
    {
      hide Sum, ThrottleList.Valid, Valid, Ticked, Shape, HeldBy, AllEnabled, Kept, Unserved, Patience;
      Apart(k);
      ghost var to;
      r, to := slaves[k].ReceiveQuota(need, fraction);
      if r.Used? { SlaveServed(k); }
    }

    /** The throttle as a slave that was served once. */
    twostate predicate Served(need: nat, fraction: nat)
      reads this, list, repr
    {
      && maxRate == old(maxRate) && ticks == old(ticks) + 1 && share == need
      && given == fraction && start == old(next) && Ticked()
      && enabled == old(enabled) && (!enabled ==> Patience() < old(Patience()))
    }

    lemma Books()
      requires Valid()
      ensures this in repr && list in repr && this !in slaves && next <= |slaves|
      ensures forall i :: 0 <= i < |slaves| ==>
                slaves[i] in repr && slaves[i].repr <= repr && this !in slaves[i].repr && list !in slaves[i].repr
      ensures held == unused + list.Total() + Sum(HeldBy(slaves)) && enabled == (list.enabled && AllEnabled(slaves))
    {
      hide Sum, ThrottleList.Valid, HeldBy, AllEnabled, ThrottleList.Total;
    }

    /** An amount given away is taken from the unused quota, and the cursor moves. */
    method Settle(amount: int, to: nat)
      requires this in repr && list in repr && (forall i :: 0 <= i < |slaves| ==> slaves[i] in repr)
      requires Shape() && list.Valid() && (forall i :: 0 <= i < |slaves| ==> slaves[i].Valid())
      requires amount <= unused && to <= |slaves| && enabled == (list.enabled && AllEnabled(slaves))
      requires held == unused - amount + list.Total() + Sum(HeldBy(slaves))
      modifies this`unused, this`next
      ensures Valid() && unused == old(unused) - amount && next == to
    {
      hide Sum, ThrottleList.Valid, HeldBy, AllEnabled;
      assert this !in slaves && forall i :: 0 <= i < |slaves| ==> this !in slaves[i].repr;
      unused := unused - amount;
      next := to;
    }

    /** The next slave is given its share. */
    method ServeSlave(need: nat, fraction: nat) returns (r: Received)
      requires Valid() && next < |slaves| && need <= unused
      modifies repr
      decreases repr, 1
      ensures old(enabled) ==> !r.Fault?
      ensures r.Used? ==>
                && Valid() && repr == old(repr) && slaves == old(slaves) && next == old(next) + 1
                && held == old(held) && enabled == old(enabled) && list.enabled == old(list.enabled)
                && ticks == old(ticks) && share == old(share) && maxRate == old(maxRate)
                && given == old(given) && start == old(start) && Kept() && slaves[old(next)].Served(need, fraction)
                && list.Marks() == old(list.Marks())
                && (forall i :: 0 <= i < |slaves| && i != old(next) ==> slaves[i].Unserved())
    {
      hide Sum, ThrottleList.Valid, ThrottleList.Total, HeldBy, AllEnabled, Ticked, Kept, Shape, Valid, Unserved,
           Served;
      Books();
      r := CallSlave(next, need, fraction);
      if r.Used? { Settle(r.amount, next + 1); }
    }

    /** The list is given its share; the slaves are as they were. */
    method UpdateList(need: nat) returns (used: int)
      requires Valid() && list.enabled
      modifies list, list.nodes
      ensures list.enabled && used <= need && list.unthrottled == need && list.Total() == old(list.Total()) + used
      ensures Updated(old(list.Marks()), list.Marks(), need)
      ensures Shape() && list.Valid() && (forall i :: 0 <= i < |slaves| ==> slaves[i].Valid())
      ensures HeldBy(slaves) == old(HeldBy(slaves)) && AllEnabled(slaves) == old(AllEnabled(slaves)) && Kept()
      ensures forall i :: 0 <= i < |slaves| ==> slaves[i].Unserved() && slaves[i].repr == old(slaves[i].repr)
    {
      hide Sum, ThrottleList.Valid, HeldBy, AllEnabled, Counted, Ticked, Patience;
      assert forall n :: n in list.nodes ==> n in Own();
      assert forall i :: 0 <= i < |slaves| ==> slaves[i].repr !! Own();
      var activated;
      used, activated := list.UpdateQuota(need);
    }

    lemma ListInTree()
      requires Valid()
      ensures list in repr && forall n :: n in list.nodes ==> n in repr
    {
      hide Counted, ThrottleList.Valid;
      assert forall n :: n in list.nodes ==> n in Own();
    }

    /** The throttle's own list is given its share, and the round of slaves starts again. */
    method ServeList(need: nat) returns (r: Received)
      requires Valid() && need <= unused
      modifies repr
      ensures (r.Fault? <==> !old(list.enabled)) && (old(enabled) ==> !r.Fault?)
      ensures r.Used? ==>
                && Valid() && repr == old(repr) && slaves == old(slaves) && next == 0
                && held == old(held) && enabled == old(enabled) && list.enabled && list.unthrottled == need
                && ticks == old(ticks) && share == old(share) && maxRate == old(maxRate)
                && given == old(given) && start == old(start) && Kept()
                && Updated(old(list.Marks()), list.Marks(), need)
                && (forall i :: 0 <= i < |slaves| ==> slaves[i].Unserved())
    {
      hide Sum, ThrottleList.Valid, ThrottleList.Total, Updated, HeldBy, AllEnabled, Ticked, Kept, Shape, Valid,
           Unserved;
      Books();
      ListInTree();
      if !list.enabled { return Fault; }
      var used := UpdateList(need);
      Settle(used, 0);
      r := Received.Used(used);
    }

    method AddUnused(quota: nat, ghost fraction: nat)
      requires Valid()
      modifies this`unused, this`held, this`ticks, this`share, this`given, this`start
      ensures Valid() && held == old(held) + quota && unused == old(unused) + quota && ticks == old(ticks) + 1
              && share == quota
      ensures given == fraction && start == next
      ensures forall i :: 0 <= i < |slaves| ==> slaves[i].Marks() == old(slaves[i].Marks())
    {
      hide Sum, ThrottleList.Valid, HeldBy, AllEnabled, Marks;
      assert this !in slaves && forall i :: 0 <= i < |slaves| ==> this !in slaves[i].repr;
      unused := unused + quota;
      held := held + quota;
      ticks, share, given, start := ticks + 1, quota, fraction, next;
    }

    /** As much as one allocation is kept until the next tick. */
    method KeepUnused(quota: nat, ghost to: nat) returns (used: int)
      requires Valid()
      modifies this`unused, this`held, this`stop
      ensures Valid() && used <= quota && held == old(held) + used - quota && unused == Min(old(unused), quota)
              && stop == to
      ensures SlavesIn() && forall i :: 0 <= i < |slaves| ==> slaves[i].Unserved()
    {
      hide Sum, ThrottleList.Valid, HeldBy, AllEnabled, Ticked, Marks;
      assert this !in slaves && forall i :: 0 <= i < |slaves| ==>
               this !in slaves[i].repr && slaves[i].list in slaves[i].repr;
      used, stop := quota, to;
      if quota < unused {
        used := used - (unused - quota);
        held := held - (unused - quota);
        unused := quota;
      }
    }

    /** The round of slaves, and the list after them, stopped before `to` because there was not enough
        for the share of the next; or else the list was given its share and a new round begins. */
    ghost predicate RoundStopped(to: nat, quota: nat, fraction: nat)
      reads this, list, slaves
    {
      if to < |slaves| then next == to && Need(quota, fraction, slaves[to].maxRate) > unused
      else if next != 0 then next == |slaves| && Need(quota, fraction, maxRate) > unused
      else list.unthrottled == Need(quota, fraction, maxRate)
    }

    twostate lemma NowTicked()
      requires slaves == old(slaves) && start == old(next) && start <= stop <= |slaves|
               && RoundStopped(stop, share, given) && (stop == |slaves| && next == 0 ==> list.enabled)
      requires if start < |slaves| then start < stop else next == 0
      requires SlavesIn()
      requires forall i :: 0 <= i < |slaves| ==>
                 slaves[i].After(old(slaves[i].Marks()), old(next) <= i < stop, share, given)
      ensures Ticked()
    {
      hide Need;
    }

    /** The slaves from one to another, and the list if a new round begins, were given fair shares. */
    ghost predicate FairlyServed(from: nat, to: nat, quota: nat, fraction: nat)
      reads this, list, slaves
    {
      && to <= |slaves|
      && (forall i :: from <= i < to ==> Fair(slaves[i].share, quota, fraction, slaves[i].maxRate))
      && (next == 0 ==> Fair(list.unthrottled, quota, fraction, maxRate))
    }

    twostate lemma NowFair()
      requires slaves == old(slaves) && old(next) <= stop <= |slaves| && RoundStopped(stop, share, given)
      requires next == 0 ==> stop == |slaves|
      requires forall i :: 0 <= i < |slaves| ==>
                 slaves[i].After(old(slaves[i].Marks()), old(next) <= i < stop, share, given)
      ensures FairlyServed(old(next), stop, share, given)
    {
      hide Fair, After, Marks;
      forall i | old(next) <= i < stop ensures Fair(slaves[i].share, share, given, slaves[i].maxRate) {
        slaves[i].AfterIsFair(old(slaves[i].Marks()), share, given);
      }
    }

    /** The slaves from the cursor on are given their shares, until there is not enough for the next. */
    method ServeSlaves(quota: nat, fraction: nat) returns (r: Received)
      requires Valid() && quota <= unused
      modifies repr
      decreases repr, 2
      ensures old(enabled) || old(slaves) == [] ==> !r.Fault?
      ensures r.Used? ==>
                && Valid() && repr == old(repr) && slaves == old(slaves) && Kept()
                && held == old(held) && enabled == old(enabled) && list.enabled == old(list.enabled)
                && ticks == old(ticks) && share == old(share) && maxRate == old(maxRate)
                && given == old(given) && start == old(start) && old(next) <= next <= |slaves|
                && (if old(next) < |slaves| then old(next) < next else unused == old(unused))
                && (next < |slaves| ==> Need(quota, fraction, slaves[next].maxRate) > unused)
                && list.Marks() == old(list.Marks())
      ensures r.Used? ==> forall i :: 0 <= i < |slaves| ==>
                slaves[i].After(old(slaves[i].Marks()), old(next) <= i < next, quota, fraction)
    {
      hide Valid, Need, After, Marks, Served, Unserved, ThrottleList.Marks;
      Basics();
      r := Received.Used(0);
      forall i | 0 <= i < |slaves| ensures slaves[i].After(slaves[i].Marks(), false, quota, fraction) {
        slaves[i].AfterNone(quota, fraction);
      }
      while next < |slaves| && Need(quota, fraction, slaves[next].maxRate) <= unused
        invariant r.Used? && Valid() && repr == old(repr) && slaves == old(slaves) && Kept()
        invariant held == old(held) && enabled == old(enabled) && list.enabled == old(list.enabled)
        invariant ticks == old(ticks) && share == old(share) && maxRate == old(maxRate)
        invariant given == old(given) && start == old(start) && old(next) <= next <= |slaves|
        invariant (next == old(next) ==> unused == old(unused)) && list.Marks() == old(list.Marks())
        invariant forall i :: 0 <= i < |slaves| ==>
                    slaves[i].After(old(slaves[i].Marks()), old(next) <= i < next, quota, fraction)
        decreases |slaves| - next
      {
        label L:
        ghost var k := next;
        r := ServeSlave(Need(quota, fraction, slaves[next].maxRate), fraction);
        if r.Fault? { return; }
        forall i | 0 <= i < |slaves|
          ensures slaves[i].After(old(slaves[i].Marks()), old(next) <= i < next, quota, fraction)
        {
          if i == k {
            slaves[i].AfterServed@L();
          } else {
            slaves[i].AfterUnserved@L();
          }
        }
      }
    }

    /** After the last slave the list is given its share, if there is enough; not too much is kept. */
    method EndRound(quota: nat, fraction: nat) returns (r: Received)
      requires Valid() && (next < |slaves| ==> Need(quota, fraction, slaves[next].maxRate) > unused)
      requires slaves == [] ==> quota <= unused
      modifies repr
      ensures r.Fault? <==> old(next == |slaves| && Need(quota, fraction, maxRate) <= unused && !list.enabled)
      ensures old(enabled) ==> !r.Fault?
      ensures r.Used? ==>
                && Valid() && repr == old(repr) && slaves == old(slaves) && Kept()
                && held == old(held) + r.amount - quota && enabled == old(enabled)
                && ticks == old(ticks) && share == old(share) && maxRate == old(maxRate)
                && given == old(given) && start == old(start) && stop == old(next) && r.amount <= quota
                && unused <= quota
                && (next == stop || (stop == |slaves| && next == 0 && list.enabled))
                && RoundStopped(stop, quota, fraction) && list.enabled == old(list.enabled) && next <= |slaves|
                && (if old(next == |slaves| && Need(quota, fraction, maxRate) <= unused) then
                      && next == 0 && list.enabled
                      && Updated(old(list.Marks()), list.Marks(), list.unthrottled)
                    else next == old(next) && list.Marks() == old(list.Marks()))
                && SlavesIn() && (forall i :: 0 <= i < |slaves| ==> slaves[i].Unserved())
    {
      hide Valid, Need, Ticked, Kept, Marks, Updated, ThrottleList.Marks;
      Basics();
      Unchanged();
      ghost var to := next;
      if next == |slaves| && Need(quota, fraction, maxRate) <= unused {
        r := ServeList(Need(quota, fraction, maxRate));
        if r.Fault? { return; }
      }
      var used := KeepUnused(quota, to);
      r := Received.Used(used);
    }

    twostate lemma Unchanged()
      requires unchanged(old(repr)) && unchanged(this)
      ensures Kept()
    {
    }

    /** One tick of the tree: what it holds grows by exactly the value returned, which is at most the
        quota given; and its root keeps no more than that quota. The slaves from the cursor up to `to`
        are served, once each, with the share for their rates; at least one is, or else the list. */
    method ReceiveQuota(quota: nat, fraction: nat) returns (r: Received, ghost to: nat)
      requires Valid()
      modifies repr
      decreases repr, 3
      ensures old(enabled) ==> !r.Fault?
      ensures old(slaves) == [] ==> (r.Fault? <==> !old(list.enabled))
      ensures r.Used? ==>
                && Valid() && repr == old(repr) && slaves == old(slaves)
                && held == old(held) + r.amount && enabled == old(enabled)
                && r.amount <= quota && unused <= quota && ticks == old(ticks) + 1 && share == quota
                && maxRate == old(maxRate)
                && old(next) <= to <= |slaves| && RoundStopped(to, quota, fraction)
                && (if old(next) < |slaves| then old(next) < to else next == 0)
                && (forall i :: 0 <= i < |slaves| ==>
                      slaves[i].After(old(slaves[i].Marks()), old(next) <= i < to, quota, fraction))
      ensures r.Used? ==> Ticked() && given == fraction && start == old(next) && stop == to && Kept()
      ensures r.Used? ==>
                && FairlyServed(old(next), to, quota, fraction)
                && if next != 0 then list.Marks() == old(list.Marks())
                   else to == |slaves| && Updated(old(list.Marks()), list.Marks(), list.unthrottled)
      ensures r.Used? && !enabled ==> Patience() < old(Patience())
    {
      hide Valid, Need, Ticked, Patience, RoundStopped, After, Marks, Unserved, SlavesIn, FirstOff, Updated,
           FairlyServed, ThrottleList.Marks;
      Basics();
      OffIs();
      AddUnused(quota, fraction);
      r := ServeSlaves(quota, fraction);
      to := next;
      if r.Fault? { return; }
      label L:
      r := EndRound(quota, fraction);
      if r.Used? {
        forall i | 0 <= i < |slaves|
          ensures slaves[i].After(old(slaves[i].Marks()), old(next) <= i < to, quota, fraction)
        {
          slaves[i].AfterUnserved@L();
        }
        NowTicked();
        NowFair();
        if !enabled { LessPatience(); }
      }
    }

    lemma OffIs()
      requires Valid()
      ensures SlavesIn() && (!enabled ==> !list.enabled || FirstOff(slaves) < |slaves|)
    {
      hide Sum, ThrottleList.Valid, HeldBy, ThrottleList.Total;
      FirstOffIs(slaves);
      forall i | 0 <= i < |slaves| ensures slaves[i].list in slaves[i].Own() {}
    }

    /** A tick without a fault, in which the slaves from the cursor up to `stop` were served. */
    twostate lemma LessPatience()
      requires slaves == old(slaves) && list.enabled == old(list.enabled) && old(next) <= |slaves| && next <= |slaves|
      requires (!list.enabled || old(FirstOff(slaves)) < |slaves|) && SlavesIn() && old(SlavesIn())
      requires forall i :: 0 <= i < |slaves| ==>
                 slaves[i].After(old(slaves[i].Marks()), old(next) <= i < stop, share, given)
      requires if old(next) < |slaves| then old(next) < stop <= |slaves|
               else stop == |slaves| && next == 0 && list.enabled
      requires next == stop || (stop == |slaves| && next == 0 && list.enabled)
      ensures Patience() < old(Patience())
    {
      if list.enabled {
        var k := FirstOff(slaves);
        FirstOffIs(slaves);
        SameOff(slaves);
        assert k == old(FirstOff(slaves));
        LessRounds(old(Turns(k)), old(slaves[k].Patience()), Turns(k), slaves[k].Patience(), |slaves|);
      }
    }

    /** Any ticks, of whatever quotas and fractions; tick n is the first that is a fault. There is none in a
        tree that is enabled throughout, and in any other there is one before its patience is at an end: so
        a run that is long enough meets a fault if and only if some list of the tree is off. */
    method TickAll(quotas: seq<nat>, fractions: seq<nat>) returns (fault: bool, n: nat)
      requires Valid() && |quotas| == |fractions|
      modifies repr
      ensures old(enabled) ==> !fault
      ensures |quotas| > old(Patience()) ==> (fault <==> !old(enabled))
      ensures if fault then n < |quotas| && n <= old(Patience()) else n == |quotas| && Valid() && repr == old(repr)
    {
      hide Valid, Need, Ticked, Kept, Patience, RoundStopped;
      fault, n := false, 0;
      while n < |quotas|
        invariant Valid() && repr == old(repr) && enabled == old(enabled) && n <= |quotas|
        invariant !enabled ==> Patience() + n <= old(Patience())
      {
        var r, to := ReceiveQuota(quotas[n], fractions[n]);
        if r.Fault? { return true, n; }
        n := n + 1;
      }
    }

    /** No slave is left out: of as many ticks as there are slaves and one more, of whatever quotas and
        fractions, one serves it. */
    method EachIsServed(k: nat, quotas: seq<nat>, fractions: seq<nat>) returns (fault: bool)
      requires Valid() && k < |slaves| && |quotas| == |fractions| > |slaves|
      modifies repr
      ensures old(enabled) ==> !fault
      ensures !fault ==> Valid() && slaves == old(slaves) && slaves[k].ticks > old(slaves[k].ticks)
    {
      hide Valid, Need, Ticked, Kept, Patience;
      Basics();
      for n := 0 to |quotas|
        invariant Valid() && repr == old(repr) && slaves == old(slaves) && enabled == old(enabled) && next <= |slaves|
        invariant || slaves[k].ticks > old(slaves[k].ticks)
                  || (slaves[k].ticks == old(slaves[k].ticks) && Turns(k) + n <= |slaves|)
      {
        var r, to := ReceiveQuota(quotas[n], fractions[n]);
        if r.Fault? { return true; }
        Basics();
      }
      fault := false;
    }

    method EnableList()
      requires Valid()
      modifies this`enabled, list`enabled
      ensures Valid() && list.enabled && enabled == AllEnabled(slaves) && AllEnabled(slaves) == old(AllEnabled(slaves))
    {
      hide Sum, ThrottleList.Valid, HeldBy, AllEnabled;
      assert this !in slaves && forall i :: 0 <= i < |slaves| ==> this !in slaves[i].repr && list !in slaves[i].repr;
      list.Enable();
      enabled := AllEnabled(slaves);
    }

    ghost method CountEnabled()
      requires Parts() && held == unused + list.Total() + Sum(HeldBy(slaves))
      modifies this`enabled
      ensures Valid() && enabled == (list.enabled && AllEnabled(slaves))
              && AllEnabled(slaves) == old(AllEnabled(slaves))
    {
      hide Sum, ThrottleList.Valid, HeldBy, Valid, AllEnabled;
      forall i | 0 <= i < |slaves| ensures slaves[i].Parts() { slaves[i].Unfold(); }
      assert this !in slaves && forall i :: 0 <= i < |slaves| ==> this !in slaves[i].repr;
      enabled := list.enabled && AllEnabled(slaves);
      Fold();
    }

    /** The list of slave k is turned on; everything else is as it was. */
    method EnableSlave(k: nat)
      requires Parts() && k < |slaves|
      modifies {slaves[k]}`enabled, {slaves[k].list}`enabled
      ensures Parts() && list.enabled == old(list.enabled) && HeldBy(slaves) == old(HeldBy(slaves))
      ensures slaves[k].list.enabled && slaves[k].enabled == old(AllEnabled(slaves[k].slaves))
      ensures forall i :: 0 <= i < |slaves| && i != k ==>
                slaves[i].enabled == old(slaves[i].enabled) && slaves[i].list.enabled == old(slaves[i].list.enabled) &&
                AllEnabled(slaves[i].slaves) == old(AllEnabled(slaves[i].slaves))
    {
      hide ThrottleList.Valid, AllEnabled, Valid;
      forall i | 0 <= i < |slaves| ensures slaves[i].Parts() { slaves[i].Unfold(); }
      slaves[k].EnableList();
    }

    method EnableSlaves()
      requires Parts() && this !in slaves
      modifies slaves`enabled, Lists(slaves)`enabled
      ensures Parts() && HeldBy(slaves) == old(HeldBy(slaves)) && list.enabled == old(list.enabled)
      ensures forall i :: 0 <= i < |slaves| ==> slaves[i].list.enabled
      ensures forall i :: 0 <= i < |slaves| ==> slaves[i].enabled == old(AllEnabled(slaves[i].slaves))
    {
      hide Sum, ThrottleList.Valid, HeldBy, Parts, AllEnabled;
      var k := 0;
      while k < |slaves|
        invariant Parts() && k <= |slaves| && HeldBy(slaves) == old(HeldBy(slaves)) && list.enabled == old(list.enabled)
        invariant forall i :: 0 <= i < k ==> slaves[i].list.enabled
        invariant forall i :: 0 <= i < k ==> slaves[i].enabled == old(AllEnabled(slaves[i].slaves))
        invariant forall i :: k <= i < |slaves| ==> AllEnabled(slaves[i].slaves) == old(AllEnabled(slaves[i].slaves))
      {
        EnableSlave(k);
        k := k + 1;
      }
    }

    /** Turning the throttle on reaches its slaves and no further: the whole tree is enabled if and only
        if everything below the slaves already was. */
    method Enable()
      requires Valid()
      modifies this`enabled, list`enabled, slaves`enabled, Lists(slaves)`enabled
      ensures Valid() && list.enabled && forall i :: 0 <= i < |slaves| ==> slaves[i].list.enabled
      ensures enabled <==> forall i :: 0 <= i < |slaves| ==> old(AllEnabled(slaves[i].slaves))
    {
      hide Sum, ThrottleList.Total, HeldBy, Valid, Parts, AllEnabled;
      ApartFromBelow();
      EnableList();
      UnfoldHeld();
      EnableSlaves();
      CountEnabled();
      AllEnabledIs(slaves);
    }

    /** No list of the tree is enabled. */
    ghost predicate Off()
      reads this, list, repr
      decreases repr
    {
      && !list.enabled && SlavesIn()
      && forall i :: 0 <= i < |slaves| ==> slaves[i].Off()
    }

    /** No list below the throttle's own is. */
    ghost predicate OffBelow()
      reads this, list, repr
    {
      SlavesIn() && forall i :: 0 <= i < |slaves| ==> slaves[i].Off()
    }

    /** The list is turned off; the slaves are as they were. */
    method DropList()
      requires Valid()
      modifies list, list.nodes
      ensures !list.enabled && list.Total() == 0 && list.nodes == old(list.nodes)
      ensures Shape() && list.Valid() && (forall i :: 0 <= i < |slaves| ==> slaves[i].Valid())
      ensures HeldBy(slaves) == old(HeldBy(slaves)) && AllEnabled(slaves) == old(AllEnabled(slaves))
      ensures forall i :: 0 <= i < |slaves| ==> slaves[i].Off() == old(slaves[i].Off())
    {
      hide Sum, ThrottleList.Valid, HeldBy, AllEnabled, Counted, Off;
      assert forall n :: n in list.nodes ==> n in Own();
      assert forall i :: 0 <= i < |slaves| ==> slaves[i].repr !! Own();
      var activated := list.Disable();
    }

    ghost method Recount()
      requires Parts()
      modifies this`held, this`enabled
      ensures Valid() && enabled == (list.enabled && AllEnabled(slaves))
      ensures held == unused + list.Total() + Sum(HeldBy(slaves))
      ensures forall i :: 0 <= i < |slaves| ==> slaves[i].Off() == old(slaves[i].Off())
    {
      hide Sum, ThrottleList.Valid, ThrottleList.Total, HeldBy, Valid, AllEnabled, Off;
      forall i | 0 <= i < |slaves| ensures slaves[i].Parts() { slaves[i].Unfold(); }
      assert this !in slaves && forall i :: 0 <= i < |slaves| ==> this !in slaves[i].repr;
      held := unused + list.Total() + Sum(HeldBy(slaves));
      enabled := list.enabled && AllEnabled(slaves);
      Fold();
    }

    /** The throttle's own list is turned off, and what it held is gone. */
    method DisableList()
      requires Valid()
      modifies this`held, this`enabled, list, list.nodes
      ensures Valid() && !list.enabled && list.Total() == 0 && list.nodes == old(list.nodes)
      ensures Off() <==> old(OffBelow())
      ensures forall i :: 0 <= i < |slaves| ==> slaves[i].Off() == old(slaves[i].Off())
    {
      hide Sum, ThrottleList.Valid, ThrottleList.Total, HeldBy, AllEnabled, Valid, Off, OffBelow, SlavesIn, Shape;
      Books();
      OffIs();
      BelowIs();
      DropList();
      Recount();
      OffIs();
      BelowIs();
    }

    /** The list of slave k is turned off; everything else is as it was. */
    method DisableSlave(k: nat)
      requires Parts() && k < |slaves|
      modifies {slaves[k]}`held, {slaves[k]}`enabled, slaves[k].list, slaves[k].list.nodes
      ensures Parts() && slaves[k].list.nodes == old(slaves[k].list.nodes) && list.nodes == old(list.nodes)
      ensures !slaves[k].list.enabled && (slaves[k].Off() <==> old(slaves[k].OffBelow()))
      ensures forall i :: 0 <= i < |slaves| && i != k ==>
                && slaves[i].list.enabled == old(slaves[i].list.enabled)
                && slaves[i].list.nodes == old(slaves[i].list.nodes)
                && slaves[i].Off() == old(slaves[i].Off()) && slaves[i].OffBelow() == old(slaves[i].OffBelow())
    {
      hide ThrottleList.Valid, AllEnabled, Valid, Off, OffBelow;
      forall i | 0 <= i < |slaves| ensures slaves[i].Parts() { slaves[i].Unfold(); }
      assert forall n :: n in slaves[k].list.nodes ==> n in slaves[k].Own();
      assert slaves[k].list in slaves[k].repr && slaves[k].repr !! Own() && list in Own();
      assert slaves[k] in slaves[k].repr && forall n :: n in list.nodes ==> n in Own() && n !in slaves[k].repr;
      label L:
      slaves[k].DisableList();
      assert unchanged@L(list) && unchanged@L(set n | n in list.nodes);
    }

    method DisableSlaves()
      requires Parts()
      modifies slaves`held, slaves`enabled, Lists(slaves), NodesOf(slaves)
      ensures Parts() && list.nodes == old(list.nodes) && forall i :: 0 <= i < |slaves| ==> !slaves[i].list.enabled
      ensures forall i :: 0 <= i < |slaves| ==> (slaves[i].Off() <==> old(slaves[i].OffBelow()))
    {
      hide Parts, Off, OffBelow;
      var k := 0;
      while k < |slaves|
        invariant Parts() && k <= |slaves| && list.nodes == old(list.nodes)
        invariant forall i :: 0 <= i < |slaves| ==> slaves[i].list.nodes == old(slaves[i].list.nodes)
        invariant forall i :: 0 <= i < k ==> !slaves[i].list.enabled
        invariant forall i :: 0 <= i < k ==> (slaves[i].Off() <==> old(slaves[i].OffBelow()))
        invariant forall i :: k <= i < |slaves| ==> slaves[i].OffBelow() == old(slaves[i].OffBelow())
      {
        assert slaves[k] in slaves && forall n :: n in slaves[k].list.nodes ==> n in old(NodesOf(slaves));
        DisableSlave(k);
        k := k + 1;
      }
    }

    /** Turning the throttle off reaches its slaves and no further, as turning it on does: no list of the tree
        is on if and only if none below the slaves was. */
    method Disable()
      requires Valid()
      modifies this`held, this`enabled, list, list.nodes, slaves`held, slaves`enabled, Lists(slaves), NodesOf(slaves)
      ensures Valid() && !list.enabled && forall i :: 0 <= i < |slaves| ==> !slaves[i].list.enabled
      ensures Off() <==> forall i :: 0 <= i < |slaves| ==> old(slaves[i].OffBelow())
    {
      hide Sum, ThrottleList.Total, HeldBy, Valid, Parts, AllEnabled, Off, OffBelow;
      UnfoldHeld();
      DisableSlaves();
      Recount();
      OffIs();
      BelowIs();
      DisableList();
    }

    lemma BelowIs()
      requires SlavesIn()
      ensures OffBelow() <==> forall i :: 0 <= i < |slaves| ==> slaves[i].Off()
      ensures Off() <==> !list.enabled && OffBelow()
    {
    }

    twostate lemma AdoptedParts(slave: ThrottleInternal)
      requires old(Valid()) && old(slave.Valid()) && old(slave.repr !! repr)
               && unchanged(old(repr - {this}), old(slave.repr))
      requires slaves == old(slaves) + [slave] && repr == old(repr + slave.repr) && next == |slaves|
      ensures Parts()
    {
      hide Sum, Counted, ThrottleList.Valid;
    }

    twostate lemma AdoptedCounts(slave: ThrottleInternal)
      requires old(Valid()) && old(slave.Valid()) && old(slave.repr !! repr)
               && unchanged(old(repr - {this}), old(slave.repr))
      requires slaves == old(slaves) + [slave]
      ensures Sum(HeldBy(slaves)) == Sum(old(HeldBy(slaves))) + slave.held
      ensures AllEnabled(slaves) == (old(AllEnabled(slaves)) && slave.enabled) && list.Total() == old(list.Total())
    {
      hide Sum, Counted, ThrottleList.Valid;
      SumAppend(old(HeldBy(slaves)), slave.held);
      assert HeldBy(slaves) == old(HeldBy(slaves)) + [slave.held];
      EnabledConcat(old(slaves), slave);
    }

    /** A throttle of the same kind is put under this one, to be served last. */
    method Adopt(slave: ThrottleInternal)
      requires Valid() && slave.Valid() && slave.repr !! repr
      modifies this
      ensures Valid() && repr == old(repr) + slave.repr && slaves == old(slaves) + [slave] && next == |slaves|
      ensures held == old(held) + slave.held && enabled == (old(enabled) && slave.enabled)
      ensures unused == old(unused) && maxRate == old(maxRate)
    {
      hide Sum, ThrottleList.Valid, ThrottleList.Total, AllEnabled, Valid, HeldBy, Shape;
      Books();
      slaves := slaves + [slave];
      next := |slaves|;
      repr := repr + slave.repr;
      held := held + slave.held;
      enabled := enabled && slave.enabled;
      AdoptedParts(slave);
      AdoptedCounts(slave);
      Fold();
    }

    /** A new slave has its list enabled as its parent has. */
    method CreateSlave() returns (slave: ThrottleInternal)
      requires Valid()
      modifies this
      ensures Valid() && fresh(slave) && fresh(slave.list) && fresh(repr - old(repr))
      ensures slaves == old(slaves) + [slave] && next == |slaves| && held == old(held) && enabled == old(enabled)
      ensures slave.slaves == [] && slave.maxRate == maxRate == old(maxRate)
      ensures slave.list.enabled == list.enabled == old(list.enabled)
    {
      hide *;
      Unfold();
      slave := new ThrottleInternal(maxRate);
      if list.enabled { slave.EnableList(); }
      slave.Unfold();
      assert AllEnabled(slave.slaves) by { AllEnabledIs(slave.slaves); }
      Adopt(slave);
    }
  }

  /** A slave of a slave, made while its parents were off, is not reached when they are turned on: the
      tree is then not enabled throughout. */
  method GrandchildStaysDisabled(rootRate: nat, slaveRate: nat)
    returns (root: ThrottleInternal, slave: ThrottleInternal, leaf: ThrottleInternal)
    ensures root.slaves == [slave] && slave.slaves == [leaf] && leaf.slaves == []
    ensures root.Valid() && root.list.enabled && slave.list.enabled && !leaf.list.enabled && !root.enabled
    ensures fresh(root.repr) && slave in root.repr && leaf in root.repr && leaf.list in root.repr
    ensures root.maxRate == rootRate && slave.maxRate == leaf.maxRate == slaveRate && root.next == slave.next == 1
  {
    hide *;
    root, slave, leaf := DisabledLine(rootRate, slaveRate);
    SingleList(slave);
    root.Enable();
    assert root.slaves[0] == slave;
  }

  method DisabledLine(rootRate: nat, slaveRate: nat)
    returns (root: ThrottleInternal, slave: ThrottleInternal, leaf: ThrottleInternal)
    ensures root.slaves == [slave] && slave.slaves == [leaf] && leaf.slaves == [] && root.Valid()
    ensures fresh(root.repr) && root in root.repr && root.list in root.repr
    ensures slave in root.repr && slave.list in root.repr && leaf in root.repr && leaf.list in root.repr
    ensures leaf.list != root.list && leaf.list != slave.list && !leaf.list.enabled && !AllEnabled(slave.slaves)
    ensures root.maxRate == rootRate && slave.maxRate == leaf.maxRate == slaveRate && root.next == slave.next == 1
  {
    hide *;
    root := new ThrottleInternal(rootRate);
    slave := new ThrottleInternal(slaveRate);
    leaf := slave.CreateSlave();
    assert slave.slaves[0] == leaf;
    slave.Unfold();
    slave.InTree(0);
    slave.Basics();
    leaf.Unfold();
    AllEnabledIs(slave.slaves);
    root.Adopt(slave);
    LeafApart(root, slave, leaf);
  }

  /** Nor is it reached when they are turned off: made while they were on, it stays on, and has no more ticks. */
  method GrandchildStaysEnabled(rootRate: nat, slaveRate: nat)
    returns (root: ThrottleInternal, slave: ThrottleInternal, leaf: ThrottleInternal)
    ensures root.slaves == [slave] && slave.slaves == [leaf] && leaf.slaves == []
    ensures root.Valid() && !root.list.enabled && !slave.list.enabled && leaf.list.enabled && !root.Off()
  {
    hide *;
    root, slave, leaf := EnabledLine(rootRate, slaveRate);
    assert root.slaves[0] == slave && slave.slaves[0] == leaf;
    LeafApart(root, slave, leaf);
    TurnOff(root);
  }

  /** `Disable`, for a caller that has all of the tree. */
  method TurnOff(root: ThrottleInternal)
    requires root.Valid()
    modifies root.repr
    ensures root.Valid() && !root.list.enabled && forall i :: 0 <= i < |root.slaves| ==> !root.slaves[i].list.enabled
    ensures root in old(root.repr) && forall s: ThrottleInternal :: s in old(root.repr) ==> s.slaves == old(s.slaves)
    ensures root.Off() <==> forall i :: 0 <= i < |root.slaves| ==> old(root.slaves[i].OffBelow())
    ensures forall l: ThrottleList :: l in old(root.repr) && l != root.list && l !in Lists(root.slaves) ==>
              l.enabled == old(l.enabled)
  {
    hide ThrottleInternal.Valid, ThrottleInternal.Off, ThrottleInternal.OffBelow;
    root.Unfold();
    root.ListInTree();
    forall s | s in root.slaves
      ensures s in root.repr && s.list in root.repr && forall n :: n in s.list.nodes ==> n in root.repr
    {
      var i :| 0 <= i < |root.slaves| && root.slaves[i] == s;
      root.InTree(i);
      s.ListInTree();
    }
    root.Disable();
  }

  method EnabledLine(rootRate: nat, slaveRate: nat)
    returns (root: ThrottleInternal, slave: ThrottleInternal, leaf: ThrottleInternal)
    ensures root.slaves == [slave] && slave.slaves == [leaf] && leaf.slaves == [] && fresh(root.repr)
    ensures root.Valid() && root.list.enabled && slave.list.enabled && leaf.list.enabled
  {
    hide *;
    root := new ThrottleInternal(rootRate);
    root.EnableList();
    slave := new ThrottleInternal(slaveRate);
    slave.EnableList();
    leaf := slave.CreateSlave();
    root.Adopt(slave);
  }

  /** In the tree above, ticks of whatever quotas and fractions reach the leaf: the fourth is a fault, if none
      before was. */
  method GrandchildFaults(rootRate: nat, slaveRate: nat, quotas: seq<nat>, fractions: seq<nat>)
    returns (fault: bool, n: nat)
    requires |quotas| == |fractions| >= 4
    ensures fault && n < 4
  {
    hide ThrottleInternal.Valid, ThrottleInternal.Patience;
    var root, slave, leaf := GrandchildStaysDisabled(rootRate, slaveRate);
    LinePatience(root, slave, leaf);
    fault, n := root.TickAll(quotas, fractions);
  }

  /** The list of the leaf is none of those that turning the root off reaches. */
  lemma LeafApart(root: ThrottleInternal, slave: ThrottleInternal, leaf: ThrottleInternal)
    requires root.Valid() && root.slaves == [slave] && slave.slaves == [leaf]
    ensures root in root.repr && root.list in root.repr && slave in root.repr && slave.list in root.repr
    ensures leaf in root.repr && leaf.list in root.repr && leaf.list != root.list && leaf.list != slave.list
            && leaf !in {root, slave}
    ensures Lists(root.slaves) == {slave.list} && slave.OffBelow() == leaf.Off() && (leaf.list.enabled ==> !leaf.Off())
    ensures forall n :: n in root.list.nodes || n in NodesOf(root.slaves) ==> n in root.repr
  {
    hide ThrottleInternal.Valid;
    assert root.slaves[0] == slave && slave.slaves[0] == leaf;
    root.Unfold();
    slave.Unfold();
    root.InTree(0);
    slave.InTree(0);
    slave.OffIs();
    slave.BelowIs();
    SingleList(slave);
    root.ListInTree();
    slave.ListInTree();
    assert leaf.list in slave.repr && slave.repr !! root.Own();
  }

  /** Two turns of the slave, each at most two ticks away, the first after one for the root's list. */
  lemma LinePatience(root: ThrottleInternal, slave: ThrottleInternal, leaf: ThrottleInternal)
    requires root.Valid() && root.slaves == [slave] && slave.slaves == [leaf] && leaf.slaves == []
    requires root.list.enabled && slave.list.enabled && !leaf.list.enabled && root.next == slave.next == 1
    ensures root.Patience() == 3
  {
    hide ThrottleInternal.Valid;
    assert root.slaves[0] == slave && slave.slaves[0] == leaf;
    root.OffIs();
    root.InTree(0);
    slave.OffIs();
    slave.InTree(0);
    leaf.OffIs();
    leaf.Basics();
    leaf.Unfold();
    slave.Unfold();
    FirstOffIs(slave.slaves);
    FirstOffIs(root.slaves);
    assert leaf.Patience() == 0;
    assert FirstOff(slave.slaves) == 0 && slave.Patience() == Rounds(1, 0, 1) == 1;
    assert FirstOff(root.slaves) == 0 && root.Patience() == Rounds(1, 1, 1);
  }

  /** The first slave whose tree has a list that is not enabled. */
  ghost function FirstOff(slaves: seq<ThrottleInternal>): (k: nat)
    reads slaves`enabled
    ensures k <= |slaves|
  {
    if slaves == [] then 0 else if !slaves[0].enabled then 0 else 1 + FirstOff(slaves[1..])
  }

  lemma {:induction false} FirstOffIs(slaves: seq<ThrottleInternal>)
    ensures FirstOff(slaves) == |slaves| <==> AllEnabled(slaves)
    ensures FirstOff(slaves) < |slaves| ==> !slaves[FirstOff(slaves)].enabled
  {
    if slaves != [] && slaves[0].enabled {
      FirstOffIs(slaves[1..]);
      assert forall i :: 0 < i < |slaves| ==> slaves[i] == slaves[1..][i - 1];
    }
  }

  twostate lemma {:induction false} SameOff(slaves: seq<ThrottleInternal>)
    requires forall i :: 0 <= i < |slaves| ==> slaves[i].enabled == old(slaves[i].enabled)
    ensures FirstOff(slaves) == old(FirstOff(slaves))
    decreases |slaves|
  {
    if slaves != [] { SameOff(slaves[1..]); }
  }

  lemma LessRounds(turns: nat, patience: nat, turns': nat, patience': nat, n: nat)
    requires turns' <= n
    requires (patience' == patience && turns' < turns) || patience' < patience
    ensures Rounds(turns', patience', n) < Rounds(turns, patience, n)
  {
    if patience' < patience {
      assert (patience - patience' - 1) * (n + 1) >= 0;
    }
  }

  /** The ticks of a throttle with n slaves before one of these, whose turn is `turns` ticks away, is ticked
      once more than `patience` times. */
  ghost function Rounds(turns: nat, patience: nat, n: nat): nat { turns + patience * (n + 1) }

  datatype Mark = Mark(maxRate: nat, enabled: bool, ticks: nat, share: nat, next: nat, patience: nat)

  /** A slave that was served has less patience, one that was not has as much as before. */
  ghost predicate PatienceIf(served: bool, enabled: bool, patience: nat, before: nat) {
    if served then !enabled ==> patience < before else patience == before
  }

  ghost function HeldBy(slaves: seq<ThrottleInternal>): (h: seq<nat>)
    reads slaves
    ensures |h| == |slaves|
  {
    seq(|slaves|, i requires 0 <= i < |slaves| reads slaves => slaves[i].held)
  }

  ghost predicate AllEnabled(slaves: seq<ThrottleInternal>)
    reads slaves
  {
    forall i :: 0 <= i < |slaves| ==> slaves[i].enabled
  }

  function Lists(slaves: seq<ThrottleInternal>): set<ThrottleList> { set s | s in slaves :: s.list }

  function NodesOf(slaves: seq<ThrottleInternal>): set<ThrottleNode>
    reads Lists(slaves)`nodes
  {
    set s, n | s in slaves && n in s.list.nodes :: n
  }

  lemma SingleList(s: ThrottleInternal)
    ensures Lists([s]) == {s.list}
  {
    assert s in [s];
  }

  lemma AllEnabledIs(slaves: seq<ThrottleInternal>)
    ensures AllEnabled(slaves) <==> forall i :: 0 <= i < |slaves| ==> slaves[i].enabled
  {
  }

  lemma SumAppend(s: seq<nat>, x: nat)
    ensures Sum(s + [x]) == Sum(s) + x
  {
    SumConcat(s, [x]);
  }

  lemma EnabledConcat(slaves: seq<ThrottleInternal>, s: ThrottleInternal)
    ensures AllEnabled(slaves + [s]) == (AllEnabled(slaves) && s.enabled)
  {
    if AllEnabled(slaves + [s]) {
      assert (slaves + [s])[|slaves|] == s;
      assert forall i :: 0 <= i < |slaves| ==> slaves[i] == (slaves + [s])[i];
    }
  }

  /** Fault: a list that is not enabled was given quota. */
  datatype Received = Fault | Used(amount: int)
}
