/** Name queries in flight, at most eight at a time, each shared by all who asked for the same name.

    The buffer lives in the net thread; only `cancel_safe` is called from others. A step is one call of
    `resolve` or `cancel_safe`, or what the net thread does between two points at which a cancel can come
    between: so any interleaving is a sequence of steps. */
module DnsBuffers {
  import opened Collections

  type Requester = nat
  type Key = nat               // host name and family

  /** A callback: its number, who asked, through which requester object, and for which name. */
  datatype Callback = Callback(cid: nat, requester: Requester, id: nat, key: Key)

  datatype Query = Query(key: Key, callbacks: seq<Callback>)

  datatype Counts = Counts(active: nat, pending: nat)

  datatype Pc =
    | Idle
    | Running(key: Key, rest: seq<Callback>)                             // in `process`, before a callback
    | Calling(key: Key, callback: Callback, rest: seq<Callback>)         // its requester locked, not called yet
    | Activating(key: Key, kept: seq<Callback>, rest: seq<Callback>)     // in `activate_pending_query`

  const MAX_REQUESTS: nat := 8

  datatype State = State(
    slots: seq<Option<Query>>, count: nat, pending: seq<Query>,
    requesters: map<Requester, nat>, counts: map<nat, Counts>, nextId: nat,
    pc: Pc,
    issued: seq<Callback>,     // every callback ever registered, by its cid
    ran: seq<Callback>)        // callbacks called

  datatype Action = Resolve(requester: Requester, key: Key) | Cancel(requester: Requester) | Process(index: nat)
    | Lock | Call | Next

  datatype Result = Disabled | Fault | Ok(state: State)

  predicate Initial(s: State) {
    && s.slots == seq(MAX_REQUESTS, _ => None) && s.count == 0 && s.pending == [] && s.requesters == map[]
    && s.counts == map[] && s.pc.Idle? && s.issued == [] && s.ran == []
  }

  /** The requester object that the callback refers to still exists. */
  predicate Live(s: State, c: Callback) { c.requester in s.requesters && s.requesters[c.requester] == c.id }

  predicate Has(q: Option<Query>, key: Key) { q.Some? && q.value.key == key }

  function FindSlot(slots: seq<Option<Query>>, key: Key): (i: nat)
    ensures i <= |slots| && (i < |slots| ==> Has(slots[i], key)) && forall j :: 0 <= j < i ==> !Has(slots[j], key)
  {
    if slots == [] then 0 else if Has(slots[0], key) then 0 else 1 + FindSlot(slots[1..], key)
  }

  function FreeSlot(slots: seq<Option<Query>>): (i: nat)
    ensures i <= |slots| && (i < |slots| ==> slots[i].None?) && forall j :: 0 <= j < i ==> slots[j].Some?
  {
    if slots == [] then 0 else if slots[0].None? then 0 else 1 + FreeSlot(slots[1..])
  }

  function FindPending(pending: seq<Query>, key: Key): (i: nat)
    ensures i <= |pending| && (i < |pending| ==> pending[i].key == key)
            && forall j :: 0 <= j < i ==> pending[j].key != key
  {
    if pending == [] then 0 else if pending[0].key == key then 0 else 1 + FindPending(pending[1..], key)
  }

  function Plus(c: map<nat, Counts>, id: nat, active: int, pending: int): map<nat, Counts>
    requires id in c && c[id].active + active >= 0 && c[id].pending + pending >= 0
  {
    c[id := Counts(c[id].active + active, c[id].pending + pending)]
  }

  /** The state with a requester object for r. */
  function WithRequester(s: State, r: Requester): State {
    if r in s.requesters then s
    else s.(requesters := s.requesters[r := s.nextId], counts := s.counts[s.nextId := Counts(0, 0)],
        nextId := s.nextId + 1)
  }

  /** The queries of the buffer: those active, how many, and those waiting. */
  datatype Queries = Queries(slots: seq<Option<Query>>, count: nat, pending: seq<Query>)

  /** A query goes to the first free slot. */
  function Placed(b: Queries, q: Query): Option<Queries> {
    var i := FreeSlot(b.slots);
    if b.count >= MAX_REQUESTS || q.callbacks == [] || i == |b.slots| then None
    else Some(b.(slots := b.slots[i := Some(q)], count := b.count + 1))
  }

  /** A callback joins the query for its name, active or waiting, or makes a new one. */
  function Registered(b: Queries, key: Key, c: Callback): Option<Queries> {
    var i, j := FindSlot(b.slots, key), FindPending(b.pending, key);
    if b.count != 0 && i < |b.slots| then
      Some(b.(slots := b.slots[i := Some(Query(key, b.slots[i].value.callbacks + [c]))]))
    else if b.count != 0 && j < |b.pending| then
      Some(b.(pending := b.pending[j := Query(key, b.pending[j].callbacks + [c])]))
    else if b.count < MAX_REQUESTS then Placed(b, Query(key, [c]))
    else Some(b.(pending := b.pending + [Query(key, [c])]))
  }

  predicate GoesActive(b: Queries, key: Key) {
    (b.count != 0 && FindSlot(b.slots, key) < |b.slots|) ||
    (!(b.count != 0 && FindPending(b.pending, key) < |b.pending|) && b.count < MAX_REQUESTS)
  }

  function QueriesOf(s: State): Queries { Queries(s.slots, s.count, s.pending) }

  function WithQueries(s: State, b: Queries): State { s.(slots := b.slots, count := b.count, pending := b.pending) }

  function Place(s: State, q: Query): Result {
    match Placed(QueriesOf(s), q)
    case None => Fault
    case Some(b) => Ok(WithQueries(s, b).(pc := Idle))
  }

  function ResolveStep(s: State, r: Requester, key: Key): Result
  {
    var s1 := WithRequester(s, r);
    if r !in s1.requesters || s1.requesters[r] !in s1.counts then Fault
    else
      var c := Callback(|s.issued|, r, s1.requesters[r], key);
      var active := GoesActive(QueriesOf(s), key);
      match Registered(QueriesOf(s), key, c)
      case None => Fault
      case Some(b) =>
        Ok(WithQueries(s1.(issued := s.issued + [c], counts := Plus(s1.counts, c.id, One(active), One(!active))), b))
  }

  function LockStep(s: State): Result
    requires s.pc.Running? && s.pc.rest != []
  {
    var c, rest := s.pc.rest[0], s.pc.rest[1..];
    if !Live(s, c) then Ok(s.(pc := Running(s.pc.key, rest)))
    else if c.id !in s.counts || s.counts[c.id].active == 0 then Fault
    else Ok(s.(counts := Plus(s.counts, c.id, -1, 0), pc := Calling(s.pc.key, c, rest)))
  }

  /** One callback of a pending query moves with it, or is dropped. */
  function MoveStep(s: State): Result
    requires s.pc.Activating? && s.pc.rest != []
  {
    var c, rest := s.pc.rest[0], s.pc.rest[1..];
    if !Live(s, c) then Ok(s.(pc := Activating(s.pc.key, s.pc.kept, rest)))
    else if c.id !in s.counts || s.counts[c.id].pending == 0 then Fault
    else Ok(s.(counts := Plus(s.counts, c.id, 1, -1), pc := Activating(s.pc.key, s.pc.kept + [c], rest)))
  }

  function NextStep(s: State): Result {
    match s.pc
    case Running(_, rest) =>
      if rest != [] then Disabled
      else if s.pending == [] then Ok(s.(pc := Idle))
      else if s.count >= MAX_REQUESTS then Fault
      else Ok(s.(pending := s.pending[1..], pc := Activating(s.pending[0].key, [], s.pending[0].callbacks)))
    case Activating(key, kept, rest) =>
      if rest != [] then MoveStep(s)
      else if kept == [] then Ok(s.(pc := Running(key, [])))
      else Place(s, Query(key, kept))
    case _ => Disabled
  }

  function Step(s: State, a: Action): Result {
    match a
    case Resolve(r, key) => if !s.pc.Idle? then Disabled else ResolveStep(s, r, key)
    case Cancel(r) => Ok(s.(requesters := s.requesters - {r}))
    case Process(i) =>
      if !s.pc.Idle? || i >= |s.slots| || s.slots[i].None? then Disabled
      else if s.count == 0 then Fault
      else
        var q := s.slots[i].value;
        Ok(s.(slots := s.slots[i := None], count := s.count - 1, pc := Running(q.key, q.callbacks)))
    case Lock => if !s.pc.Running? || s.pc.rest == [] then Disabled else LockStep(s)
    case Call =>
      if !s.pc.Calling? then Disabled
      else Ok(s.(pc := Running(s.pc.key, s.pc.rest),
              ran := if Live(s, s.pc.callback) then s.ran + [s.pc.callback] else s.ran))
    case Next => NextStep(s)
  }

  function Run(s: State, actions: seq<Action>): Result
    decreases |actions|
  {
    if actions == [] then Ok(s)
    else match Step(s, actions[0])
         case Ok(s') => Run(s', actions[1..])
         case r => r
  }

  function Occupied(slots: seq<Option<Query>>): nat {
    if slots == [] then 0 else One(slots[0].Some?) + Occupied(slots[1..])
  }

  /** Callbacks of a requester object, or the callback of a number. */
  datatype Test = OfId(id: nat) | OfCid(cid: nat)

  predicate Matches(c: Callback, t: Test) { if t.OfId? then c.id == t.id else c.cid == t.cid }

  function Tally(s: seq<Callback>, t: Test): nat {
    if s == [] then 0 else One(Matches(s[0], t)) + Tally(s[1..], t)
  }

  function SlotTally(q: Option<Query>, t: Test): nat { if q.None? then 0 else Tally(q.value.callbacks, t) }

  function SlotsTally(slots: seq<Option<Query>>, t: Test): nat {
    if slots == [] then 0 else SlotTally(slots[0], t) + SlotsTally(slots[1..], t)
  }

  function QueriesTally(s: seq<Query>, t: Test): nat {
    if s == [] then 0 else Tally(s[0].callbacks, t) + QueriesTally(s[1..], t)
  }

  /** How many callbacks are counted as active, and as pending. */
  function Active(s: State, t: Test): nat {
    SlotsTally(s.slots, t) + match s.pc
                             case Idle => 0
                             case Running(_, rest) => Tally(rest, t)
                             case Calling(_, _, rest) => Tally(rest, t)
                             case Activating(_, kept, _) => Tally(kept, t)
  }

  function Pending(s: State, t: Test): nat {
    QueriesTally(s.pending, t) + if s.pc.Activating? then Tally(s.pc.rest, t) else 0
  }

  /** In how many places a callback is: waiting, about to be called, or called. */
  function Places(s: State, cid: nat): nat {
    Active(s, OfCid(cid)) + Pending(s, OfCid(cid)) +
    One(s.pc.Calling? && s.pc.callback.cid == cid) + Tally(s.ran, OfCid(cid))
  }

  /** As many queries are active as slots are taken; and a query waits only while none is free, or while
      the one just freed is about to be given to it. */
  ghost predicate SlotsOk(s: State) {
    && |s.slots| == MAX_REQUESTS && s.count == Occupied(s.slots)
    && (s.pc.Idle? ==> (s.pending != [] ==> s.count == MAX_REQUESTS))
    && (!s.pc.Idle? ==> s.count < MAX_REQUESTS && (s.pending != [] || s.pc.Activating? ==> s.count == MAX_REQUESTS - 1))
  }

  /** No two queries are for the same name and family. */
  ghost predicate KeysOk(s: State) {
    KeysApart(s.slots, s.pending) && (s.pc.Activating? ==> KeyApart(s.slots, s.pending, s.pc.key))
  }

  ghost predicate KeysApart(slots: seq<Option<Query>>, pending: seq<Query>) {
    && (forall i, j :: 0 <= i < j < |slots| && slots[i].Some? && slots[j].Some? ==>
          slots[i].value.key != slots[j].value.key)
    && (forall i, j :: 0 <= i < j < |pending| ==> pending[i].key != pending[j].key)
    && (forall i, j :: 0 <= i < |slots| && slots[i].Some? && 0 <= j < |pending| ==>
          slots[i].value.key != pending[j].key)
  }

  /** No query is for the key. */
  ghost predicate KeyApart(slots: seq<Option<Query>>, pending: seq<Query>, key: Key) {
    && (forall i :: 0 <= i < |slots| && slots[i].Some? ==> slots[i].value.key != key)
    && (forall j :: 0 <= j < |pending| ==> pending[j].key != key)
  }

  ghost predicate IsIssued(s: State, c: Callback) { c.cid < |s.issued| && s.issued[c.cid] == c }

  ghost predicate AllIssued(s: State, cs: seq<Callback>) { forall c :: c in cs ==> IsIssued(s, c) }

  /** Callbacks in queries, in hand, and called, are callbacks that were registered. */
  ghost predicate IssuedOk(s: State) {
    && (forall i :: 0 <= i < |s.slots| && s.slots[i].Some? ==> AllIssued(s, s.slots[i].value.callbacks))
    && (forall j :: 0 <= j < |s.pending| ==> AllIssued(s, s.pending[j].callbacks))
    && (s.pc.Running? || s.pc.Calling? || s.pc.Activating? ==> AllIssued(s, s.pc.rest))
    && (s.pc.Calling? ==> IsIssued(s, s.pc.callback))
    && (s.pc.Activating? ==> AllIssued(s, s.pc.kept))
    && AllIssued(s, s.ran)
  }

  /** Requester objects are never reused. */
  ghost predicate IdsOk(s: State) {
    && (forall r :: r in s.requesters ==> s.requesters[r] < s.nextId && s.requesters[r] in s.counts)
    && (forall r, q :: r in s.requesters && q in s.requesters && r != q ==> s.requesters[r] != s.requesters[q])
    && (forall i :: 0 <= i < |s.issued| ==> s.issued[i].id < s.nextId && s.issued[i].cid == i)
    && (forall i, r :: 0 <= i < |s.issued| && r in s.requesters && s.issued[i].id == s.requesters[r] ==>
          s.issued[i].requester == r)
  }

  /** A requester object counts its callbacks in active and in pending queries. */
  ghost predicate CountsOk(s: State) {
    && (forall r :: r in s.requesters && s.requesters[r] in s.counts ==>
          s.counts[s.requesters[r]] == Counts(Active(s, OfId(s.requesters[r])), Pending(s, OfId(s.requesters[r]))))
    && (forall id :: id >= s.nextId ==> Active(s, OfId(id)) == 0 && Pending(s, OfId(id)) == 0)
  }

  /** A callback is in one place at most, and in exactly one while its requester is not cancelled. */
  ghost predicate PlacesOk(s: State) {
    && (forall cid :: cid >= |s.issued| ==> Places(s, cid) == 0)
    && (forall cid :: 0 <= cid < |s.issued| ==> Places(s, cid) <= 1 && (Live(s, s.issued[cid]) ==> Places(s, cid) == 1))
  }

  ghost predicate Inv(s: State) { SlotsOk(s) && KeysOk(s) && IssuedOk(s) && IdsOk(s) && CountsOk(s) && PlacesOk(s) }

  lemma {:induction false} TallyConcat(a: seq<Callback>, b: seq<Callback>, t: Test)
    ensures Tally(a + b, t) == Tally(a, t) + Tally(b, t)
  {
    if a == [] {
      assert a + b == b;
    } else {
      assert (a + b)[1..] == a[1..] + b;
      TallyConcat(a[1..], b, t);
    }
  }

  lemma TallyOne(c: Callback, t: Test)
    ensures Tally([c], t) == One(Matches(c, t))
  {
  }

  lemma {:induction false} SlotsUpdate(slots: seq<Option<Query>>, i: nat, q: Option<Query>, t: Test)
    requires i < |slots|
    ensures SlotsTally(slots[i := q], t) == SlotsTally(slots, t) - SlotTally(slots[i], t) + SlotTally(q, t)
    ensures Occupied(slots[i := q]) == Occupied(slots) - One(slots[i].Some?) + One(q.Some?)
  {
    if i == 0 {
      assert slots[0 := q][1..] == slots[1..];
    } else {
      assert slots[i := q][1..] == slots[1..][i - 1 := q];
      SlotsUpdate(slots[1..], i - 1, q, t);
    }
  }

  lemma {:induction false} OccupiedBounds(slots: seq<Option<Query>>)
    ensures Occupied(slots) <= |slots|
    ensures Occupied(slots) < |slots| <==> FreeSlot(slots) < |slots|
    ensures Occupied(slots) == 0 ==> forall i :: 0 <= i < |slots| ==> slots[i].None?
  {
    if slots != [] {
      OccupiedBounds(slots[1..]);
      assert forall i :: 0 < i < |slots| ==> slots[i] == slots[1..][i - 1];
    }
  }

  lemma {:induction false} QueriesUpdate(s: seq<Query>, j: nat, q: Query, t: Test)
    requires j < |s|
    ensures QueriesTally(s[j := q], t) == QueriesTally(s, t) - Tally(s[j].callbacks, t) + Tally(q.callbacks, t)
  {
    if j == 0 {
      assert s[0 := q][1..] == s[1..];
    } else {
      assert s[j := q][1..] == s[1..][j - 1 := q];
      QueriesUpdate(s[1..], j - 1, q, t);
    }
  }

  lemma {:induction false} QueriesAppend(s: seq<Query>, q: Query, t: Test)
    ensures QueriesTally(s + [q], t) == QueriesTally(s, t) + Tally(q.callbacks, t)
  {
    if s == [] {
      assert s + [q] == [q];
    } else {
      assert (s + [q])[1..] == s[1..] + [q];
      QueriesAppend(s[1..], q, t);
    }
  }

  /** A query placed in a slot is counted there. */
  lemma PlacedTally(b: Queries, q: Query, t: Test)
    requires Placed(b, q).Some?
    ensures var b' := Placed(b, q).value;
            && SlotsTally(b'.slots, t) == SlotsTally(b.slots, t) + Tally(q.callbacks, t)
            && Occupied(b'.slots) == Occupied(b.slots) + 1 && |b'.slots| == |b.slots|
  {
    SlotsUpdate(b.slots, FreeSlot(b.slots), Some(q), t);
  }

  lemma PlacedKeeps(b: Queries, q: Query)
    requires Placed(b, q).Some?
    ensures Placed(b, q).value.pending == b.pending && Placed(b, q).value.count == b.count + 1 <= MAX_REQUESTS
  {
  }

  lemma RegisteredTally(b: Queries, key: Key, c: Callback, t: Test)
    requires Registered(b, key, c).Some?
    ensures var b' := Registered(b, key, c).value; var n := One(Matches(c, t)); var active := GoesActive(b, key);
            && SlotsTally(b'.slots, t) == SlotsTally(b.slots, t) + (if active then n else 0)
            && QueriesTally(b'.pending, t) == QueriesTally(b.pending, t) + (if active then 0 else n)
            && Occupied(b'.slots) - b'.count == Occupied(b.slots) - b.count && |b'.slots| == |b.slots|
  {
    hide Tally, SlotsTally, QueriesTally, Matches, Occupied;
    var i, j := FindSlot(b.slots, key), FindPending(b.pending, key);
    TallyOne(c, t);
    if b.count != 0 && i < |b.slots| {
      TallyConcat(b.slots[i].value.callbacks, [c], t);
      SlotsUpdate(b.slots, i, Some(Query(key, b.slots[i].value.callbacks + [c])), t);
    } else if b.count != 0 && j < |b.pending| {
      TallyConcat(b.pending[j].callbacks, [c], t);
      QueriesUpdate(b.pending, j, Query(key, b.pending[j].callbacks + [c]), t);
    } else if b.count < MAX_REQUESTS {
      PlacedTally(b, Query(key, [c]), t);
    } else {
      QueriesAppend(b.pending, Query(key, [c]), t);
    }
  }

  /** The callback that a step registers or takes in hand, and what it does to the two counts. */
  function Moves(s: State, a: Action): Option<Callback> {
    if a.Resolve? && s.pc.Idle? then
      Some(Callback(|s.issued|, a.requester,
                    if a.requester in s.requesters then s.requesters[a.requester] else s.nextId, a.key))
    else if a.Lock? && s.pc.Running? && s.pc.rest != [] then Some(s.pc.rest[0])
    else if a.Next? && s.pc.Activating? && s.pc.rest != [] then Some(s.pc.rest[0])
    else None
  }

  function Delta(s: State, a: Action): (int, int) {
    match a
    case Resolve(_, key) => if GoesActive(QueriesOf(s), key) then (1, 0) else (0, 1)
    case Lock => (-1, 0)
    case Next => if s.pc.Activating? && s.pc.rest != [] && Live(s, s.pc.rest[0]) then (1, -1) else (0, -1)
    case _ => (0, 0)
  }

  /** What a call of `resolve` does outside of the queries. */
  lemma ResolveShape(s: State, r: Requester, key: Key)
    requires s.pc.Idle? && ResolveStep(s, r, key).Ok?
    ensures var s' := ResolveStep(s, r, key).state; var s1 := WithRequester(s, r);
            var c := Moves(s, Resolve(r, key)).value; var d := Delta(s, Resolve(r, key));
            && s'.requesters == s1.requesters && s'.nextId == s1.nextId && s'.pc.Idle? && s'.ran == s.ran
            && s'.issued == s.issued + [c] && c.id in s1.counts && s'.counts == Plus(s1.counts, c.id, d.0, d.1)
  {
    hide Registered, GoesActive, Plus;
  }

  lemma ResolveTally(s: State, r: Requester, key: Key, t: Test)
    requires s.pc.Idle? && ResolveStep(s, r, key).Ok?
    ensures var s' := ResolveStep(s, r, key).state; var c := Moves(s, Resolve(r, key)).value;
            var d := Delta(s, Resolve(r, key));
            && Active(s', t) == Active(s, t) + d.0 * One(Matches(c, t))
            && Pending(s', t) == Pending(s, t) + d.1 * One(Matches(c, t))
            && s'.pc.Idle?
  {
    hide Tally, SlotsTally, QueriesTally, Matches, Registered, GoesActive, Plus;
    RegisteredTally(QueriesOf(s), key, Moves(s, Resolve(r, key)).value, t);
  }

  lemma NextTally(s: State, t: Test)
    requires NextStep(s).Ok?
    ensures var s' := NextStep(s).state; var d := Delta(s, Next);
            var n := if Moves(s, Next).Some? then One(Matches(Moves(s, Next).value, t)) else 0;
            && Active(s', t) == Active(s, t) + d.0 * n && Pending(s', t) == Pending(s, t) + d.1 * n
  {
    hide Matches, Placed, SlotsTally, Live, MoveStep;
    match s.pc
    case Running(_, rest) =>
    case Activating(key, kept, rest) =>
      if rest != [] {
        MoveTally(s, t);
      } else if kept != [] {
        PlacedTally(QueriesOf(s), Query(key, kept), t);
        PlacedKeeps(QueriesOf(s), Query(key, kept));
      }
    case _ =>
  }

  lemma MoveTally(s: State, t: Test)
    requires s.pc.Activating? && s.pc.rest != [] && MoveStep(s).Ok?
    ensures var s' := MoveStep(s).state; var d := Delta(s, Next); var n := One(Matches(s.pc.rest[0], t));
            && Active(s', t) == Active(s, t) + d.0 * n && Pending(s', t) == Pending(s, t) + d.1 * n
  {
    hide Matches, SlotsTally, QueriesTally, Live, Plus;
    TallyConcat(s.pc.kept, [s.pc.rest[0]], t);
    TallyOne(s.pc.rest[0], t);
  }

  /** The effect of a step on both counts, for any test. */
  lemma StepTally(s: State, a: Action, t: Test)
    requires Step(s, a).Ok?
    ensures var s' := Step(s, a).state; var d := Delta(s, a);
            var n := if Moves(s, a).Some? then One(Matches(Moves(s, a).value, t)) else 0;
            && Active(s', t) == Active(s, t) + d.0 * n && Pending(s', t) == Pending(s, t) + d.1 * n
  {
    hide Matches, SlotsTally, QueriesTally, ResolveStep, NextStep;
    match a
    case Resolve(r, key) => ResolveTally(s, r, key, t);
    case Next => NextTally(s, t);
    case Process(i) => SlotsUpdate(s.slots, i, None, t);
    case _ =>
  }

  // Slots

  lemma ResolveSlots(s: State, r: Requester, key: Key)
    requires s.pc.Idle? && SlotsOk(s) && ResolveStep(s, r, key).Ok?
    ensures SlotsOk(ResolveStep(s, r, key).state)
  {
    hide Occupied, Plus;
    OccupiedBounds(s.slots);
    RegisteredTally(QueriesOf(s), key, Moves(s, Resolve(r, key)).value, OfId(0));
  }

  lemma StepSlots(s: State, a: Action)
    requires SlotsOk(s) && Step(s, a).Ok?
    ensures SlotsOk(Step(s, a).state)
  {
    hide Occupied, ResolveStep;
    match a
    case Resolve(r, key) => ResolveSlots(s, r, key);
    case Process(i) =>
      OccupiedBounds(s.slots);
      SlotsUpdate(s.slots, i, None, OfId(0));
    case Next =>
      if s.pc.Activating? && s.pc.rest == [] && s.pc.kept != [] {
        PlacedTally(QueriesOf(s), Query(s.pc.key, s.pc.kept), OfId(0));
        PlacedKeeps(QueriesOf(s), Query(s.pc.key, s.pc.kept));
      }
    case _ =>
  }

  // Keys

  lemma ResolveKeys(s: State, r: Requester, key: Key)
    requires s.pc.Idle? && SlotsOk(s) && KeysOk(s) && ResolveStep(s, r, key).Ok?
    ensures KeysOk(ResolveStep(s, r, key).state)
  {
    hide Occupied, Plus, Registered, GoesActive, KeysApart;
    OccupiedBounds(s.slots);
    RegisteredKeys(QueriesOf(s), key, Moves(s, Resolve(r, key)).value);
  }

  lemma PlacedKeys(b: Queries, q: Query)
    requires Placed(b, q).Some? && KeysApart(b.slots, b.pending) && KeyApart(b.slots, b.pending, q.key)
    ensures KeysApart(Placed(b, q).value.slots, Placed(b, q).value.pending)
  {
  }

  lemma RegisteredKeys(b: Queries, key: Key, c: Callback)
    requires Registered(b, key, c).Some? && KeysApart(b.slots, b.pending)
    requires b.count == 0 ==> b.pending == [] && forall i :: 0 <= i < |b.slots| ==> b.slots[i].None?
    ensures KeysApart(Registered(b, key, c).value.slots, Registered(b, key, c).value.pending)
  {
    hide Placed;
    if FindSlot(b.slots, key) == |b.slots| && FindPending(b.pending, key) == |b.pending| && b.count < MAX_REQUESTS {
      PlacedKeys(b, Query(key, [c]));
    }
  }

  lemma LockShape(s: State)
    requires s.pc.Running? && s.pc.rest != [] && LockStep(s).Ok?
    ensures var s' := LockStep(s).state; s'.slots == s.slots && s'.pending == s.pending && !s'.pc.Activating?
  {
  }

  lemma NextKeys(s: State)
    requires SlotsOk(s) && KeysOk(s) && NextStep(s).Ok?
    ensures KeysOk(NextStep(s).state)
  {
    hide SlotsOk, Live, Placed, KeysApart, KeyApart;
    match s.pc
    case Running(_, rest) => if s.pending != [] { TakenKeys(s.slots, s.pending); }
    case Activating(key, kept, rest) =>
      if rest == [] && kept != [] { PlacedKeys(QueriesOf(s), Query(key, kept)); }
    case _ =>
  }

  lemma TakenKeys(slots: seq<Option<Query>>, pending: seq<Query>)
    requires KeysApart(slots, pending) && pending != []
    ensures KeysApart(slots, pending[1..]) && KeyApart(slots, pending[1..], pending[0].key)
  {
  }

  lemma StepKeys(s: State, a: Action)
    requires SlotsOk(s) && KeysOk(s) && Step(s, a).Ok?
    ensures KeysOk(Step(s, a).state)
  {
    hide ResolveStep, NextStep, LockStep, SlotsOk;
    match a
    case Resolve(r, key) => ResolveKeys(s, r, key);
    case Next => NextKeys(s);
    case Lock => LockShape(s);
    case _ =>
  }

  // Issued callbacks and requester objects

  lemma ResolveIds(s: State, r: Requester, key: Key)
    requires s.pc.Idle? && IdsOk(s) && ResolveStep(s, r, key).Ok?
    ensures var s' := ResolveStep(s, r, key).state;
            && s'.issued == s.issued + [Moves(s, Resolve(r, key)).value] && s'.ran == s.ran
            && s'.requesters == WithRequester(s, r).requesters && s'.nextId == WithRequester(s, r).nextId
            && s'.counts.Keys == WithRequester(s, r).counts.Keys && IdsOk(s')
  {
    hide ResolveStep;
    ResolveShape(s, r, key);
  }

  /** What a step does to the registered callbacks, the requesters and the objects. */
  lemma StepIds(s: State, a: Action)
    requires IdsOk(s) && Step(s, a).Ok?
    ensures var s' := Step(s, a).state;
            && IdsOk(s') && s.nextId <= s'.nextId && (a.Resolve? ==> s.pc.Idle?)
            && s'.issued == (if a.Resolve? then s.issued + [Moves(s, a).value] else s.issued)
            && s'.requesters == if a.Resolve? then WithRequester(s, a.requester).requesters
                                else if a.Cancel? then s.requesters - {a.requester} else s.requesters
  {
    hide ResolveStep, Live, Placed, IdsOk;
    match a
    case Resolve(r, key) => ResolveIds(s, r, key);
    case Cancel(r) => IdsKept(s, Step(s, a).state, {r});
    case _ => IdsKept(s, Step(s, a).state, {});
  }

  lemma IdsKept(s: State, s': State, gone: set<Requester>)
    requires IdsOk(s) && s'.issued == s.issued && s'.nextId == s.nextId && s'.counts.Keys == s.counts.Keys
    requires s'.requesters == s.requesters - gone
    ensures IdsOk(s')
  {
  }

  lemma IssuedGrow(s: State, s': State, cs: seq<Callback>)
    requires AllIssued(s, cs) && s.issued <= s'.issued
    ensures AllIssued(s', cs)
  {
  }

  lemma IssuedLast(s: State, s': State, c: Callback)
    requires s'.issued == s.issued + [c] && c.cid == |s.issued|
    ensures IsIssued(s', c)
  {
  }

  /** What the new queries hold is what the old ones held, and the callback. */
  lemma RegisteredQueries(b: Queries, key: Key, c: Callback)
    requires Registered(b, key, c).Some?
    ensures var b' := Registered(b, key, c).value;
            && |b'.slots| == |b.slots| && |b.pending| <= |b'.pending| <= |b.pending| + 1
            && (forall i :: 0 <= i < |b.slots| && b'.slots[i].Some? ==>
                  || b'.slots[i] == b.slots[i]
                  || Adds(b'.slots[i].value.callbacks, if b.slots[i].Some? then b.slots[i].value.callbacks else [], c))
            && (forall j :: 0 <= j < |b'.pending| ==>
                  if j < |b.pending| then b'.pending[j] == b.pending[j]
                    || Adds(b'.pending[j].callbacks, b.pending[j].callbacks, c)
                  else Adds(b'.pending[j].callbacks, [], c))
  {
  }

  predicate Adds(after: seq<Callback>, before: seq<Callback>, c: Callback) { after == before + [c] }

  lemma ResolveIssued(s: State, r: Requester, key: Key)
    requires s.pc.Idle? && IssuedOk(s) && ResolveStep(s, r, key).Ok?
    ensures IssuedOk(ResolveStep(s, r, key).state)
  {
    hide IsIssued, Registered, GoesActive, Plus;
    var s' := ResolveStep(s, r, key).state;
    var c := Moves(s, Resolve(r, key)).value;
    IssuedLast(s, s', c);
    RegisteredQueries(QueriesOf(s), key, c);
    forall i | 0 <= i < |s'.slots| && s'.slots[i].Some? ensures AllIssued(s', s'.slots[i].value.callbacks) {
      if s.slots[i].Some? { IssuedGrow(s, s', s.slots[i].value.callbacks); }
    }
    forall j | 0 <= j < |s'.pending| ensures AllIssued(s', s'.pending[j].callbacks) {
      if j < |s.pending| { IssuedGrow(s, s', s.pending[j].callbacks); }
    }
    IssuedGrow(s, s', s.ran);
  }

  lemma NextIssued(s: State)
    requires IssuedOk(s) && NextStep(s).Ok?
    ensures IssuedOk(NextStep(s).state)
  {
    hide Live, FreeSlot;
    var s' := NextStep(s).state;
    assert s'.issued == s.issued;
    forall cs: seq<Callback> | AllIssued(s, cs) ensures AllIssued(s', cs) { IssuedGrow(s, s', cs); }
    hide IsIssued;
  }

  lemma StepIssued(s: State, a: Action)
    requires IssuedOk(s) && Step(s, a).Ok?
    ensures IssuedOk(Step(s, a).state)
  {
    hide ResolveStep, Live, FreeSlot, NextStep;
    match a
    case Resolve(r, key) => ResolveIssued(s, r, key);
    case Next => NextIssued(s);
    case _ => assert forall c :: IsIssued(s, c) <==> IsIssued(Step(s, a).state, c);
  }

  // Counts

  /** A callback in hand is one of a live object only if its requester is not cancelled. */
  lemma DeadId(s: State, c: Callback, r: Requester)
    requires IdsOk(s) && IsIssued(s, c) && r in s.requesters && s.requesters[r] == c.id
    ensures Live(s, c)
  {
  }

  lemma LockCounts(s: State)
    requires IdsOk(s) && CountsOk(s) && IssuedOk(s) && s.pc.Running? && s.pc.rest != [] && LockStep(s).Ok?
    ensures CountsOk(LockStep(s).state)
  {
    hide Active, Pending, IssuedOk;
    var s' := LockStep(s).state;
    var c := s.pc.rest[0];
    InHand(s);
    forall id
      ensures Active(s', OfId(id)) == Active(s, OfId(id)) - One(c.id == id)
      ensures Pending(s', OfId(id)) == Pending(s, OfId(id))
    {
      StepTally(s, Lock, OfId(id));
    }
    forall r | r in s.requesters && s.requesters[r] == c.id ensures Live(s, c) { DeadId(s, c, r); }
  }

  lemma MoveCounts(s: State)
    requires IdsOk(s) && CountsOk(s) && IssuedOk(s) && s.pc.Activating? && s.pc.rest != [] && MoveStep(s).Ok?
    ensures CountsOk(MoveStep(s).state)
  {
    hide Active, Pending, IssuedOk;
    var s' := MoveStep(s).state;
    var c := s.pc.rest[0];
    InHand(s);
    forall id
      ensures Active(s', OfId(id)) == Active(s, OfId(id)) + One(c.id == id && Live(s, c))
      ensures Pending(s', OfId(id)) == Pending(s, OfId(id)) - One(c.id == id)
    {
      StepTally(s, Next, OfId(id));
    }
    forall r | r in s.requesters && s.requesters[r] == c.id ensures Live(s, c) { DeadId(s, c, r); }
  }

  lemma InHand(s: State)
    requires IssuedOk(s) && (s.pc.Running? || s.pc.Activating?) && s.pc.rest != []
    ensures IsIssued(s, s.pc.rest[0])
  {
  }

  lemma ResolveCounts(s: State, r: Requester, key: Key)
    requires IdsOk(s) && CountsOk(s) && s.pc.Idle? && ResolveStep(s, r, key).Ok?
    ensures CountsOk(ResolveStep(s, r, key).state)
  {
    hide Active, Pending, ResolveStep, GoesActive, Matches;
    var s' := ResolveStep(s, r, key).state;
    var c := Moves(s, Resolve(r, key)).value;
    var d := Delta(s, Resolve(r, key));
    ResolveShape(s, r, key);
    forall id
      ensures Active(s', OfId(id)) == Active(s, OfId(id)) + d.0 * One(c.id == id)
      ensures Pending(s', OfId(id)) == Pending(s, OfId(id)) + d.1 * One(c.id == id)
    {
      ResolveTally(s, r, key, OfId(id));
      MatchesId(c, id);
    }
  }

  lemma MatchesId(c: Callback, id: nat)
    ensures Matches(c, OfId(id)) <==> c.id == id
  {
  }

  lemma StepCounts(s: State, a: Action)
    requires IdsOk(s) && CountsOk(s) && IssuedOk(s) && Step(s, a).Ok?
    ensures CountsOk(Step(s, a).state)
  {
    hide Active, Pending, ResolveStep, IssuedOk, IdsOk, LockStep, MoveStep;
    if a.Resolve? {
      ResolveCounts(s, a.requester, a.key);
    } else if a.Lock? {
      LockCounts(s);
    } else if a.Next? && s.pc.Activating? && s.pc.rest != [] {
      MoveCounts(s);
    } else {
      var s' := Step(s, a).state;
      forall id ensures Active(s', OfId(id)) == Active(s, OfId(id)) && Pending(s', OfId(id)) == Pending(s, OfId(id)) {
        StepTally(s, a, OfId(id));
      }
    }
  }

  // Places

  lemma LiveBefore(s: State, a: Action, i: nat)
    requires IdsOk(s) && Step(s, a).Ok? && i < |s.issued|
    ensures Step(s, a).state.issued[i] == s.issued[i]
    ensures Live(Step(s, a).state, s.issued[i]) ==> Live(s, s.issued[i])
  {
    hide Step;
    StepIds(s, a);
  }

  /** How often a callback is in a place, after a step. */
  lemma StepPlace(s: State, a: Action, cid: nat)
    requires IssuedOk(s) && Step(s, a).Ok?
    ensures var s' := Step(s, a).state; var m := Moves(s, a);
            Places(s', cid) == Places(s, cid)
                + (if a.Resolve? then One(m.value.cid == cid) else 0)
                - (if (a.Lock? || a.Next?) && m.Some? then One(m.value.cid == cid && !Live(s, m.value)) else 0)
                - (if a.Call? then One(s.pc.callback.cid == cid && !Live(s, s.pc.callback)) else 0)
  {
    hide Active, Pending, ResolveStep, IssuedOk, MoveStep, Place;
    var s' := Step(s, a).state;
    StepTally(s, a, OfCid(cid));
    StepRan(s, a);
    if a.Call? && Live(s, s.pc.callback) {
      TallyConcat(s.ran, [s.pc.callback], OfCid(cid));
      TallyOne(s.pc.callback, OfCid(cid));
    }
  }

  lemma StepRan(s: State, a: Action)
    requires Step(s, a).Ok?
    ensures var s' := Step(s, a).state;
            && s'.ran == (if a.Call? && Live(s, s.pc.callback) then s.ran + [s.pc.callback] else s.ran)
            && (s'.pc.Calling? <==> (a.Lock? && Live(s, s.pc.rest[0])) || (a.Cancel? && s.pc.Calling?))
            && (s'.pc.Calling? ==> s'.pc.callback == if a.Lock? then s.pc.rest[0] else s.pc.callback)
            && (s.pc.Calling? <==> a.Call? || (a.Cancel? && s.pc.Calling?))
  {
    hide FindSlot, FindPending, FreeSlot;
  }

  lemma StepPlaces(s: State, a: Action)
    requires IdsOk(s) && IssuedOk(s) && PlacesOk(s) && Step(s, a).Ok?
    ensures PlacesOk(Step(s, a).state)
  {
    hide Places, Step;
    var s' := Step(s, a).state;
    StepIds(s, a);
    TakenIssued(s, a);
    forall cid: nat ensures cid >= |s'.issued| ==> Places(s', cid) == 0 { StepPlace(s, a, cid); }
    forall cid | 0 <= cid < |s'.issued|
      ensures Places(s', cid) <= 1 && (Live(s', s'.issued[cid]) ==> Places(s', cid) == 1) {
      StepPlace(s, a, cid);
      if cid < |s.issued| { LiveBefore(s, a, cid); }
    }
  }

  /** The callback that a step takes in hand is the registered one of its number. */
  lemma TakenIssued(s: State, a: Action)
    requires IdsOk(s) && IssuedOk(s) && Step(s, a).Ok?
    ensures (a.Lock? || a.Next?) && Moves(s, a).Some? ==> IsIssued(s, Moves(s, a).value)
    ensures a.Call? ==> s.pc.Calling? && IsIssued(s, s.pc.callback)
  {
    hide ResolveStep, MoveStep, LockStep, Place;
  }

  // No internal error

  lemma {:induction false} TallyMember(cs: seq<Callback>, c: Callback, t: Test)
    requires c in cs && Matches(c, t)
    ensures Tally(cs, t) >= 1
  {
    if cs[0] != c { TallyMember(cs[1..], c, t); }
  }

  lemma StepNoFault(s: State, a: Action)
    requires SlotsOk(s) && IdsOk(s) && CountsOk(s)
    ensures !Step(s, a).Fault?
  {
    hide Tally, SlotsTally, QueriesTally, Occupied;
    OccupiedBounds(s.slots);
    match a
    case Process(i) =>
    case Lock => if s.pc.Running? && s.pc.rest != [] { TallyMember(s.pc.rest, s.pc.rest[0], OfId(s.pc.rest[0].id)); }
    case Next => if s.pc.Activating? && s.pc.rest != [] { TallyMember(s.pc.rest, s.pc.rest[0], OfId(s.pc.rest[0].id)); }
    case _ =>
  }

  lemma StepOk(s: State, a: Action)
    requires Inv(s)
    ensures !Step(s, a).Fault? && (Step(s, a).Ok? ==> Inv(Step(s, a).state))
  {
    hide SlotsOk, KeysOk, IssuedOk, IdsOk, CountsOk, PlacesOk, Step;
    StepNoFault(s, a);
    if Step(s, a).Ok? {
      StepSlots(s, a);
      StepKeys(s, a);
      StepIssued(s, a);
      StepIds(s, a);
      StepCounts(s, a);
      StepPlaces(s, a);
    }
  }

  lemma {:induction false} RunOk(s: State, actions: seq<Action>)
    requires Inv(s)
    ensures !Run(s, actions).Fault? && (Run(s, actions).Ok? ==> Inv(Run(s, actions).state))
    decreases |actions|
  {
    hide Inv, Step;
    if actions != [] {
      StepOk(s, actions[0]);
      if Step(s, actions[0]).Ok? { RunOk(Step(s, actions[0]).state, actions[1..]); }
    }
  }

  ghost predicate Reachable(s: State) {
    exists start, actions :: Initial(start) && Run(start, actions) == Ok(s)
  }

  lemma {:induction false} NoneOccupied(slots: seq<Option<Query>>, t: Test)
    requires forall i :: 0 <= i < |slots| ==> slots[i].None?
    ensures Occupied(slots) == 0 && SlotsTally(slots, t) == 0
  {
    if slots != [] {
      NoneOccupied(slots[1..], t);
    }
  }

  lemma InitialOk(s: State)
    requires Initial(s)
    ensures Inv(s)
  {
    hide SlotsTally, Occupied;
    forall t ensures Occupied(s.slots) == 0 && SlotsTally(s.slots, t) == 0 { NoneOccupied(s.slots, t); }
    assert Occupied(s.slots) == 0 by { NoneOccupied(s.slots, OfId(0)); }
  }

  lemma ReachableOk(s: State)
    requires Reachable(s)
    ensures Inv(s)
  {
    hide Inv, Run;
    var start, actions :| Initial(start) && Run(start, actions) == Ok(s);
    InitialOk(start);
    RunOk(start, actions);
  }

  /** In every reachable state between calls: at most eight queries are active, one waits only when all
      eight are, and no name is queried twice. */
  lemma QueriesAreBounded(s: State)
    requires Reachable(s) && s.pc.Idle?
    ensures s.count == Occupied(s.slots) <= MAX_REQUESTS && (s.pending != [] ==> s.count == MAX_REQUESTS)
    ensures forall i, j :: 0 <= i < j < |s.slots| && s.slots[i].Some? && s.slots[j].Some? ==>
              s.slots[i].value.key != s.slots[j].value.key
    ensures forall i, j :: 0 <= i < |s.slots| && s.slots[i].Some? && 0 <= j < |s.pending| ==>
              s.slots[i].value.key != s.pending[j].key
    ensures forall i, j :: 0 <= i < j < |s.pending| ==> s.pending[i].key != s.pending[j].key
  {
    ReachableOk(s);
    OccupiedBounds(s.slots);
  }

  /** A registered callback is waiting or was called, not both and not twice; and while its requester has
      not cancelled, it is not lost. The requester's counters say how many of its callbacks wait. */
  lemma CallbacksAreConserved(s: State, cid: nat)
    requires Reachable(s) && cid < |s.issued|
    ensures Places(s, cid) <= 1 && Tally(s.ran, OfCid(cid)) <= 1
    ensures Live(s, s.issued[cid]) ==>
              && Places(s, cid) == 1 && s.issued[cid].id in s.counts
              && s.counts[s.issued[cid].id] == Counts(Active(s, OfId(s.issued[cid].id)),
                   Pending(s, OfId(s.issued[cid].id)))
  {
    ReachableOk(s);
  }

  /** Objects that r gets from now on are not among those of before. */
  lemma {:induction false} NoRunWithOldObject(s: State, actions: seq<Action>, r: Requester, n: nat, k: nat)
    requires Inv(s) && Run(s, actions).Ok? && n <= s.nextId && (r in s.requesters ==> s.requesters[r] >= n)
    requires |s.ran| <= k < |Run(s, actions).state.ran| && Run(s, actions).state.ran[k].requester == r
    ensures Run(s, actions).state.ran[k].id >= n
    decreases |actions|
  {
    hide Inv, Step;
    var a := actions[0];
    var s' := Step(s, a).state;
    StepOk(s, a);
    StepFacts(s, a, r, n);
    if k < |s'.ran| {
      RunKeeps(s', actions[1..]);
    } else {
      NoRunWithOldObject(s', actions[1..], r, n, k);
    }
  }

  /** Once called, a callback stays in the record of calls. */
  lemma {:induction false} RunKeeps(s: State, actions: seq<Action>)
    requires Run(s, actions).Ok?
    ensures s.ran <= Run(s, actions).state.ran
    decreases |actions|
  {
    hide Step;
    if actions != [] {
      StepRan(s, actions[0]);
      RunKeeps(Step(s, actions[0]).state, actions[1..]);
    }
  }

  lemma StepFacts(s: State, a: Action, r: Requester, n: nat)
    requires Inv(s) && Step(s, a).Ok? && n <= s.nextId && (r in s.requesters ==> s.requesters[r] >= n)
    ensures var s' := Step(s, a).state;
            && n <= s'.nextId && (r in s'.requesters ==> s'.requesters[r] >= n)
            && |s.ran| <= |s'.ran| <= |s.ran| + 1 && s.ran <= s'.ran
            && (|s'.ran| == |s.ran| + 1 && s'.ran[|s.ran|].requester == r ==> s'.ran[|s.ran|].id >= n)
  {
    hide Step, SlotsOk, KeysOk, IssuedOk, IdsOk, CountsOk, PlacesOk;
    StepIds(s, a);
    StepRan(s, a);
  }

  /** Asking for a name registers one callback, for that name and that requester. */
  lemma ResolveIssues(s: State, r: Requester, key: Key)
    requires s.pc.Idle? && Step(s, Resolve(r, key)).Ok?
    ensures var s' := Step(s, Resolve(r, key)).state;
            && |s'.issued| == |s.issued| + 1 && s.issued <= s'.issued && s'.ran == s.ran
            && var c := s'.issued[|s.issued|];
               c.cid == |s.issued| && c.requester == r && c.key == key && Live(s', c)
  {
    hide ResolveStep;
    ResolveShape(s, r, key);
  }

  /** A cancel takes exactly the callbacks of its requester out. */
  lemma CancelStops(s: State, r: Requester, c: Callback)
    ensures Step(s, Cancel(r)).Ok? && (Live(Step(s, Cancel(r)).state, c) <==> Live(s, c) && c.requester != r)
  {
  }

  /** After `cancel_safe` has returned, no callback that its requester had registered before is called,
      whatever happens next: those called later were registered later. */
  lemma NoCallAfterCancel(s: State, r: Requester, actions: seq<Action>, k: nat)
    requires Reachable(s) && Run(Step(s, Cancel(r)).state, actions).Ok?
    requires |s.ran| <= k < |Run(Step(s, Cancel(r)).state, actions).state.ran|
    ensures var c := Run(Step(s, Cancel(r)).state, actions).state.ran[k];
            c.requester == r ==> c !in s.issued
  {
    var s1 := Step(s, Cancel(r)).state;
    ReachableOk(s);
    StepOk(s, Cancel(r));
    assert forall i :: 0 <= i < |s.issued| ==> s.issued[i].id < s.nextId;
    hide Inv, Run;
    if Run(s1, actions).state.ran[k].requester == r {
      NoRunWithOldObject(s1, actions, r, s.nextId, k);
    }
  }

  // Names

  /** Callbacks that were asked for one name, in the order in which they were asked for. */
  ghost predicate Asked(cs: seq<Callback>, key: Key, n: nat) {
    && (forall i :: 0 <= i < |cs| ==> cs[i].key == key && cs[i].cid < n)
    && (forall i, j :: 0 <= i < j < |cs| ==> cs[i].cid < cs[j].cid)
  }

  /** Each query holds callbacks for its own name, and those waiting are in the order of the first. */
  ghost predicate QueriesNamed(slots: seq<Option<Query>>, pending: seq<Query>, n: nat) {
    && (forall i :: 0 <= i < |slots| && slots[i].Some? ==> Asked(slots[i].value.callbacks, slots[i].value.key, n))
    && (forall i :: 0 <= i < |pending| ==> pending[i].callbacks != [] && Asked(pending[i].callbacks, pending[i].key, n))
    && (forall i, j :: 0 <= i < j < |pending| ==> pending[i].callbacks[0].cid < pending[j].callbacks[0].cid)
  }

  ghost predicate HandNamed(pc: Pc, n: nat) {
    match pc
    case Idle => true
    case Running(key, rest) => Asked(rest, key, n)
    case Calling(key, c, rest) => Asked([c] + rest, key, n)
    case Activating(key, kept, rest) => Asked(kept + rest, key, n)
  }

  ghost predicate NamesOk(s: State) {
    QueriesNamed(s.slots, s.pending, |s.issued|) && HandNamed(s.pc, |s.issued|)
  }

  lemma AskedMore(cs: seq<Callback>, key: Key, c: Callback)
    requires Asked(cs, key, c.cid) && c.key == key
    ensures Asked(cs + [c], key, c.cid + 1)
  {
  }

  lemma AskedOne(key: Key, c: Callback)
    requires c.key == key
    ensures Asked([c], key, c.cid + 1)
  {
  }

  lemma AskedLater(cs: seq<Callback>, key: Key, n: nat)
    requires Asked(cs, key, n)
    ensures Asked(cs, key, n + 1)
  {
  }

  lemma AskedRest(cs: seq<Callback>, key: Key, n: nat)
    requires Asked(cs, key, n) && cs != []
    ensures Asked(cs[1..], key, n) && cs == [cs[0]] + cs[1..]
  {
  }

  lemma AskedSkip(kept: seq<Callback>, rest: seq<Callback>, key: Key, n: nat)
    requires Asked(kept + rest, key, n) && rest != []
    ensures Asked(kept + rest[1..], key, n) && kept + [rest[0]] + rest[1..] == kept + rest
  {
    var all, less := kept + rest, kept + rest[1..];
    assert forall i :: 0 <= i < |less| ==> less[i] == all[if i < |kept| then i else i + 1];
  }

  lemma PlacedNames(b: Queries, q: Query, n: nat)
    requires QueriesNamed(b.slots, b.pending, n) && Asked(q.callbacks, q.key, n) && Placed(b, q).Some?
    ensures QueriesNamed(Placed(b, q).value.slots, Placed(b, q).value.pending, n)
  {
    hide Asked;
  }

  lemma LaterNames(b: Queries, n: nat)
    requires QueriesNamed(b.slots, b.pending, n)
    ensures QueriesNamed(b.slots, b.pending, n + 1)
  {
    hide Asked;
    forall i | 0 <= i < |b.slots| && b.slots[i].Some?
      ensures Asked(b.slots[i].value.callbacks, b.slots[i].value.key, n + 1) {
      AskedLater(b.slots[i].value.callbacks, b.slots[i].value.key, n);
    }
    forall i | 0 <= i < |b.pending| ensures Asked(b.pending[i].callbacks, b.pending[i].key, n + 1) {
      AskedLater(b.pending[i].callbacks, b.pending[i].key, n);
    }
  }

  lemma SlotNames(b: Queries, i: nat, c: Callback)
    requires QueriesNamed(b.slots, b.pending, c.cid) && i < |b.slots| && Has(b.slots[i], c.key)
    ensures QueriesNamed(b.slots[i := Some(Query(c.key, b.slots[i].value.callbacks + [c]))], b.pending, c.cid + 1)
  {
    hide Asked;
    AskedMore(b.slots[i].value.callbacks, c.key, c);
    LaterNames(b, c.cid);
  }

  lemma PendingNames(b: Queries, j: nat, c: Callback)
    requires QueriesNamed(b.slots, b.pending, c.cid) && j < |b.pending| && b.pending[j].key == c.key
    ensures QueriesNamed(b.slots, b.pending[j := Query(c.key, b.pending[j].callbacks + [c])], c.cid + 1)
  {
    hide Asked;
    AskedMore(b.pending[j].callbacks, c.key, c);
    LaterNames(b, c.cid);
  }

  lemma LastNames(b: Queries, c: Callback)
    requires QueriesNamed(b.slots, b.pending, c.cid)
    ensures QueriesNamed(b.slots, b.pending + [Query(c.key, [c])], c.cid + 1)
  {
    forall k | 0 <= k < |b.pending| ensures b.pending[k].callbacks[0].cid < c.cid {
      assert Asked(b.pending[k].callbacks, b.pending[k].key, c.cid);
    }
    hide Asked;
    AskedOne(c.key, c);
    LaterNames(b, c.cid);
  }

  /** A new callback joins the query for its name. */
  lemma RegisteredNames(b: Queries, key: Key, c: Callback)
    requires QueriesNamed(b.slots, b.pending, c.cid) && c.key == key && Registered(b, key, c).Some?
    ensures QueriesNamed(Registered(b, key, c).value.slots, Registered(b, key, c).value.pending, c.cid + 1)
  {
    hide Asked, QueriesNamed, Placed;
    var i, j := FindSlot(b.slots, key), FindPending(b.pending, key);
    if b.count != 0 && i < |b.slots| {
      SlotNames(b, i, c);
    } else if b.count != 0 && j < |b.pending| {
      PendingNames(b, j, c);
    } else if b.count < MAX_REQUESTS {
      AskedOne(key, c);
      LaterNames(b, c.cid);
      PlacedNames(b, Query(key, [c]), c.cid + 1);
    } else {
      LastNames(b, c);
    }
  }

  lemma NextNames(s: State)
    requires NamesOk(s) && NextStep(s).Ok?
    ensures NamesOk(NextStep(s).state)
  {
    hide Asked, Placed, Live, Plus;
    match s.pc
    case Running(_, rest) =>
      if s.pending != [] { assert [] + s.pending[0].callbacks == s.pending[0].callbacks; }
    case Activating(key, kept, rest) =>
      if rest != [] {
        AskedSkip(kept, rest, key, |s.issued|);
      } else {
        assert kept + rest == kept;
        if kept != [] {
          PlacedNames(QueriesOf(s), Query(key, kept), |s.issued|);
        }
      }
    case _ =>
  }

  lemma LockNames(s: State)
    requires NamesOk(s) && s.pc.Running? && s.pc.rest != [] && LockStep(s).Ok?
    ensures NamesOk(LockStep(s).state)
  {
    hide Asked, Live, Plus, QueriesNamed;
    AskedRest(s.pc.rest, s.pc.key, |s.issued|);
  }

  lemma ResolveNames(s: State, r: Requester, key: Key)
    requires NamesOk(s) && s.pc.Idle? && ResolveStep(s, r, key).Ok?
    ensures NamesOk(ResolveStep(s, r, key).state)
  {
    hide QueriesNamed, Registered, GoesActive, Plus;
    RegisteredNames(QueriesOf(s), key, Moves(s, Resolve(r, key)).value);
  }

  lemma StepNames(s: State, a: Action)
    requires NamesOk(s) && Step(s, a).Ok?
    ensures NamesOk(Step(s, a).state)
  {
    hide Asked, ResolveStep, NextStep, LockStep, Live;
    match a
    case Resolve(r, key) => ResolveNames(s, r, key);
    case Next => NextNames(s);
    case Lock => LockNames(s);
    case Call => AskedRest([s.pc.callback] + s.pc.rest, s.pc.key, |s.issued|);
    case _ =>
  }

  lemma {:induction false} RunNames(s: State, actions: seq<Action>)
    requires NamesOk(s) && Run(s, actions).Ok?
    ensures NamesOk(Run(s, actions).state)
    decreases |actions|
  {
    hide NamesOk, Step;
    if actions != [] {
      StepNames(s, actions[0]);
      RunNames(Step(s, actions[0]).state, actions[1..]);
    }
  }

  lemma ReachableNames(s: State)
    requires Reachable(s)
    ensures NamesOk(s)
  {
    hide Run;
    var start, actions :| Initial(start) && Run(start, actions) == Ok(s);
    RunNames(start, actions);
  }

  /** In every reachable state a callback waits in a query for the name it was asked for, behind those
      asked for that name before; and the queries that wait are in the order in which they were asked for. */
  lemma EachWaitsForItsName(s: State)
    requires Reachable(s)
    ensures forall i :: 0 <= i < |s.slots| && s.slots[i].Some? ==>
              Asked(s.slots[i].value.callbacks, s.slots[i].value.key, |s.issued|)
    ensures forall i :: 0 <= i < |s.pending| ==>
              s.pending[i].callbacks != [] && Asked(s.pending[i].callbacks, s.pending[i].key, |s.issued|)
    ensures forall i, j :: 0 <= i < j < |s.pending| ==>
              s.pending[i].callbacks[0].cid < s.pending[j].callbacks[0].cid
  {
    hide Asked;
    ReachableNames(s);
  }

  /** A slot that is free again goes to the query that was asked for first of those waiting. */
  lemma ActivatedInOrder(s: State, a: Action)
    requires Reachable(s) && Step(s, a).Ok? && !s.pc.Activating? && Step(s, a).state.pc.Activating?
    ensures var t := Step(s, a).state;
            && t.pc.kept == [] && t.pc.rest != [] && Asked(t.pc.rest, t.pc.key, |s.issued|)
            && |t.pending| == |s.pending| - 1
            && forall j :: 0 <= j < |t.pending| ==>
                 t.pending[j] in s.pending && t.pending[j].callbacks != []
                 && t.pc.rest[0].cid < t.pending[j].callbacks[0].cid
  {
    hide Asked, ResolveStep, LockStep, MoveStep, Place, Live;
    ReachableNames(s);
    if a.Resolve? { ResolveShape(s, a.requester, a.key); }
    if a.Lock? { LockShape(s); }
  }

  /** During the answer for a name: what was called is for that name and in order, and so is what is left. */
  ghost predicate Answering(s: State, key: Key, from: nat) {
    && from <= |s.ran|
    && (forall k :: from <= k < |s.ran| ==> s.ran[k].key == key)
    && (forall k, l :: from <= k < l < |s.ran| ==> s.ran[k].cid < s.ran[l].cid)
    && var left := if s.pc.Running? then s.pc.rest else if s.pc.Calling? then [s.pc.callback] + s.pc.rest else [];
    && (left != [] ==> s.pc.key == key)
    && (forall k, c :: from <= k < |s.ran| && c in left ==> s.ran[k].cid < c.cid)
  }

  lemma CallAnswers(s: State, key: Key, from: nat)
    requires NamesOk(s) && Answering(s, key, from) && Step(s, Call).Ok?
    ensures Answering(Step(s, Call).state, key, from)
  {
    hide Live, QueriesNamed;
    var c, rest, n := s.pc.callback, s.pc.rest, |s.issued|;
    assert ([c] + rest)[0] == c && Asked([c] + rest, key, n);
    forall d | d in rest ensures c.cid < d.cid {
      var k :| 0 <= k < |rest| && rest[k] == d;
      assert ([c] + rest)[k + 1] == d;
    }
  }

  lemma LockAnswers(s: State, key: Key, from: nat)
    requires Answering(s, key, from) && Step(s, Lock).Ok?
    ensures Answering(Step(s, Lock).state, key, from)
  {
    hide Live, Plus;
    assert s.pc.rest == [s.pc.rest[0]] + s.pc.rest[1..];
  }

  lemma NextAnswers(s: State, key: Key, from: nat)
    requires Answering(s, key, from) && NextStep(s).Ok?
    ensures Answering(NextStep(s).state, key, from)
  {
    hide Live, Plus, Placed;
  }

  lemma StepAnswers(s: State, a: Action, key: Key, from: nat)
    requires NamesOk(s) && Answering(s, key, from) && Step(s, a).Ok? && !a.Process?
    ensures Answering(Step(s, a).state, key, from)
  {
    hide NamesOk, ResolveStep, NextStep, LockStep, Live;
    match a
    case Call => CallAnswers(s, key, from);
    case Lock => LockAnswers(s, key, from);
    case Next => NextAnswers(s, key, from);
    case Resolve(r, k) => ResolveShape(s, r, k);
    case _ =>
  }

  lemma {:induction false} RunAnswers(s: State, actions: seq<Action>, key: Key, from: nat)
    requires NamesOk(s) && Answering(s, key, from) && Run(s, actions).Ok? && forall a :: a in actions ==> !a.Process?
    ensures Answering(Run(s, actions).state, key, from)
    decreases |actions|
  {
    hide NamesOk, Step, Answering;
    if actions != [] {
      StepNames(s, actions[0]);
      StepAnswers(s, actions[0], key, from);
      RunAnswers(Step(s, actions[0]).state, actions[1..], key, from);
    }
  }

  /** An answer for slot i goes to callbacks that were asked for the name of that slot, and to no others, in
      the order in which they were asked for, whatever else happens before the next answer. */
  lemma CalledForItsName(s: State, i: nat, actions: seq<Action>)
    requires Reachable(s) && Step(s, Process(i)).Ok? && Run(s, [Process(i)] + actions).Ok?
    requires forall a :: a in actions ==> !a.Process?
    ensures var ran := Run(s, [Process(i)] + actions).state.ran;
            && s.ran <= ran && (forall k :: |s.ran| <= k < |ran| ==> ran[k].key == s.slots[i].value.key)
            && forall k, l :: |s.ran| <= k < l < |ran| ==> ran[k].cid < ran[l].cid
  {
    var u := Step(s, Process(i)).state;
    assert Answering(u, s.slots[i].value.key, |s.ran|);
    hide Run, NamesOk, Step;
    ReachableNames(s);
    StepNames(s, Process(i));
    RunCons(s, Process(i), actions);
    RunAnswers(u, actions, s.slots[i].value.key, |s.ran|);
    StepRan(s, Process(i));
    RunKeeps(u, actions);
  }

  // Progress

  /** What is still to be done for the queries in the slots, for those waiting, and in hand. */
  function SlotsWork(slots: seq<Option<Query>>): nat {
    if slots == [] then 0
    else (if slots[0].None? then 0 else 2 + 2 * |slots[0].value.callbacks|) + SlotsWork(slots[1..])
  }

  function PendingWork(pending: seq<Query>): nat {
    if pending == [] then 0 else 3 + 3 * |pending[0].callbacks| + PendingWork(pending[1..])
  }

  function HandWork(pc: Pc): nat {
    match pc
    case Idle => 0
    case Running(_, rest) => 1 + 2 * |rest|
    case Calling(_, _, rest) => 2 + 2 * |rest|
    case Activating(_, kept, rest) => 3 + 2 * |kept| + 3 * |rest|
  }

  function Work(s: State): nat { SlotsWork(s.slots) + PendingWork(s.pending) + HandWork(s.pc) }

  lemma {:induction false} WorkOfSlot(slots: seq<Option<Query>>, i: nat, q: Option<Query>)
    requires i < |slots|
    ensures SlotsWork(slots[i := q]) == SlotsWork(slots) - SlotsWork([slots[i]]) + SlotsWork([q])
  {
    if i == 0 {
      assert slots[0 := q][1..] == slots[1..];
    } else {
      assert slots[i := q][1..] == slots[1..][i - 1 := q];
      WorkOfSlot(slots[1..], i - 1, q);
    }
  }

  lemma PlacedWork(b: Queries, q: Query)
    requires Placed(b, q).Some?
    ensures SlotsWork(Placed(b, q).value.slots) == SlotsWork(b.slots) + 2 + 2 * |q.callbacks|
  {
    WorkOfSlot(b.slots, FreeSlot(b.slots), Some(q));
    assert b.slots[FreeSlot(b.slots)].None?;
  }

  lemma NextWorks(s: State)
    requires NextStep(s).Ok?
    ensures Work(NextStep(s).state) < Work(s)
  {
    hide SlotsWork, Placed, Live, Plus;
    if s.pc.Activating? && s.pc.rest == [] && s.pc.kept != [] {
      PlacedWork(QueriesOf(s), Query(s.pc.key, s.pc.kept));
      PlacedKeeps(QueriesOf(s), Query(s.pc.key, s.pc.kept));
    }
  }

  /** Every step takes work away, except a query that is asked for, and a cancel, which changes none. */
  lemma StepWorks(s: State, a: Action)
    requires Step(s, a).Ok? && !a.Resolve?
    ensures if a.Cancel? then Work(Step(s, a).state) == Work(s) else Work(Step(s, a).state) < Work(s)
  {
    hide NextStep, Live, Plus;
    match a
    case Next => NextWorks(s);
    case Process(i) => WorkOfSlot(s.slots, i, None);
    case _ =>
  }

  predicate Settled(s: State) { s.pc.Idle? && s.count == 0 }

  /** An answer of the resolver, if the net thread is idle, and otherwise what it does next. */
  function NextAction(s: State): Action {
    match s.pc
    case Idle => Process(TakenSlot(s.slots))
    case Running(_, rest) => if rest == [] then Next else Lock
    case Calling(_, _, _) => Call
    case Activating(_, _, _) => Next
  }

  function TakenSlot(slots: seq<Option<Query>>): (i: nat)
    ensures i <= |slots| && (i < |slots| ==> slots[i].Some?) && (i == |slots| ==> Occupied(slots) == 0)
  {
    if slots == [] then 0 else if slots[0].Some? then 0 else 1 + TakenSlot(slots[1..])
  }

  /** No state is stuck: unless no query is left, one can be answered or the net thread has a step. */
  lemma Progress(s: State)
    requires Inv(s) && !Settled(s)
    ensures var a := NextAction(s); !a.Resolve? && !a.Cancel? && Step(s, a).Ok?
  {
    hide KeysOk, IssuedOk, IdsOk, CountsOk, PlacesOk, Occupied;
    StepNoFault(s, NextAction(s));
  }

  /** How many steps of a run are not cancels. */
  function Steps(actions: seq<Action>): nat {
    if actions == [] then 0 else One(!actions[0].Cancel?) + Steps(actions[1..])
  }

  /** Once no more queries are asked for, the steps of any run that are not cancels are bounded. */
  lemma {:induction false} RunEnds(s: State, actions: seq<Action>)
    requires Run(s, actions).Ok? && forall a :: a in actions ==> !a.Resolve?
    ensures Steps(actions) + Work(Run(s, actions).state) <= Work(s)
    decreases |actions|
  {
    hide Step, Work;
    if actions != [] {
      StepWorks(s, actions[0]);
      RunEnds(Step(s, actions[0]).state, actions[1..]);
    }
  }

  lemma {:induction false} NoSlotsWork(slots: seq<Option<Query>>)
    requires SlotsWork(slots) == 0
    ensures Occupied(slots) == 0
  {
    if slots != [] { NoSlotsWork(slots[1..]); }
  }

  lemma NoWork(s: State)
    requires Inv(s) && Work(s) == 0
    ensures Settled(s)
  {
    hide KeysOk, IssuedOk, IdsOk, CountsOk, PlacesOk, Occupied;
    NoSlotsWork(s.slots);
  }

  /** With no query left, a callback not cancelled was called. */
  lemma SettledIsCalled(s: State, cid: nat)
    requires Inv(s) && Settled(s) && cid < |s.issued| && Live(s, s.issued[cid])
    ensures Tally(s.ran, OfCid(cid)) == 1
  {
    hide KeysOk, IssuedOk, IdsOk, CountsOk, Occupied, Live;
    OccupiedBounds(s.slots);
    NoneOccupied(s.slots, OfCid(cid));
    assert s.pending == [];
  }

  /** Whatever order the resolver answers in and whatever is cancelled meanwhile: once no more queries are
      asked for and all the steps that are left are taken, every callback whose requester has not
      cancelled was called, once. */
  lemma EveryCallbackIsCalled(s: State, actions: seq<Action>, cid: nat)
    requires Reachable(s) && Run(s, actions).Ok? && forall a :: a in actions ==> !a.Resolve?
    requires Steps(actions) >= Work(s) || Settled(Run(s, actions).state)
    ensures var s' := Run(s, actions).state;
            Settled(s') && (cid < |s'.issued| && Live(s', s'.issued[cid]) ==> Tally(s'.ran, OfCid(cid)) == 1)
  {
    hide Inv, Run, Work, Settled;
    ReachableOk(s);
    RunOk(s, actions);
    RunEnds(s, actions);
    var s' := Run(s, actions).state;
    if Work(s') == 0 { NoWork(s'); }
    if cid < |s'.issued| && Live(s', s'.issued[cid]) { SettledIsCalled(s', cid); }
  }

  lemma RunCons(s: State, a: Action, rest: seq<Action>)
    requires Step(s, a).Ok?
    ensures Run(s, [a] + rest) == Run(Step(s, a).state, rest) && Steps([a] + rest) == One(!a.Cancel?) + Steps(rest)
  {
    hide Step;
    assert ([a] + rest)[1..] == rest;
  }

  /** The answers of the resolver and the steps of the net thread alone lead to a state with no query
      left. */
  lemma {:induction false} Settle(s: State) returns (actions: seq<Action>)
    requires Inv(s)
    ensures |actions| <= Work(s) && forall a :: a in actions ==> !a.Resolve? && !a.Cancel?
    ensures Run(s, actions).Ok? && Settled(Run(s, actions).state)
    decreases Work(s)
  {
    hide Inv, Step, Work, NextAction, Settled;
    if Settled(s) { return []; }
    var a := NextAction(s);
    Progress(s);
    StepOk(s, a);
    StepWorks(s, a);
    var rest := Settle(Step(s, a).state);
    RunCons(s, a, rest);
    actions := [a] + rest;
  }
}
