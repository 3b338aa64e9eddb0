/** Hash checking by two threads, as interleaved steps.

    The main thread pushes chunks, removes them and runs `work`; the disk thread runs `perform` and
    `chunk_done`. A step is one critical section, or one access to the atomic flag, or one posted
    callback, so any interleaving of the two threads is a sequence of steps. Critical sections of
    the main thread touch nothing the disk thread can see without the lock, so each is one step;
    `chunk_done` sets the flag, which is read without the lock, so its parts are steps of their own. */
module HashQueue {
  import opened Collections

  type Chunk = nat
  type Owner = nat
  type Hash = nat

  datatype Node = Node(owner: Owner, chunk: Chunk)

  datatype MainPc =
    | Ready                                 // in the event loop or, during `work`, in a done slot
    | Pushed(chunk: Chunk)                  // node queued, chunk not yet on the check queue
    | Posting                               // about to post a `perform` callback
    | Removing(owner: Owner)                // in `remove`, between nodes
    | Trying(owner: Owner, chunk: Chunk)    // about to look for the chunk on the check queue
    | Looking(owner: Owner, chunk: Chunk)   // about to look for it among the done chunks
    | Checking(owner: Owner, chunk: Chunk)  // about to wait on the flag
    | Blocked(owner: Owner, chunk: Chunk)   // waiting on the flag
    | Popping                               // in `work`, about to take a done chunk

  datatype DiskPc =
    | Idle
    | Next                                  // in `perform`, about to take a chunk
    | Hashing(chunk: Chunk)
    | Locked(chunk: Chunk, hash: Hash)      // in `chunk_done`, holding the lock
    | Stored(chunk: Chunk)                  // done chunk stored, flag not yet set
    | Flagged(chunk: Chunk)                 // flag set by this thread, callback not yet posted
    | Notifying(chunk: Chunk)               // callback posted, waiters not yet notified

  datatype State = State(
    nodes: seq<Node>,                       // HashQueue, main thread only
    checks: seq<Chunk>,                     // HashCheckQueue
    done: map<Chunk, Hash>,                 // m_done_chunks
    flag: bool,                             // m_has_done_chunks
    main: MainPc, working: bool,            // working: a call of `work` is on the main thread's stack
    disk: DiskPc,
    mainCalls: nat, diskCalls: nat,         // posted `work` and `perform` callbacks
    pushed: set<Chunk>,                     // every chunk ever pushed
    hashes: map<Chunk, Hash>,               // what the disk thread computed
    answers: map<Chunk, Option<Hash>>)      // done-slot calls: a hash, or NULL

  datatype Action =
    | Push(owner: Owner, chunk: Chunk) | Enqueue | Post
    | Remove(owner: Owner) | RemoveNext | TryRemove | Look | Check
    | Work | Pop(chunk: Chunk) | Return
    | Perform | Take | Lock(hash: Hash) | Store | Flag | Call | Notify

  /** Disabled: the thread cannot take this step now. Fault: an internal error, or a second call of
      one chunk's done slot. */
  datatype Result = Disabled | Fault | Ok(state: State)

  predicate Initial(s: State) {
    && s.nodes == [] && s.checks == [] && s.done == map[] && !s.flag && s.main.Ready? && !s.working && s.disk.Idle?
    && s.mainCalls == 0 && s.diskCalls == 0 && s.pushed == {} && s.hashes == map[] && s.answers == map[]
  }

  /** The lock on the done chunks is held by the disk thread. */
  predicate DiskHolds(d: DiskPc) { d.Locked? || d.Stored? || d.Flagged? || d.Notifying? }

  function IndexOf(nodes: seq<Node>, c: Chunk): (i: nat)
    ensures i <= |nodes|
    ensures i < |nodes| ==> nodes[i].chunk == c
    ensures i == |nodes| ==> forall j :: 0 <= j < |nodes| ==> nodes[j].chunk != c
  {
    if nodes == [] then 0 else if nodes[0].chunk == c then 0 else 1 + IndexOf(nodes[1..], c)
  }

  function FirstOf(nodes: seq<Node>, o: Owner): (r: Option<Chunk>)
    ensures r.Some? ==> Node(o, r.value) in nodes
    ensures r.None? ==> forall n :: n in nodes ==> n.owner != o
  {
    if nodes == [] then None else if nodes[0].owner == o then Some(nodes[0].chunk) else FirstOf(nodes[1..], o)
  }

  /** The check queue with the first occurrence of a chunk erased. */
  function Dequeued(s: seq<Chunk>, x: Chunk): (r: seq<Chunk>)
    ensures forall y :: y != x ==> (y in r <==> y in s)
    ensures Distinct(s) ==> Distinct(r) && x !in r
    ensures s == [] ==> r == []
  {
    if s == [] then [] else if s[0] == x then s[1..]
    else
      var r := Dequeued(s[1..], x);
      assert Distinct(s) ==> s[0] !in s[1..] && s[0] !in r;
      [s[0]] + r
  }

  /** The node of chunk c is erased and its done slot called. */
  function Answer(s: State, c: Chunk, a: Option<Hash>, pc: MainPc): Result {
    var i := IndexOf(s.nodes, c);
    if i == |s.nodes| || c in s.answers then Fault
    else Ok(s.(nodes := s.nodes[..i] + s.nodes[i + 1..], answers := s.answers[c := a], main := pc))
  }

  /** A step of the disk thread. */
  predicate OfDisk(a: Action) {
    a.Perform? || a.Take? || a.Lock? || a.Store? || a.Flag? || a.Call? || a.Notify?
  }

  function MainStep(s: State, a: Action): Result
    requires !OfDisk(a)
  {
    match a
    // HashQueue::push_back and HashCheckQueue::push_back
    case Push(o, c) =>
      if !s.main.Ready? || c in s.pushed then Disabled
      else Ok(s.(nodes := s.nodes + [Node(o, c)], pushed := s.pushed + {c}, main := Pushed(c)))
    case Enqueue =>
      if !s.main.Pushed? then Disabled
      else Ok(s.(checks := s.checks + [s.main.chunk], main := if s.checks == [] then Posting else Ready))
    case Post =>
      if !s.main.Posting? then Disabled else Ok(s.(diskCalls := s.diskCalls + 1, main := Ready))
    // HashQueue::remove and HashCheckQueue::remove
    case Remove(o) => if !s.main.Ready? then Disabled else Ok(s.(main := Removing(o)))
    case RemoveNext =>
      if !s.main.Removing? then Disabled
      else
        var c := FirstOf(s.nodes, s.main.owner);
        Ok(s.(main := if c.None? then Ready else Trying(s.main.owner, c.value)))
    case TryRemove =>
      if !s.main.Trying? then Disabled
      else if s.main.chunk in s.checks then
        Answer(s.(checks := Dequeued(s.checks, s.main.chunk)), s.main.chunk, None, Removing(s.main.owner))
      else Ok(s.(main := Looking(s.main.owner, s.main.chunk)))
    case Look =>
      if !s.main.Looking? || DiskHolds(s.disk) then Disabled
      else if s.main.chunk in s.done then
        Answer(s.(done := s.done - {s.main.chunk}), s.main.chunk, None, Removing(s.main.owner))
      else Ok(s.(main := Checking(s.main.owner, s.main.chunk)))
    case Check =>
      if !s.main.Checking? then Disabled
      else Ok(s.(main := if s.flag then Looking(s.main.owner, s.main.chunk) else Blocked(s.main.owner, s.main.chunk)))
    // HashQueue::work
    case Work =>
      if !s.main.Ready? || s.working || s.mainCalls == 0 then Disabled
      else Ok(s.(mainCalls := s.mainCalls - 1, working := true, main := Popping))
    case Pop(c) =>
      if !s.main.Popping? || DiskHolds(s.disk) then Disabled
      else if s.done == map[] then Ok(s.(flag := false, working := false, main := Ready))
      else if c !in s.done then Disabled
      else Answer(s.(done := s.done - {c}), c, Some(s.done[c]), Ready)
    case Return => if !s.main.Ready? || !s.working then Disabled else Ok(s.(main := Popping))
  }

  function DiskStep(s: State, a: Action): Result
    requires OfDisk(a)
  {
    match a
    // HashCheckQueue::perform
    case Perform =>
      if !s.disk.Idle? || s.diskCalls == 0 then Disabled else Ok(s.(diskCalls := s.diskCalls - 1, disk := Next))
    case Take =>
      if !s.disk.Next? then Disabled
      else if s.checks == [] then Ok(s.(disk := Idle))
      else Ok(s.(checks := s.checks[1..], disk := Hashing(s.checks[0])))
    // HashQueue::chunk_done
    case Lock(h) =>
      if !s.disk.Hashing? then Disabled
      else Ok(s.(hashes := s.hashes[s.disk.chunk := h], disk := Locked(s.disk.chunk, h)))
    case Store =>
      if !s.disk.Locked? then Disabled
      else Ok(s.(done := s.done[s.disk.chunk := s.disk.hash], disk := Stored(s.disk.chunk)))
    case Flag =>
      if !s.disk.Stored? then Disabled
      else if s.flag then Ok(s.(disk := Next))
      else Ok(s.(flag := true, disk := Flagged(s.disk.chunk)))
    case Call =>
      if !s.disk.Flagged? then Disabled else Ok(s.(mainCalls := s.mainCalls + 1, disk := Notifying(s.disk.chunk)))
    case Notify =>
      if !s.disk.Notifying? then Disabled
      else Ok(s.(disk := Next, main := if s.main.Blocked? then Checking(s.main.owner, s.main.chunk) else s.main))
  }

  function Step(s: State, a: Action): Result { if OfDisk(a) then DiskStep(s, a) else MainStep(s, a) }

  function Run(s: State, actions: seq<Action>): Result
    decreases |actions|
  {
    if actions == [] then Ok(s)
    else match Step(s, actions[0])
         case Ok(s') => Run(s', actions[1..])
         case r => r
  }

  function Chunks(nodes: seq<Node>): set<Chunk> { set n | n in nodes :: n.chunk }

  /** In how many places a chunk is: on its way to the check queue, on it, being hashed, done, answered. */
  function Places(s: State, c: Chunk): nat {
    One(s.main == Pushed(c)) + One(c in s.checks) + One(InFlight(s.disk, c)) + One(c in s.done) + One(c in s.answers)
  }

  predicate InFlight(d: DiskPc, c: Chunk) { (d.Hashing? || d.Locked?) && d.chunk == c }

  /** The disk thread is working on the chunk, up to and including the wake-up of waiters. */
  predicate Handling(d: DiskPc, c: Chunk) { !d.Idle? && !d.Next? && d.chunk == c }

  predicate Waits(pc: MainPc) { pc.Looking? || pc.Checking? || pc.Blocked? }

  /** Each pushed chunk is in exactly one place. */
  ghost predicate PlacesOk(s: State) {
    && Distinct(s.checks)
    && forall c :: Places(s, c) == One(c in s.pushed)
  }

  /** The queue holds exactly one node for each chunk whose done slot was not called yet. */
  ghost predicate NodesOk(s: State) {
    && (forall i, j :: 0 <= i < j < |s.nodes| ==> s.nodes[i].chunk != s.nodes[j].chunk)
    && (forall c :: c in Chunks(s.nodes) <==> c in s.pushed && c !in s.answers)
  }

  /** While the flag is set exactly one `work` is owed, and without it nothing is done unseen. */
  ghost predicate FlagOk(s: State) {
    && One(s.flag) == s.mainCalls + One(s.working) + One(s.disk.Flagged?)
    && (forall c :: c in s.done ==> s.flag || s.disk == Stored(c))
    && ((s.disk.Stored? || s.disk.Flagged? || s.disk.Notifying?) ==> s.disk.chunk in s.done)
    && ((s.disk.Flagged? || s.disk.Notifying?) ==> s.flag)
    && (s.main.Popping? ==> s.working)
  }

  /** Chunks to be checked are never forgotten by the disk thread. */
  ghost predicate ChecksOk(s: State) {
    s.checks != [] ==> s.diskCalls > 0 || !s.disk.Idle? || s.main.Posting?
  }

  /** In `remove`: the node is still there; past the check queue, its chunk is hashed or done; and
      the thread sleeps only while the disk thread is at work on that very chunk. */
  ghost predicate RemoveOk(s: State) {
    && ((s.main.Trying? || Waits(s.main)) ==> Node(s.main.owner, s.main.chunk) in s.nodes)
    && (Waits(s.main) ==> s.main.chunk !in s.checks)
    && (s.main.Blocked? ==> Handling(s.disk, s.main.chunk) && (s.flag ==> s.disk.Flagged? || s.disk.Notifying?))
  }

  ghost predicate DoneHashesOk(s: State) {
    && (s.disk.Locked? ==> s.disk.chunk in s.hashes && s.hashes[s.disk.chunk] == s.disk.hash)
    && (forall c :: c in s.done ==> c in s.hashes && s.hashes[c] == s.done[c])
  }

  /** A done slot is given NULL or the hash that the disk thread computed. */
  ghost predicate AnswerHashesOk(s: State) {
    forall c :: c in s.answers && s.answers[c].Some? ==> c in s.hashes && s.hashes[c] == s.answers[c].value
  }

  ghost predicate Inv(s: State) {
    PlacesOk(s) && NodesOk(s) && FlagOk(s) && ChecksOk(s) && RemoveOk(s) && DoneHashesOk(s) && AnswerHashesOk(s)
  }

  lemma TakePlaces(s: State, c: Chunk)
    requires PlacesOk(s) && s.disk.Next? && s.checks != []
    ensures Places(DiskStep(s, Take).state, c) == One(c in s.pushed)
  {
    assert Places(s, c) == One(c in s.pushed);
    assert c in s.checks <==> c == s.checks[0] || c in s.checks[1..];
  }

  lemma AnswerPlaces(s: State, x: Chunk, a: Option<Hash>, pc: MainPc, c: Chunk)
    requires Answer(s, x, a, pc).Ok? && !s.main.Pushed? && !pc.Pushed?
    ensures var r := Answer(s, x, a, pc).state;
            && r.pushed == s.pushed && r.checks == s.checks && r.disk == s.disk
            && Places(r, c) == Places(s, c) + One(c == x)
  {
  }

  lemma TryRemovePlaces(s: State, c: Chunk)
    requires PlacesOk(s) && MainStep(s, TryRemove).Ok?
    ensures Places(MainStep(s, TryRemove).state, c) == One(c in MainStep(s, TryRemove).state.pushed)
  {
    assert Places(s, c) == One(c in s.pushed) && Distinct(s.checks);
    hide PlacesOk, Answer, Distinct, InFlight;
    var x := s.main.chunk;
    if x in s.checks { AnswerPlaces(s.(checks := Dequeued(s.checks, x)), x, None, Removing(s.main.owner), c); }
  }

  lemma LookPlaces(s: State, c: Chunk)
    requires PlacesOk(s) && MainStep(s, Look).Ok?
    ensures Places(MainStep(s, Look).state, c) == One(c in MainStep(s, Look).state.pushed)
  {
    assert Places(s, c) == One(c in s.pushed);
    hide PlacesOk, Answer, InFlight;
    var x := s.main.chunk;
    if x in s.done { AnswerPlaces(s.(done := s.done - {x}), x, None, Removing(s.main.owner), c); }
  }

  lemma PopPlaces(s: State, x: Chunk, c: Chunk)
    requires PlacesOk(s) && MainStep(s, Pop(x)).Ok?
    ensures Places(MainStep(s, Pop(x)).state, c) == One(c in MainStep(s, Pop(x)).state.pushed)
  {
    assert Places(s, c) == One(c in s.pushed);
    hide PlacesOk, Answer, InFlight;
    if x in s.done { AnswerPlaces(s.(done := s.done - {x}), x, Some(s.done[x]), Ready, c); }
  }

  lemma MainPlaceOf(s: State, a: Action, c: Chunk)
    requires !OfDisk(a) && PlacesOk(s) && MainStep(s, a).Ok?
    ensures Places(MainStep(s, a).state, c) == One(c in MainStep(s, a).state.pushed)
  {
    if a.TryRemove? {
      TryRemovePlaces(s, c);
    } else if a.Look? {
      LookPlaces(s, c);
    } else if a.Pop? {
      PopPlaces(s, a.chunk, c);
    } else {
      assert Places(s, c) == One(c in s.pushed);
      hide PlacesOk, Answer, Dequeued, FirstOf;
    }
  }

  lemma MainPlaces(s: State, a: Action)
    requires !OfDisk(a) && PlacesOk(s) && MainStep(s, a).Ok?
    ensures PlacesOk(MainStep(s, a).state)
  {
    forall c ensures Places(MainStep(s, a).state, c) == One(c in MainStep(s, a).state.pushed) {
      MainPlaceOf(s, a, c);
    }
    if s.main.Pushed? { assert Places(s, s.main.chunk) <= 1; }
    hide Places, IndexOf, FirstOf;
  }

  lemma DiskPlaces(s: State, a: Action)
    requires OfDisk(a) && PlacesOk(s) && DiskStep(s, a).Ok?
    ensures PlacesOk(DiskStep(s, a).state)
  {
    forall c ensures Places(DiskStep(s, a).state, c) == One(c in DiskStep(s, a).state.pushed) {
      if a.Take? && s.checks != [] {
        TakePlaces(s, c);
      } else {
        assert Places(s, c) == One(c in s.pushed);
      }
    }
  }

  /** Erasing one of the nodes takes exactly its chunk away. */
  lemma ErasedNode(nodes: seq<Node>, i: nat)
    requires i < |nodes| && forall i, j :: 0 <= i < j < |nodes| ==> nodes[i].chunk != nodes[j].chunk
    ensures Chunks(nodes[..i] + nodes[i + 1..]) == Chunks(nodes) - {nodes[i].chunk}
  {
    var rest := nodes[..i] + nodes[i + 1..];
    forall n | n in rest ensures n in nodes && n.chunk != nodes[i].chunk {
      var j :| 0 <= j < |rest| && rest[j] == n;
      assert n == nodes[if j < i then j else j + 1];
    }
    forall n | n in nodes && n.chunk != nodes[i].chunk ensures n in rest {
      var j :| 0 <= j < |nodes| && nodes[j] == n;
      assert n == rest[if j < i then j else j - 1];
    }
  }

  lemma AnswerNodes(s: State, c: Chunk, a: Option<Hash>, pc: MainPc)
    requires NodesOk(s) && Answer(s, c, a, pc).Ok?
    ensures NodesOk(Answer(s, c, a, pc).state)
  {
    ErasedNode(s.nodes, IndexOf(s.nodes, c));
  }

  lemma PushNodes(s: State, n: Node)
    requires NodesOk(s) && n.chunk !in s.pushed && n.chunk !in s.answers
    ensures NodesOk(s.(nodes := s.nodes + [n], pushed := s.pushed + {n.chunk}))
  {
    assert Chunks(s.nodes + [n]) == Chunks(s.nodes) + {n.chunk};
    assert forall i :: 0 <= i < |s.nodes| ==> s.nodes[i].chunk in Chunks(s.nodes);
  }

  /** The nodes are those of another state with the same nodes, pushed chunks and answers. */
  lemma SameNodes(s: State, r: State)
    requires NodesOk(s) && r.nodes == s.nodes && r.pushed == s.pushed && r.answers == s.answers
    ensures NodesOk(r)
  {
  }

  lemma MainNodes(s: State, a: Action)
    requires !OfDisk(a) && PlacesOk(s) && NodesOk(s) && MainStep(s, a).Ok?
    ensures NodesOk(MainStep(s, a).state)
  {
    if a.Push? { assert Places(s, a.chunk) == 0; }
    hide NodesOk, Answer, PlacesOk, Dequeued, FirstOf;
    var c := if a.Pop? then a.chunk else if s.main.Trying? || s.main.Looking? then s.main.chunk else 0;
    var t := s.(checks := Dequeued(s.checks, c));
    var d := s.(done := s.done - {c});
    SameNodes(s, t);
    SameNodes(s, d);
    var r := MainStep(s, a).state;
    if a.Push? {
      PushNodes(s, Node(a.owner, a.chunk));
      SameNodes(s.(nodes := s.nodes + [Node(a.owner, a.chunk)], pushed := s.pushed + {a.chunk}), r);
    } else if a.TryRemove? && c in s.checks {
      AnswerNodes(t, c, None, Removing(s.main.owner));
    } else if a.Look? && c in s.done {
      AnswerNodes(d, c, None, Removing(s.main.owner));
    } else if a.Pop? && c in s.done {
      AnswerNodes(d, c, Some(s.done[c]), Ready);
    } else {
      SameNodes(s, r);
    }
  }

  lemma DiskNodes(s: State, a: Action)
    requires OfDisk(a) && NodesOk(s) && DiskStep(s, a).Ok?
    ensures NodesOk(DiskStep(s, a).state)
  {
    hide NodesOk;
    SameNodes(s, DiskStep(s, a).state);
  }

  lemma MainFlag(s: State, a: Action)
    requires !OfDisk(a) && FlagOk(s) && MainStep(s, a).Ok?
    ensures FlagOk(MainStep(s, a).state)
  {
    hide IndexOf, FirstOf, Dequeued, Distinct;
  }

  lemma DiskFlag(s: State, a: Action)
    requires OfDisk(a) && FlagOk(s) && DiskStep(s, a).Ok?
    ensures FlagOk(DiskStep(s, a).state)
  {
  }

  lemma MainChecks(s: State, a: Action)
    requires !OfDisk(a) && ChecksOk(s) && MainStep(s, a).Ok?
    ensures ChecksOk(MainStep(s, a).state)
  {
    hide IndexOf, FirstOf, Dequeued;
  }

  lemma DiskChecks(s: State, a: Action)
    requires OfDisk(a) && ChecksOk(s) && DiskStep(s, a).Ok?
    ensures ChecksOk(DiskStep(s, a).state)
  {
  }

  /** A chunk that `remove` waits for is being hashed or done. */
  lemma WaitedFor(s: State)
    requires PlacesOk(s) && NodesOk(s) && RemoveOk(s) && Waits(s.main)
    ensures InFlight(s.disk, s.main.chunk) || s.main.chunk in s.done
  {
    hide Distinct, IndexOf;
    assert s.main.chunk in Chunks(s.nodes);
    assert Places(s, s.main.chunk) == 1;
  }

  lemma MainRemove(s: State, a: Action)
    requires !OfDisk(a) && FlagOk(s) && RemoveOk(s) && MainStep(s, a).Ok?
    requires Waits(s.main) ==> InFlight(s.disk, s.main.chunk) || s.main.chunk in s.done
    ensures RemoveOk(MainStep(s, a).state)
  {
    hide IndexOf, Dequeued;
  }

  lemma DiskRemove(s: State, a: Action)
    requires OfDisk(a) && FlagOk(s) && RemoveOk(s) && DiskStep(s, a).Ok?
    ensures RemoveOk(DiskStep(s, a).state)
  {
  }

  lemma NotYetStored(s: State)
    requires PlacesOk(s) && s.disk.Hashing?
    ensures s.disk.chunk !in s.done && s.disk.chunk !in s.answers
  {
    assert Places(s, s.disk.chunk) <= 1;
  }

  lemma MainDoneHashes(s: State, a: Action)
    requires !OfDisk(a) && DoneHashesOk(s) && MainStep(s, a).Ok?
    ensures DoneHashesOk(MainStep(s, a).state)
  {
    hide IndexOf, FirstOf, Dequeued;
  }

  lemma MainAnswerHashes(s: State, a: Action)
    requires !OfDisk(a) && DoneHashesOk(s) && AnswerHashesOk(s) && MainStep(s, a).Ok?
    ensures AnswerHashesOk(MainStep(s, a).state)
  {
    hide IndexOf, FirstOf, Dequeued;
  }

  lemma DiskDoneHashes(s: State, a: Action)
    requires OfDisk(a) && DoneHashesOk(s) && DiskStep(s, a).Ok?
    requires s.disk.Hashing? ==> s.disk.chunk !in s.done
    ensures DoneHashesOk(DiskStep(s, a).state)
  {
  }

  lemma DiskAnswerHashes(s: State, a: Action)
    requires OfDisk(a) && AnswerHashesOk(s) && DiskStep(s, a).Ok?
    requires s.disk.Hashing? ==> s.disk.chunk !in s.answers
    ensures AnswerHashesOk(DiskStep(s, a).state)
  {
  }

  /** A chunk on the check queue or done has its node, and was not answered. */
  lemma NodeFound(s: State, t: State, c: Chunk, a: Option<Hash>, pc: MainPc)
    requires Inv(s) && (c in s.checks || c in s.done) && t.nodes == s.nodes && t.answers == s.answers
    ensures Answer(t, c, a, pc).Ok?
  {
    hide FlagOk, ChecksOk, RemoveOk, DoneHashesOk, AnswerHashesOk, Distinct;
    assert Places(s, c) <= 1;
    assert c in Chunks(s.nodes);
  }

  /** No step faults: `work` and `remove` always find their node, and no done slot is called twice. */
  lemma StepNoFault(s: State, a: Action)
    requires Inv(s)
    ensures !Step(s, a).Fault?
  {
    hide Inv, Answer, Dequeued;
    if a.TryRemove? && s.main.Trying? && s.main.chunk in s.checks {
      NodeFound(s, s.(checks := Dequeued(s.checks, s.main.chunk)), s.main.chunk, None, Removing(s.main.owner));
    } else if a.Look? && s.main.Looking? && s.main.chunk in s.done {
      NodeFound(s, s.(done := s.done - {s.main.chunk}), s.main.chunk, None, Removing(s.main.owner));
    } else if a.Pop? && a.chunk in s.done {
      NodeFound(s, s.(done := s.done - {a.chunk}), a.chunk, Some(s.done[a.chunk]), Ready);
    }
  }

  lemma StepOk(s: State, a: Action)
    requires Inv(s)
    ensures !Step(s, a).Fault? && (Step(s, a).Ok? ==> Inv(Step(s, a).state))
  {
    hide PlacesOk, NodesOk, FlagOk, ChecksOk, RemoveOk, DoneHashesOk, AnswerHashesOk, MainStep, DiskStep;
    StepNoFault(s, a);
    if !Step(s, a).Ok? { return; }
    if Waits(s.main) { WaitedFor(s); }
    if OfDisk(a) {
      if s.disk.Hashing? { NotYetStored(s); }
      DiskPlaces(s, a);
      DiskNodes(s, a);
      DiskFlag(s, a);
      DiskChecks(s, a);
      DiskRemove(s, a);
      DiskDoneHashes(s, a);
      DiskAnswerHashes(s, a);
    } else {
      MainPlaces(s, a);
      MainNodes(s, a);
      MainFlag(s, a);
      MainChecks(s, a);
      MainRemove(s, a);
      MainDoneHashes(s, a);
      MainAnswerHashes(s, a);
    }
  }

  /** Every run, however the two threads interleave, keeps the invariant and never faults. */
  lemma {:induction false} RunOk(s: State, actions: seq<Action>)
    requires Inv(s)
    ensures !Run(s, actions).Fault? && (Run(s, actions).Ok? ==> Inv(Run(s, actions).state))
    decreases |actions|
  {
    if actions != [] {
      hide Inv, Step;
      StepOk(s, actions[0]);
      if Step(s, actions[0]).Ok? { RunOk(Step(s, actions[0]).state, actions[1..]); }
    }
  }

  ghost predicate Reachable(s: State) {
    exists start, actions :: Initial(start) && Run(start, actions) == Ok(s)
  }

  lemma ReachableOk(s: State)
    requires Reachable(s)
    ensures Inv(s)
  {
    hide Inv, Run;
    var start, actions :| Initial(start) && Run(start, actions) == Ok(s);
    InitialOk(start);
    RunOk(start, actions);
  }

  lemma InitialOk(s: State)
    requires Initial(s)
    ensures Inv(s)
  {
    assert PlacesOk(s);
    assert NodesOk(s);
  }

  /** In every reachable state a pushed chunk is in exactly one place, and done chunks that no lock
      hides are announced by the flag and by a `work` that is posted or running. */
  lemma EachChunkInOnePlace(s: State, c: Chunk)
    requires Reachable(s)
    ensures Places(s, c) == One(c in s.pushed)
    ensures c in s.done && !DiskHolds(s.disk) ==> s.flag && s.mainCalls + One(s.working) == 1
    ensures c in s.answers && s.answers[c].Some? ==> c in s.hashes && s.hashes[c] == s.answers[c].value
  {
    ReachableOk(s);
    assert Places(s, c) == One(c in s.pushed);
  }

  predicate Quiescent(s: State) {
    s.main.Ready? && !s.working && s.mainCalls == 0 && s.disk.Idle? && s.diskCalls == 0
  }

  /** When no callback is posted and no thread is at work, every pushed chunk has been answered. */
  lemma QuiescentIsAnswered(s: State)
    requires Inv(s) && Quiescent(s)
    ensures s.answers.Keys == s.pushed && s.nodes == []
  {
    forall c ensures c in s.answers <==> c in s.pushed { assert Places(s, c) == One(c in s.pushed); }
    assert Chunks(s.nodes) == {};
    NodeHasChunk(s.nodes);
  }

  lemma NodeHasChunk(nodes: seq<Node>)
    ensures nodes != [] ==> Chunks(nodes) != {}
  {
    if nodes != [] { assert nodes[0].chunk in Chunks(nodes); }
  }

  /** `remove` sleeps only while its own chunk is with the disk thread. */
  lemma BlockedOnlyWhileHashed(s: State)
    requires Reachable(s) && s.main.Blocked?
    ensures Handling(s.disk, s.main.chunk)
    ensures s.flag ==> s.disk.Flagged? || s.disk.Notifying?
    ensures forall a :: !Step(s, a).Disabled? ==> exists h :: a == Finish(s.disk, h)[0]
  {
    ReachableOk(s);
    forall a | !Step(s, a).Disabled? ensures exists h :: a == Finish(s.disk, h)[0] {
      var h := if a.Lock? then a.hash else 0;
      assert a == Finish(s.disk, h)[0];
    }
  }

  /** What is left of the disk thread's current `chunk_done`, h being the hash it is about to find. */
  function Finish(d: DiskPc, h: Hash): (r: seq<Action>)
    ensures r == [] <==> d.Idle? || d.Next?
  {
    match d
    case Hashing(_) => [Lock(h), Store, Flag, Call, Notify]
    case Locked(_, _) => [Store, Flag, Call, Notify]
    case Stored(_) => [Flag, Call, Notify]
    case Flagged(_) => [Call, Notify]
    case Notifying(_) => [Notify]
    case _ => []
  }

  lemma RunCons(s: State, a: Action, actions: seq<Action>)
    requires Step(s, a).Ok?
    ensures Run(s, [a] + actions) == Run(Step(s, a).state, actions)
  {
    hide Step;
    assert ([a] + actions)[1..] == actions;
  }

  lemma RunNone(s: State)
    ensures Run(s, []) == Ok(s)
  {
  }

  lemma AwakeFindsChunk(s: State)
    requires Inv(s) && s.main.Checking? && s.flag && s.main.chunk in s.done && !DiskHolds(s.disk)
    ensures var r := Run(s, [Check, Look]);
            r.Ok? && s.main.chunk in r.state.answers && r.state.main == Removing(s.main.owner)
  {
    hide Inv, Run;
    var s1 := Step(s, Check).state;
    StepOk(s, Check);
    StepNoFault(s1, Look);
    RunCons(s, Check, [Look]);
    RunCons(s1, Look, []);
    RunNone(Step(s1, Look).state);
    assert [Check, Look] == [Check] + [Look] && [Look] == [Look] + [];
  }

  /** The next step of the disk thread leaves `remove` asleep, until the last one wakes it. */
  lemma NextToFinish(s: State, h: Hash)
    requires Inv(s) && s.main.Blocked?
    ensures var f := Finish(s.disk, h);
            && f != [] && Step(s, f[0]).Ok?
            && var s1 := Step(s, f[0]).state;
            && f == [f[0]] + Finish(s1.disk, h)
            && s1.main == (if s.disk.Notifying? then Checking(s.main.owner, s.main.chunk) else s.main)
            && (s.disk.Notifying? ==> s1.flag && s.main.chunk in s1.done && s1.disk.Next?)
  {
    hide PlacesOk, NodesOk, ChecksOk, DoneHashesOk, AnswerHashesOk;
  }

  lemma {:induction false} WokenBy(s: State, h: Hash)
    requires Inv(s) && s.main.Blocked?
    ensures var r := Run(s, Finish(s.disk, h) + [Check, Look]);
            r.Ok? && s.main.chunk in r.state.answers && r.state.main == Removing(s.main.owner)
    decreases |Finish(s.disk, h)|
  {
    hide Inv, Step;
    NextToFinish(s, h);
    var a := Finish(s.disk, h)[0];
    var s1 := Step(s, a).state;
    StepOk(s, a);
    assert Finish(s.disk, h) + [Check, Look] == [a] + (Finish(s1.disk, h) + [Check, Look]);
    RunCons(s, a, Finish(s1.disk, h) + [Check, Look]);
    if s.disk.Notifying? {
      assert Finish(s1.disk, h) + [Check, Look] == [Check, Look];
      AwakeFindsChunk(s1);
    } else {
      WokenBy(s1, h);
    }
  }

  /** No wake-up is lost: the disk thread is never held up by a sleeping `remove`, and at most five of
      its steps later `remove` is awake and finds its chunk done. */
  lemma BlockedIsWoken(s: State, h: Hash)
    requires Reachable(s) && s.main.Blocked?
    ensures var r := Run(s, Finish(s.disk, h) + [Check, Look]);
            && |Finish(s.disk, h)| <= 5 && r.Ok?
            && s.main.chunk in r.state.answers && r.state.main == Removing(s.main.owner)
  {
    hide Inv, Run;
    ReachableOk(s);
    WokenBy(s, h);
  }

  /** How far the main thread is from its event loop; in `remove`, a chunk that is done is closer once it
      is looked for. */
  function MainWork(pc: MainPc, done: map<Chunk, Hash>): nat {
    match pc
    case Pushed(_) => 19
    case Removing(_) => 5
    case Posting | Trying(_, _) => 4
    case Checking(_, c) => if c in done then 4 else 3
    case Looking(_, _) => 3
    case Blocked(_, _) => 2
    case Ready => 1
    case Popping => 0
  }

  lemma ReadyWork(done: map<Chunk, Hash>)
    ensures MainWork(Ready, done) == 1 && MainWork(Posting, done) == 4
  {
  }

  lemma PushedWork(pc: MainPc, done: map<Chunk, Hash>)
    ensures pc.Pushed? ==> MainWork(pc, done) == 19
  {
  }

  function DiskWork(d: DiskPc): nat {
    match d
    case Hashing(_) => 14
    case Locked(_, _) => 13
    case Stored(_) => 8
    case Flagged(_) => 7
    case Notifying(_) => 4
    case Next => 1
    case Idle => 0
  }

  function QueueWork(checks: nat, done: nat): nat { 14 * checks + 3 * done }

  function CallWork(working: bool, mainCalls: nat, diskCalls: nat): nat {
    2 * One(working) + 2 * mainCalls + 2 * diskCalls
  }

  /** What is still to be done in a state. */
  function Pending(s: State): nat {
    MainWork(s.main, s.done) + DiskWork(s.disk) + QueueWork(|s.checks|, |s.done|)
    + CallWork(s.working, s.mainCalls, s.diskCalls)
  }

  /** A step of `remove` while it polls for a chunk that is still being hashed. */
  predicate Polls(s: State, a: Action) {
    || (a.Look? && s.main.Looking? && s.main.chunk !in s.done)
    || (a.Check? && s.main.Checking? && s.main.chunk !in s.done && s.flag)
  }

  /** What the callers of the queue do. */
  predicate OfCaller(a: Action) { a.Push? || a.Remove? }

  lemma OneLess<K, V>(m: map<K, V>, k: K)
    requires k in m
    ensures |m - {k}| == |m| - 1
  {
    assert (m - {k}).Keys == m.Keys - {k};
  }

  lemma {:induction false} OneErased(q: seq<Chunk>, x: Chunk)
    requires x in q
    ensures |Dequeued(q, x)| == |q| - 1
  {
    if q[0] != x { OneErased(q[1..], x); }
  }

  lemma AnswerWorks(s: State, c: Chunk, a: Option<Hash>, pc: MainPc)
    requires Answer(s, c, a, pc).Ok?
    ensures Pending(Answer(s, c, a, pc).state) + MainWork(s.main, s.done) == Pending(s) + MainWork(pc, s.done)
  {
    hide IndexOf, MainWork, DiskWork, QueueWork, CallWork;
  }

  lemma TryRemoveWorks(s: State)
    requires MainStep(s, TryRemove).Ok? && s.main.chunk in s.checks
    ensures Pending(MainStep(s, TryRemove).state) < Pending(s)
  {
    hide Answer, Dequeued, DiskWork, CallWork;
    var t := s.(checks := Dequeued(s.checks, s.main.chunk));
    OneErased(s.checks, s.main.chunk);
    AnswerWorks(t, s.main.chunk, None, Removing(s.main.owner));
  }

  lemma LookWorks(s: State)
    requires MainStep(s, Look).Ok? && s.main.chunk in s.done
    ensures Pending(MainStep(s, Look).state) < Pending(s)
  {
    hide Answer, DiskWork, CallWork;
    OneLess(s.done, s.main.chunk);
    AnswerWorks(s.(done := s.done - {s.main.chunk}), s.main.chunk, None, Removing(s.main.owner));
  }

  lemma PopWorks(s: State, c: Chunk)
    requires MainStep(s, Pop(c)).Ok? && s.working
    ensures Pending(MainStep(s, Pop(c)).state) < Pending(s)
  {
    hide Answer, DiskWork;
    if s.done != map[] {
      OneLess(s.done, c);
      AnswerWorks(s.(done := s.done - {c}), c, Some(s.done[c]), Ready);
    }
  }

  predicate Answers(s: State, a: Action) {
    || (a.TryRemove? && s.main.Trying? && s.main.chunk in s.checks)
    || (a.Look? && s.main.Looking? && s.main.chunk in s.done)
  }

  lemma RemoveWorks(s: State, a: Action)
    requires (a.RemoveNext? || a.TryRemove? || a.Look? || a.Check?) && MainStep(s, a).Ok? && !Answers(s, a)
    ensures if Polls(s, a) then Pending(MainStep(s, a).state) == Pending(s)
            else Pending(MainStep(s, a).state) < Pending(s)
  {
    hide Answer, Dequeued, FirstOf, DiskWork, QueueWork, CallWork;
  }

  lemma EnqueueWorks(s: State)
    requires s.main.Pushed?
    ensures Pending(MainStep(s, Enqueue).state) < Pending(s)
  {
    hide DiskWork, CallWork, MainWork;
    var r := MainStep(s, Enqueue).state;
    assert |r.checks| == |s.checks| + 1;
    assert MainWork(r.main, r.done) <= 4 < 19 == MainWork(s.main, s.done)
           by { ReadyWork(s.done); PushedWork(s.main, s.done); }
  }

  lemma LoopWorks(s: State, a: Action)
    requires (a.Post? || a.Work? || a.Return?) && MainStep(s, a).Ok?
    ensures Pending(MainStep(s, a).state) < Pending(s)
  {
    hide Answer, DiskWork;
  }

  lemma MainWorks(s: State, a: Action)
    requires !OfDisk(a) && !OfCaller(a) && MainStep(s, a).Ok? && (s.main.Popping? ==> s.working)
    ensures if Polls(s, a) then Pending(MainStep(s, a).state) == Pending(s)
            else Pending(MainStep(s, a).state) < Pending(s)
  {
    hide Pending, Answer, Dequeued, FirstOf;
    if a.Pop? {
      PopWorks(s, a.chunk);
    } else if a.TryRemove? && s.main.chunk in s.checks {
      TryRemoveWorks(s);
    } else if a.Look? && s.main.chunk in s.done {
      LookWorks(s);
    } else if a.RemoveNext? || a.TryRemove? || a.Look? || a.Check? {
      RemoveWorks(s, a);
    } else if a.Enqueue? {
      EnqueueWorks(s);
    } else {
      LoopWorks(s, a);
    }
  }

  lemma StoreWorks(s: State)
    requires s.disk.Locked?
    ensures Pending(DiskStep(s, Store).state) < Pending(s)
  {
    hide CallWork;
  }

  lemma NotifyWorks(s: State)
    requires s.disk.Notifying?
    ensures Pending(DiskStep(s, Notify).state) < Pending(s)
  {
    hide QueueWork, CallWork;
  }

  lemma TakeWorks(s: State)
    requires s.disk.Next?
    ensures Pending(DiskStep(s, Take).state) < Pending(s)
  {
    hide MainWork, CallWork;
  }

  lemma DiskWorks(s: State, a: Action)
    requires OfDisk(a) && DiskStep(s, a).Ok?
    ensures Pending(DiskStep(s, a).state) < Pending(s)
  {
    hide MainWork, QueueWork;
    if a.Take? {
      TakeWorks(s);
    } else if a.Store? {
      StoreWorks(s);
    } else if a.Notify? {
      NotifyWorks(s);
    }
  }

  /** Every step takes work away, except what callers ask for, and polling, which changes nothing. */
  lemma StepWorks(s: State, a: Action)
    requires Inv(s) && Step(s, a).Ok? && !OfCaller(a)
    ensures if Polls(s, a) then Pending(Step(s, a).state) == Pending(s) else Pending(Step(s, a).state) < Pending(s)
  {
    hide Pending, MainStep, DiskStep;
    if OfDisk(a) { DiskWorks(s, a); } else { MainWorks(s, a); }
  }

  /** Unless all is done, a thread has a step to take that is not polling: the disk thread's, if it has
      anything to do. */
  ghost function NextStep(s: State): Action {
    match s.disk
    case Next => Take
    case Hashing(_) => Lock(0)
    case Locked(_, _) => Store
    case Stored(_) => Flag
    case Flagged(_) => Call
    case Notifying(_) => Notify
    case Idle => if s.diskCalls > 0 then Perform else NextOfMain(s)
  }

  ghost function NextOfMain(s: State): Action {
    match s.main
    case Pushed(_) => Enqueue
    case Posting => Post
    case Removing(_) => RemoveNext
    case Trying(_, _) => TryRemove
    case Looking(_, _) => Look
    case Checking(_, _) => Check
    case Blocked(_, _) => Notify
    case Ready => if s.working then Return else Work
    case Popping => if s.done == map[] then Pop(0) else var c :| c in s.done; Pop(c)
  }

  lemma WaitsForDone(s: State)
    requires Inv(s) && s.disk.Idle?
    ensures !s.main.Blocked? && (Waits(s.main) ==> s.main.chunk in s.done && s.flag)
  {
    hide PlacesOk, NodesOk, ChecksOk, DoneHashesOk, AnswerHashesOk;
    if Waits(s.main) { WaitedFor(s); }
  }

  lemma MainProgress(s: State)
    requires Inv(s) && s.disk.Idle? && s.diskCalls == 0 && !Quiescent(s)
    ensures var a := NextOfMain(s); !OfDisk(a) && !OfCaller(a) && !MainStep(s, a).Disabled? && !Polls(s, a)
  {
    WaitsForDone(s);
    hide Inv, Answer, Dequeued, FirstOf;
  }

  lemma Progress(s: State)
    requires Inv(s) && !Quiescent(s)
    ensures var a := NextStep(s); !OfCaller(a) && Step(s, a).Ok? && !Polls(s, a)
  {
    hide Inv, NextOfMain, MainStep;
    StepNoFault(s, NextStep(s));
    if s.disk.Idle? && s.diskCalls == 0 { MainProgress(s); }
  }

  lemma KeepsPushed(s: State, a: Action)
    requires Step(s, a).Ok? && !a.Push?
    ensures Step(s, a).state.pushed == s.pushed
  {
    hide Answer, FirstOf, Dequeued;
    if a.TryRemove? || a.Look? || a.Pop? { AnswerKeeps(s, a); }
  }

  lemma AnswerKeeps(s: State, a: Action)
    requires (a.TryRemove? || a.Look? || a.Pop?) && MainStep(s, a).Ok?
    ensures MainStep(s, a).state.pushed == s.pushed
  {
    hide IndexOf, Dequeued;
  }

  /** How many steps of a run are not polling. */
  function Moves(s: State, actions: seq<Action>): nat
    requires Run(s, actions).Ok?
    decreases |actions|
  {
    if actions == [] then 0
    else One(!Polls(s, actions[0])) + Moves(Step(s, actions[0]).state, actions[1..])
  }

  /** Once callers ask for nothing more, any run has a bounded number of steps that are not polling. */
  lemma {:induction false} RunEnds(s: State, actions: seq<Action>)
    requires Inv(s) && Run(s, actions).Ok? && forall a :: a in actions ==> !OfCaller(a)
    ensures Moves(s, actions) + Pending(Run(s, actions).state) <= Pending(s)
    decreases |actions|
  {
    hide Inv, Step, Pending, Polls;
    if actions != [] {
      StepOk(s, actions[0]);
      StepWorks(s, actions[0]);
      RunEnds(Step(s, actions[0]).state, actions[1..]);
    }
  }

  lemma {:induction false} Settle(s: State) returns (actions: seq<Action>)
    requires Inv(s)
    ensures |actions| <= Pending(s) && forall a :: a in actions ==> !OfCaller(a)
    ensures var r := Run(s, actions); r.Ok? && Inv(r.state) && Quiescent(r.state) && r.state.pushed == s.pushed
    decreases Pending(s)
  {
    hide Inv, Step, Pending, Polls, NextStep, Quiescent;
    if Quiescent(s) {
      RunNone(s);
      return [];
    }
    var a := NextStep(s);
    Progress(s);
    StepOk(s, a);
    StepWorks(s, a);
    KeepsPushed(s, a);
    var rest := Settle(Step(s, a).state);
    RunCons(s, a, rest);
    actions := [a] + rest;
  }

  /** No state is stuck: from every reachable state the two threads can get every pushed chunk answered,
      without any help from callers. */
  lemma EveryChunkIsAnswered(s: State) returns (actions: seq<Action>)
    requires Reachable(s)
    ensures |actions| <= Pending(s) && forall a :: a in actions ==> !OfCaller(a)
    ensures var r := Run(s, actions); r.Ok? && r.state.answers.Keys == s.pushed && r.state.nodes == []
  {
    hide Inv, Run, Pending;
    ReachableOk(s);
    actions := Settle(s);
    QuiescentIsAnswered(Run(s, actions).state);
  }

  // What a call of `remove` does

  /** The nodes of other owners, in order. */
  function NotOf(nodes: seq<Node>, o: Owner): seq<Node> {
    if nodes == [] then [] else (if nodes[0].owner == o then [] else [nodes[0]]) + NotOf(nodes[1..], o)
  }

  function ChunksOf(nodes: seq<Node>, o: Owner): set<Chunk> { set n | n in nodes && n.owner == o :: n.chunk }

  /** In a call of `remove` for the owner. */
  predicate InRemove(pc: MainPc, o: Owner) { (pc.Removing? || pc.Trying? || Waits(pc)) && pc.owner == o }

  lemma {:induction false} NotOfErased(nodes: seq<Node>, o: Owner, i: nat)
    requires i < |nodes| && nodes[i].owner == o
    ensures NotOf(nodes[..i] + nodes[i + 1..], o) == NotOf(nodes, o)
  {
    if i == 0 {
      assert nodes[..0] + nodes[1..] == nodes[1..];
    } else {
      assert (nodes[..i] + nodes[i + 1..])[1..] == nodes[1..][..i - 1] + nodes[1..][i..];
      NotOfErased(nodes[1..], o, i - 1);
    }
  }

  lemma {:induction false} NotOfNone(nodes: seq<Node>, o: Owner)
    requires forall n :: n in nodes ==> n.owner != o
    ensures NotOf(nodes, o) == nodes
  {
    if nodes != [] { NotOfNone(nodes[1..], o); }
  }

  /** From s to t, only nodes of the owner were taken, and their slots called with NULL. */
  ghost predicate Took(s: State, t: State, o: Owner) {
    && t.pushed == s.pushed && NotOf(t.nodes, o) == NotOf(s.nodes, o)
    && (forall n :: n in t.nodes ==> n in s.nodes)
    && (forall c :: c in s.answers ==> c in t.answers && t.answers[c] == s.answers[c])
    && (forall c :: c in t.answers && c !in s.answers ==> Node(o, c) in s.nodes && t.answers[c].None?)
  }

  lemma AnswerTook(s: State, c: Chunk, pc: MainPc, o: Owner)
    requires NodesOk(s) && Node(o, c) in s.nodes && Answer(s, c, None, pc).Ok?
    ensures Took(s, Answer(s, c, None, pc).state, o) && Answer(s, c, None, pc).state.main == pc
  {
    var i := IndexOf(s.nodes, c);
    var j :| 0 <= j < |s.nodes| && s.nodes[j] == Node(o, c);
    assert i == j;
    NotOfErased(s.nodes, o, i);
  }

  lemma TookSame(s: State, t: State, o: Owner)
    requires t.pushed == s.pushed && t.nodes == s.nodes && t.answers == s.answers
    ensures Took(s, t, o)
  {
  }

  /** A step of either thread during `remove`. It returns only when the owner has no node left. */
  lemma RemoveStep(s: State, a: Action, o: Owner)
    requires Inv(s) && InRemove(s.main, o) && Step(s, a).Ok?
    ensures var t := Step(s, a).state;
            && Took(s, t, o)
            && (InRemove(t.main, o) || (t.main.Ready? && forall n :: n in t.nodes ==> n.owner != o))
  {
    hide PlacesOk, FlagOk, ChecksOk, DoneHashesOk, AnswerHashesOk, NodesOk, Took, Answer, Dequeued, FirstOf, DiskStep;
    var t := Step(s, a).state;
    if OfDisk(a) {
      DiskDuring(s, a, o);
      TookSame(s, t, o);
    } else if a.TryRemove? && s.main.chunk in s.checks {
      var u := s.(checks := Dequeued(s.checks, s.main.chunk));
      SameNodes(s, u);
      AnswerTook(u, s.main.chunk, Removing(o), o);
      TookThrough(s, u, t, o);
    } else if a.Look? && s.main.chunk in s.done {
      var u := s.(done := s.done - {s.main.chunk});
      SameNodes(s, u);
      AnswerTook(u, s.main.chunk, Removing(o), o);
      TookThrough(s, u, t, o);
    } else {
      TookSame(s, t, o);
      if a.RemoveNext? { LastOf(s); }
    }
  }

  lemma DiskDuring(s: State, a: Action, o: Owner)
    requires OfDisk(a) && InRemove(s.main, o) && DiskStep(s, a).Ok?
    ensures var t := DiskStep(s, a).state;
            InRemove(t.main, o) && t.pushed == s.pushed && t.nodes == s.nodes && t.answers == s.answers
  {
  }

  lemma LastOf(s: State)
    requires s.main.Removing?
    ensures FirstOf(s.nodes, s.main.owner).None? ==> forall n :: n in s.nodes ==> n.owner != s.main.owner
  {
  }

  lemma TookThrough(s: State, u: State, t: State, o: Owner)
    requires u.pushed == s.pushed && u.nodes == s.nodes && u.answers == s.answers && Took(u, t, o)
    ensures Took(s, t, o)
  {
  }

  lemma TookBoth(s: State, u: State, t: State, o: Owner)
    requires Took(s, u, o) && Took(u, t, o)
    ensures Took(s, t, o)
  {
  }

  /** All of the run is during one call of `remove` for the owner, up to its return at the latest. */
  predicate DuringRemove(s: State, actions: seq<Action>, o: Owner)
    decreases |actions|
  {
    actions == [] ||
    (InRemove(s.main, o) && Step(s, actions[0]).Ok? && DuringRemove(Step(s, actions[0]).state, actions[1..], o))
  }

  lemma {:induction false} RemoveRun(s: State, actions: seq<Action>, o: Owner)
    requires Inv(s) && InRemove(s.main, o) && DuringRemove(s, actions, o)
    ensures Run(s, actions).Ok?
    ensures var t := Run(s, actions).state;
            && Inv(t) && Took(s, t, o)
            && (InRemove(t.main, o) || (t.main.Ready? && forall n :: n in t.nodes ==> n.owner != o))
    decreases |actions|
  {
    hide Inv, Step, Took, InRemove;
    if actions == [] {
      TookSame(s, s, o);
    } else {
      var u := Step(s, actions[0]).state;
      StepOk(s, actions[0]);
      RemoveStep(s, actions[0], o);
      if InRemove(u.main, o) {
        RemoveRun(u, actions[1..], o);
        TookBoth(s, u, Run(u, actions[1..]).state, o);
      } else {
        assert actions[1..] == [];
      }
    }
  }

  /** A call of `remove`, from its start to its return and whatever the disk thread does meanwhile: the
      slots of all chunks of the owner were called with NULL and no other slot was, no node of the owner
      is left, and those of others stay in order. */
  lemma RemoveReturns(s: State, actions: seq<Action>, o: Owner)
    requires Reachable(s) && Step(s, Remove(o)).Ok? && DuringRemove(Step(s, Remove(o)).state, actions, o)
    ensures Run(s, [Remove(o)] + actions).Ok?
    ensures var t := Run(s, [Remove(o)] + actions).state;
            t.main.Ready? ==>
              && t.nodes == NotOf(s.nodes, o) && t.pushed == s.pushed
              && t.answers.Keys == s.answers.Keys + ChunksOf(s.nodes, o)
              && forall c :: c in t.answers ==> t.answers[c] == if c in s.answers then s.answers[c] else None
  {
    hide Inv, Run, Took;
    ReachableOk(s);
    StepOk(s, Remove(o));
    var u := Step(s, Remove(o)).state;
    RemoveRun(u, actions, o);
    RunCons(s, Remove(o), actions);
    var t := Run(u, actions).state;
    if t.main.Ready? { RemoveDone(u, t, o); }
  }

  lemma RemoveDone(s: State, t: State, o: Owner)
    requires Inv(s) && Inv(t) && Took(s, t, o) && forall n :: n in t.nodes ==> n.owner != o
    ensures t.nodes == NotOf(s.nodes, o) && t.pushed == s.pushed
            && t.answers.Keys == s.answers.Keys + ChunksOf(s.nodes, o)
    ensures forall c :: c in t.answers ==> t.answers[c] == if c in s.answers then s.answers[c] else None
  {
    hide PlacesOk, NodesOk, FlagOk, ChecksOk, RemoveOk, DoneHashesOk, AnswerHashesOk, Took, NotOf;
    AllTaken(s, t, o);
  }

  /** A node of the owner that is gone was answered. */
  lemma TakenIsAnswered(s: State, t: State, o: Owner, n: Node)
    requires NodesOk(s) && NodesOk(t) && Took(s, t, o) && n in s.nodes && n !in t.nodes
    ensures n.chunk in t.answers && n.chunk !in s.answers
  {
    hide NotOf;
    assert n.chunk in Chunks(s.nodes);
  }

  lemma TookIs(s: State, t: State, o: Owner, c: Chunk)
    requires Took(s, t, o)
    ensures t.pushed == s.pushed && NotOf(t.nodes, o) == NotOf(s.nodes, o) && (c in s.answers ==> c in t.answers)
    ensures c in t.answers ==> if c in s.answers then t.answers[c] == s.answers[c]
                               else t.answers[c].None? && Node(o, c) in s.nodes
  {
    hide NotOf;
  }

  lemma AllTaken(s: State, t: State, o: Owner)
    requires NodesOk(s) && NodesOk(t) && Took(s, t, o) && forall n :: n in t.nodes ==> n.owner != o
    ensures t.nodes == NotOf(s.nodes, o) && t.answers.Keys == s.answers.Keys + ChunksOf(s.nodes, o)
    ensures t.pushed == s.pushed
    ensures forall c :: c in t.answers ==> t.answers[c] == if c in s.answers then s.answers[c] else None
  {
    hide NodesOk, Took, NotOf;
    NotOfNone(t.nodes, o);
    forall c
      ensures t.pushed == s.pushed && NotOf(t.nodes, o) == NotOf(s.nodes, o) && (c in s.answers ==> c in t.answers)
      ensures c in t.answers ==> t.answers[c] == if c in s.answers then s.answers[c] else None
      ensures c in t.answers && c !in s.answers ==> c in ChunksOf(s.nodes, o)
    {
      TookIs(s, t, o, c);
    }
    TookIs(s, t, o, 0);
    forall c | c in ChunksOf(s.nodes, o) ensures c in t.answers {
      TakenIsAnswered(s, t, o, Node(o, c));
    }
  }

  lemma AnswerKeepsNode(s: State, c: Chunk, a: Option<Hash>, pc: MainPc, n: Node)
    requires n in s.nodes && Answer(s, c, a, pc).Ok?
    ensures var t := Answer(s, c, a, pc).state; n in t.nodes || n.chunk in t.answers
  {
    var i := IndexOf(s.nodes, c);
    var j :| 0 <= j < |s.nodes| && s.nodes[j] == n;
    var rest := s.nodes[..i] + s.nodes[i + 1..];
    if j != i { assert rest[if j < i then j else j - 1] == n; }
  }

  /** A node stays until the slot of its chunk is called. */
  lemma StepKeepsNode(s: State, a: Action, n: Node)
    requires Step(s, a).Ok? && (n in s.nodes || n.chunk in s.answers)
    ensures var t := Step(s, a).state; n in t.nodes || n.chunk in t.answers
  {
    hide Answer, Dequeued, FirstOf, IndexOf;
    var c := if a.Pop? then a.chunk else if a.TryRemove? || a.Look? then s.main.chunk else 0;
    var o := if a.TryRemove? || a.Look? then s.main.owner else 0;
    var r := Step(s, a);
    AnswersKept(s.(checks := Dequeued(s.checks, c)), c, None, Removing(o), n);
    AnswersKept(s.(done := s.done - {c}), c, None, Removing(o), n);
    if a.Pop? && c in s.done { AnswersKept(s.(done := s.done - {c}), c, Some(s.done[c]), Ready, n); }
  }

  lemma AnswersKept(s: State, c: Chunk, a: Option<Hash>, pc: MainPc, n: Node)
    ensures Answer(s, c, a, pc).Ok? && (n in s.nodes || n.chunk in s.answers) ==>
              var t := Answer(s, c, a, pc).state; n in t.nodes || n.chunk in t.answers
  {
    if Answer(s, c, a, pc).Ok? && n in s.nodes { AnswerKeepsNode(s, c, a, pc, n); }
  }

  lemma {:induction false} RunKeepsNode(s: State, actions: seq<Action>, n: Node)
    requires Run(s, actions).Ok? && (n in s.nodes || n.chunk in s.answers)
    ensures var t := Run(s, actions).state; n in t.nodes || n.chunk in t.answers
    decreases |actions|
  {
    hide Step;
    if actions != [] {
      StepKeepsNode(s, actions[0], n);
      RunKeepsNode(Step(s, actions[0]).state, actions[1..], n);
    }
  }

  lemma RunThrough(s: State, a: seq<Action>, b: seq<Action>)
    requires Run(s, a).Ok?
    ensures Run(s, a + b) == Run(Run(s, a).state, b)
    decreases |a|
  {
    hide Step;
    if a == [] {
      assert a + b == b;
    } else {
      assert (a + b)[1..] == a[1..] + b;
      RunThrough(Step(s, a[0]).state, a[1..], b);
    }
  }

  /** What an owner pushed is answered at the latest when a `remove` for that owner returns, whatever both
      threads did in between. */
  lemma PushedIsRemoved(s: State, o: Owner, c: Chunk, before: seq<Action>, during: seq<Action>)
    requires Reachable(s) && Step(s, Push(o, c)).Ok? && Run(s, [Push(o, c)] + before).Ok?
    requires var u := Run(s, [Push(o, c)] + before).state;
             Step(u, Remove(o)).Ok? && DuringRemove(Step(u, Remove(o)).state, during, o)
    ensures var u := Run(s, [Push(o, c)] + before).state;
            && Run(u, [Remove(o)] + during).Ok?
            && var t := Run(u, [Remove(o)] + during).state; t.main.Ready? ==> c in t.answers
  {
    assert Node(o, c) in Step(s, Push(o, c)).state.nodes;
    hide Step, DuringRemove;
    var all := [Push(o, c)] + before;
    var start, actions :| Initial(start) && Run(start, actions) == Ok(s);
    RunThrough(start, actions, all);
    var u := Run(s, all).state;
    assert Reachable(u);
    RunCons(s, Push(o, c), before);
    RunKeepsNode(Step(s, Push(o, c)).state, before, Node(o, c));
    RemoveReturns(u, during, o);
    if Node(o, c) in u.nodes { assert c in ChunksOf(u.nodes, o); }
  }

  /** The slot of a chunk is called by `work` with its hash, or by `remove` for its owner with NULL. */
  lemma CalledWith(s: State, a: Action, c: Chunk)
    requires Inv(s) && Step(s, a).Ok? && c !in s.answers && c in Step(s, a).state.answers
    ensures var x := Step(s, a).state.answers[c];
            if a.Pop? then s.working && c in s.hashes && x == Some(s.hashes[c])
            else (s.main.Trying? || s.main.Looking?) && Node(s.main.owner, c) in s.nodes && x.None?
  {
    hide PlacesOk, NodesOk, ChecksOk, AnswerHashesOk, Answer, Dequeued, FirstOf;
    if a.TryRemove? {
      AnswersOne(s.(checks := Dequeued(s.checks, s.main.chunk)), s.main.chunk, None, Removing(s.main.owner), c);
    } else if a.Look? {
      AnswersOne(s.(done := s.done - {s.main.chunk}), s.main.chunk, None, Removing(s.main.owner), c);
    } else if a.Pop? && a.chunk in s.done {
      AnswersOne(s.(done := s.done - {a.chunk}), a.chunk, Some(s.done[a.chunk]), Ready, c);
    }
  }

  lemma AnswersOne(s: State, x: Chunk, a: Option<Hash>, pc: MainPc, c: Chunk)
    ensures var r := Answer(s, x, a, pc);
            r.Ok? && c !in s.answers && c in r.state.answers ==> c == x && r.state.answers[c] == a
  {
  }

  // Order

  /** The chunks on the check queue are in the order in which they were pushed. */
  ghost predicate Ordered(nodes: seq<Node>, checks: seq<Chunk>) {
    forall i, j :: 0 <= i < j < |checks| ==> IndexOf(nodes, checks[i]) < IndexOf(nodes, checks[j])
  }

  ghost predicate OrderOk(s: State) {
    && Ordered(s.nodes, s.checks)
    && (s.main.Pushed? ==> s.nodes != [] && s.nodes[|s.nodes| - 1].chunk == s.main.chunk)
  }

  lemma {:induction false} IndexOfMore(nodes: seq<Node>, n: Node, c: Chunk)
    ensures IndexOf(nodes + [n], c) == if IndexOf(nodes, c) < |nodes| || n.chunk == c then IndexOf(nodes, c)
                                       else |nodes| + 1
  {
    if nodes != [] {
      assert (nodes + [n])[1..] == nodes[1..] + [n];
      IndexOfMore(nodes[1..], n, c);
    }
  }

  /** Erasing a node moves those after it. */
  lemma {:induction false} IndexOfErased(nodes: seq<Node>, i: nat, c: Chunk)
    requires i < |nodes| && nodes[i].chunk != c
    ensures var k := IndexOf(nodes, c); IndexOf(nodes[..i] + nodes[i + 1..], c) == if k < i then k else k - 1
  {
    var rest := nodes[..i] + nodes[i + 1..];
    if i == 0 {
      assert rest == nodes[1..];
    } else {
      assert rest[1..] == nodes[1..][..i - 1] + nodes[1..][i..] && rest[0] == nodes[0];
      IndexOfErased(nodes[1..], i - 1, c);
    }
  }

  lemma OrderedErased(nodes: seq<Node>, checks: seq<Chunk>, i: nat)
    requires Ordered(nodes, checks) && i < |nodes| && nodes[i].chunk !in checks
    ensures Ordered(nodes[..i] + nodes[i + 1..], checks)
  {
    hide IndexOf;
    var rest := nodes[..i] + nodes[i + 1..];
    forall k | 0 <= k < |checks|
      ensures var n := IndexOf(nodes, checks[k]); IndexOf(rest, checks[k]) == if n < i then n else n - 1
      ensures IndexOf(nodes, checks[k]) != i
    {
      IndexOfErased(nodes, i, checks[k]);
      IndexFound(nodes, checks[k]);
    }
  }

  lemma IndexFound(nodes: seq<Node>, c: Chunk)
    ensures var i := IndexOf(nodes, c); i <= |nodes| && (i < |nodes| ==> nodes[i].chunk == c)
    ensures c in Chunks(nodes) ==> IndexOf(nodes, c) < |nodes|
  {
  }

  lemma {:induction false} OrderedDequeued(nodes: seq<Node>, checks: seq<Chunk>, x: Chunk)
    requires Ordered(nodes, checks)
    ensures Ordered(nodes, Dequeued(checks, x)) && forall y :: y in Dequeued(checks, x) ==> y in checks
  {
    hide IndexOf;
    if checks != [] {
      assert Ordered(nodes, checks[1..]);
      OrderedDequeued(nodes, checks[1..], x);
      forall y | y in checks[1..] ensures IndexOf(nodes, checks[0]) < IndexOf(nodes, y) {
        var k :| 0 <= k < |checks[1..]| && checks[1..][k] == y;
        assert y == checks[k + 1];
      }
    }
  }

  lemma AnswerOrder(s: State, c: Chunk, a: Option<Hash>, pc: MainPc)
    requires Ordered(s.nodes, s.checks) && c !in s.checks && !pc.Pushed? && Answer(s, c, a, pc).Ok?
    ensures OrderOk(Answer(s, c, a, pc).state)
  {
    hide Ordered;
    OrderedErased(s.nodes, s.checks, IndexOf(s.nodes, c));
  }

  /** What is on the check queue has a node, and is in no other place. */
  lemma CheckedIsQueued(s: State, c: Chunk)
    requires PlacesOk(s) && NodesOk(s) && c in s.checks
    ensures c in Chunks(s.nodes) && c in s.pushed && c !in s.done && s.main != Pushed(c)
  {
    assert Places(s, c) == One(c in s.pushed);
  }

  lemma PushOrder(s: State, o: Owner, c: Chunk)
    requires PlacesOk(s) && NodesOk(s) && OrderOk(s) && MainStep(s, Push(o, c)).Ok?
    ensures OrderOk(MainStep(s, Push(o, c)).state)
  {
    hide PlacesOk, NodesOk, IndexOf;
    forall x | x in s.checks ensures IndexOf(s.nodes + [Node(o, c)], x) == IndexOf(s.nodes, x) {
      CheckedIsQueued(s, x);
      IndexFound(s.nodes, x);
      IndexOfMore(s.nodes, Node(o, c), x);
    }
  }

  lemma EnqueueOrder(s: State)
    requires PlacesOk(s) && NodesOk(s) && OrderOk(s) && s.main.Pushed?
    ensures OrderOk(MainStep(s, Enqueue).state)
  {
    hide PlacesOk, IndexOf;
    forall x | x in s.checks ensures IndexOf(s.nodes, x) < IndexOf(s.nodes, s.main.chunk) {
      CheckedIsQueued(s, x);
      IndexFound(s.nodes, x);
      IndexFound(s.nodes, s.main.chunk);
    }
  }

  lemma MainOrder(s: State, a: Action)
    requires !OfDisk(a) && PlacesOk(s) && NodesOk(s) && OrderOk(s) && MainStep(s, a).Ok?
    ensures OrderOk(MainStep(s, a).state)
  {
    if a.TryRemove? { assert Distinct(s.checks); }
    hide PlacesOk, NodesOk, IndexOf, Ordered, Answer, Dequeued, FirstOf, Distinct;
    var o := if a.TryRemove? || a.Look? then s.main.owner else 0;
    var c := if a.Pop? then a.chunk else if a.TryRemove? || a.Look? then s.main.chunk else 0;
    if c in s.checks { CheckedIsQueued(s, c); }
    if a.Push? {
      PushOrder(s, a.owner, a.chunk);
    } else if a.Enqueue? {
      EnqueueOrder(s);
    } else if a.TryRemove? && c in s.checks {
      OrderedDequeued(s.nodes, s.checks, c);
      AnswerOrder(s.(checks := Dequeued(s.checks, c)), c, None, Removing(o));
    } else if a.Look? && c in s.done {
      AnswerOrder(s.(done := s.done - {c}), c, None, Removing(o));
    } else if a.Pop? && c in s.done {
      AnswerOrder(s.(done := s.done - {c}), c, Some(s.done[c]), Ready);
    }
  }

  lemma DiskOrder(s: State, a: Action)
    requires OfDisk(a) && OrderOk(s) && DiskStep(s, a).Ok?
    ensures OrderOk(DiskStep(s, a).state)
  {
    hide IndexOf;
  }

  lemma {:induction false} RunOrder(s: State, actions: seq<Action>)
    requires Inv(s) && OrderOk(s) && Run(s, actions).Ok?
    ensures OrderOk(Run(s, actions).state)
    decreases |actions|
  {
    hide PlacesOk, NodesOk, FlagOk, ChecksOk, RemoveOk, DoneHashesOk, AnswerHashesOk, OrderOk, MainStep, DiskStep;
    if actions != [] {
      var a := actions[0];
      StepOk(s, a);
      if OfDisk(a) { DiskOrder(s, a); } else { MainOrder(s, a); }
      RunOrder(Step(s, a).state, actions[1..]);
    }
  }

  /** First pushed, first hashed: of the chunks waiting to be hashed, the disk thread takes the one that
      was pushed first. */
  lemma HashedInOrder(s: State, a: Action)
    requires Reachable(s) && Step(s, a).Ok? && !s.disk.Hashing? && Step(s, a).state.disk.Hashing?
    ensures var c, t := Step(s, a).state.disk.chunk, Step(s, a).state;
            && c in s.checks && IndexOf(s.nodes, c) < |s.nodes|
            && forall d :: d in s.checks && d != c ==> d in t.checks && IndexOf(s.nodes, c) < IndexOf(s.nodes, d)
  {
    hide Inv, Run, OrderOk, MainStep;
    var start, actions :| Initial(start) && Run(start, actions) == Ok(s);
    InitialOk(start);
    assert OrderOk(start) by { InitialOrder(start); }
    RunOk(start, actions);
    RunOrder(start, actions);
    KeepsHand(s, a);
    TakenFirst(s);
  }

  lemma InitialOrder(s: State)
    requires Initial(s)
    ensures OrderOk(s)
  {
  }

  lemma KeepsHand(s: State, a: Action)
    requires Step(s, a).Ok? && !s.disk.Hashing? && Step(s, a).state.disk.Hashing?
    ensures a.Take? && s.checks != []
  {
    hide IndexOf, Dequeued, FirstOf;
  }

  lemma TakenFirst(s: State)
    requires Inv(s) && OrderOk(s) && DiskStep(s, Take).Ok? && s.checks != []
    ensures var t := DiskStep(s, Take).state; var c := t.disk.chunk;
            && t.disk.Hashing? && c in s.checks && IndexOf(s.nodes, c) < |s.nodes|
            && forall d :: d in s.checks && d != c ==> d in t.checks && IndexOf(s.nodes, c) < IndexOf(s.nodes, d)
  {
    hide PlacesOk, NodesOk, FlagOk, ChecksOk, RemoveOk, DoneHashesOk, AnswerHashesOk, IndexOf;
    CheckedIsQueued(s, s.checks[0]);
    IndexFound(s.nodes, s.checks[0]);
    forall d | d in s.checks && d != s.checks[0]
      ensures d in s.checks[1..] && IndexOf(s.nodes, s.checks[0]) < IndexOf(s.nodes, d)
    {
      var k :| 0 < k < |s.checks| && s.checks[k] == d;
      assert s.checks[1..][k - 1] == d;
    }
  }
}
