/** The chunks of a download that are mapped into memory: who refers to them, and which of them wait
    to be written to disk. */
module ChunkLists {
  import opened Collections

  /** A mapped chunk is either writable or not. */
  datatype Chunk = Chunk(writable: bool)

  datatype Node = Node(references: int, writable: int, blocking: int, chunk: Option<Chunk>, triggered: bool)

  const UNUSED := Node(0, 0, 0, None, false)

  datatype Handle = Handle(index: nat, writable: bool, blocking: bool)

  datatype GetFlags = GetFlags(writable: bool, blocking: bool, nonblock: bool)

  const ENOENT := 2
  const ENOMEM := 12
  const EAGAIN := 11

  /** Fault: an internal error. */
  datatype GetResult = Got(handle: Handle) | Error(errno: int) | Fault

  datatype SyncFlags = SyncFlags(force: bool, safe: bool)

  /** How many handles refer to node i, may write to it, and block it. */
  function References(h: multiset<Handle>, i: nat): nat {
    h[Handle(i, false, false)] + h[Handle(i, false, true)] + h[Handle(i, true, false)] + h[Handle(i, true, true)]
  }

  function Writers(h: multiset<Handle>, i: nat): (n: nat)
    ensures n <= References(h, i)
  {
    h[Handle(i, true, false)] + h[Handle(i, true, true)]
  }

  function Blockers(h: multiset<Handle>, i: nat): nat { h[Handle(i, false, true)] + h[Handle(i, true, true)] }

  /** A node counts the live handles, and one more of each but `blocking` while it is queued; it is
      mapped while it is referred to, and writable while somebody may write to it. */
  predicate NodeOk(n: Node, i: nat, h: multiset<Handle>, queued: bool) {
    && n.references == References(h, i) + One(queued)
    && n.writable == Writers(h, i) + One(queued)
    && n.blocking == Blockers(h, i)
    && (n.chunk.Some? <==> n.references > 0)
    && (n.writable > 0 ==> n.chunk.value.writable)
  }

  ghost predicate NodesOk(nodes: seq<Node>, h: multiset<Handle>, queued: set<nat>) {
    && (forall i :: 0 <= i < |nodes| ==> NodeOk(nodes[i], i, h, i in queued))
    && (forall x :: x in h ==> x.index < |nodes|)
    && (forall i :: i in queued ==> i < |nodes|)
  }

  function Mapped(nodes: seq<Node>): nat {
    if nodes == [] then 0 else One(nodes[0].chunk.Some?) + Mapped(nodes[1..])
  }

  lemma {:induction false} MappedUpdate(nodes: seq<Node>, i: nat, n: Node)
    requires i < |nodes|
    ensures Mapped(nodes[i := n]) == Mapped(nodes) - One(nodes[i].chunk.Some?) + One(n.chunk.Some?)
  {
    if i == 0 {
      assert nodes[0 := n][1..] == nodes[1..];
    } else {
      assert nodes[i := n][1..] == nodes[1..][i - 1 := n];
      MappedUpdate(nodes[1..], i - 1, n);
    }
  }

  lemma MemoryUpdate(c: nat, nodes: seq<Node>, i: nat, n: Node)
    requires i < |nodes|
    ensures Bytes(c, Mapped(nodes[i := n])) ==
            Bytes(c, Mapped(nodes)) + (if n.chunk.Some? then c else 0) - (if nodes[i].chunk.Some? then c else 0)
  {
    MappedUpdate(nodes, i, n);
    MappedUpdate(nodes, i, nodes[i].(chunk := None));
    ChunkTimes(c, Mapped(nodes[i := nodes[i].(chunk := None)]));
  }

  lemma {:induction false} NoneMapped(nodes: seq<Node>)
    ensures Mapped(nodes) == 0 <==> forall i :: 0 <= i < |nodes| ==> nodes[i].chunk.None?
  {
    if nodes != [] {
      NoneMapped(nodes[1..]);
      assert forall i :: 0 < i < |nodes| ==> nodes[i] == nodes[1..][i - 1];
    }
  }

  /** The memory of k chunks. */
  function Bytes(c: nat, k: nat): nat { c * k }

  lemma ChunkTimes(c: nat, k: nat)
    ensures Bytes(c, k + 1) == Bytes(c, k) + c && Bytes(c, 0) == 0
  {
  }

  function Elements(s: seq<nat>): set<nat> { set x | x in s }

  lemma HandleAdded(h: multiset<Handle>, x: Handle, i: nat)
    ensures References(h + multiset{x}, i) == References(h, i) + One(x.index == i)
    ensures Writers(h + multiset{x}, i) == Writers(h, i) + One(x.index == i && x.writable)
    ensures Blockers(h + multiset{x}, i) == Blockers(h, i) + One(x.index == i && x.blocking)
  {
    var g := h + multiset{x};
    var a, b, c, d := Handle(i, false, false), Handle(i, false, true), Handle(i, true, false), Handle(i, true, true);
    assert g[a] == h[a] + One(x == a) && g[b] == h[b] + One(x == b) && g[c] == h[c] + One(x == c)
           && g[d] == h[d] + One(x == d);
  }

  lemma HandleRemoved(h: multiset<Handle>, x: Handle, i: nat)
    requires x in h
    ensures References(h - multiset{x}, i) == References(h, i) - One(x.index == i)
    ensures Writers(h - multiset{x}, i) == Writers(h, i) - One(x.index == i && x.writable)
    ensures Blockers(h - multiset{x}, i) == Blockers(h, i) - One(x.index == i && x.blocking)
  {
    HandleAdded(h - multiset{x}, x, i);
    assert h - multiset{x} + multiset{x} == h;
  }

  /** A handle more on node i changes no other count. */
  lemma MoreHandles(nodes: seq<Node>, h: multiset<Handle>, queued: set<nat>, x: Handle, n: Node)
    requires NodesOk(nodes, h, queued) && x.index < |nodes|
    requires NodeOk(n, x.index, h + multiset{x}, x.index in queued)
    ensures NodesOk(nodes[x.index := n], h + multiset{x}, queued)
  {
  }

  /** A handle less, and perhaps one more node queued. */
  lemma FewerHandles(nodes: seq<Node>, h: multiset<Handle>, queued: set<nat>, x: Handle, n: Node, enqueue: bool)
    requires NodesOk(nodes, h, queued) && x in h
    requires NodeOk(n, x.index, h - multiset{x}, enqueue || x.index in queued)
    ensures NodesOk(nodes[x.index := n], h - multiset{x}, queued + if enqueue then {x.index} else {})
  {
  }

  /** The node with one more reference, mapped as given. */
  function Referred(n: Node, chunk: Chunk, flags: GetFlags): Node {
    Node(n.references + 1, n.writable + One(flags.writable), n.blocking + One(flags.blocking), Some(chunk),
         n.triggered && !flags.writable)
  }

  /** The chunk a node has after it was referred to: mapped anew if it was not, or not writable enough. */
  function ChunkFor(n: Node, flags: GetFlags): Chunk {
    if n.chunk.None? || (flags.writable && !n.chunk.value.writable) then Chunk(flags.writable) else n.chunk.value
  }

  lemma NodeAt(nodes: seq<Node>, h: multiset<Handle>, queued: set<nat>, i: nat)
    requires NodesOk(nodes, h, queued) && i < |nodes|
    ensures NodeOk(nodes[i], i, h, i in queued)
  {
  }

  lemma ReferredNode(n: Node, i: nat, h: multiset<Handle>, queued: bool, chunk: Chunk, flags: GetFlags)
    requires NodeOk(n, i, h, queued)
    requires (flags.writable || (n.chunk.Some? && n.chunk.value.writable)) ==> chunk.writable
    ensures NodeOk(Referred(n, chunk, flags), i, h + multiset{Handle(i, flags.writable, flags.blocking)}, queued)
  {
    hide References, Writers, Blockers;
    HandleAdded(h, Handle(i, flags.writable, flags.blocking), i);
  }

  lemma ReferredOk(nodes: seq<Node>, h: multiset<Handle>, queued: set<nat>, i: nat, chunk: Chunk, flags: GetFlags)
    requires NodesOk(nodes, h, queued) && i < |nodes|
    requires (flags.writable || (nodes[i].chunk.Some? && nodes[i].chunk.value.writable)) ==> chunk.writable
    ensures var x := Handle(i, flags.writable, flags.blocking);
            NodesOk(nodes[i := Referred(nodes[i], chunk, flags)], h + multiset{x}, queued)
  {
    hide NodesOk, NodeOk;
    NodeAt(nodes, h, queued, i);
    ReferredNode(nodes[i], i, h, i in queued, chunk, flags);
    MoreHandles(nodes, h, queued, Handle(i, flags.writable, flags.blocking), Referred(nodes[i], chunk, flags));
  }

  /** The node after handle x on it is released: the last writer leaves its references to the queue. */
  function Unreferred(n: Node, x: Handle): Node {
    var n1 := n.(blocking := n.blocking - One(x.blocking));
    if x.writable then
      if n.writable == 1 then n1 else n1.(references := n.references - 1, writable := n.writable - 1)
    else n1.(references := n.references - 1, chunk := if n.references == 1 then None else n.chunk)
  }

  /** What Release checks of a handle. */
  predicate HandleFits(n: Node, x: Handle) {
    n.references > 0 && (x.writable ==> n.writable > 0) && (x.blocking ==> n.blocking > 0) && n.chunk.Some?
  }

  lemma UnreferredOk(nodes: seq<Node>, h: multiset<Handle>, queued: set<nat>, x: Handle)
    requires NodesOk(nodes, h, queued) && x in h
    ensures var n := nodes[x.index]; var enqueue := x.writable && n.writable == 1;
            && NodesOk(nodes[x.index := Unreferred(n, x)], h - multiset{x}, queued + if enqueue then {x.index} else {})
            && HandleFits(n, x)
            && (enqueue || (!x.writable && n.references == 1) ==> x.index !in queued)
  {
    hide NodesOk;
    IndexOk(nodes, h, queued, x);
    NodeAt(nodes, h, queued, x.index);
    var n := nodes[x.index];
    UnreferredNode(n, h, x.index in queued, x);
    FewerHandles(nodes, h, queued, x, Unreferred(n, x), x.writable && n.writable == 1);
  }

  /** The queue after handle x on node n is released: the last writer leaves the node in it. */
  function Enqueued(q: seq<nat>, n: Node, x: Handle): seq<nat> {
    if x.writable && n.writable == 1 then q + [x.index] else q
  }

  lemma ReleasedOk(nodes: seq<Node>, h: multiset<Handle>, q: seq<nat>, x: Handle)
    requires NodesOk(nodes, h, Elements(q)) && Distinct(q) && x in h && x.index < |nodes|
    ensures var n := nodes[x.index]; var q' := Enqueued(q, n, x);
            && NodesOk(nodes[x.index := Unreferred(n, x)], h - multiset{x}, Elements(q')) && Distinct(q')
            && HandleFits(n, x)
            && (x.index in q ==> if x.writable then n.writable != 1 else n.references != 1)
  {
    hide NodesOk, Unreferred, Distinct;
    UnreferredOk(nodes, h, Elements(q), x);
    Appended(q, x.index);
    assert Elements(q) + {} == Elements(q);
  }

  lemma IndexOk(nodes: seq<Node>, h: multiset<Handle>, queued: set<nat>, x: Handle)
    requires NodesOk(nodes, h, queued) && x in h
    ensures x.index < |nodes|
  {
  }

  lemma UnreferredNode(n: Node, h: multiset<Handle>, queued: bool, x: Handle)
    requires NodeOk(n, x.index, h, queued) && x in h
    ensures NodeOk(Unreferred(n, x), x.index, h - multiset{x}, queued || (x.writable && n.writable == 1))
    ensures HandleFits(n, x)
    ensures (x.writable && n.writable == 1) || (!x.writable && n.references == 1) ==> !queued
  {
    hide References, Writers, Blockers;
    HandleRemoved(h, x, x.index);
  }

  /** The node after an attempt to write it to disk; only a success may release it. */
  function Synced(n: Node, ok: bool, release: bool): Node {
    if !ok then n
    else if !release then n.(triggered := true)
    else Node(n.references - 1, n.writable - 1, n.blocking, if n.references == 1 then None else n.chunk, true)
  }

  predicate Releases(flags: SyncFlags, triggered: bool) { flags.force || !flags.safe || triggered }

  lemma SyncedOk(nodes: seq<Node>, h: multiset<Handle>, queued: set<nat>, i: nat, ok: bool, release: bool)
    requires NodesOk(nodes, h, queued) && i in queued
    ensures i < |nodes| && nodes[i].references > 0 && nodes[i].writable > 0 && nodes[i].chunk.Some?
    ensures NodesOk(nodes[i := Synced(nodes[i], ok, release)], h, if ok && release then queued - {i} else queued)
  {
    assert NodeOk(nodes[i], i, h, true);
    hide References, Writers, Blockers;
  }

  /** The in-place sweep over a queue a, from s0 on, has come to i: what it released is between `split`
      and i, what it keeps is before `split`, and nothing is lost. */
  ghost predicate Sweep(a: seq<nat>, s0: nat, q: seq<nat>, split: nat, i: nat, gone: set<nat>) {
    && s0 <= split <= i <= |a| == |q| && Distinct(q) && Elements(q) == Elements(a)
    && q[i..] == a[i..]
    && (forall k :: split <= k < i ==> q[k] in gone)
    && (forall k :: 0 <= k < split ==> q[k] !in gone)
    && (forall k :: i <= k < |q| ==> q[k] !in gone)
    && gone <= Elements(q) && |gone| == i - split
  }

  lemma SweepStart(a: seq<nat>, s0: nat)
    requires Distinct(a) && s0 <= |a|
    ensures Sweep(a, s0, a, s0, s0, {})
  {
  }

  lemma SweepDrop(a: seq<nat>, s0: nat, q: seq<nat>, split: nat, i: nat, gone: set<nat>)
    requires Sweep(a, s0, q, split, i, gone) && i < |q|
    ensures Sweep(a, s0, q, split, i + 1, gone + {q[i]}) && q[i] == a[i] && q[i] in Elements(q) - gone
  {
    assert q[i] == q[i..][0] && a[i..][1..] == a[i + 1..] && q[i..][1..] == q[i + 1..];
    assert q[i] !in gone && q[i] in Elements(q);
  }

  lemma SweepKeep(a: seq<nat>, s0: nat, q: seq<nat>, split: nat, i: nat, gone: set<nat>)
    requires Sweep(a, s0, q, split, i, gone) && i < |q|
    ensures Sweep(a, s0, q[i := q[split]][split := q[i]], split + 1, i + 1, gone)
  {
    var r := q[i := q[split]][split := q[i]];
    assert a[i..][1..] == a[i + 1..] && q[i..][1..] == q[i + 1..] == r[i + 1..];
    Swapped(q, split, i);
  }

  lemma Swapped(q: seq<nat>, k: nat, i: nat)
    requires k <= i < |q|
    ensures Elements(q[i := q[k]][k := q[i]]) == Elements(q)
  {
    var r := q[i := q[k]][k := q[i]];
    forall x | x in q ensures x in r {
      var j :| 0 <= j < |q| && q[j] == x;
      assert r[if j == i then k else if j == k then i else j] == x;
    }
  }

  lemma SweepEnd(a: seq<nat>, s0: nat, q: seq<nat>, split: nat, gone: set<nat>)
    requires Sweep(a, s0, q, split, |q|, gone)
    ensures Distinct(q[..split]) && Elements(q[..split]) == Elements(a) - gone
  {
    forall x | x in Elements(a) - gone ensures x in q[..split] {
      var k :| 0 <= k < |q| && q[k] == x;
      assert q[..split][k] == x;
    }
  }

  /** Of the visited chunks, those written to disk and released. */
  ghost function Gone(visited: set<nat>, ok: set<nat>, nodes: seq<Node>, flags: SyncFlags): set<nat> {
    set n | n in visited && n in ok && n < |nodes| && Releases(flags, nodes[n].triggered)
  }

  ghost predicate SyncedAll(was: seq<Node>, now: seq<Node>, visited: set<nat>, ok: set<nat>, flags: SyncFlags) {
    && |was| == |now|
    && forall n :: 0 <= n < |was| ==>
         now[n] == if n in visited then Synced(was[n], n in ok, Releases(flags, was[n].triggered)) else was[n]
  }

  /** A chunk whose writing fails, or that is not visited, is as it was. */
  lemma FailedStay(was: seq<Node>, now: seq<Node>, visited: set<nat>, ok: set<nat>, flags: SyncFlags)
    requires SyncedAll(was, now, visited, ok, flags)
    ensures forall n :: 0 <= n < |now| && n !in visited * ok ==> now[n] == was[n]
  {
  }

  lemma MarksSynced(was: seq<Node>, now: seq<Node>, arranged: seq<nat>, split: nat, ok: set<nat>, flags: SyncFlags)
    requires split <= |arranged| && SyncedAll(was, now, Elements(arranged[split..]), ok, flags)
    ensures forall n :: Marked(was, n) ==> Marked(now, n)
    ensures forall n :: !Marked(was, n) && Marked(now, n) ==> n in arranged && n in ok
  {
  }

  /** Which marks referring to a node, and taking a handle from it, leave. */
  lemma MarksReferred(nodes: seq<Node>, i: nat, chunk: Chunk, flags: GetFlags)
    requires i < |nodes|
    ensures forall n :: Marked(nodes[i := Referred(nodes[i], chunk, flags)], n) <==>
                          Marked(nodes, n) && !(n == i && flags.writable)
  {
  }

  lemma MarksUnreferred(nodes: seq<Node>, i: nat, x: Handle)
    requires i < |nodes|
    ensures forall n :: Marked(nodes[i := Unreferred(nodes[i], x)], n) <==> Marked(nodes, n)
  {
  }

  lemma SyncStep(was: seq<Node>, now: seq<Node>, seen: set<nat>, ok: set<nat>, flags: SyncFlags, n: nat)
    requires SyncedAll(was, now, seen, ok, flags) && n !in seen && n < |was|
    ensures now[n] == was[n]
    ensures SyncedAll(was, now[n := Synced(now[n], n in ok, Releases(flags, now[n].triggered))], seen + {n}, ok, flags)
    ensures Gone(seen + {n}, ok, was, flags) ==
              Gone(seen, ok, was, flags) + if n in ok && Releases(flags, now[n].triggered) then {n} else {}
    ensures |seen + {n} - ok| == |seen - ok| + One(n !in ok)
  {
    if n in ok {
      assert seen + {n} - ok == seen - ok;
    } else {
      assert seen + {n} - ok == seen - ok + {n};
    }
  }

  lemma Visit(a: seq<nat>, s0: nat, i: nat)
    requires Distinct(a) && s0 <= i < |a|
    ensures Elements(a[s0..i + 1]) == Elements(a[s0..i]) + {a[i]} && a[i] !in Elements(a[s0..i])
  {
    assert a[s0..i + 1] == a[s0..i] + [a[i]];
  }

  lemma Rearranged(q: seq<nat>, a: seq<nat>)
    requires multiset(a) == multiset(q) && Distinct(q)
    ensures Distinct(a) && Elements(a) == Elements(q) && |a| == |q|
  {
    assert |multiset(a)| == |a| && |multiset(q)| == |q|;
    assert forall x :: x in a ==> x in multiset(a);
    assert forall x :: x in q ==> x in multiset(q);
    forall i, j | 0 <= i < j < |a| ensures a[i] != a[j] {
      if a[i] == a[j] {
        assert a == a[..i] + [a[i]] + a[i + 1..j] + [a[j]] + a[j + 1..];
        assert multiset(a)[a[i]] >= 2;
        DistinctOnce(q, a[i]);
        assert false;
      }
    }
  }

  lemma {:induction false} DistinctOnce(q: seq<nat>, x: nat)
    requires Distinct(q)
    ensures multiset(q)[x] <= 1
  {
    if q != [] {
      var k := |q| - 1;
      assert q == q[..k] + [q[k]];
      DistinctOnce(q[..k], x);
      assert q[k] !in q[..k];
    }
  }

  lemma QueuedNode(nodes: seq<Node>, h: multiset<Handle>, queued: set<nat>, n: nat)
    requires NodesOk(nodes, h, queued) && n in queued
    ensures n < |nodes|
  {
  }

  lemma MulSub(c: nat, n: nat, k: nat)
    requires k <= n
    ensures Bytes(c, n) - Bytes(c, n - k) == Bytes(c, k)
  {
  }

  lemma Released(nodes: seq<Node>, h: multiset<Handle>, q: seq<nat>, c: nat, memory: nat, syncMemory: nat, x: Handle)
    requires Accounted(nodes, h, q, c, memory, syncMemory) && x in h
    ensures x.index < |nodes| && HandleFits(nodes[x.index], x)
            && (Unreferred(nodes[x.index], x).chunk.None? ==> memory >= c)
    ensures var n := nodes[x.index]; var unmap := Unreferred(n, x).chunk.None?;
            && Accounted(nodes[x.index := Unreferred(n, x)], h - multiset{x}, Enqueued(q, n, x), c,
                         memory - (if unmap then c else 0), syncMemory + (if Enqueued(q, n, x) == q then 0 else c))
            && (unmap || Enqueued(q, n, x) != q ==> x.index !in q)
  {
    hide Bytes, Mapped, NodesOk, Distinct, Elements;
    IndexOk(nodes, h, Elements(q), x);
    ReleasedOk(nodes, h, q, x);
    MemoryUpdate(c, nodes, x.index, Unreferred(nodes[x.index], x));
    ChunkTimes(c, |q|);
  }

  /** Taking a handle from a node: it may have to be queued, or be unmapped at once. */
  method Unrefer(n: Node, x: Handle) returns (node: Node, enqueue: bool, unmap: bool)
    requires HandleFits(n, x)
    ensures node == Unreferred(n, x)
    ensures (enqueue <==> x.writable && n.writable == 1) && (unmap <==> node.chunk.None?)
    ensures unmap <==> !x.writable && n.references == 1
  {
    node, enqueue, unmap := n, false, false;
    if x.blocking { node := node.(blocking := node.blocking - 1); }
    if x.writable {
      if node.writable == 1 {
        enqueue := true;
      } else {
        node := node.(references := node.references - 1, writable := node.writable - 1);
      }
    } else {
      node := node.(references := node.references - 1);
      if node.references == 0 {
        node := node.(chunk := None);
        unmap := true;
      }
    }
  }

  ghost predicate Accounted(nodes: seq<Node>, h: multiset<Handle>, q: seq<nat>, c: nat, memory: int, syncMemory: int) {
    && Distinct(q) && NodesOk(nodes, h, Elements(q))
    && memory == Bytes(c, Mapped(nodes)) && syncMemory == Bytes(c, |q|)
  }

  class ChunkList {
    const chunkSize: nat
    var nodes: seq<Node>
    var queue: seq<nat>
    var memory: nat              // accounted for mapped chunks
    var syncMemory: nat          // accounted for queued chunks
    ghost var handles: multiset<Handle>

    ghost predicate Valid()
      reads this
    {
      Accounted(nodes, handles, queue, chunkSize, memory, syncMemory)
    }

    constructor (size: nat, chunkSize: nat)
      ensures Valid() && |nodes| == size && (forall i :: 0 <= i < size ==> nodes[i] == UNUSED)
      ensures queue == [] && handles == multiset{} && memory == 0
    {
      hide NodesOk, Mapped, Bytes, Elements;
      NewNodes(size, chunkSize);
      this.chunkSize := chunkSize;
      nodes := seq(size, _ => UNUSED);
      queue, memory, syncMemory, handles := [], 0, 0, multiset{};
    }

    /** A node that is mapped, or is being mapped, gets a handle more. */
    method Refer(index: nat, chunk: Chunk, usage: nat, flags: GetFlags) returns (x: Handle)
      requires Valid() && index < |nodes| && usage == memory + (if nodes[index].chunk.None? then chunkSize else 0)
      requires flags.writable || (nodes[index].chunk.Some? && nodes[index].chunk.value.writable) ==> chunk.writable
      modifies this`nodes, this`memory, this`handles
      ensures Valid() && x == Handle(index, flags.writable, flags.blocking) && handles == old(handles) + multiset{x}
      ensures nodes == old(nodes)[index := Referred(old(nodes)[index], chunk, flags)]
    {
      hide Bytes, Mapped, Distinct, Elements, NodesOk;
      var node := nodes[index].(references := nodes[index].references + 1, chunk := Some(chunk));
      if flags.writable { node := node.(writable := node.writable + 1, triggered := false); }
      if flags.blocking { node := node.(blocking := node.blocking + 1); }
      x := Handle(index, flags.writable, flags.blocking);
      MemoryUpdate(chunkSize, nodes, index, node);
      ReferredOk(nodes, handles, Elements(queue), index, chunk, flags);
      assert node == Referred(nodes[index], chunk, flags);
      nodes := nodes[index := node];
      handles := handles + multiset{x};
      memory := usage;
    }

    /** A handle on chunk `index`. `allocates` says whether memory may be used for one more chunk,
        `creates` is the error of mapping the chunk, or none. */
    method Get(index: nat, flags: GetFlags, allocates: bool, creates: Option<int>) returns (r: GetResult)
      requires Valid() && index < |nodes|
      modifies this
      ensures Valid() && queue == old(queue)
      ensures var n := old(nodes)[index];
              if n.chunk.Some? && (flags.writable ==> n.chunk.value.writable) then r.Got?
              else if n.chunk.None? && !allocates then r == Error(ENOMEM)
              else if n.chunk.Some? && n.blocking != 0 then r == if flags.nonblock then Error(EAGAIN) else Fault
              else match creates
                   case Some(e) => r.Error? && r.errno == if e == 0 then ENOENT else e
                   case None => r.Got?
      ensures r.Got? ==>
                && r.handle == Handle(index, flags.writable, flags.blocking)
                && handles == old(handles) + multiset{r.handle}
                && nodes == old(nodes)[index := Referred(old(nodes)[index], ChunkFor(old(nodes)[index], flags), flags)]
      ensures !r.Got? ==> nodes == old(nodes) && handles == old(handles)
    {
      hide Valid, Referred;
      var node := nodes[index];
      var usage := memory;
      var chunk: Chunk;
      if node.chunk.None? {
        if !allocates { return Error(ENOMEM); }
        usage := usage + chunkSize;
        if creates.Some? {
          usage := usage - chunkSize;
          return Error(if creates.value == 0 then ENOENT else creates.value);
        }
        chunk := Chunk(flags.writable);
      } else if flags.writable && !node.chunk.value.writable {
        if node.blocking != 0 {
          if flags.nonblock { return Error(EAGAIN); }
          return Fault;
        }
        if creates.Some? { return Error(if creates.value == 0 then ENOENT else creates.value); }
        chunk := Chunk(true);
      } else {
        chunk := node.chunk.value;
      }
      var x := Refer(index, chunk, usage, flags);
      r := Got(x);
    }

    method Release(x: Handle)
      requires Valid() && x in handles
      modifies this
      ensures Valid() && handles == old(handles) - multiset{x}
      ensures x.index < |old(nodes)| && nodes == old(nodes)[x.index := Unreferred(old(nodes)[x.index], x)]
      ensures queue == Enqueued(old(queue), old(nodes)[x.index], x)
    {
      hide Accounted, Unreferred;
      Released(nodes, handles, queue, chunkSize, memory, syncMemory, x);
      var node, enqueue, unmap := Unrefer(nodes[x.index], x);
      nodes := nodes[x.index := node];
      handles := handles - multiset{x};
      if enqueue {
        assert x.index !in queue;
        queue := queue + [x.index];
        syncMemory := syncMemory + chunkSize;
      } else if unmap {
        assert x.index !in queue;
        memory := memory - chunkSize;
      }
    }

    /** One attempt to write a queued chunk to disk. */
    method SyncChunk(i: nat, ok: bool, release: bool, ghost queued: set<nat>) returns (done: bool)
      requires NodesOk(nodes, handles, queued) && i in queued && i < |nodes|
               && memory == Bytes(chunkSize, Mapped(nodes))
      modifies this`nodes, this`memory
      ensures done == ok && nodes == old(nodes)[i := Synced(old(nodes)[i], ok, release)]
      ensures NodesOk(nodes, handles, if ok && release then queued - {i} else queued)
              && memory == Bytes(chunkSize, Mapped(nodes))
    {
      hide Bytes, Mapped, NodesOk;
      SyncedOk(nodes, handles, queued, i, ok, release);
      MemoryUpdate(chunkSize, nodes, i, Synced(nodes[i], ok, release));
      assert nodes[i].references > 0 && nodes[i].writable > 0;
      if !ok {
        assert nodes == nodes[i := nodes[i]];
        return false;
      }
      nodes := nodes[i := nodes[i].(triggered := true)];
      if !release { return true; }
      nodes := nodes[i := nodes[i].(references := nodes[i].references - 1, writable := nodes[i].writable - 1)];
      if nodes[i].references == 0 {
        nodes := nodes[i := nodes[i].(chunk := None)];
        memory := memory - chunkSize;
      }
      assert nodes == old(nodes)[i := Synced(old(nodes)[i], ok, release)];
      return true;
    }

    /** One step of the sweep: the chunk at i is written to disk, and swapped down if it stays queued. */
    method SyncNext(i: nat, split: nat, flags: SyncFlags, ok: set<nat>, ghost a: seq<nat>, ghost s0: nat,
        ghost gone: set<nat>)
      returns (done: bool, release: bool)
      requires split <= i < |queue| == |a| && Sweep(a, s0, queue, split, i, gone)
      requires NodesOk(nodes, handles, Elements(a) - gone) && memory == Bytes(chunkSize, Mapped(nodes))
      modifies this`queue, this`nodes, this`memory
      ensures var n := a[i]; var gone' := if done && release then gone + {n} else gone;
              && n < |old(nodes)| && done == (n in ok) && release == Releases(flags, old(nodes)[n].triggered)
              && nodes == old(nodes)[n := Synced(old(nodes)[n], done, release)]
              && |queue| == |a| && Sweep(a, s0, queue, if done && release then split else split + 1, i + 1, gone')
              && NodesOk(nodes, handles, Elements(a) - gone') && memory == Bytes(chunkSize, Mapped(nodes))
    {
      hide Bytes, Distinct, NodesOk, Elements, Mapped, Sweep, Releases, Synced;
      SweepDrop(a, s0, queue, split, i, gone);
      SweepKeep(a, s0, queue, split, i, gone);
      var n := queue[i];
      QueuedNode(nodes, handles, Elements(a) - gone, n);
      release := Releases(flags, nodes[n].triggered);
      done := SyncChunk(n, n in ok, release, Elements(a) - gone);
      if !done || !release { queue := queue[i := queue[split]][split := queue[i]]; }
      assert Elements(a) - gone - {n} == Elements(a) - (gone + {n});
    }

    /** Queued chunks are written to disk, those from `split0` on in a rearranged queue, in place. The
        queue loses exactly the chunks that were written and released; `ok` are those whose writing
        succeeds. */
    method SyncChunks(arranged: seq<nat>, split0: nat, flags: SyncFlags, ok: set<nat>) returns (failed: nat)
      requires Valid() && split0 <= |arranged| && multiset(arranged) == multiset(queue)
      modifies this
      ensures Valid() && handles == old(handles) && |nodes| == |old(nodes)|
      ensures var visited := Elements(arranged[split0..]);
              && SyncedAll(old(nodes), nodes, visited, ok, flags)
              && Elements(queue) == Elements(old(queue)) - Gone(visited, ok, old(nodes), flags)
              && failed == |visited - ok|
              && forall n :: 0 <= n < |nodes| && n !in visited * ok ==> nodes[n] == old(nodes)[n]
    {
      hide Bytes, Distinct, NodesOk, Elements, Mapped, Gone, SyncedAll, Swept;
      Rearranged(queue, arranged);
      queue := arranged;
      var i, split := split0, split0;
      failed := 0;
      ghost var was := nodes;
      StartSweep(split0, flags, ok);
      while i < |queue|
        modifies this`queue, this`nodes, this`memory
        invariant i <= |queue| == |arranged| && Swept(arranged, split0, split, i, flags, ok, was, failed)
      {
        split, failed := SweepOne(arranged, split0, split, i, flags, ok, was, failed);
        i := i + 1;
      }
      assert arranged[split0..|arranged|] == arranged[split0..];
      FinishSweep(arranged, split0, split, flags, ok, was, failed);
      FailedStay(was, nodes, Elements(arranged[split0..]), ok, flags);
    }

    /** All queued chunks are written to disk, and all with success. Only safe syncing keeps some of them:
        those not marked as written before, which are then marked. */
    method SyncWhole(arranged: seq<nat>, flags: SyncFlags, ok: set<nat>)
      requires Valid() && multiset(arranged) == multiset(queue) && Elements(queue) <= ok
      modifies this
      ensures Valid() && handles == old(handles) && |nodes| == |old(nodes)|
      ensures flags.force || !flags.safe ==> queue == []
      ensures !flags.force && flags.safe ==>
                && (forall n :: n in queue <==> n in old(queue) && !Marked(old(nodes), n))
                && (forall n :: n in queue ==> Marked(nodes, n))
    {
      hide Accounted, SyncedAll, Gone, Elements;
      QueueFits();
      var failed := SyncChunks(arranged, 0, flags, ok);
      assert arranged[0..] == arranged;
      SameElements(arranged, old(queue));
      WholeSynced(old(nodes), nodes, old(queue), queue, ok, flags);
    }

    lemma QueueFits()
      requires Valid()
      ensures forall n :: n in queue ==> n < |nodes|
    {
      hide Bytes, Mapped, NodeOk;
      assert forall n :: n in queue ==> n in Elements(queue);
    }

    /** Safe syncing ends: of two syncs the second leaves nothing. */
    method SafeSyncTwice(ok: set<nat>)
      requires Valid() && Elements(queue) <= ok
      modifies this
      ensures Valid() && handles == old(handles) && queue == []
    {
      hide Accounted, Elements;
      SyncWhole(queue, SAFE, ok);
      Subset(queue, old(queue), ok);
      SyncWhole(queue, SAFE, ok);
      FirstIn(queue);
    }

    /** And it is safe: a chunk that was asked for writing between the two is kept by the second. */
    method SafeSyncAfterGet(index: nat, flags: GetFlags, allocates: bool, creates: Option<int>, ok: set<nat>)
      returns (r: GetResult, ghost marked: bool)
      requires Valid() && Elements(queue) <= ok && index in queue && flags.writable
      modifies this
      ensures Valid() && (!Marked(old(nodes), index) ==> marked)
      ensures r.Got? && !Marked(old(nodes), index) ==> index in queue && Marked(nodes, index)
    {
      hide Accounted, Elements;
      QueueFits();
      SyncWhole(queue, SAFE, ok);
      marked := Marked(nodes, index);
      r := Get(index, flags, allocates, creates);
      Subset(queue, old(queue), ok);
      if r.Got? { SyncWhole(queue, SAFE, ok); }
    }

    /** The sweep has come to i: what it visited is written to disk, and released if that succeeded. */
    ghost predicate Swept(a: seq<nat>, s0: nat, split: nat, i: nat, flags: SyncFlags, ok: set<nat>, was: seq<Node>,
        failed: nat)
      reads this
    {
      && s0 <= split <= i <= |queue| == |a| && Distinct(a)
      && var seen := Elements(a[s0..i]);
         var gone := Gone(seen, ok, was, flags);
      && Sweep(a, s0, queue, split, i, gone)
      && NodesOk(nodes, handles, Elements(a) - gone) && memory == Bytes(chunkSize, Mapped(nodes))
      && SyncedAll(was, nodes, seen, ok, flags) && |nodes| == |was| && failed == |seen - ok|
    }

    lemma StartSweep(s0: nat, flags: SyncFlags, ok: set<nat>)
      requires s0 <= |queue| && Distinct(queue) && NodesOk(nodes, handles, Elements(queue))
               && memory == Bytes(chunkSize, Mapped(nodes))
      ensures Swept(queue, s0, s0, s0, flags, ok, nodes, 0)
    {
      hide Bytes, Distinct, NodesOk, Elements, Mapped, Sweep, Gone, SyncedAll;
      SweepStart(queue, s0);
      SyncNone(nodes, ok, flags);
      assert Elements(queue) - {} == Elements(queue) && queue[s0..s0] == [];
    }

    method SweepOne(ghost a: seq<nat>, ghost s0: nat, split: nat, i: nat, flags: SyncFlags, ok: set<nat>,
        ghost was: seq<Node>, failed: nat)
      returns (split': nat, failed': nat)
      requires i < |queue| && Swept(a, s0, split, i, flags, ok, was, failed)
      modifies this`queue, this`nodes, this`memory
      ensures |queue| == |old(queue)| && Swept(a, s0, split', i + 1, flags, ok, was, failed')
    {
      hide Bytes, Distinct, NodesOk, Elements, Mapped, Sweep, Gone, SyncedAll, Releases, Synced;
      ghost var seen, before := Elements(a[s0..i]), nodes;
      Visit(a, s0, i);
      var done, release := SyncNext(i, split, flags, ok, a, s0, Gone(seen, ok, was, flags));
      SyncStep(was, before, seen, ok, flags, a[i]);
      split' := if !done || !release then split + 1 else split;
      failed' := if !done then failed + 1 else failed;
    }

    method FinishSweep(ghost a: seq<nat>, ghost s0: nat, split: nat, ghost flags: SyncFlags, ghost ok: set<nat>,
        ghost was: seq<Node>, ghost failed: nat)
      requires Swept(a, s0, split, |queue|, flags, ok, was, failed) && syncMemory == Bytes(chunkSize, |queue|)
               && s0 <= |a|
      modifies this`queue, this`syncMemory
      ensures s0 <= |a| == |old(queue)| && Valid()
      ensures var visited := Elements(a[s0..|a|]);
              && SyncedAll(was, nodes, visited, ok, flags) && |nodes| == |was| && failed == |visited - ok|
              && Elements(queue) == Elements(a) - Gone(visited, ok, was, flags)
    {
      hide Bytes, Distinct, NodesOk, Elements, Mapped, Sweep, Gone, SyncedAll, Releases, Synced;
      EraseFrom(split, a, s0, Gone(Elements(a[s0..|a|]), ok, was, flags));
    }

    method EraseFrom(split: nat, ghost a: seq<nat>, ghost s0: nat, ghost gone: set<nat>)
      requires split <= |queue| && Sweep(a, s0, queue, split, |queue|, gone) && syncMemory == Bytes(chunkSize, |queue|)
      modifies this`queue, this`syncMemory
      ensures Distinct(queue) && Elements(queue) == Elements(a) - gone && syncMemory == Bytes(chunkSize, |queue|)
    {
      hide Bytes, Distinct, Elements, Sweep;
      SweepEnd(a, s0, queue, split, gone);
      MulSub(chunkSize, |queue|, split);
      syncMemory := syncMemory - Bytes(chunkSize, |queue| - split);
      queue := queue[..split];
    }

    /** Shutting down: queued chunks are dropped, not written. It succeeds if and only if no handle is
        live; otherwise one of the checks fails. */
    method Clear() returns (ok: bool)
      requires Valid()
      modifies this
      ensures ok <==> old(handles) == multiset{}
      ensures ok ==> Valid() && nodes == [] && queue == [] && memory == 0 && syncMemory == 0 && handles == multiset{}
    {
      hide Bytes, Distinct, NodesOk, Elements, Mapped, NodeOk;
      var i := 0;
      assert queue[i..] == queue;
      while i < |queue|
        modifies this`nodes, this`memory
        invariant i <= |queue| && NodesOk(nodes, handles, Elements(queue[i..]))
                  && memory == Bytes(chunkSize, Mapped(nodes))
      {
        var n := queue[i];
        Rest(queue, i);
        QueuedNode(nodes, handles, Elements(queue[i..]), n);
        SoleReference(nodes, handles, Elements(queue[i..]), n);
        if nodes[n].references != 1 || nodes[n].writable != 1 { return false; }
        SyncedOk(nodes, handles, Elements(queue[i..]), n, true, true);
        var node := nodes[n].(references := 0, writable := 0, chunk := None);
        MemoryUpdate(chunkSize, nodes, n, node);
        Untriggered(nodes, handles, Elements(queue[i..]) - {n}, n, node);
        nodes := nodes[n := node];
        memory := memory - chunkSize;
        i := i + 1;
      }
      ChunkTimes(chunkSize, 0);
      MulSub(chunkSize, |queue|, 0);
      syncMemory := syncMemory - Bytes(chunkSize, |queue|);
      assert queue[i..] == [];
      queue := [];
      Unreferenced(nodes, handles);
      if exists n :: n in nodes && n.chunk.Some? { return false; }
      if exists n :: n in nodes && n.references != 0 { return false; }
      if exists n :: n in nodes && n.writable != 0 { return false; }
      if exists n :: n in nodes && n.blocking != 0 { return false; }
      NoneMapped(nodes);
      NoneMapped([]);
      nodes := [];
      ok := true;
    }

    /** The one call that faults: to write to a chunk that is mapped for reading only, while a handle
        blocks it, and without being ready to be turned away. */
    ghost predicate Refuses(c: Call)
      reads this`nodes
    {
      && c.Get? && c.index < |nodes| && c.flags.writable && !c.flags.nonblock
      && nodes[c.index].chunk.Some? && !nodes[c.index].chunk.value.writable && nodes[c.index].blocking != 0
    }

    /** The block is then held by a handle that only reads. */
    lemma RefusedByReader(c: Call)
      requires Valid() && Refuses(c)
      ensures Handle(c.index, false, true) in handles
    {
      NodeAt(nodes, handles, Elements(queue), c.index);
    }

    /** One call, which is skipped if it names no chunk, no live handle, or another queue. */
    method Perform(c: Call, live: seq<Handle>) returns (live': seq<Handle>, fault: bool)
      requires Valid() && handles == multiset(live)
      modifies this
      ensures Valid() && handles == multiset(live') && |nodes| == |old(nodes)|
      ensures fault <==> old(Refuses(c))
      ensures forall n :: Marked(old(nodes), n) && !Marked(nodes, n) ==> c.Get? && c.index == n && c.flags.writable
      ensures forall n :: !Marked(old(nodes), n) && Marked(nodes, n) ==> c.Sync? && n in c.arranged && n in c.ok
      ensures c.Get? && c.flags.writable && live' != live ==> !Marked(nodes, c.index)
      ensures fault ==> nodes == old(nodes) && live' == live
      ensures |live'| == |live| + if c.Get? && live' != live then 1 else if c.Release? && c.k < |live| then -1 else 0
      ensures c.Get? && c.Given(|nodes|) ==> live' == live + [Handle(c.index, false, c.flags.blocking)]
    {
      hide Valid, SyncedAll, Gone, Referred, Unreferred, Elements, Marked, ChunkFor, Enqueued;
      live', fault := live, false;
      match c
      case Get(index, flags, allocates, creates) =>
        if index < |nodes| {
          MarksReferred(nodes, index, ChunkFor(nodes[index], flags), flags);
          var r := Get(index, flags, allocates, creates);
          fault := r.Fault?;
          if r.Got? { live' := live + [r.handle]; }
        }
      case Release(k) =>
        if k < |live| {
          assert live == live[..k] + [live[k]] + live[k + 1..];
          Release(live[k]);
          MarksUnreferred(old(nodes), live[k].index, live[k]);
          live' := live[..k] + live[k + 1..];
        }
      case Sync(arranged, split, flags, ok) =>
        if multiset(arranged) == multiset(queue) && split <= |arranged| {
          var failed := SyncChunks(arranged, split, flags, ok);
          MarksSynced(old(nodes), nodes, arranged, split, ok, flags);
        }
    }

    /** Any calls, on an unused list: `live` are the handles that were given and not released, `done` the
        calls before the one that faulted. The counts stay those of the live handles and the queue,
        whatever fails; once all handles are released, Clear succeeds. A run stops if and only if its next
        call is refused, and then a reader is to blame. */
    method Run(calls: seq<Call>) returns (live: seq<Handle>, done: nat, fault: bool, ghost given: seq<bool>)
      requires Valid() && handles == multiset{}
      modifies this
      ensures |given| == done <= |calls| && |live| == LiveCount(calls[..done], given)
      ensures forall i :: 0 <= i < done && calls[i].Get? && calls[i].Given(|nodes|) ==> given[i]
      ensures Valid() && handles == multiset(live) && |nodes| == |old(nodes)|
      ensures done <= |calls| && (!fault ==> done == |calls|)
      ensures fault <==> done < |calls| && Refuses(calls[done])
      ensures fault ==> Handle(calls[done].index, false, true) in live
    {
      hide Valid, Refuses;
      live, done, fault, given := [], 0, false, [];
      while done < |calls|
        invariant Valid() && handles == multiset(live) && |nodes| == |old(nodes)| && done <= |calls| && !fault
        invariant |given| == done && |live| == LiveCount(calls[..done], given)
        invariant forall i :: 0 <= i < done && calls[i].Get? && calls[i].Given(|nodes|) ==> given[i]
      {
        ghost var before := live;
        live, fault := Perform(calls[done], live);
        if fault {
          RefusedByReader(calls[done]);
          return;
        }
        assert calls[..done + 1][..done] == calls[..done] && (given + [live != before])[..done] == given;
        given := given + [live != before];
        done := done + 1;
      }
    }
  }

  const SAFE := SyncFlags(false, true)

  /** Node n was written to disk since it was last asked for writing. */
  ghost predicate Marked(nodes: seq<Node>, n: nat) { n < |nodes| && nodes[n].triggered }

  lemma SameElements(a: seq<nat>, b: seq<nat>)
    requires multiset(a) == multiset(b)
    ensures Elements(a) == Elements(b)
  {
    assert forall x :: x in a <==> x in multiset(a);
    assert forall x :: x in b <==> x in multiset(b);
  }

  lemma WholeSynced(was: seq<Node>, now: seq<Node>, before: seq<nat>, after: seq<nat>, ok: set<nat>, flags: SyncFlags)
    requires SyncedAll(was, now, Elements(before), ok, flags) && Elements(before) <= ok
    requires Elements(after) == Elements(before) - Gone(Elements(before), ok, was, flags)
    requires forall n :: n in before ==> n < |was|
    ensures flags.force || !flags.safe ==> after == []
    ensures !flags.force && flags.safe ==>
              && (forall n :: n in after <==> n in before && !Marked(was, n))
              && (forall n :: n in after ==> Marked(now, n))
  {
    forall n ensures n in after <==> n in before && !Releases(flags, Marked(was, n)) {
      assert n in after <==> n in Elements(after);
      assert n in before <==> n in Elements(before);
    }
    if after != [] { assert after[0] in after; }
  }

  lemma Subset(q: seq<nat>, before: seq<nat>, ok: set<nat>)
    requires Elements(before) <= ok && forall n :: n in q ==> n in before
    ensures Elements(q) <= ok
  {
  }

  lemma FirstIn(q: seq<nat>)
    ensures q != [] ==> q[0] in q
  {
  }

  const READ := GetFlags(false, true, false)

  lemma BlockedByRead()
    ensures var n := Referred(UNUSED, ChunkFor(UNUSED, READ), READ); n.chunk == Some(Chunk(false)) && n.blocking == 1
  {
  }

  /** It does happen: a chunk is being hashed, and somebody wants to write to it. */
  method WriteWhileRead(size: nat, chunkSize: nat, index: nat, write: GetFlags, allocates: bool, creates: Option<int>)
    returns (r: GetResult)
    requires index < size && write.writable
    ensures r == if write.nonblock then Error(EAGAIN) else Fault
  {
    hide ChunkList.Valid, Referred, ChunkFor;
    BlockedByRead();
    var list := new ChunkList(size, chunkSize);
    assert list.nodes[index] == UNUSED;
    var read := list.Get(index, READ, true, None);
    r := list.Get(index, write, allocates, creates);
  }

  /** A call; Release names a live handle by its place. */
  datatype Call =
    | Get(index: nat, flags: GetFlags, allocates: bool, creates: Option<int>)
    | Release(k: nat)
    | Sync(arranged: seq<nat>, split: nat, sync: SyncFlags, ok: set<nat>)
  {
    /** To read a chunk that can be mapped. */
    predicate Given(size: nat)
      requires Get?
    {
      index < size && !flags.writable && allocates && creates.None?
    }
  }

  /** How many handles are live after some calls, if `given` says which of those for a chunk got one. */
  ghost function LiveCount(calls: seq<Call>, given: seq<bool>): int
    requires |calls| == |given|
  {
    if calls == [] then 0
    else
      var k := |calls| - 1;
      var n := LiveCount(calls[..k], given[..k]);
      match calls[k]
      case Get(_, _, _, _) => n + One(given[k])
      case Release(i) => if i < n then n - 1 else n
      case Sync(_, _, _, _) => n
  }

  lemma UnusedOk(i: nat)
    ensures NodeOk(UNUSED, i, multiset{}, false)
  {
  }

  lemma NewNodes(size: nat, chunkSize: nat)
    ensures var nodes := seq(size, _ => UNUSED);
            NodesOk(nodes, multiset{}, Elements([])) && Bytes(chunkSize, Mapped(nodes)) == 0 == Bytes(chunkSize, 0)
  {
    hide Mapped, Bytes, NodeOk;
    NoneMapped(seq(size, _ => UNUSED));
    ChunkTimes(chunkSize, 0);
    forall i: nat ensures NodeOk(UNUSED, i, multiset{}, false) { UnusedOk(i); }
  }

  lemma Rest(q: seq<nat>, i: nat)
    requires Distinct(q) && i < |q|
    ensures q[i] in Elements(q[i..]) && Elements(q[i..]) - {q[i]} == Elements(q[i + 1..])
  {
    assert q[i..] == [q[i]] + q[i + 1..];
  }

  lemma SoleReference(nodes: seq<Node>, h: multiset<Handle>, queued: set<nat>, n: nat)
    requires NodesOk(nodes, h, queued) && n in queued
    ensures n < |nodes| && nodes[n].chunk.Some?
    ensures h == multiset{} ==> nodes[n].references == 1 && nodes[n].writable == 1
  {
    assert NodeOk(nodes[n], n, h, true);
  }

  /** Which state the triggered mark is in does not matter. */
  lemma Untriggered(nodes: seq<Node>, h: multiset<Handle>, queued: set<nat>, n: nat, node: Node)
    requires n < |nodes| && NodesOk(nodes[n := node.(triggered := true)], h, queued)
    ensures NodesOk(nodes[n := node], h, queued)
  {
    var s := nodes[n := node.(triggered := true)];
    forall i | 0 <= i < |nodes|
      ensures NodeOk(nodes[n := node][i], i, h, i in queued) { assert NodeOk(s[i], i, h, i in queued); }
  }

  lemma Unreferenced(nodes: seq<Node>, h: multiset<Handle>)
    requires NodesOk(nodes, h, Elements([]))
    ensures h == multiset{} <==>
              forall n :: n in nodes ==> n.chunk.None? && n.references == n.writable == n.blocking == 0
    ensures h == multiset{} ==> NodesOk([], h, Elements([])) && Distinct<nat>([])
  {
    if h != multiset{} {
      var x :| x in h;
      assert NodeOk(nodes[x.index], x.index, h, false) && nodes[x.index] in nodes;
    } else {
      forall n | n in nodes ensures n.chunk.None? && n.references == n.writable == n.blocking == 0 {
        var i :| 0 <= i < |nodes| && nodes[i] == n;
        assert NodeOk(nodes[i], i, h, false);
      }
    }
  }

  lemma SyncNone(was: seq<Node>, ok: set<nat>, flags: SyncFlags)
    ensures Elements([]) == {} && Gone({}, ok, was, flags) == {} && SyncedAll(was, was, {}, ok, flags)
  {
  }

  lemma Appended(q: seq<nat>, x: nat)
    ensures Elements(q + [x]) == Elements(q) + {x}
    ensures Distinct(q) && x !in q ==> Distinct(q + [x])
  {
  }
}
