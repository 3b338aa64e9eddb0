/** A chunk of the torrent in memory: one part for each file it touches, together one run of bytes. */
module Chunks {
  import opened Collections
  import I = Id160

  type Byte = I.Byte

  datatype ChunkPart = ChunkPart(memory: array<Byte>, position: nat)

  /** Sizes and positions are unsigned 32-bit numbers. */
  const WORD: nat := 0x1_0000_0000

  type Word = x: nat | x < WORD

  /** The sum and difference of such numbers. */
  function Plus(a: Word, b: Word): Word { (a + b) % WORD }

  function Minus(a: Word, b: Word): Word { (a - b) % WORD }

  function Total(parts: seq<ChunkPart>): nat {
    if parts == [] then 0 else Total(parts[..|parts| - 1]) + parts[|parts| - 1].memory.Length
  }

  ghost function Arrays(parts: seq<ChunkPart>): set<array<Byte>> { set p | p in parts :: p.memory }

  /** The bytes of all parts, one after the other. */
  ghost function Flat(parts: seq<ChunkPart>): (r: seq<Byte>)
    reads Arrays(parts)
    ensures |r| == Total(parts)
  {
    if parts == [] then [] else
      assert Arrays(parts[..|parts| - 1]) <= Arrays(parts);
      assert parts[|parts| - 1] in parts;
      Flat(parts[..|parts| - 1]) + parts[|parts| - 1].memory[..]
  }

  /** Part k begins where the parts before it end. */
  ghost predicate Placed(parts: seq<ChunkPart>) {
    forall k :: 0 <= k < |parts| ==> parts[k].position == Total(parts[..k])
  }

  ghost predicate Apart(parts: seq<ChunkPart>) {
    forall j, k :: 0 <= j < k < |parts| ==> parts[j].memory != parts[k].memory
  }

  lemma {:induction false} TotalConcat(a: seq<ChunkPart>, b: seq<ChunkPart>)
    ensures Total(a + b) == Total(a) + Total(b)
  {
    if b == [] {
      assert a + b == a;
    } else {
      assert (a + b)[..|a + b| - 1] == a + b[..|b| - 1];
      TotalConcat(a, b[..|b| - 1]);
    }
  }

  lemma {:induction false} FlatConcat(a: seq<ChunkPart>, b: seq<ChunkPart>)
    ensures Flat(a + b) == Flat(a) + Flat(b)
  {
    if b == [] {
      assert a + b == a;
    } else {
      assert (a + b)[..|a + b| - 1] == a + b[..|b| - 1];
      FlatConcat(a, b[..|b| - 1]);
    }
  }

  ghost predicate Joins(s: seq<Byte>, x: seq<Byte>, y: seq<Byte>, z: seq<Byte>) { s == x + y + z }

  /** The bytes before part k, its own, and those after it. */
  lemma FlatAround(parts: seq<ChunkPart>, k: nat)
    requires k < |parts|
    ensures Joins(Flat(parts), Flat(parts[..k]), parts[k].memory[..], Flat(parts[k + 1..]))
    ensures Total(parts) == Total(parts[..k]) + parts[k].memory.Length + Total(parts[k + 1..])
  {
    hide Flat, Total;
    SplitAt(parts, k);
    FlatConcat(parts[..k], [parts[k]] + parts[k + 1..]);
    FlatConcat([parts[k]], parts[k + 1..]);
    TotalConcat(parts[..k], [parts[k]] + parts[k + 1..]);
    TotalConcat([parts[k]], parts[k + 1..]);
    OnePart(parts[k]);
    Associates(Flat(parts[..k]), parts[k].memory[..], Flat(parts[k + 1..]));
  }

  lemma SplitAt<T>(s: seq<T>, k: nat)
    requires k < |s|
    ensures s == s[..k] + ([s[k]] + s[k + 1..])
  {
  }

  lemma Associates(a: seq<Byte>, b: seq<Byte>, c: seq<Byte>)
    ensures a + (b + c) == a + b + c
  {
  }

  lemma OnePart(p: ChunkPart)
    ensures Flat([p]) == p.memory[..] && Total([p]) == p.memory.Length
  {
    assert [p][..0] == [];
  }

  lemma Pushed(parts: seq<ChunkPart>, p: ChunkPart)
    requires Placed(parts) && Apart(parts) && p.memory !in Arrays(parts) && p.position == Total(parts)
    ensures Placed(parts + [p]) && Apart(parts + [p])
    ensures Total(parts + [p]) == Total(parts) + p.memory.Length && Flat(parts + [p]) == Flat(parts) + p.memory[..]
  {
    hide Flat, Total;
    FlatConcat(parts, [p]);
    TotalConcat(parts, [p]);
    OnePart(p);
    assert forall k :: 0 <= k < |parts| ==> (parts + [p])[..k] == parts[..k] && parts[k].memory in Arrays(parts);
    assert (parts + [p])[..|parts|] == parts;
  }

  /** Consecutive parts touch. */
  lemma NextPosition(parts: seq<ChunkPart>, k: nat)
    requires Placed(parts) && k < |parts|
    ensures parts[k].position + parts[k].memory.Length ==
              if k + 1 < |parts| then parts[k + 1].position else Total(parts)
    ensures parts[k].position + parts[k].memory.Length <= Total(parts)
  {
    hide Flat, Total, Placed, Arrays, Joins;
    FlatAround(parts, k);
    PositionIs(parts, k);
    TotalTaken(parts, k);
    if k + 1 < |parts| { PositionIs(parts, k + 1); }
  }

  lemma TotalTaken(parts: seq<ChunkPart>, k: nat)
    requires k < |parts|
    ensures Total(parts[..k + 1]) == Total(parts[..k]) + parts[k].memory.Length
    ensures k + 1 == |parts| ==> parts[..k + 1] == parts
  {
    assert parts[..k + 1][..k] == parts[..k];
  }

  class Chunk {
    var parts: seq<ChunkPart>
    var size: nat
    ghost var memory: set<array<Byte>>

    ghost predicate Valid()
      reads this
    {
      Placed(parts) && Apart(parts) && size == Total(parts) < WORD && memory == Arrays(parts)
    }

    ghost function Bytes(): (r: seq<Byte>)
      requires Valid()
      reads this, memory
      ensures |r| == size
    {
      Flat(parts)
    }

    constructor ()
      ensures Valid() && parts == [] && size == 0
    {
      parts, size, memory := [], 0, {};
    }

    /** Another part is added at the end. */
    method PushBack(memory: array<Byte>)
      requires Valid() && memory !in Arrays(parts) && size + memory.Length < WORD
      modifies this
      ensures Valid() && Bytes() == old(Bytes()) + memory[..] && parts == old(parts) + [ChunkPart(memory, old(size))]
    {
      hide Flat, Total, Placed, Apart;
      var p := ChunkPart(memory, size);
      Pushed(parts, p);
      ghost var before, bytes := parts, Flat(parts);
      parts := parts + [p];
      size := size + memory.Length;
      this.memory := this.memory + {memory};
      assert Flat(before) == bytes;
      Pushed(before, p);
      assert p in parts && forall q :: q in before ==> q in parts;
    }

    /** The part that holds position pos: the first of those that do, which is not an empty one. */
    method AtPosition(pos: nat) returns (k: nat)
      requires Valid() && pos < size
      ensures k < |parts| && parts[k].position <= pos < parts[k].position + parts[k].memory.Length
    {
      k := 0;
      while k < |parts| && !(parts[k].position <= pos < parts[k].position + parts[k].memory.Length)
        invariant k <= |parts| && (if k < |parts| then parts[k].position <= pos else Total(parts) <= pos)
      {
        NextPosition(parts, k);
        k := k + 1;
      }
    }

    /** The end of the range wraps around, and its beginning is in the chunk. */
    predicate Wraps(position: Word, length: Word)
      reads this
    {
      position < size && position + length >= WORD
    }

    /** `end` is how far a range is gone through: to its end, or, if that wraps around, to the end of the
        part that it begins in. */
    ghost predicate Reaches(position: Word, length: Word, end: nat)
      reads this
    {
      && position <= end <= size
      && if Wraps(position, length) then EndsPart(position, end) else end == position + length
    }

    /** `end` is the end of the part that holds `position`. */
    ghost predicate EndsPart(position: Word, end: nat)
      reads this
    {
      exists k :: 0 <= k < |parts| && parts[k].position <= position < parts[k].position + parts[k].memory.Length == end
    }

    /** The range passes the tests of the source: its end, as computed, is in the chunk, and so is its
        beginning unless it is empty. */
    predicate Accepts(position: Word, length: Word)
      reads this
    {
      Plus(position, length) <= size && (length == 0 || position < size)
    }

    /** The ranges that pass are those within the chunk, and those that wrap around. */
    lemma AcceptsIs(position: Word, length: Word)
      requires Valid()
      ensures Accepts(position, length) <==> position + length <= size || Wraps(position, length)
      ensures Accepts(position, length) ==>
                Plus(position, length) ==
                  if Wraps(position, length) then position + length - WORD else position + length
    {
      hide Placed, Apart, Total;
    }

    /** An iterator on a range that passes. */
    method Begin(position: Word, length: Word) returns (itr: ChunkIterator, ghost end: nat)
      requires Valid() && Accepts(position, length) && length > 0
      ensures fresh(itr) && itr.first == position && itr.Walks(this, position, Plus(position, length), end, true)
      ensures Reaches(position, length, end) && end <= position + length && position < end <= size
    {
      hide Placed, Apart, Total;
      AcceptsIs(position, length);
      itr := new ChunkIterator(this, position, Plus(position, length));
      var p := parts[itr.part];
      NextPosition(parts, itr.part);
      end := if Wraps(position, length) then p.position + p.memory.Length else position + length;
    }

    /** Bytes from `position` on are read, across any parts. */
    method ToBuffer(position: Word, length: Word) returns (r: Option<seq<Byte>>, ghost end: nat)
      requires Valid()
      ensures r.Some? <==> position + length <= size || Wraps(position, length)
      ensures r.Some? ==> Reaches(position, length, end) && r.value == Bytes()[position..end]
    {
      hide Flat, Total, Placed, Apart, ChunkIterator.Walks, ChunkIterator.PieceEnd, Reaches;
      AcceptsIs(position, length);
      ghost var bytes := Bytes();
      end := position;
      if Plus(position, length) > size { return None, end; }
      if length == 0 {
        NoBytes(position);
        return Some([]), end;
      }
      if position >= size { return None, end; }
      var itr;
      itr, end := Begin(position, length);
      var buffer: seq<Byte> := [];
      assert bytes[position..position] == [];
      var more := true;
      while more
        invariant fresh(itr) && itr.Walks(this, position, Plus(position, length), end, more) && bytes == Bytes()
        invariant position <= itr.first && (!more ==> Min(itr.first, end) == end)
        invariant buffer == bytes[position..Min(itr.first, end)]
        decreases end - itr.first, more
      {
        itr.Piece(this, position, Plus(position, length), end);
        var data := itr.Read();
        Extend(bytes, position, itr.first, itr.first + |data|);
        buffer := buffer + data;
        more := itr.Advance(this, position, Plus(position, length), end);
      }
      return Some(buffer), end;
    }

    lemma NoBytes(position: Word)
      requires Valid() && position <= size
      ensures Reaches(position, 0, position) && Bytes()[position..position] == []
    {
      hide Placed, Apart, Total, Flat;
    }

    /** Whether the bytes from `position` on are those of a buffer. */
    method CompareBuffer(buffer: seq<Byte>, position: Word) returns (r: Option<bool>, ghost end: nat)
      requires Valid() && |buffer| < WORD
      ensures r.Some? <==> position + |buffer| <= size || Wraps(position, |buffer|)
      ensures r.Some? ==> Reaches(position, |buffer|, end) && end <= position + |buffer|
      ensures r.Some? ==> r.value == Agree(Bytes(), position, buffer, end - position)
    {
      hide Flat, Total, Placed, Apart, ChunkIterator.Walks, ChunkIterator.PieceEnd, Reaches, Agree;
      AcceptsIs(position, |buffer|);
      ghost var bytes := Bytes();
      end := position;
      if Plus(position, |buffer|) > size { return None, end; }
      if |buffer| == 0 {
        NoBytes(position);
        AgreeNone(bytes, position, buffer);
        return Some(true), end;
      }
      if position >= size { return None, end; }
      var itr;
      itr, end := Begin(position, |buffer|);
      AgreeNone(bytes, position, buffer);
      var more := true;
      while more
        invariant fresh(itr) && itr.Walks(this, position, Plus(position, |buffer|), end, more) && bytes == Bytes()
        invariant Reaches(position, |buffer|, end) && position <= itr.first && (!more ==> Min(itr.first, end) == end)
        invariant Agree(bytes, position, buffer, Min(itr.first, end) - position)
        decreases more, end - itr.first
      {
        var same;
        same, more := CompareNext(itr, buffer, position, end);
        if !same { return Some(false), end; }
      }
      return Some(true), end;
    }

    /** The piece at hand is compared. */
    method CompareNext(itr: ChunkIterator, buffer: seq<Byte>, position: Word, ghost end: nat)
      returns (same: bool, more: bool)
      requires Valid() && |buffer| < WORD && itr.Walks(this, position, Plus(position, |buffer|), end, true)
      requires position <= itr.first && end <= position + |buffer| && position < end <= size
      requires Agree(Bytes(), position, buffer, Min(itr.first, end) - position)
      modifies itr
      ensures same ==>
                && itr.Walks(this, position, Plus(position, |buffer|), end, more) && position <= itr.first
                && (if more then old(itr.first) < itr.first <= end else Min(itr.first, end) == end)
                && Agree(Bytes(), position, buffer, Min(itr.first, end) - position)
      ensures !same ==> !Agree(Bytes(), position, buffer, end - position)
    {
      hide Flat, Total, Placed, Apart, ChunkIterator.PieceEnd, Agree;
      more := false;
      itr.Piece(this, position, Plus(position, |buffer|), end);
      var data := itr.Read();
      var at := itr.first - position;
      CompareStep(Bytes(), position, buffer, at, data, end - position);
      same := data == buffer[at..at + |data|];
      if same { more := itr.Advance(this, position, Plus(position, |buffer|), end); }
    }

    /** A buffer is written at `position`, across any parts; every other byte stays. */
    method FromBuffer(buffer: seq<Byte>, position: Word) returns (ok: bool, ghost end: nat)
      requires Valid() && |buffer| < WORD
      modifies memory
      ensures ok <==> position + |buffer| <= size || Wraps(position, |buffer|)
      ensures ok ==> Reaches(position, |buffer|, end) && end <= position + |buffer|
      ensures ok ==> Bytes() == Overwrite(old(Bytes()), position, buffer[..end - position])
      ensures !ok ==> Bytes() == old(Bytes())
    {
      hide Flat, Total, Placed, Apart, Overwrite, ChunkIterator.Walks, ChunkIterator.PieceEnd, Reaches;
      AcceptsIs(position, |buffer|);
      ghost var bytes := Bytes();
      end := position;
      if Plus(position, |buffer|) > size { return false, end; }
      assert buffer[..0] == [];
      if |buffer| == 0 {
        OverwriteNone(bytes, position);
        NoBytes(position);
        return true, end;
      }
      if position >= size { return false, end; }
      OverwriteNone(bytes, position);
      var itr;
      itr, end := Begin(position, |buffer|);
      var more := true;
      while more
        modifies memory, itr
        invariant itr.Walks(this, position, Plus(position, |buffer|), end, more) && Reaches(position, |buffer|, end)
        invariant position <= itr.first && (!more ==> Min(itr.first, end) == end)
        invariant Bytes() == Overwrite(bytes, position, buffer[..Min(itr.first, end) - position])
        decreases more, end - itr.first
      {
        more := WriteNext(itr, buffer, position, end, bytes);
      }
      return true, end;
    }

    /** The piece at hand is written. */
    method WriteNext(itr: ChunkIterator, buffer: seq<Byte>, position: Word, ghost end: nat, ghost bytes: seq<Byte>)
      returns (more: bool)
      requires Valid() && |buffer| < WORD && itr.Walks(this, position, Plus(position, |buffer|), end, true)
      requires position <= itr.first && end <= position + |buffer| && position < end <= size == |bytes|
      requires Bytes() == Overwrite(bytes, position, buffer[..Min(itr.first, end) - position])
      modifies memory, itr
      ensures itr.Walks(this, position, Plus(position, |buffer|), end, more) && position <= itr.first
      ensures if more then old(itr.first) < itr.first <= end else Min(itr.first, end) == end
      ensures Bytes() == Overwrite(bytes, position, buffer[..Min(itr.first, end) - position])
    {
      hide Flat, Total, Placed, Apart, Overwrite, ChunkIterator.PieceEnd;
      itr.Piece(this, position, Plus(position, |buffer|), end);
      var offset, length := itr.Data();
      var at := itr.first - position;
      itr.Write(buffer[at..at + length]);
      Extend(buffer, 0, at, at + length);
      OverwriteMore(bytes, position, buffer[..at], buffer[at..at + length]);
      more := itr.Advance(this, position, Plus(position, |buffer|), end);
    }

    /** A transfer that reads from a stream into a range, as much at a time as the stream has: counts[i] is
        what the i-th read may give at most. It stops at a read that gives nothing, or at the end of the
        range, and what it has read are consecutive bytes of the stream at consecutive offsets. */
    method Receive(position: nat, last: nat, stream: seq<Byte>, counts: seq<nat>) returns (read: nat)
      requires Valid() && position < last <= size
      modifies memory
      ensures read <= |stream| && position + read <= last
      ensures Bytes() == Overwrite(old(Bytes()), position, stream[..read])
      ensures (forall c :: c in counts ==> c > 0) && |counts| >= last - position ==>
                read == Min(last - position, |stream|)
    {
      hide Flat, Total, Placed, Apart, Overwrite;
      ghost var bytes := Bytes();
      OverwriteNone(bytes, position);
      var itr := new ChunkIterator(this, position, last);
      var more, i := true, 0;
      read := 0;
      assert stream[..0] == [];
      while more && i < |counts|
        modifies memory, itr
        invariant itr.Walks(this, position, last, last, itr.first < last) && (more ==> itr.first < last)
        invariant itr.first == position + read && read <= |stream| && i <= |counts| && itr.first <= last
        invariant Bytes() == Overwrite(bytes, position, stream[..read])
        invariant (forall c :: c in counts ==> c > 0) ==>
                    if more then read >= i else read == |stream| || itr.first == last
      {
        assert counts[i] in counts;
        var n;
        more, n := ReceiveNext(itr, position, last, stream, read, counts[i], bytes);
        read := read + n;
        i := i + 1;
      }
    }

    /** One read from the stream, of at most `count` bytes, into the piece at hand. */
    method ReceiveNext(itr: ChunkIterator, position: nat, last: nat, stream: seq<Byte>, read: nat, count: nat,
        ghost bytes: seq<Byte>)
      returns (more: bool, n: nat)
      requires Valid() && position < last <= size == |bytes| && itr.Walks(this, position, last, last, true)
      requires itr.first == position + read < last && read <= |stream|
      requires Bytes() == Overwrite(bytes, position, stream[..read])
      modifies memory, itr
      ensures itr.first == position + read + n <= last && read + n <= |stream| && (more <==> n > 0 && itr.first < last)
      ensures itr.Walks(this, position, last, last, itr.first < last)
      ensures n == 0 <==> count == 0 || read == |stream|
      ensures Bytes() == Overwrite(bytes, position, stream[..read + n])
    {
      hide Flat, Total, Placed, Apart, Overwrite;
      var offset, length := itr.Data();
      n := Min(Min(length, count), |stream| - read);
      itr.Write(stream[read..read + n]);
      Extend(stream, 0, read, read + n);
      OverwriteMore(bytes, position, stream[..read], stream[read..read + n]);
      more := false;
      if n != 0 { more := itr.Forward(n); }
    }
  }

  /** A range whose end wraps around is accepted, and cut short: of 4294967295 bytes from position 2 of a
      chunk of four bytes, two are read, and no error is reported. */
  method WrappedRangeIsShort(memory: array<Byte>) returns (c: Chunk, r: Option<seq<Byte>>)
    requires memory.Length == 4
    ensures c.Valid() && c.size == 4 && r == Some(memory[2..])
  {
    c := new Chunk();
    c.PushBack(memory);
    var length: Word := WORD - 1;
    assert c.Wraps(2, length) && |c.parts| == 1;
    ghost var end;
    r, end := c.ToBuffer(2, length);
    assert c.Bytes()[2..4] == memory[2..];
  }

  /** s with d written at p. */
  function Overwrite(s: seq<Byte>, p: nat, d: seq<Byte>): (r: seq<Byte>)
    requires p + |d| <= |s|
    ensures |r| == |s|
  {
    s[..p] + d + s[p + |d|..]
  }

  lemma OverwriteNone(s: seq<Byte>, p: nat)
    requires p <= |s|
    ensures Overwrite(s, p, []) == s
  {
  }

  lemma OverwriteMore(s: seq<Byte>, p: nat, d: seq<Byte>, e: seq<Byte>)
    requires p + |d| + |e| <= |s|
    ensures Overwrite(Overwrite(s, p, d), p + |d|, e) == Overwrite(s, p, d + e)
  {
    var r := Overwrite(s, p, d);
    assert r[..p + |d|] == s[..p] + d;
    assert r[p + |d| + |e|..] == s[p + |d| + |e|..];
  }

  lemma Extend<T>(s: seq<T>, a: nat, b: nat, c: nat)
    requires a <= b <= c <= |s|
    ensures s[a..c] == s[a..b] + s[b..c] && (a == 0 ==> s[a..b] == s[..b] && s[a..c] == s[..c])
  {
  }

  /** n bytes of s from p on are the first n of t. */
  ghost predicate Agree(s: seq<Byte>, p: nat, t: seq<Byte>, n: nat)
    requires n <= |t| && p + n <= |s|
  {
    s[p..p + n] == t[..n]
  }

  lemma AgreeNone(s: seq<Byte>, p: nat, t: seq<Byte>)
    requires p <= |s|
    ensures Agree(s, p, t, 0)
  {
  }

  /** One more piece that agrees, or one that does not. */
  lemma CompareStep(s: seq<Byte>, p: nat, t: seq<Byte>, at: nat, data: seq<Byte>, n: nat)
    requires at + |data| <= n <= |t| && p + n <= |s| && data == s[p + at..p + at + |data|] && Agree(s, p, t, at)
    ensures data == t[at..at + |data|] ==> Agree(s, p, t, at + |data|)
    ensures data != t[at..at + |data|] ==> !Agree(s, p, t, n)
  {
    if data == t[at..at + |data|] {
      Extend(s, p, p + at, p + at + |data|);
      Extend(t, 0, at, at + |data|);
    } else {
      assert t[..n][at..at + |data|] == t[at..at + |data|];
      Differs(s, p, t[..n], at, at + |data|);
    }
  }

  lemma Differs<T>(s: seq<T>, p: nat, t: seq<T>, a: nat, b: nat)
    requires p + |t| <= |s| && a <= b <= |t| && s[p + a..p + b] != t[a..b]
    ensures s[p..p + |t|] != t
  {
    var u := s[p..p + |t|];
    var i :| 0 <= i < b - a && s[p + a..p + b][i] != t[a..b][i];
    assert u[a + i] != t[a + i];
  }

  /** A range of one part is a range of the whole. */
  lemma PartSlice(parts: seq<ChunkPart>, k: nat, a: nat, b: nat)
    requires Placed(parts) && k < |parts| && a <= b <= parts[k].memory.Length
    ensures parts[k].position + b <= Total(parts)
    ensures Flat(parts)[parts[k].position + a..parts[k].position + b] == parts[k].memory[a..b]
  {
    hide *;
    NextPosition(parts, k);
    PartRange(parts, k, a, b);
    ArraySlice(parts[k].memory, a, b);
  }

  lemma PartRange(parts: seq<ChunkPart>, k: nat, a: nat, b: nat)
    requires Placed(parts) && k < |parts| && a <= b <= parts[k].memory.Length && parts[k].position + b <= Total(parts)
    ensures Flat(parts)[parts[k].position + a..parts[k].position + b] == parts[k].memory[..][a..b]
  {
    hide *;
    var p, y, s := parts[k].position, parts[k].memory[..], Flat(parts);
    var x, z := PartJoins(parts, k);
    Middle(s, x, y, z, p, a, b);
  }

  lemma PartJoins(parts: seq<ChunkPart>, k: nat) returns (x: seq<Byte>, z: seq<Byte>)
    requires Placed(parts) && k < |parts|
    ensures Joins(Flat(parts), x, parts[k].memory[..], z) && |x| == parts[k].position
  {
    hide *;
    FlatAround(parts, k);
    PositionIs(parts, k);
    x, z := Flat(parts[..k]), Flat(parts[k + 1..]);
  }

  lemma ArraySlice(m: array<Byte>, a: nat, b: nat)
    requires a <= b <= m.Length
    ensures m[..][a..b] == m[a..b]
  {
  }

  lemma PositionIs(parts: seq<ChunkPart>, k: nat)
    requires Placed(parts) && k < |parts|
    ensures parts[k].position == Total(parts[..k])
  {
  }

  lemma Overwritten(s: seq<Byte>, p: nat, d: seq<Byte>, t: seq<Byte>)
    requires p + |d| <= |s| == |t|
    requires forall i :: 0 <= i < |s| ==> t[i] == if p <= i < p + |d| then d[i - p] else s[i]
    ensures t == Overwrite(s, p, d)
  {
  }

  lemma Others(parts: seq<ChunkPart>, k: nat)
    requires Apart(parts) && k < |parts|
    ensures parts[k].memory !in Arrays(parts[..k]) && parts[k].memory !in Arrays(parts[k + 1..])
            && parts[k].memory in Arrays(parts)
  {
    assert parts[k] in parts;
  }

  /** Writing in the middle part writes in the whole. */
  lemma Within(s: seq<Byte>, x: seq<Byte>, y: seq<Byte>, z: seq<Byte>, p: nat, d: seq<Byte>, s': seq<Byte>,
      y': seq<Byte>)
    requires p + |d| <= |y| && Joins(s, x, y, z) && Joins(s', x, y', z) && y' == Overwrite(y, p, d)
    ensures |x| + p + |d| <= |s| && s' == Overwrite(s, |x| + p, d)
  {
  }

  lemma Middle(s: seq<Byte>, x: seq<Byte>, y: seq<Byte>, z: seq<Byte>, p: nat, a: nat, b: nat)
    requires Joins(s, x, y, z) && p == |x| && a <= b <= |y|
    ensures p + b <= |s| && s[p + a..p + b] == y[a..b]
  {
  }

  /** Walks a range of a chunk, one piece of a part at a time. */
  class ChunkIterator {
    const chunk: Chunk
    var part: nat
    var first: Word
    var last: Word

    /** The cursor is in the part, and not at the end of the range. */
    ghost predicate On()
      reads this, chunk
    {
      && chunk.Valid() && part < |chunk.parts| && first != last <= chunk.size
      && chunk.parts[part].position <= first < chunk.parts[part].position + chunk.parts[part].memory.Length
    }

    constructor (chunk: Chunk, first: Word, last: Word)
      requires chunk.Valid() && first < chunk.size && first != last <= chunk.size
      ensures On() && this.chunk == chunk && this.first == first && this.last == last
    {
      var k := chunk.AtPosition(first);
      this.chunk, part, this.first, this.last := chunk, k, first, last;
    }

    /** Where the piece at the cursor ends: the part ends there, or the range, if it is not behind. */
    ghost function PieceEnd(): (r: nat)
      requires On()
      reads this, chunk
      ensures first < r <= chunk.size
    {
      NextPosition(chunk.parts, part);
      var end := chunk.parts[part].position + chunk.parts[part].memory.Length;
      if first < last then Min(end, last) else end
    }

    /** The piece that begins at the cursor. */
    method Data() returns (offset: nat, length: nat)
      requires On()
      ensures chunk.parts[part].position + offset == first && length > 0 && first + length == PieceEnd()
    {
      hide Total, Placed, Apart;
      NextPosition(chunk.parts, part);
      offset := first - chunk.parts[part].position;
      length := Min(chunk.parts[part].memory.Length - offset, Minus(last, first));
    }

    /** The cursor walks from `position` to `end`, unless it has passed that: the end of the range or, for
        a range that wraps around, the end of the part it begins in. */
    ghost predicate Walks(c: Chunk, position: nat, last: nat, end: nat, more: bool)
      reads this, c
    {
      && chunk == c && this.last == last && position <= first && position < end <= c.size && c.Valid()
      && (more <==> first < end) && (more ==> On())
      && (if position < last then end == last else last < position && (more ==> first == position && end == PieceEnd()))
    }

    /** The bytes of that piece. */
    method Read() returns (data: seq<Byte>)
      requires On()
      ensures |data| > 0 && first + |data| == PieceEnd()
      ensures data == chunk.Bytes()[first..first + |data|]
    {
      hide Flat, Total, Placed, Apart;
      var offset, length := Data();
      PartSlice(chunk.parts, part, offset, offset + length);
      data := chunk.parts[part].memory[offset..offset + length];
    }

    /** Bytes are written to that piece. */
    method Write(data: seq<Byte>)
      requires On() && first + |data| <= PieceEnd()
      modifies chunk.parts[part].memory
      ensures On() && chunk.Bytes() == Overwrite(old(chunk.Bytes()), first, data)
    {
      hide Flat, Total, Placed, Apart, Arrays, Overwrite, Joins;
      var offset, length := Data();
      var p := chunk.parts[part];
      PositionIs(chunk.parts, part);
      FlatAround(chunk.parts, part);
      Others(chunk.parts, part);
      ghost var before, after := Flat(chunk.parts[..part]), Flat(chunk.parts[part + 1..]);
      forall i | 0 <= i < |data| { p.memory[offset + i] := data[i]; }
      assert Flat(chunk.parts[..part]) == before && Flat(chunk.parts[part + 1..]) == after;
      FlatAround(chunk.parts, part);
      Overwritten(old(p.memory[..]), offset, data, p.memory[..]);
      Within(old(Flat(chunk.parts)), before, old(p.memory[..]), after, offset, data, Flat(chunk.parts), p.memory[..]);
    }

    /** On to the part that follows, whatever empty ones there are between. */
    method Next() returns (more: bool)
      requires On()
      modifies this`part, this`first
      ensures first == old(chunk.parts[part].position + chunk.parts[part].memory.Length)
      ensures more <==> first < last
      ensures more ==> On() && first == chunk.parts[part].position
    {
      hide Total, Placed, Apart;
      NextPosition(chunk.parts, part);
      first := chunk.parts[part].position + chunk.parts[part].memory.Length;
      part := part + 1;
      while part < |chunk.parts|
        modifies this`part
        invariant part <= |chunk.parts|
        invariant first == if part < |chunk.parts| then chunk.parts[part].position else chunk.size
      {
        if chunk.parts[part].memory.Length != 0 { return first < last; }
        NextPosition(chunk.parts, part);
        part := part + 1;
      }
      return false;
    }

    lemma Piece(c: Chunk, position: nat, last: nat, end: nat)
      requires Walks(c, position, last, end, true)
      ensures On() && chunk == c && position <= first && PieceEnd() <= end
    {
      hide Total, Placed, Apart;
    }

    /** The same on a walk. */
    method Advance(c: Chunk, ghost position: nat, ghost last: nat, ghost end: nat) returns (more: bool)
      requires Walks(c, position, last, end, true)
      modifies this`part, this`first
      ensures Walks(c, position, last, end, more) && Min(first, end) == old(PieceEnd())
      ensures more ==> first < end && end - first < old(end - first)
      ensures !more ==> Min(first, end) == end
    {
      hide Total, Placed, Apart;
      more := Next();
    }

    /** Past the bytes that were transferred, be they all of a piece or not. */
    method Forward(length: nat) returns (more: bool)
      requires On() && first < last && first + length <= last
      modifies this`part, this`first
      ensures first == old(first) + length
      ensures more <==> first < last
      ensures more ==> On()
    {
      hide Total, Placed, Apart;
      first := first + length;
      if first >= last { return false; }
      while part < |chunk.parts|
        modifies this`part
        invariant part <= |chunk.parts|
        invariant if part < |chunk.parts| then chunk.parts[part].position <= first else chunk.size <= first
      {
        if first < chunk.parts[part].position + chunk.parts[part].memory.Length { return true; }
        NextPosition(chunk.parts, part);
        part := part + 1;
      }
      return false;
    }
  }

  /** Hashes a chunk piece by piece; what the hash function was fed is the first `position` bytes. */
  class HashChunk {
    const chunk: Chunk
    var position: nat
    var fed: seq<Byte>

    ghost predicate Valid()
      reads this, chunk, chunk.memory
    {
      chunk.Valid() && position <= chunk.size && fed == chunk.Bytes()[..position]
    }

    constructor (chunk: Chunk)
      requires chunk.Valid()
      ensures Valid() && this.chunk == chunk && position == 0
    {
      this.chunk, position, fed := chunk, 0, [];
    }

    /** The bytes of one part, or `length` of them. */
    method PerformPart(k: nat, length: nat) returns (n: nat)
      requires Valid() && k < |chunk.parts| && length > 0 && position + length <= chunk.size
      requires var p := chunk.parts[k]; p.position <= position < p.position + p.memory.Length
      modifies this`position, this`fed
      ensures Valid() && position == old(position) + n && 0 < n
      ensures old(position) + n == Min(old(position) + length, chunk.parts[k].position + chunk.parts[k].memory.Length)
    {
      hide Flat, Total, Placed, Apart;
      var p := chunk.parts[k];
      n := Min(length, p.memory.Length - (position - p.position));
      PartSlice(chunk.parts, k, position - p.position, position - p.position + n);
      Extend(chunk.Bytes(), 0, position, position + n);
      fed := fed + p.memory[position - p.position..position - p.position + n];
      position := position + n;
    }

    /** A forced step: `length` bytes, or what is left of the chunk, whatever parts they are in. */
    method Perform(length: nat) returns (complete: bool)
      requires Valid()
      modifies this`position, this`fed
      ensures Valid() && complete && position == Min(old(position) + length, chunk.size)
    {
      hide Flat, Total, Placed, Apart;
      var l := Min(length, chunk.size - position);
      ghost var end := position + l;
      while l > 0
        invariant Valid() && position + l == end <= chunk.size
      {
        var k := chunk.AtPosition(position);
        var n := PerformPart(k, l);
        l := l - n;
      }
      return true;
    }

    /** However the steps are split, they feed the chunk's bytes in order; enough of them feed it all. */
    method PerformAll(lengths: seq<nat>)
      requires Valid()
      modifies this`position, this`fed
      ensures Valid() && position == Min(old(position) + Sum(lengths), chunk.size)
      ensures old(position) + Sum(lengths) >= chunk.size ==> fed == chunk.Bytes()
    {
      hide Flat, Total, Placed, Apart;
      var i := 0;
      while i < |lengths|
        invariant i <= |lengths| && Valid() && position == Min(old(position) + Sum(lengths[..i]), chunk.size)
      {
        assert lengths[..i + 1] == lengths[..i] + [lengths[i]];
        SumConcat(lengths[..i], [lengths[i]]);
        var complete := Perform(lengths[i]);
        i := i + 1;
      }
      assert lengths[..i] == lengths;
    }
  }
}
