/** Control messages between peers: how they are written, and how they are read from a stream that comes
    in pieces of any size. */
module Wire {
  import opened Collections
  import I = Id160

  type Byte = I.Byte

  const BUFFER_SIZE: nat := 512
  const SIZEOF_PIECE: nat := 13

  datatype Message =
    | KeepAlive | Choke | Unchoke | Interested | NotInterested
    | Have(index: nat) | Request(piece: Piece) | Cancel(piece: Piece) | Port(port: nat)

  datatype Piece = Piece(index: nat, offset: nat, length: nat)

  const WORD: nat := 0x1_0000_0000

  predicate PieceOk(p: Piece) { p.index < WORD && p.offset < WORD && p.length < WORD }

  /** Fields fit the integers they are written as. */
  predicate MessageOk(m: Message) {
    match m
    case Have(i) => i < WORD
    case Request(p) => PieceOk(p)
    case Cancel(p) => PieceOk(p)
    case Port(n) => n < 0x1_0000
    case _ => true
  }

  /** A number as k bytes, the highest first. */
  function Bytes(v: nat, k: nat): (r: seq<Byte>)
    ensures |r| == k
  {
    if k == 0 then [] else Bytes(v / 256, k - 1) + [(v % 256) as Byte]
  }

  function Number(s: seq<Byte>): nat {
    if s == [] then 0 else 256 * Number(s[..|s| - 1]) + s[|s| - 1] as nat
  }

  function Power(k: nat): nat { if k == 0 then 1 else 256 * Power(k - 1) }

  lemma {:induction false} NumberOfBytes(v: nat, k: nat)
    requires v < Power(k)
    ensures Number(Bytes(v, k)) == v
  {
    if k > 0 {
      NumberOfBytes(v / 256, k - 1);
      assert Bytes(v, k)[..k - 1] == Bytes(v / 256, k - 1);
    }
  }

  lemma Widths()
    ensures Power(4) == WORD && Power(2) == 0x1_0000
  {
    assert Power(1) == 256 && Power(2) == 65536 && Power(3) == 16777216;
  }

  function PieceBytes(p: Piece): (r: seq<Byte>)
    ensures |r| == 12
  {
    Bytes(p.index, 4) + Bytes(p.offset, 4) + Bytes(p.length, 4)
  }

  function Body(m: Message): seq<Byte> {
    match m
    case KeepAlive => []
    case Choke => [0]
    case Unchoke => [1]
    case Interested => [2]
    case NotInterested => [3]
    case Have(i) => [4] + Bytes(i, 4)
    case Request(p) => [6] + PieceBytes(p)
    case Cancel(p) => [8] + PieceBytes(p)
    case Port(n) => [9] + Bytes(n, 2)
  }

  /** A message on the wire: its length, then its body. */
  function Encode(m: Message): (r: seq<Byte>)
    ensures 4 <= |r| <= 17
  {
    Bytes(|Body(m)|, 4) + Body(m)
  }

  function EncodeAll(ms: seq<Message>): seq<Byte> {
    if ms == [] then [] else Encode(ms[0]) + EncodeAll(ms[1..])
  }

  /** What comes before the bytes of a piece, and of an extension message. */
  datatype Head = PieceHead(piece: Piece) | ExtensionHead(id: nat, length: nat)

  /** Incomplete: more bytes are needed. Bad: the connection is closed. Payload: a piece or an extension
      message begins, the rest of which is read by other means. */
  datatype Parsed = Incomplete | Bad | Payload(head: Head, size: nat) | Parsed(message: Message, size: nat)

  function PieceAt(s: seq<Byte>): Piece
    requires |s| >= 12
  {
    Piece(Number(s[0..4]), Number(s[4..8]), Number(s[8..12]))
  }

  /** How the bytes at the front of the buffer are read; `leech` is whether the connection may receive
      pieces. */
  function Parse(leech: bool, s: seq<Byte>): Parsed {
    if |s| < 4 then Incomplete
    else
      var length, t := Number(s[..4]), s[4..];
      if length == 0 then Parsed(KeepAlive, 4)
      else if |t| < 1 then Incomplete
      else if length > 0x10_0000 then Bad
      else
        ParseBody(leech, length, t[0] as nat, t[1..])
  }

  function ParseBody(leech: bool, length: nat, command: nat, body: seq<Byte>): Parsed {
    if command == 0 then Parsed(Choke, 5)
    else if command == 1 then Parsed(Unchoke, 5)
    else if command == 2 then Parsed(Interested, 5)
    else if command == 3 then Parsed(NotInterested, 5)
    else if command == 4 then if |body| < 4 then Incomplete else Parsed(Have(Number(body[..4])), 9)
    else if command == 6 then if |body| < 12 then Incomplete else Parsed(Request(PieceAt(body)), 17)
    else if command == 8 then if |body| < 12 then Incomplete else Parsed(Cancel(PieceAt(body)), 17)
    else if command == 9 then if |body| < 2 then Incomplete else Parsed(Port(Number(body[..2])), 7)
    else if command == 7 then
      if !leech || length < 9 then Bad
      else if |body| < 8 then Incomplete
      else Payload(PieceHead(Piece(Number(body[..4]), Number(body[4..8]), length - 9)), 13)
    else if command == 20 then
      if |body| < 1 then Incomplete else Payload(ExtensionHead(body[0] as nat, Cut(length - 2)), 6)
    else Bad
  }

  /** A number as 32 bits without sign. */
  function Cut(n: int): nat { n % WORD }

  lemma PieceRoundTrip(p: Piece, rest: seq<Byte>)
    requires PieceOk(p)
    ensures PieceAt(PieceBytes(p) + rest) == p
  {
    hide Bytes, Number, Power;
    Widths();
    NumberOfBytes(p.index, 4);
    NumberOfBytes(p.offset, 4);
    NumberOfBytes(p.length, 4);
    var s := PieceBytes(p) + rest;
    assert s[0..4] == Bytes(p.index, 4) && s[4..8] == Bytes(p.offset, 4) && s[8..12] == Bytes(p.length, 4);
  }

  /** What is written is read back, whatever follows it. */
  lemma RoundTrip(leech: bool, m: Message, rest: seq<Byte>)
    requires MessageOk(m)
    ensures Parse(leech, Encode(m) + rest) == Parsed(m, |Encode(m)|)
  {
    hide Bytes, Number, Power, Body, ParseBody;
    Widths();
    BodyRoundTrip(leech, m, rest);
    var n := |Body(m)|;
    var s := Encode(m) + rest;
    NumberOfBytes(n, 4);
    assert s[..4] == Bytes(n, 4) && s[4..] == Body(m) + rest;
    if n > 0 { assert s[4..][1..] == Body(m)[1..] + rest; }
  }

  lemma BodyRoundTrip(leech: bool, m: Message, rest: seq<Byte>)
    requires MessageOk(m)
    ensures if m.KeepAlive? then Body(m) == []
            else
              && 0 < |Body(m)| <= 13
              && ParseBody(leech, |Body(m)|, Body(m)[0] as nat, Body(m)[1..] + rest) == Parsed(m, 4 + |Body(m)|)
  {
    hide Bytes, Number, Power, PieceBytes, PieceAt;
    Widths();
    match m
    case Have(i) =>
      NumberOfBytes(i, 4);
      assert (Body(m)[1..] + rest)[..4] == Bytes(i, 4);
    case Request(p) =>
      PieceRoundTrip(p, rest);
      assert Body(m)[1..] + rest == PieceBytes(p) + rest;
    case Cancel(p) =>
      PieceRoundTrip(p, rest);
      assert Body(m)[1..] + rest == PieceBytes(p) + rest;
    case Port(k) =>
      NumberOfBytes(k, 2);
      assert (Body(m)[1..] + rest)[..2] == Bytes(k, 2);
    case _ =>
  }

  /** The head of a piece or an extension message, as it is written. */
  function HeadBytes(h: Head): seq<Byte> {
    match h
    case PieceHead(p) => Bytes(9 + p.length, 4) + [7] + Bytes(p.index, 4) + Bytes(p.offset, 4)
    case ExtensionHead(id, length) => Bytes(2 + length, 4) + [20] + Bytes(id, 1)
  }

  /** The length of the message that a head announces. */
  function Announced(h: Head): nat { match h case PieceHead(p) => 9 + p.length case ExtensionHead(_, n) => 2 + n }

  predicate HeadOk(h: Head) {
    Announced(h) <= 0x10_0000 && match h case PieceHead(p) => PieceOk(p) case ExtensionHead(id, _) => id < 256
  }

  /** A head that was written is read back, whatever follows it; a piece only by who may receive one. */
  lemma HeadRoundTrip(leech: bool, h: Head, rest: seq<Byte>)
    requires HeadOk(h)
    ensures Parse(leech, HeadBytes(h) + rest) ==
            if h.PieceHead? && !leech then Bad else Payload(h, |HeadBytes(h)|)
  {
    hide Bytes, Number, Power, ParseBody;
    Widths();
    var s, n := HeadBytes(h) + rest, Announced(h);
    NumberOfBytes(n, 4);
    assert s[..4] == Bytes(n, 4);
    if h.PieceHead? {
      assert s[4..][1..] == Bytes(h.piece.index, 4) + Bytes(h.piece.offset, 4) + rest && s[4..][0] == 7;
    } else {
      assert s[4..][1..] == Bytes(h.id, 1) + rest && s[4..][0] == 20;
    }
    HeadBody(leech, h, rest);
  }

  lemma HeadBody(leech: bool, h: Head, rest: seq<Byte>)
    requires HeadOk(h)
    ensures match h
            case PieceHead(p) => ParseBody(leech, 9 + p.length, 7, Bytes(p.index, 4) + Bytes(p.offset, 4) + rest) ==
                                 if leech then Payload(h, 13) else Bad
            case ExtensionHead(id, n) => ParseBody(leech, 2 + n, 20, Bytes(id, 1) + rest) == Payload(h, 6)
  {
    hide Number, Power;
    Widths();
    match h
    case PieceHead(p) =>
      var body := Bytes(p.index, 4) + Bytes(p.offset, 4) + rest;
      NumberOfBytes(p.index, 4);
      NumberOfBytes(p.offset, 4);
      assert body[..4] == Bytes(p.index, 4) && body[4..8] == Bytes(p.offset, 4);
    case ExtensionHead(id, n) =>
      assert Bytes(id, 1) == Bytes(id / 256, 0) + [(id % 256) as Byte];
  }

  /** Messages as BEP 3 and BEP 5 have them, byte by byte. */
  lemma KnownMessages()
    ensures Encode(KeepAlive) == [0, 0, 0, 0]
    ensures Encode(Choke) == [0, 0, 0, 1, 0] && Encode(Unchoke) == [0, 0, 0, 1, 1]
    ensures Encode(Interested) == [0, 0, 0, 1, 2] && Encode(NotInterested) == [0, 0, 0, 1, 3]
    ensures Encode(Have(0x0102_0304)) == [0, 0, 0, 5, 4, 1, 2, 3, 4]
    ensures Encode(Port(0x1AE1)) == [0, 0, 0, 3, 9, 0x1A, 0xE1]
  {
    hide Bytes;
    KnownNumbers();
  }

  lemma KnownRequests()
    ensures var p := Piece(1, 0x4000, 0x0102); var b := [0, 0, 0, 1, 0, 0, 0x40, 0, 0, 0, 1, 2];
            Encode(Request(p)) == [0, 0, 0, 13, 6] + b && Encode(Cancel(p)) == [0, 0, 0, 13, 8] + b
  {
    hide Bytes;
    KnownNumbers();
  }

  lemma KnownHeads()
    ensures HeadBytes(PieceHead(Piece(1, 0x4000, 0x0102))) == [0, 0, 1, 11, 7, 0, 0, 0, 1, 0, 0, 0x40, 0]
    ensures HeadBytes(ExtensionHead(3, 5)) == [0, 0, 0, 7, 20, 3]
  {
    hide Bytes;
    KnownNumbers();
  }

  lemma KnownNumbers()
    ensures Bytes(0, 4) == [0, 0, 0, 0] && Bytes(1, 4) == [0, 0, 0, 1] && Bytes(3, 4) == [0, 0, 0, 3]
    ensures Bytes(5, 4) == [0, 0, 0, 5] && Bytes(7, 4) == [0, 0, 0, 7] && Bytes(13, 4) == [0, 0, 0, 13]
    ensures Bytes(0x0102_0304, 4) == [1, 2, 3, 4] && Bytes(0x1AE1, 2) == [0x1A, 0xE1] && Bytes(3, 1) == [3]
    ensures Bytes(0x4000, 4) == [0, 0, 0x40, 0] && Bytes(0x0102, 4) == [0, 0, 1, 2] && Bytes(267, 4) == [0, 0, 1, 11]
  {
    assert forall v: nat, k: nat :: k > 0 ==> Bytes(v, k) == Bytes(v / 256, k - 1) + [(v % 256) as Byte];
    assert Bytes(0, 0) == [];
  }

  /** Until all of a message is there, nothing is read. */
  lemma PrefixIsIncomplete(leech: bool, m: Message, s: seq<Byte>)
    requires MessageOk(m) && s < Encode(m)
    ensures Parse(leech, s) == Incomplete
  {
    hide Bytes, Number, Power, PieceBytes, PieceAt;
    Widths();
    var n := |Body(m)|;
    NumberOfBytes(n, 4);
    if |s| >= 4 {
      assert s[..4] == Encode(m)[..4] == Bytes(n, 4);
      if |s| >= 5 { assert s[4] == Encode(m)[4] == Body(m)[0]; }
    }
  }

  /** What bytes dispatch and how their reading ends: waiting with the rest, closed, or at a payload. */
  datatype Reading = Reading(messages: seq<Message>, end: Outcome, rest: seq<Byte>)

  function ReadAll(leech: bool, s: seq<Byte>): Reading
    decreases |s|
  {
    match Parse(leech, s)
    case Incomplete => Reading([], NeedMore, s)
    case Bad => Reading([], Closed, s)
    case Payload(h, n) =>
      ParsedSize(leech, s);
      Reading([], Other(h), s[n..])
    case Parsed(m, n) =>
      ParsedSize(leech, s);
      var r := ReadAll(leech, s[n..]);
      After([m], r)
  }

  function After(ms: seq<Message>, r: Reading): Reading { Reading(ms + r.messages, r.end, r.rest) }

  lemma AfterBoth(a: seq<Message>, b: seq<Message>, r: Reading)
    ensures After(a + b, r) == After(a, After(b, r)) && After([], r) == r
  {
    assert a + b + r.messages == a + (b + r.messages);
  }

  lemma ReadStep(leech: bool, s: seq<Byte>)
    ensures var p := Parse(leech, s);
            if p.Parsed? then
              && 4 <= p.size <= |s|
              && ReadAll(leech, s) == After([p.message], ReadAll(leech, s[p.size..]))
            else if p.Payload? then 4 <= p.size <= |s| && ReadAll(leech, s) == Reading([], Other(p.head), s[p.size..])
            else ReadAll(leech, s) == Reading([], if p.Incomplete? then NeedMore else Closed, s)
  {
    hide Parse;
    ParsedSize(leech, s);
  }

  lemma ParsedSize(leech: bool, s: seq<Byte>)
    ensures var p := Parse(leech, s); p.Parsed? || p.Payload? ==> 4 <= p.size <= |s|
  {
    hide Number, PieceAt;
  }

  /** Of any bytes, no more than sixteen are ever kept for the rest of a message. */
  lemma IncompleteIsShort(leech: bool, s: seq<Byte>)
    requires Parse(leech, s) == Incomplete
    ensures |s| < 17
  {
    hide Number, PieceAt;
  }

  /** Once a decision can be made, more bytes do not change it. */
  lemma ParseStays(leech: bool, s: seq<Byte>, t: seq<Byte>)
    requires Parse(leech, s) != Incomplete
    ensures Parse(leech, s + t) == Parse(leech, s)
  {
    hide Number, PieceAt, ParseBody;
    assert (s + t)[..4] == s[..4];
    if |s| > 4 {
      assert (s + t)[4..] == s[4..] + t && (s[4..] + t)[1..] == s[4..][1..] + t;
      if 0 < Number(s[..4]) <= 0x10_0000 { BodyStays(leech, Number(s[..4]), s[4] as nat, s[4..][1..], t); }
    }
  }

  lemma BodyStays(leech: bool, length: nat, command: nat, body: seq<Byte>, t: seq<Byte>)
    requires ParseBody(leech, length, command, body) != Incomplete
    ensures ParseBody(leech, length, command, body + t) == ParseBody(leech, length, command, body)
  {
    hide Number;
    if |body| >= 2 { assert (body + t)[..2] == body[..2]; }
    if |body| >= 4 { assert (body + t)[..4] == body[..4]; }
    if |body| >= 8 { assert (body + t)[4..8] == body[4..8]; }
    if |body| >= 12 {
      assert (body + t)[0..4] == body[0..4] && (body + t)[4..8] == body[4..8] && (body + t)[8..12] == body[8..12];
    }
  }

  /** Any bytes, split anywhere: what waits is read again with what comes, and the messages, their order
      and the end are those of the bytes in one piece. */
  lemma {:induction false} SplitAnywhere(leech: bool, s: seq<Byte>, t: seq<Byte>)
    ensures var r, all := ReadAll(leech, s), ReadAll(leech, s + t);
            if r.end.NeedMore? then
              var more := ReadAll(leech, r.rest + t);
              && |r.rest| < 17 && Parse(leech, r.rest) == Incomplete
              && all == After(r.messages, more)
            else
              all == Reading(r.messages, r.end, r.rest + t)
    decreases |s|
  {
    hide Parse, ReadAll, After;
    ReadStep(leech, s);
    ReadStep(leech, s + t);
    if Parse(leech, s) == Incomplete {
      IncompleteIsShort(leech, s);
      AfterBoth([], [], ReadAll(leech, s + t));
    } else {
      ParseStays(leech, s, t);
      if Parse(leech, s).Payload? {
        assert (s + t)[Parse(leech, s).size..] == s[Parse(leech, s).size..] + t;
      } else if Parse(leech, s).Parsed? {
        var m, n := Parse(leech, s).message, Parse(leech, s).size;
        SplitAnywhere(leech, s[n..], t);
        assert (s + t)[n..] == s[n..] + t;
        SplitAfter(m, ReadAll(leech, s[n..]), t);
        var r := ReadAll(leech, s[n..]);
        if r.end.NeedMore? { AfterBoth([m], r.messages, ReadAll(leech, r.rest + t)); }
      }
    }
  }

  lemma SplitAfter(m: Message, r: Reading, t: seq<Byte>)
    ensures After([m], r).end == r.end && After([m], r).rest == r.rest && After([m], r).messages == [m] + r.messages
    ensures After([m], Reading(r.messages, r.end, r.rest + t)) == Reading([m] + r.messages, r.end, r.rest + t)
  {
  }

  /** What was written is all there is to read, and any front of it is a front of the messages. */
  lemma {:induction false} WrittenIsRead(leech: bool, ms: seq<Message>, n: nat)
    requires AllOk(ms) && n <= |EncodeAll(ms)|
    ensures var r := ReadAll(leech, EncodeAll(ms)[..n]);
            r.end.NeedMore? && r.messages <= ms && (n == |EncodeAll(ms)| ==> r.messages == ms && r.rest == [])
    decreases ms
  {
    hide Parse, Encode, MessageOk;
    var u, rest := EncodeAll(ms)[..n], EncodeAll(ms)[n..];
    Front(leech, u, rest, ms);
    if ms != [] && n >= |Encode(ms[0])| {
      var k := |Encode(ms[0])|;
      assert u[k..] == EncodeAll(ms[1..])[..n - k];
      WrittenIsRead(leech, ms[1..], n - k);
    }
  }

  /** A buffer of 512 bytes with a cursor for reading and one for writing. */
  class ProtocolBuffer {
    const data: array<Byte>
    var position: nat
    var end: nat

    ghost predicate Valid() reads this { data.Length == BUFFER_SIZE && position <= end <= BUFFER_SIZE }

    /** What was written and not read yet. */
    ghost function Unread(): (r: seq<Byte>)
      requires Valid()
      reads this, data
      ensures |r| == end - position
    {
      data[position..end]
    }

    constructor ()
      ensures Valid() && fresh(data) && Unread() == [] && position == 0
    {
      data := new Byte[BUFFER_SIZE];
      position, end := 0, 0;
    }

    /** The bytes of a number, the lowest first and from the back. */
    method WriteInt(v: nat, size: nat)
      requires Valid() && end + size <= BUFFER_SIZE
      modifies this`end, data
      ensures Valid() && Unread() == old(Unread()) + Bytes(v, size)
    {
      hide Bytes;
      var rest, k: nat := v, size;
      ghost var before := data[..end];
      TailBytes(v, size);
      while k > 0
        modifies data
        invariant k <= size && data[..end] == before
        invariant rest == Shifted(v, size - k)
        invariant data[end + k..end + size] == Bytes(v, size)[k..]
        decreases k
      {
        k := k - 1;
        ByteAt(v, size, k);
        data[end + k] := (rest % 256) as Byte;
        rest := rest / 256;
        assert data[end + k..end + size] == [data[end + k]] + data[end + k + 1..end + size];
        assert Bytes(v, size)[k..] == [Bytes(v, size)[k]] + Bytes(v, size)[k + 1..];
      }
      assert data[position..end + size] == data[position..end] + data[end..end + size];
      assert data[position..end] == before[position..];
      end := end + size;
    }

    method ReadInt(size: nat) returns (v: nat)
      requires Valid() && position + size <= end
      modifies this`position
      ensures Valid() && v == Number(old(Unread())[..size]) && Unread() == old(Unread())[size..]
    {
      hide Number;
      v := 0;
      var k: nat := 0;
      NumberNone();
      assert data[position..position] == [];
      while k < size
        invariant k <= size && position == old(position) && v == Number(data[position..position + k])
      {
        assert data[position..position + k + 1][..k] == data[position..position + k];
        NumberMore(data[position..position + k + 1]);
        v := 256 * v + data[position + k] as nat;
        k := k + 1;
      }
      assert data[position..position + size] == Unread()[..size];
      position := position + size;
    }

    /** Bytes from the socket. */
    method Append(bytes: seq<Byte>)
      requires Valid() && end + |bytes| <= BUFFER_SIZE
      modifies this`end, data
      ensures Valid() && Unread() == old(Unread()) + bytes
    {
      forall i | 0 <= i < |bytes| { data[end + i] := bytes[i]; }
      end := end + |bytes|;
    }

    /** What is unread moves to the front, byte after byte over what was read. */
    method MoveUnused()
      requires Valid()
      modifies this`position, this`end, data
      ensures Valid() && position == 0 && Unread() == old(Unread())
    {
      var n := end - position;
      var k := 0;
      ghost var s := Unread();
      while k < n
        modifies data
        invariant k <= n && data[..k] == s[..k]
        invariant forall j :: k <= j < n ==> data[position + j] == s[j]
      {
        data[k] := data[position + k];
        assert s[..k + 1] == s[..k] + [s[k]];
        k := k + 1;
      }
      position, end := 0, n;
    }

    method WritePiece(p: Piece)
      requires Valid() && end + 12 <= BUFFER_SIZE
      modifies this`end, data
      ensures Valid() && Unread() == old(Unread()) + PieceBytes(p)
    {
      hide Bytes;
      WriteInt(p.index, 4);
      WriteInt(p.offset, 4);
      WriteInt(p.length, 4);
    }

    method WriteHead(length: nat, command: Byte)
      requires Valid() && end + 5 <= BUFFER_SIZE
      modifies this`end, data
      ensures Valid() && Unread() == old(Unread()) + (Bytes(length, 4) + [command])
    {
      WriteInt(length, 4);
      hide Bytes;
      Append([command]);
    }

    /** A message is written, if there is room for it. */
    method Write(m: Message) returns (ok: bool)
      requires Valid()
      modifies this`end, data
      ensures Valid() && (ok <==> |Encode(m)| <= BUFFER_SIZE - old(end))
      ensures Unread() == if ok then old(Unread()) + Encode(m) else old(Unread())
    {
      hide Bytes, PieceBytes;
      if BUFFER_SIZE - end < |Encode(m)| { return false; }
      ok := true;
      if m.KeepAlive? {
        WriteInt(0, 4);
        return;
      }
      ghost var before := Unread();
      WriteHead(LengthOf(m), CommandOf(m));
      match m {
        case Have(i) => WriteInt(i, 4);
        case Request(p) => WritePiece(p);
        case Cancel(p) => WritePiece(p);
        case Port(n) => WriteInt(n, 2);
        case _ =>
      }
      HeadAndTail(before, m, Unread());
    }
  }

  function CommandOf(m: Message): Byte {
    match m
    case Unchoke => 1
    case Interested => 2
    case NotInterested => 3
    case Have(_) => 4
    case Request(_) => 6
    case Cancel(_) => 8
    case Port(_) => 9
    case _ => 0
  }

  function LengthOf(m: Message): nat {
    match m
    case KeepAlive => 0
    case Have(_) => 5
    case Request(_) => 13
    case Cancel(_) => 13
    case Port(_) => 3
    case _ => 1
  }

  function TailOf(m: Message): seq<Byte> {
    match m
    case Have(i) => Bytes(i, 4)
    case Request(p) => PieceBytes(p)
    case Cancel(p) => PieceBytes(p)
    case Port(n) => Bytes(n, 2)
    case _ => []
  }

  lemma HeadAndTail(before: seq<Byte>, m: Message, after: seq<Byte>)
    requires !m.KeepAlive? && after == before + (Bytes(LengthOf(m), 4) + [CommandOf(m)]) + TailOf(m)
    ensures after == before + Encode(m)
  {
    hide Bytes, PieceBytes;
    assert Body(m) == [CommandOf(m)] + TailOf(m) && |Body(m)| == LengthOf(m);
  }

  lemma NumberNone()
    ensures Number([]) == 0
  {
  }

  lemma NumberMore(s: seq<Byte>)
    requires s != []
    ensures Number(s) == 256 * Number(s[..|s| - 1]) + s[|s| - 1] as nat
  {
  }

  /** v with k bytes shifted out. */
  function Shifted(v: nat, k: nat): nat { if k == 0 then v else Shifted(v, k - 1) / 256 }

  /** Byte k of a number is the lowest left when those after it are shifted out. */
  lemma {:induction false} ByteAt(v: nat, size: nat, k: nat)
    requires k < size
    ensures Bytes(v, size)[k] == (Shifted(v, size - 1 - k) % 256) as Byte
    decreases size
  {
    if k < size - 1 {
      ByteAt(v / 256, size - 1, k);
      ShiftedOnce(v, size - 2 - k);
      assert Bytes(v, size)[k] == Bytes(v / 256, size - 1)[k];
    }
  }

  lemma {:induction false} ShiftedOnce(v: nat, k: nat)
    ensures Shifted(v / 256, k) == Shifted(v, k + 1)
  {
    if k > 0 { ShiftedOnce(v, k - 1); }
  }

  lemma TailBytes(v: nat, size: nat)
    ensures Bytes(v, size)[size..] == [] && Shifted(v, 0) == v && Bytes(v, size)[0..] == Bytes(v, size)
  {
  }

  /** NeedMore: wait for bytes. Got: a message was dispatched. Closed: a communication error. Other: a
      piece or an extension message. */
  datatype Outcome = NeedMore | Got | Closed | Other(head: Head)

  predicate Read(r: Outcome, p: Parsed) {
    match p
    case Incomplete => r.NeedMore?
    case Bad => r.Closed?
    case Payload(h, _) => r == Other(h)
    case Parsed(_, _) => r.Got?
  }

  /** The parts of the front of a buffer, as they are read one after the other. */
  lemma ParseParts(leech: bool, s: seq<Byte>)
    requires |s| >= 4
    ensures Number(s[..4]) == 0 ==> Parse(leech, s) == Parsed(KeepAlive, 4)
    ensures Number(s[..4]) != 0 && |s| == 4 ==> Parse(leech, s) == Incomplete
    ensures Number(s[..4]) > 0x10_0000 && |s| > 4 ==> Parse(leech, s) == Bad
    ensures |s| > 4 ==> Number(s[4..][..1]) == s[4] as nat && s[4..][1..] == s[5..]
    ensures 0 < Number(s[..4]) <= 0x10_0000 && |s| > 4 ==>
              Parse(leech, s) == ParseBody(leech, Number(s[..4]), s[4] as nat, s[5..])
  {
    if |s| > 4 {
      assert s[4..][..1] == [s[4]] && [s[4]][..0] == [];
      assert s[4..][1..] == s[5..] && s[4..][0] == s[4];
    }
  }

  /** The reading half of a connection; messages dispatched are kept in order. */
  class PeerReader {
    const leech: bool            // the type of the connection: whether it may receive pieces
    const buffer: ProtocolBuffer
    var dispatched: seq<Message>

    ghost predicate Valid() reads this, buffer { buffer.Valid() }

    constructor (leech: bool)
      ensures this.leech == leech && Valid() && fresh(buffer) && fresh(buffer.data)
              && buffer.Unread() == [] && buffer.position == 0 && dispatched == []
    {
      this.leech := leech;
      buffer := new ProtocolBuffer();
      dispatched := [];
    }

    method ReadPiece() returns (p: Piece)
      requires Valid() && buffer.end - buffer.position >= 12
      modifies buffer`position
      ensures Valid() && p == PieceAt(old(buffer.Unread())) && buffer.Unread() == old(buffer.Unread())[12..]
    {
      hide Number;
      ghost var s := buffer.Unread();
      var a := buffer.ReadInt(4);
      var b := buffer.ReadInt(4);
      var c := buffer.ReadInt(4);
      assert s[4..][..4] == s[4..8] && s[4..][4..][..4] == s[8..12] && s[4..][4..][4..] == s[12..] && s[..4] == s[0..4];
      p := Piece(a, b, c);
    }

    /** The message after its command byte, if all of it is there. */
    method ReadBody(length: nat, command: nat) returns (r: Outcome)
      requires Valid()
      modifies this`dispatched, buffer`position
      ensures Valid() && Read(r, ParseBody(leech, length, command, old(buffer.Unread())))
      ensures r.Got? || r.Other? ==>
                var p := ParseBody(leech, length, command, old(buffer.Unread()));
                && 5 <= p.size <= 5 + |old(buffer.Unread())| && buffer.Unread() == old(buffer.Unread())[p.size - 5..]
                && dispatched == old(dispatched) + if r.Got? then [p.message] else []
      ensures r.NeedMore? || r.Closed? ==> dispatched == old(dispatched) && buffer.position == old(buffer.position)
    {
      hide Number, PieceAt;
      ghost var s := buffer.Unread();
      assert s[0..] == s;
      var remaining := buffer.end - buffer.position;
      var m: Message;
      if command == 0 {
        m := Choke;
      } else if command == 1 {
        m := Unchoke;
      } else if command == 2 {
        m := Interested;
      } else if command == 3 {
        m := NotInterested;
      } else if command == 4 {
        if remaining < 4 { return NeedMore; }
        var i := buffer.ReadInt(4);
        m := Have(i);
      } else if command == 6 {
        if remaining < 12 { return NeedMore; }
        var p := ReadPiece();
        m := Request(p);
      } else if command == 8 {
        if remaining < 12 { return NeedMore; }
        var p := ReadPiece();
        m := Cancel(p);
      } else if command == 9 {
        if remaining < 2 { return NeedMore; }
        var n := buffer.ReadInt(2);
        m := Port(n);
      } else if command == 7 {
        if !leech || length < 9 { return Closed; }
        if remaining < 8 { return NeedMore; }
        var index := buffer.ReadInt(4);
        var offset := buffer.ReadInt(4);
        assert s[4..][..4] == s[4..8] && s[4..][4..] == s[8..];
        return Other(PieceHead(Piece(index, offset, length - 9)));
      } else if command == 20 {
        if remaining < 1 { return NeedMore; }
        var id := buffer.ReadInt(1);
        OneByte(s);
        return Other(ExtensionHead(id, Cut(length - 2)));
      } else {
        return Closed;
      }
      dispatched := dispatched + [m];
      r := Got;
    }

    /** One message is read from the buffer, or the cursor is put back. */
    method ReadMessage() returns (r: Outcome)
      requires Valid()
      modifies this`dispatched, buffer`position
      ensures Valid() && Read(r, Parse(leech, old(buffer.Unread())))
      ensures r.Got? || r.Other? ==>
                var p := Parse(leech, old(buffer.Unread()));
                && p.size <= |old(buffer.Unread())| && buffer.Unread() == old(buffer.Unread())[p.size..]
                && dispatched == old(dispatched) + if r.Got? then [p.message] else []
      ensures r.NeedMore? || r.Closed? ==>
                dispatched == old(dispatched) && (r.NeedMore? ==> buffer.position == old(buffer.position))
    {
      hide Number, Parse, ParseBody;
      ghost var s := buffer.Unread();
      if buffer.end - buffer.position < 4 {
        ShortIsIncomplete(leech, s);
        return NeedMore;
      }
      ParseParts(leech, s);
      var beginning := buffer.position;
      var length := buffer.ReadInt(4);
      if length == 0 {
        dispatched := dispatched + [KeepAlive];
        return Got;
      }
      if buffer.end - buffer.position < 1 {
        buffer.position := beginning;
        return NeedMore;
      }
      if length > 0x10_0000 { return Closed; }
      var command := buffer.ReadInt(1);
      r := ReadBody(length, command);
      if r.NeedMore? { buffer.position := beginning; }
      if r.Got? || r.Other? { assert s[5..][Parse(leech, s).size - 5..] == s[Parse(leech, s).size..]; }
    }

    /** Every message that is all there is dispatched. */
    method Drain() returns (r: Outcome)
      requires Valid()
      modifies this`dispatched, buffer`position
      ensures Valid()
      ensures var all := ReadAll(leech, old(buffer.Unread()));
              && r == all.end && dispatched == old(dispatched) + all.messages
              && (!r.Closed? ==> buffer.Unread() == all.rest)
    {
      hide Parse;
      r := Got;
      while r.Got?
        invariant Valid()
        invariant var all, left := ReadAll(leech, old(buffer.Unread())), ReadAll(leech, buffer.Unread());
                  if r.Got? then
                    && all.end == left.end && all.rest == left.rest
                    && old(dispatched) + all.messages == dispatched + left.messages
                  else
                    && r == all.end && dispatched == old(dispatched) + all.messages
                    && (!r.Closed? ==> buffer.Unread() == all.rest)
        decreases r.Got?, buffer.end - buffer.position
      {
        ParsedSize(leech, buffer.Unread());
        r := ReadMessage();
      }
    }

    /** One turn of the read loop. `count` is what the socket has at most. Whatever the bytes, the buffer is
        never full with a message still incomplete: there is always room to read into. Where a piece may come
        next no more than its head is asked for, so that none of its bytes gets into the buffer. */
    method Fill(pipe: bool, stream: seq<Byte>, count: nat) returns (r: Outcome, n: nat)
      requires Valid() && buffer.position == 0 && Parse(leech, buffer.Unread()) == Incomplete
      modifies this`dispatched, buffer, buffer.data
      ensures Valid() && n <= |stream| && (count > 0 && stream != [] ==> n > 0)
      ensures n == Min(Min(count, |stream|), 512 - |old(buffer.Unread())|) ||
              (leech && pipe && old(buffer.Unread()) == [] && n == Min(Min(count, |stream|), 13))
      ensures leech && pipe && old(buffer.Unread()) == [] && count >= 13 ==>
                forall h: Head :: h.PieceHead? && HeadOk(h) && HeadBytes(h) <= stream ==>
                  r == Other(h) && n == 13 && buffer.Unread() == []
      ensures var all := ReadAll(leech, old(buffer.Unread()) + stream[..n]);
              && r == all.end && dispatched == old(dispatched) + all.messages
              && (!r.Closed? ==> buffer.position == 0 && buffer.Unread() == all.rest)
              && (r.NeedMore? ==> Parse(leech, all.rest) == Incomplete)
    {
      hide Parse;
      IncompleteIsShort(leech, buffer.Unread());
      var target := if leech && buffer.end - buffer.position == 0 && pipe then SIZEOF_PIECE else BUFFER_SIZE;
      assert buffer.end < target;
      n := Min(Min(count, target - buffer.end), |stream|);
      buffer.Append(stream[..n]);
      SplitAnywhere(leech, buffer.Unread(), []);
      if n == 0 {
        assert buffer.Unread() == old(buffer.Unread());
        return NeedMore, 0;
      }
      r := Drain();
      if !r.Closed? { buffer.MoveUnused(); }
      if leech && pipe && old(buffer.Unread()) == [] && count >= 13 {
        forall h: Head | h.PieceHead? && HeadOk(h) && HeadBytes(h) <= stream
          ensures r == Other(h) && n == 13 && buffer.Unread() == [] {
          HeadOnly(h, stream[..n]);
          assert old(buffer.Unread()) + stream[..n] == stream[..n];
        }
      }
    }

    /** Whatever the bytes and whatever pieces they come in, what is dispatched and how the reading ends is
        what all that was read so far says; and messages that were written are dispatched in order, all of
        them when all has been read. */
    method Receive(stream: seq<Byte>, counts: seq<nat>, pipes: seq<bool>) returns (r: Outcome, n: nat)
      requires Valid() && buffer.position == 0 && buffer.Unread() == [] && |pipes| == |counts|
      modifies this`dispatched, buffer, buffer.data
      ensures Valid() && n <= |stream|
      ensures var all := ReadAll(leech, stream[..n]);
              && r == all.end && dispatched == old(dispatched) + all.messages
              && (!r.Closed? ==> buffer.Unread() == all.rest)
      ensures forall ms :: AllOk(ms) && stream == EncodeAll(ms) ==>
                             && r.NeedMore? && dispatched <= old(dispatched) + ms
                             && (n == |stream| ==> dispatched == old(dispatched) + ms)
      ensures r.NeedMore? && (forall c :: c in counts ==> c > 0) && |counts| >= |stream| ==> n == |stream|
    {
      hide Parse, ReadAll, Encode, EncodeAll, AllOk;
      r, n := NeedMore, 0;
      ShortIsIncomplete(leech, []);
      ReadStep(leech, []);
      assert stream[..0] == [];
      for i := 0 to |counts|
        invariant Valid() && n <= |stream|
        invariant var all := ReadAll(leech, stream[..n]);
                  && r == all.end && dispatched == old(dispatched) + all.messages
                  && (!r.Closed? ==> buffer.position == 0 && buffer.Unread() == all.rest)
                  && (r.NeedMore? ==> Parse(leech, all.rest) == Incomplete)
        invariant r.NeedMore? && (forall c :: c in counts ==> c > 0) ==> n >= i || n == |stream|
      {
        if !r.NeedMore? { break; }
        assert counts[i] in counts;
        ghost var before := ReadAll(leech, stream[..n]);
        var got;
        r, got := Fill(pipes[i], stream[n..], counts[i]);
        SplitAnywhere(leech, stream[..n], stream[n..][..got]);
        assert stream[..n] + stream[n..][..got] == stream[..n + got];
        AppendedTwice(old(dispatched), before.messages, ReadAll(leech, before.rest + stream[n..][..got]).messages);
        n := n + got;
      }
      forall ms | AllOk(ms) && stream == EncodeAll(ms)
        ensures r.NeedMore? && dispatched <= old(dispatched) + ms
                && (n == |stream| ==> dispatched == old(dispatched) + ms)
      {
        WrittenIsRead(leech, ms, n);
      }
    }
  }

  lemma HeadOnly(h: Head, s: seq<Byte>)
    requires h.PieceHead? && HeadOk(h) && |s| == 13 && (s <= HeadBytes(h) || HeadBytes(h) <= s)
    ensures ReadAll(true, s) == Reading([], Other(h), [])
  {
    hide Parse, HeadOk;
    assert |HeadBytes(h)| == 13 && s == HeadBytes(h) + [];
    HeadRoundTrip(true, h, []);
    ReadStep(true, s);
  }

  lemma OneByte(s: seq<Byte>)
    requires s != []
    ensures Number(s[..1]) == s[0] as nat
  {
    assert s[..1] == [s[0]] && [s[0]][..0] == [];
  }

  lemma AppendedTwice(a: seq<Message>, b: seq<Message>, c: seq<Message>)
    ensures a + b + c == a + (b + c)
  {
  }

  ghost predicate AllOk(ms: seq<Message>) { forall m :: m in ms ==> MessageOk(m) }

  /** What the front of the buffer reads as, when messages are what is in it and yet to come. */
  lemma Front(leech: bool, u: seq<Byte>, rest: seq<Byte>, ms: seq<Message>)
    requires AllOk(ms) && u + rest == EncodeAll(ms)
    ensures ms == [] ==> u == [] && Parse(leech, u) == Incomplete
    ensures ms != [] && |u| < |Encode(ms[0])| ==> Parse(leech, u) == Incomplete && rest != []
    ensures ms != [] && |u| >= |Encode(ms[0])| ==>
              Parse(leech, u) == Parsed(ms[0], |Encode(ms[0])|) && u[|Encode(ms[0])|..] + rest == EncodeAll(ms[1..])
                && AllOk(ms[1..])
  {
    hide Encode, Parse, MessageOk;
    if ms == [] {
      ShortIsIncomplete(leech, u);
    } else {
      var e := Encode(ms[0]);
      if |u| < |e| {
        assert u == (u + rest)[..|u|] == e[..|u|];
        PrefixIsIncomplete(leech, ms[0], u);
      } else {
        assert e == (u + rest)[..|e|] == u[..|e|];
        RoundTrip(leech, ms[0], u[|e|..]);
        assert u == e + u[|e|..];
        assert u[|e|..] + rest == (u + rest)[|e|..];
      }
    }
  }

  lemma ShortIsIncomplete(leech: bool, s: seq<Byte>)
    requires |s| < 4
    ensures Parse(leech, s) == Incomplete
  {
  }
}
