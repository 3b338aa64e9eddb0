/** A set of chunk indices, one bit each, with its size kept beside it. */
module Bitfields {
  import opened Collections

  /** `1 << (7 - k)`: bit 0 is the highest of its byte. */
  function MaskAt(k: nat): bv8
    requires k < 8
  {
    if k == 0 then 0x80 else if k == 1 then 0x40 else if k == 2 then 0x20 else if k == 3 then 0x10
    else if k == 4 then 0x08 else if k == 5 then 0x04 else if k == 6 then 0x02 else 0x01
  }

  /** `0xff << (8 - k)`: the first k bits. */
  function MaskBefore(k: nat): bv8
    requires k < 8
  {
    if k == 0 then 0x00 else if k == 1 then 0x80 else if k == 2 then 0xc0 else if k == 3 then 0xe0
    else if k == 4 then 0xf0 else if k == 5 then 0xf8 else if k == 6 then 0xfc else 0xfe
  }

  predicate Bit(b: bv8, k: nat)
    requires k < 8
  {
    b & MaskAt(k) != 0
  }

  /** The first bit is the highest, and each next one is the first of what is left when that is shifted out. */
  lemma HighestFirst(b: bv8, k: nat)
    requires k < 7
    ensures (Bit(b, 0) <==> b >= 0x80) && Bit(b, k + 1) == Bit(b << 1, k)
  {
  }

  lemma SetBit(b: bv8, k: nat, j: nat)
    requires k < 8 && j < 8
    ensures Bit(b | MaskAt(k), j) == (j == k || Bit(b, j))
  {
  }

  lemma UnsetBit(b: bv8, k: nat, j: nat)
    requires k < 8 && j < 8
    ensures Bit(b & !MaskAt(k), j) == (j != k && Bit(b, j))
  {
  }

  lemma ClearFrom(b: bv8, k: nat, j: nat)
    requires k < 8 && j < 8
    ensures Bit(b & MaskBefore(k), j) == (j < k && Bit(b, j))
  {
  }

  /** The number of set bits of a byte. */
  function Ones(b: bv8): nat {
    One(Bit(b, 0)) + One(Bit(b, 1)) + One(Bit(b, 2)) + One(Bit(b, 3)) +
    One(Bit(b, 4)) + One(Bit(b, 5)) + One(Bit(b, 6)) + One(Bit(b, 7))
  }

  /** The number of set bits among the n lowest of a word. */
  function Popcount(w: bv64, n: nat): nat {
    if n == 0 then 0 else One(w & 1 == 1) + Popcount(w >> 1, n - 1)
  }

  /** Bytes read from memory as one word. */
  function Word(bytes: seq<bv8>): bv64
    requires |bytes| <= 8
  {
    if bytes == [] then 0 else (bytes[0] as bv64) | (Word(bytes[1..]) << 8)
  }

  /** The bits a word of n bytes does not use. */
  function Above(n: nat): bv64 {
    if n == 0 then 0xffff_ffff_ffff_ffff else Above(n - 1) << 8
  }

  lemma {:induction false} WordFits(bytes: seq<bv8>)
    requires |bytes| <= 8
    ensures Word(bytes) & Above(|bytes|) == 0
  {
    hide Word, Above;
    Unfolded(bytes);
    if bytes != [] {
      WordFits(bytes[1..]);
      ShiftFits(bytes[0], Word(bytes[1..]), Above(|bytes| - 1));
    }
  }

  lemma Unfolded(bytes: seq<bv8>)
    requires |bytes| <= 8
    ensures bytes == [] ==> Word(bytes) & Above(|bytes|) == 0
    ensures bytes != [] ==> Word(bytes) == (bytes[0] as bv64) | (Word(bytes[1..]) << 8)
    ensures bytes != [] ==> Above(|bytes|) == Above(|bytes| - 1) << 8
  {
  }

  lemma ShiftFits(b: bv8, v: bv64, m: bv64)
    requires v & m == 0
    ensures ((b as bv64) | (v << 8)) & (m << 8) == 0
  {
  }

  /** The lowest byte of a word, bit by bit. */
  lemma LowBits(b: bv8, v: bv64, w: bv64)
    requires v & 0xff00_0000_0000_0000 == 0 && w == (b as bv64) | (v << 8)
    ensures (w & 1 == 1) == Bit(b, 7) && ((w >> 1) & 1 == 1) == Bit(b, 6)
    ensures ((w >> 2) & 1 == 1) == Bit(b, 5) && ((w >> 3) & 1 == 1) == Bit(b, 4)
    ensures ((w >> 4) & 1 == 1) == Bit(b, 3) && ((w >> 5) & 1 == 1) == Bit(b, 2)
    ensures ((w >> 6) & 1 == 1) == Bit(b, 1) && ((w >> 7) & 1 == 1) == Bit(b, 0)
    ensures w >> 8 == v
  {
    LowestBits(b, v, w);
    NextBits(b, v, w);
    hide Bit;
  }

  lemma LowestBits(b: bv8, v: bv64, w: bv64)
    requires v & 0xff00_0000_0000_0000 == 0 && w == (b as bv64) | (v << 8)
    ensures (w & 1 == 1) == Bit(b, 7) && ((w >> 1) & 1 == 1) == Bit(b, 6)
    ensures ((w >> 2) & 1 == 1) == Bit(b, 5) && ((w >> 3) & 1 == 1) == Bit(b, 4)
  {
  }

  lemma NextBits(b: bv8, v: bv64, w: bv64)
    requires v & 0xff00_0000_0000_0000 == 0 && w == (b as bv64) | (v << 8)
    ensures ((w >> 4) & 1 == 1) == Bit(b, 3) && ((w >> 5) & 1 == 1) == Bit(b, 2)
    ensures ((w >> 6) & 1 == 1) == Bit(b, 1) && ((w >> 7) & 1 == 1) == Bit(b, 0)
  {
  }

  lemma Shifts(w: bv64)
    ensures (w >> 1) >> 1 == w >> 2 && (w >> 2) >> 1 == w >> 3 && (w >> 3) >> 1 == w >> 4 && (w >> 4) >> 1 == w >> 5
    ensures (w >> 5) >> 1 == w >> 6 && (w >> 6) >> 1 == w >> 7 && (w >> 7) >> 1 == w >> 8
  {
  }

  lemma PopcountEight(w: bv64, n: nat)
    ensures Popcount(w, 8 + n) ==
            One(w & 1 == 1) + One((w >> 1) & 1 == 1) + One((w >> 2) & 1 == 1) + One((w >> 3) & 1 == 1) +
            One((w >> 4) & 1 == 1) + One((w >> 5) & 1 == 1) + One((w >> 6) & 1 == 1) + One((w >> 7) & 1 == 1) +
            Popcount(w >> 8, n)
  {
    Shifts(w);
    assert Popcount(w >> 6, 2 + n) == One((w >> 6) & 1 == 1) + One((w >> 7) & 1 == 1) + Popcount(w >> 8, n);
    assert Popcount(w >> 4, 4 + n) == One((w >> 4) & 1 == 1) + One((w >> 5) & 1 == 1) + Popcount(w >> 6, 2 + n);
    assert Popcount(w >> 2, 6 + n) == One((w >> 2) & 1 == 1) + One((w >> 3) & 1 == 1) + Popcount(w >> 4, 4 + n);
  }

  lemma PopcountSplit(b: bv8, v: bv64, n: nat)
    requires v & 0xff00_0000_0000_0000 == 0
    ensures Popcount((b as bv64) | (v << 8), 8 + n) == Ones(b) + Popcount(v, n)
  {
    hide Bit, Popcount;
    var w := (b as bv64) | (v << 8);
    LowBits(b, v, w);
    PopcountEight(w, n);
  }

  function SumOnes(bytes: seq<bv8>): nat {
    if bytes == [] then 0 else Ones(bytes[0]) + SumOnes(bytes[1..])
  }

  lemma AboveTop(n: nat)
    requires n <= 7
    ensures Above(n) & 0xff00_0000_0000_0000 == 0xff00_0000_0000_0000
  {
    assert Above(0) == 0xffff_ffff_ffff_ffff && Above(1) == 0xffff_ffff_ffff_ff00 && Above(2) == 0xffff_ffff_ffff_0000;
    assert Above(3) == 0xffff_ffff_ff00_0000 && Above(4) == 0xffff_ffff_0000_0000;
    assert Above(5) == 0xffff_ff00_0000_0000 && Above(6) == 0xffff_0000_0000_0000 && Above(7) == 0xff00_0000_0000_0000;
  }

  lemma TopClear(v: bv64, m: bv64)
    requires v & m == 0 && m & 0xff00_0000_0000_0000 == 0xff00_0000_0000_0000
    ensures v & 0xff00_0000_0000_0000 == 0
  {
  }

  /** Counting the bits of a word counts those of its bytes. */
  lemma {:induction false} WordPopcount(bytes: seq<bv8>)
    requires |bytes| <= 8
    ensures Popcount(Word(bytes), 8 * |bytes|) == SumOnes(bytes)
  {
    hide Popcount, Word, Ones;
    if bytes == [] {
      PopcountNone(Word(bytes));
    } else {
      PopcountCons(bytes);
      WordPopcount(bytes[1..]);
    }
  }

  lemma PopcountCons(bytes: seq<bv8>)
    requires 0 < |bytes| <= 8
    ensures Popcount(Word(bytes), 8 * |bytes|) == Ones(bytes[0]) + Popcount(Word(bytes[1..]), 8 * (|bytes| - 1))
  {
    hide Popcount, Word, Ones;
    RestFits(bytes);
    Unfolded(bytes);
    PopcountSplit(bytes[0], Word(bytes[1..]), 8 * (|bytes| - 1));
  }

  lemma RestFits(bytes: seq<bv8>)
    requires 0 < |bytes| <= 8
    ensures Word(bytes[1..]) & 0xff00_0000_0000_0000 == 0
  {
    hide Above, Word;
    WordFits(bytes[1..]);
    AboveTop(|bytes| - 1);
    TopClear(Word(bytes[1..]), Above(|bytes| - 1));
  }

  lemma PopcountNone(w: bv64)
    ensures Popcount(w, 0) == 0
  {
  }

  /** The first n bits of some bytes. */
  function BitsOf(data: seq<bv8>, n: nat): (r: seq<bool>)
    requires n <= 8 * |data|
    ensures |r| == n && forall i :: 0 <= i < n ==> r[i] == Bit(data[i / 8], i % 8)
  {
    seq(n, i requires 0 <= i < n => Bit(data[i / 8], i % 8))
  }

  function Count(s: seq<bool>): nat {
    if s == [] then 0 else One(s[0]) + Count(s[1..])
  }

  lemma {:induction false} CountConcat(a: seq<bool>, b: seq<bool>)
    ensures Count(a + b) == Count(a) + Count(b)
  {
    if a == [] {
      assert a + b == b;
    } else {
      assert (a + b)[1..] == a[1..] + b;
      CountConcat(a[1..], b);
    }
  }

  lemma {:induction false} CountUpdate(s: seq<bool>, i: nat, v: bool)
    requires i < |s|
    ensures Count(s[i := v]) == Count(s) - One(s[i]) + One(v)
  {
    if i == 0 {
      assert s[0 := v][1..] == s[1..];
    } else {
      assert s[i := v][1..] == s[1..][i - 1 := v];
      CountUpdate(s[1..], i - 1, v);
    }
  }

  lemma {:induction false} CountBounds(s: seq<bool>)
    ensures Count(s) <= |s|
    ensures Count(s) == |s| <==> forall i :: 0 <= i < |s| ==> s[i]
    ensures Count(s) == 0 <==> forall i :: 0 <= i < |s| ==> !s[i]
  {
    if s != [] {
      CountBounds(s[1..]);
      assert forall i :: 0 < i < |s| ==> s[i] == s[1..][i - 1];
    }
  }

  /** The bits of a sequence of bytes are counted byte by byte. */
  lemma {:induction false} CountOnes(data: seq<bv8>)
    ensures Count(BitsOf(data, 8 * |data|)) == SumOnes(data)
  {
    if data != [] {
      CountOnes(data[1..]);
      FirstByte(data);
      CountConcat(BitsOf([data[0]], 8), BitsOf(data[1..], 8 * (|data| - 1)));
      CountByte(data[0]);
    }
  }

  lemma FirstByte(data: seq<bv8>)
    requires data != []
    ensures BitsOf(data, 8 * |data|) == BitsOf([data[0]], 8) + BitsOf(data[1..], 8 * (|data| - 1))
  {
    hide Bit;
    var a, b := BitsOf([data[0]], 8), BitsOf(data[1..], 8 * (|data| - 1));
    forall i | 0 <= i < 8 * |data| ensures BitsOf(data, 8 * |data|)[i] == (a + b)[i] {
      if i >= 8 { assert (i - 8) / 8 == i / 8 - 1 && (i - 8) % 8 == i % 8; }
    }
  }

  lemma CountByte(b: bv8)
    ensures Count(BitsOf([b], 8)) == Ones(b)
  {
    CountEight(BitsOf([b], 8));
    hide Bit, Count;
  }

  lemma CountEight(s: seq<bool>)
    requires |s| == 8
    ensures Count(s) == One(s[0]) + One(s[1]) + One(s[2]) + One(s[3]) + One(s[4]) + One(s[5]) + One(s[6]) + One(s[7])
  {
    hide Count;
    CountFrom(s, 0); CountFrom(s, 1); CountFrom(s, 2); CountFrom(s, 3);
    CountFrom(s, 4); CountFrom(s, 5); CountFrom(s, 6); CountFrom(s, 7);
    CountBounds([]);
    assert s[0..] == s && s[8..] == [];
  }

  lemma CountFrom(s: seq<bool>, i: nat)
    requires i < |s|
    ensures Count(s[i..]) == One(s[i]) + Count(s[i + 1..])
  {
    assert s[i..][1..] == s[i + 1..];
  }

  lemma {:induction false} SumOnesConcat(a: seq<bv8>, b: seq<bv8>)
    ensures SumOnes(a + b) == SumOnes(a) + SumOnes(b)
  {
    if a == [] {
      assert a + b == b;
    } else {
      assert (a + b)[1..] == a[1..] + b;
      SumOnesConcat(a[1..], b);
    }
  }

  /** Every bit of some bytes. */
  function AllBits(data: seq<bv8>): (r: seq<bool>)
    ensures |r| == 8 * |data|
  {
    BitsOf(data, 8 * |data|)
  }

  lemma BitAt(data: seq<bv8>, i: nat)
    requires i < 8 * |data|
    ensures AllBits(data)[i] == Bit(data[i / 8], i % 8)
  {
  }

  lemma ByteChanged(data: seq<bv8>, i: nat, b: bv8, v: bool)
    requires i < 8 * |data| && forall k {:trigger Bit(b, k)} :: 0 <= k < 8 ==>
               Bit(b, k) == if k == i % 8 then v else Bit(data[i / 8], k)
    ensures AllBits(data[i / 8 := b]) == AllBits(data)[i := v]
  {
    hide Bit;
    var r := data[i / 8 := b];
    forall j | 0 <= j < 8 * |data| ensures AllBits(r)[j] == AllBits(data)[i := v][j] {
      assert j / 8 == i / 8 && j % 8 == i % 8 ==> j == i;
      assert Bit(r[j / 8], j % 8) == if j == i then v else Bit(data[j / 8], j % 8);
    }
  }

  lemma SetBitOf(data: seq<bv8>, i: nat)
    requires i < 8 * |data|
    ensures AllBits(data[i / 8 := data[i / 8] | MaskAt(i % 8)]) == AllBits(data)[i := true]
  {
    hide Bit, MaskAt;
    var b := data[i / 8] | MaskAt(i % 8);
    forall k | 0 <= k < 8
      ensures Bit(b, k) == if k == i % 8 then true else Bit(data[i / 8], k) { SetBit(data[i / 8], i % 8, k); }
    ByteChanged(data, i, b, true);
  }

  lemma UnsetBitOf(data: seq<bv8>, i: nat)
    requires i < 8 * |data|
    ensures AllBits(data[i / 8 := data[i / 8] & !MaskAt(i % 8)]) == AllBits(data)[i := false]
  {
    hide Bit, MaskAt;
    var b := data[i / 8] & !MaskAt(i % 8);
    forall k | 0 <= k < 8
      ensures Bit(b, k) == if k == i % 8 then false else Bit(data[i / 8], k) { UnsetBit(data[i / 8], i % 8, k); }
    ByteChanged(data, i, b, false);
  }

  class Bitfield {
    var size: nat
    var count: nat             // m_set
    var data: array<bv8>

    ghost function Bits(): (r: seq<bool>)
      requires size <= 8 * data.Length
      reads this`size, this`data, data
      ensures |r| == size
    {
      AllBits(data[..])[..size]
    }

    /** As many bytes as the bits need, bits after the last one unset, and the count right. */
    ghost predicate Valid()
      reads this, data
    {
      data.Length == (size + 7) / 8 && TailClear(AllBits(data[..]), size) && count == Count(Bits())
    }

    constructor (size: nat)
      ensures Valid() && this.size == size && fresh(data) && forall i :: 0 <= i < size ==> !Bits()[i]
    {
      this.size, count := size, 0;
      data := new bv8[(size + 7) / 8](_ => 0);
      new;
      CountBounds(Bits());
    }

    predicate Get(i: nat)
      requires i < size <= 8 * data.Length
      reads this, data
      ensures Get(i) == Bits()[i]
    {
      BitAt(data[..], i);
      Bit(data[i / 8], i % 8)
    }

    method Set(i: nat)
      requires Valid() && i < size
      modifies this`count, data
      ensures Valid() && Bits() == old(Bits())[i := true]
    {
      hide Bit, Count, AllBits, MaskAt;
      CountUpdate(Bits(), i, true);
      SetBitOf(data[..], i);
      count := count + One(!Get(i));
      data[i / 8] := data[i / 8] | MaskAt(i % 8);
      assert data[..] == old(data[..])[i / 8 := data[i / 8]];
      assert Bits() == old(Bits())[i := true];
    }

    method Unset(i: nat)
      requires Valid() && i < size
      modifies this`count, data
      ensures Valid() && Bits() == old(Bits())[i := false]
    {
      hide Bit, Count, AllBits, MaskAt;
      CountUpdate(Bits(), i, false);
      UnsetBitOf(data[..], i);
      count := count - One(Get(i));
      data[i / 8] := data[i / 8] & !MaskAt(i % 8);
      assert data[..] == old(data[..])[i / 8 := data[i / 8]];
      assert Bits() == old(Bits())[i := false];
    }

    /** Bits after the last one are cleared. */
    method ClearTail()
      requires data.Length == (size + 7) / 8
      modifies data
      ensures TailClear(AllBits(data[..]), size) && Bits() == old(Bits())
    {
      hide Bit, AllBits, MaskBefore, TailClear;
      ClearTailOf(data[..], size);
      if size % 8 != 0 {
        data[data.Length - 1] := data[data.Length - 1] & MaskBefore(size % 8);
        assert data[..] == old(data[..])[data.Length - 1 := data[data.Length - 1]];
      }
    }

    /** The count is made anew, eight bytes at a time, then four, then one. */
    method Update()
      requires data.Length == (size + 7) / 8
      modifies this`count, data
      ensures Valid() && Bits() == old(Bits())
    {
      hide Bit, AllBits, Count, SumOnes, Popcount, Word, TailClear;
      ClearTail();
      ghost var d := data[..];
      count := 0;
      var itr := 0;
      MoreOnes(d, 0, 0);
      while itr + 8 <= data.Length
        modifies this`count
        invariant itr <= data.Length && count == SumOnes(d[..itr]) && data[..] == d
      {
        MoreOnes(d, itr, itr + 8);
        WordPopcount(d[itr..itr + 8]);
        assert data[itr..itr + 8] == d[itr..itr + 8];
        count := count + Popcount(Word(data[itr..itr + 8]), 64);
        itr := itr + 8;
      }
      if itr + 4 <= data.Length {
        MoreOnes(d, itr, itr + 4);
        WordPopcount(d[itr..itr + 4]);
        assert data[itr..itr + 4] == d[itr..itr + 4];
        count := count + Popcount(Word(data[itr..itr + 4]), 32);
        itr := itr + 4;
      }
      while itr != data.Length
        modifies this`count
        invariant itr <= data.Length && count == SumOnes(d[..itr]) && data[..] == d
      {
        MoreOnes(d, itr, itr + 1);
        WordPopcount(d[itr..itr + 1]);
        assert data[itr..itr + 1] == d[itr..itr + 1];
        count := count + Popcount(Word(data[itr..itr + 1]), 8);
        itr := itr + 1;
      }
      assert d[..itr] == d;
      CountSize(d, size);
    }

    method SetAll()
      requires data.Length == (size + 7) / 8
      modifies this`count, data
      ensures Valid() && forall i :: 0 <= i < size ==> Bits()[i]
    {
      count := size;
      forall i | 0 <= i < data.Length { data[i] := 0xff; }
      FullBits(data[..]);
      ClearTail();
      hide Bit, AllBits, TailClear;
      CountBounds(Bits());
    }

    method UnsetAll()
      requires data.Length == (size + 7) / 8
      modifies this`count, data
      ensures Valid() && forall i :: 0 <= i < size ==> !Bits()[i]
    {
      count := 0;
      forall i | 0 <= i < data.Length { data[i] := 0; }
      CountBounds(Bits());
    }

    method SetRange(first: nat, last: nat)
      requires Valid() && first <= last <= size
      modifies this`count, data
      ensures Valid() && forall i :: 0 <= i < size ==> Bits()[i] == (first <= i < last || old(Bits())[i])
    {
      var k := first;
      while k != last
        invariant first <= k <= last && Valid()
        invariant forall i :: 0 <= i < size ==> Bits()[i] == (first <= i < k || old(Bits())[i])
      {
        Set(k);
        k := k + 1;
      }
    }

    method UnsetRange(first: nat, last: nat)
      requires Valid() && first <= last <= size
      modifies this`count, data
      ensures Valid() && forall i :: 0 <= i < size ==> Bits()[i] == (!(first <= i < last) && old(Bits())[i])
    {
      var k := first;
      while k != last
        invariant first <= k <= last && Valid()
        invariant forall i :: 0 <= i < size ==> Bits()[i] == (!(first <= i < k) && old(Bits())[i])
      {
        Unset(k);
        k := k + 1;
      }
    }

    /** The first set bit of a range, or its end. */
    method FindFirstSet(first: nat, last: nat) returns (r: nat)
      requires Valid() && first <= last <= size
      ensures first <= r <= last && (r < last ==> Bits()[r]) && forall i :: first <= i < r ==> !Bits()[i]
    {
      r := first;
      while r < last
        invariant first <= r <= last && forall i :: first <= i < r ==> !Bits()[i]
      {
        if Get(r) { return; }
        r := r + 1;
      }
    }

    /** A copy has the bits of the other, and none of its memory. */
    method Copy(other: Bitfield)
      requires other.Valid() && other != this
      modifies this
      ensures Valid() && size == other.size && Bits() == other.Bits() && fresh(data)
    {
      size, count := other.size, other.count;
      data := new bv8[(size + 7) / 8](i requires 0 <= i < other.data.Length reads other, other.data => other.data[i]);
      assert data[..] == other.data[..];
    }
  }

  lemma ClearTailOf(data: seq<bv8>, size: nat)
    requires |data| == (size + 7) / 8
    ensures size % 8 == 0 ==> TailClear(AllBits(data), size)
    ensures size % 8 != 0 ==>
              var r := data[|data| - 1 := data[|data| - 1] & MaskBefore(size % 8)];
              TailClear(AllBits(r), size) && AllBits(r)[..size] == AllBits(data)[..size]
  {
    hide Bit, MaskBefore;
    if size % 8 != 0 {
      var r := data[|data| - 1 := data[|data| - 1] & MaskBefore(size % 8)];
      forall i | 0 <= i < 8 * |data|
        ensures AllBits(r)[i] == (i < size && AllBits(data)[i]) { ClearTailAt(data, size, i); }
      hide AllBits;
    }
  }

  lemma ClearTailAt(data: seq<bv8>, size: nat, i: nat)
    requires |data| == (size + 7) / 8 && size % 8 != 0 && i < 8 * |data|
    ensures var r := data[|data| - 1 := data[|data| - 1] & MaskBefore(size % 8)];
            AllBits(r)[i] == (i < size && AllBits(data)[i])
  {
    hide Bit, MaskBefore, AllBits;
    var r := data[|data| - 1 := data[|data| - 1] & MaskBefore(size % 8)];
    BitAt(data, i);
    BitAt(r, i);
    ClearFrom(data[i / 8], size % 8, i % 8);
  }

  /** Bytes from i to j are counted after those before i. */
  lemma MoreOnes(data: seq<bv8>, i: nat, j: nat)
    requires i <= j <= |data|
    ensures SumOnes(data[..j]) == SumOnes(data[..i]) + SumOnes(data[i..j])
    ensures SumOnes(data[..0]) == 0
  {
    assert data[..j] == data[..i] + data[i..j];
    SumOnesConcat(data[..i], data[i..j]);
  }

  /** With the tail clear, all the bits are as many as the first `size`. */
  lemma CountSize(data: seq<bv8>, size: nat)
    requires size <= 8 * |data| && TailClear(AllBits(data), size)
    ensures SumOnes(data) == Count(AllBits(data)[..size])
  {
    hide AllBits, SumOnes, Count, TailClear;
    CountAllBits(data);
    CountClearTail(AllBits(data), size);
  }

  lemma CountClearTail(s: seq<bool>, size: nat)
    requires size <= |s| && TailClear(s, size)
    ensures Count(s) == Count(s[..size])
  {
    hide Count;
    assert s[..size] + s[size..] == s;
    CountConcat(s[..size], s[size..]);
    CountBounds(s[size..]);
  }

  lemma CountAllBits(data: seq<bv8>)
    ensures Count(AllBits(data)) == SumOnes(data)
  {
    hide Count, SumOnes, BitsOf, Bit;
    CountOnes(data);
  }

  lemma FullBits(data: seq<bv8>)
    requires forall i :: 0 <= i < |data| ==> data[i] == 0xff
    ensures forall i :: 0 <= i < 8 * |data| ==> AllBits(data)[i]
  {
  }

  ghost predicate TailClear(s: seq<bool>, size: nat) { forall i :: size <= i < |s| ==> !s[i] }
}
