/** The ID range of a routing-table bucket: an aligned block of 2^bits IDs, given by
    its first and last ID, and the byte-wise arithmetic done on the two ends. */
module DhtRange {
  import opened Id160

  /** Index of the byte in which the two ends of a block of 2^bits IDs first differ. */
  function SplitByte(bits: nat): (i: nat)
    requires 0 < bits <= 8 * SIZE
    ensures i < SIZE && 8 * (SIZE - 1 - i) < bits <= 8 * (SIZE - i)
  {
    SIZE - 1 - (bits - 1) / 8
  }

  /** How many values that byte takes inside the block. */
  function ByteWidth(bits: nat): (w: nat)
    requires 0 < bits <= 8 * SIZE
    ensures Pow2(bits) == w * Radix(SIZE - 1 - SplitByte(bits))
    ensures w in {2, 4, 8, 16, 32, 64, 128, 256}
  {
    var low := 8 * (SIZE - 1 - SplitByte(bits));
    Pow2Sum(bits - low, low);
    RadixIsPow2(SIZE - 1 - SplitByte(bits));
    assert bits - low in {1, 2, 3, 4, 5, 6, 7, 8};
    Pow2(bits - low)
  }

  /** `begin`..`end` is an aligned block of 2^bits IDs: a common prefix, one byte covering
      an aligned power-of-two range, then all zeros up to all ones. */
  ghost predicate IsBlock(begin: Id, end: Id, bits: nat) {
    && bits <= 8 * SIZE
    && (bits == 0 ==> begin == end)
    && (bits > 0 ==>
          var i, w := SplitByte(bits), ByteWidth(bits);
          && begin[..i] == end[..i]
          && begin[i] as int % w == 0
          && end[i] as int == begin[i] as int + w - 1
          && (forall t :: i < t < SIZE ==> begin[t] == 0)
          && (forall t :: i < t < SIZE ==> end[t] == 255))
  }

  function Average(x: Byte, y: Byte): Byte { ((x as int + y as int) / 2) as Byte }

  predicate InRange(begin: Id, end: Id, id: Id) { LessEq(begin, id) && LessEq(id, end) }

  /** `x` counts blocks of `p` values; `w` of them form an aligned block of `w * p`. */
  lemma BlockArithmetic(x: nat, y: nat, w: nat, p: nat, first: nat, last: nat, size: nat)
    requires w > 0 && p > 0 && x % w == 0 && size == w * p
    requires y == x + w - 1
    requires first == x * p && last == y * p + p - 1
    ensures last == first + size - 1 && first % size == 0
  {
    var q := x / w;
    assert first == q * size;
    DivisionIsUnique(first, q, 0, size);
  }

  lemma ByteAlignment(prefix: nat, x: nat, w: nat)
    requires w in {2, 4, 8, 16, 32, 64, 128, 256} && x % w == 0
    ensures (prefix * 256 + x) % w == 0
  {
    var q := x / w;
    DivisionIsUnique(prefix * 256 + x, prefix * (256 / w) + q, 0, w);
  }

  /** The value of the bytes up to and including byte i. */
  function Head(s: Id, i: nat): nat
    requires i < SIZE
  {
    Val(s[..i]) * 256 + s[i] as int
  }

  lemma ValWithTail(s: Id, i: nat, x: Byte)
    requires i < SIZE && (x == 0 || x == 255)
    requires forall t :: i < t < SIZE ==> s[t] == x
    ensures var p := Radix(SIZE - 1 - i); Val(s) == Head(s, i) * p + if x == 0 then 0 else p - 1
  {
    hide Val, Radix;
    var n := SIZE - 1 - i;
    var tail := seq<Byte>(n, _ => x);
    assert s == s[..i] + [s[i]] + tail;
    ValConcat(s[..i] + [s[i]], tail);
    ValFill(n, x);
    ValSnoc(s[..i], s[i]);
  }

  lemma BlockHeads(begin: Id, end: Id, bits: nat)
    requires IsBlock(begin, end, bits) && bits > 0
    ensures var i, w := SplitByte(bits), ByteWidth(bits);
            Head(begin, i) % w == 0 && Head(end, i) == Head(begin, i) + w - 1
  {
    hide Val, Radix, Pow2;
    ByteAlignment(Val(begin[..SplitByte(bits)]), begin[SplitByte(bits)] as int, ByteWidth(bits));
  }

  /** A block of 2^bits IDs is exactly that many consecutive values, starting at a multiple. */
  lemma BlockValues(begin: Id, end: Id, bits: nat)
    requires IsBlock(begin, end, bits)
    ensures Val(end) == Val(begin) + Pow2(bits) - 1
    ensures Val(begin) % Pow2(bits) == 0
  {
    hide Val, Radix, Head;
    if bits > 0 {
      var i, w := SplitByte(bits), ByteWidth(bits);
      ValWithTail(begin, i, 0);
      ValWithTail(end, i, 255);
      BlockHeads(begin, end, bits);
      BlockArithmetic(Head(begin, i), Head(end, i), w, Radix(SIZE - 1 - i), Val(begin), Val(end), Pow2(bits));
    } else {
      assert Pow2(0) == 1;
    }
  }

  lemma UpperStart(begin: Id, end: Id, bits: nat)
    requires IsBlock(begin, end, bits) && bits > 0
    ensures begin[SplitByte(bits)] as int + ByteWidth(bits) / 2 < 256
  {
    hide Pow2, Radix;
  }

  /** The halves of a block: the lower one ends at `mid`, the upper one begins at `upper`. */
  lemma BlockHalves(begin: Id, end: Id, bits: nat, mid: Id, upper: Id)
    requires IsBlock(begin, end, bits) && bits > 0
    requires mid == end[SplitByte(bits) := Average(begin[SplitByte(bits)], end[SplitByte(bits)])]
    requires Val(upper) == Val(mid) + 1
    ensures IsBlock(begin, mid, bits - 1)
    ensures IsBlock(upper, end, bits - 1)
    ensures Val(mid) == Val(begin) + Pow2(bits - 1) - 1
  {
    UpperStart(begin, end, bits);
    hide Val, Radix, IsBlock;
    var i, w := SplitByte(bits), ByteWidth(bits);
    var u: Id := begin[i := (begin[i] as int + w / 2) as Byte];
    LowerHalf(begin, end, bits, mid);
    UpperHalf(begin, end, bits, u);
    BlockValues(begin, end, bits);
    BlockValues(begin, mid, bits - 1);
    BlockValues(u, end, bits - 1);
    CompareIsValueOrder(u, upper);
  }

  lemma NarrowerByte(bits: nat)
    requires 1 < bits <= 8 * SIZE
    ensures (bits - 1) % 8 != 0 ==> SplitByte(bits - 1) == SplitByte(bits) && 2 * ByteWidth(bits - 1) == ByteWidth(bits)
    ensures (bits - 1) % 8 == 0 ==>
              SplitByte(bits - 1) == SplitByte(bits) + 1 && ByteWidth(bits - 1) == 256 && ByteWidth(bits) == 2
  {
    assert Pow2(8) == 256 && Pow2(1) == 2;
  }

  lemma HalfWidth(x: nat, w: nat)
    requires w in {2, 4, 8, 16, 32, 64, 128, 256} && x % w == 0 && x + w - 1 < 256
    ensures Average(x as Byte, (x + w - 1) as Byte) as int == x + w / 2 - 1
    ensures x % (w / 2) == 0 && (x + w / 2) % (w / 2) == 0
  {
    DivisionIsUnique(x, 2 * (x / w), 0, w / 2);
    DivisionIsUnique(x + w / 2, 2 * (x / w) + 1, 0, w / 2);
  }

  lemma LowerHalf(begin: Id, end: Id, bits: nat, mid: Id)
    requires IsBlock(begin, end, bits) && bits > 0
    requires mid == end[SplitByte(bits) := Average(begin[SplitByte(bits)], end[SplitByte(bits)])]
    ensures IsBlock(begin, mid, bits - 1)
  {
    HalfWidth(begin[SplitByte(bits)] as int, ByteWidth(bits));
    if bits > 1 {
      NarrowerByte(bits);
    } else {
      assert ByteWidth(1) == 2;
      assert begin == begin[..SIZE - 1] + [begin[SIZE - 1]];
      assert mid == end[..SIZE - 1] + [mid[SIZE - 1]];
    }
  }

  lemma UpperHalf(begin: Id, end: Id, bits: nat, upper: Id)
    requires IsBlock(begin, end, bits) && bits > 0
    requires begin[SplitByte(bits)] as int + ByteWidth(bits) / 2 < 256
    requires upper == begin[SplitByte(bits) := (begin[SplitByte(bits)] as int + ByteWidth(bits) / 2) as Byte]
    ensures IsBlock(upper, end, bits - 1)
  {
    HalfWidth(begin[SplitByte(bits)] as int, ByteWidth(bits));
    if bits > 1 {
      NarrowerByte(bits);
    } else {
      assert ByteWidth(1) == 2;
      assert upper == begin[..SIZE - 1] + [upper[SIZE - 1]];
      assert end == end[..SIZE - 1] + [end[SIZE - 1]];
    }
  }

  /** Membership, as the code tests it byte-wise, is equality of the leading bits. */
  lemma InRangeIsSamePrefix(begin: Id, end: Id, bits: nat, id: Id)
    requires IsBlock(begin, end, bits)
    ensures InRange(begin, end, id) <==> Val(id) / Pow2(bits) == Val(begin) / Pow2(bits)
  {
    BlockValues(begin, end, bits);
    LessEqIsValueOrder(begin, id);
    LessEqIsValueOrder(id, end);
    SameQuotient(Val(begin), Val(id), Pow2(bits));
  }

  lemma SameQuotient(lo: nat, x: nat, p: nat)
    requires p > 0 && lo % p == 0
    ensures lo <= x < lo + p <==> x / p == lo / p
  {
    var q := lo / p;
    assert lo == q * p;
    var r := x / p;
    assert r * p <= x < r * p + p;
    if r < q { MulStep(r, q, p); }
    if q < r { MulStep(q, r, p); }
  }

  /** The bitwise AND of two numbers. */
  function BitAnd(x: nat, y: nat): (r: nat)
    ensures r <= y
  {
    if x == 0 || y == 0 then 0 else (x % 2) * (y % 2) + 2 * BitAnd(x / 2, y / 2)
  }

  /** All the low bits of a byte, up to some. */
  predicate IsMask(m: int) { m in {0, 1, 3, 7, 15, 31, 63, 127, 255} }

  lemma {:induction false} BitAndMask(x: nat, m: nat)
    requires IsMask(m) && x <= m
    ensures BitAnd(x, m) == x
  {
    if x > 0 { BitAndMask(x / 2, m / 2); }
  }

  /** Between two IDs with a common prefix every ID has that prefix, and then a byte between theirs. */
  lemma {:induction false} PrefixForced(a: seq<Byte>, b: seq<Byte>, x: seq<Byte>, s: nat)
    requires |a| == |b| == |x| && s < |a| && a[..s] == b[..s] && Compare(a, x) <= 0 && Compare(x, b) <= 0
    ensures x[..s] == a[..s] && a[s] <= x[s] <= b[s]
  {
    if s > 0 {
      assert a[0] == a[..s][0] && b[0] == b[..s][0] && a[..s][1..] == a[1..][..s - 1] && b[..s][1..] == b[1..][..s - 1];
      PrefixForced(a[1..], b[1..], x[1..], s - 1);
      assert x[..s] == [x[0]] + x[1..][..s - 1] && a[..s] == [a[0]] + a[1..][..s - 1];
    }
  }
}
