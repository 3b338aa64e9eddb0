/** Kademlia's XOR metric, and where it puts the buckets of a routing table.

    IDs are w bits wide. A table that has split its own bucket n - 1 times has buckets 0 .. n - 1, widest first.
    Bucket m < n - 1 holds the IDs that share exactly m leading bits with the router's own ID;
    the last bucket holds all that share n - 1 or more. */
module DhtMetric {
  import opened Id160
  import opened DhtRange

  function Xor(a: nat, b: nat): nat
    decreases a + b
  {
    if a == 0 && b == 0 then 0 else 2 * Xor(a / 2, b / 2) + (a + b) % 2
  }

  function Distance(x: Id, y: Id): nat { Xor(Val(x), Val(y)) }

  lemma {:induction false} XorZero(a: nat, b: nat)
    ensures Xor(a, b) == 0 <==> a == b
    decreases a + b
  {
    if a != 0 || b != 0 { XorZero(a / 2, b / 2); }
  }

  lemma XorStep(a: nat, b: nat)
    ensures Xor(a, b) == 2 * Xor(a / 2, b / 2) + (a + b) % 2
  {
  }

  /** Two numbers agree above their last bits. */
  predicate Shares(x: nat, y: nat, bits: nat) { x / Pow2(bits) == y / Pow2(bits) }

  lemma HalvedQuotient(a: nat, k: nat)
    requires k > 0
    ensures (a / 2) / Pow2(k - 1) == a / Pow2(k)
  {
    var p, h := Pow2(k - 1), a / 2;
    var q, r := h / p, h % p;
    assert a == q * (2 * p) + (2 * r + a % 2);
    DivisionIsUnique(a, q, 2 * r + a % 2, 2 * p);
  }

  lemma HalvedShares(a: nat, b: nat, k: nat)
    requires k > 0
    ensures Shares(a / 2, b / 2, k - 1) <==> Shares(a, b, k)
  {
    hide Pow2;
    HalvedQuotient(a, k);
    HalvedQuotient(b, k);
  }

  /** Two numbers are closer than 2^k exactly when they agree above their last k bits. */
  lemma {:induction false} XorIsCommonPrefix(a: nat, b: nat, k: nat)
    ensures Xor(a, b) < Pow2(k) <==> Shares(a, b, k)
    decreases k
  {
    hide Xor, Shares;
    if k == 0 {
      XorZero(a, b);
      SharesAll(a, b);
    } else {
      XorIsCommonPrefix(a / 2, b / 2, k - 1);
      HalvedShares(a, b, k);
      XorStep(a, b);
    }
  }

  lemma SharesAll(a: nat, b: nat)
    ensures Shares(a, b, 0) <==> a == b
  {
    assert Pow2(0) == 1;
  }

  lemma CoarserPrefix(a: nat, b: nat, j: nat, k: nat)
    requires j <= k && Shares(a, b, j)
    ensures Shares(a, b, k)
  {
    hide Shares, Xor, Pow2;
    XorIsCommonPrefix(a, b, j);
    XorIsCommonPrefix(a, b, k);
    Pow2Monotone(j, k);
  }

  /** Width of bucket m, in bits, in a table of n buckets. */
  function BucketBits(w: nat, n: nat, m: nat): (bits: nat)
    requires m < n <= w + 1
  {
    if m < n - 1 then w - 1 - m else w + 1 - n
  }

  /** x belongs to bucket m of n around the router's ID `own`. */
  predicate InBucket(w: nat, own: nat, n: nat, m: nat, x: nat)
    requires m < n <= w + 1
  {
    if m < n - 1 then Shares(x, own, w - m) && !Shares(x, own, w - 1 - m)
    else Shares(x, own, w + 1 - n)
  }

  lemma OtherHalf(a: nat, b: nat, c: nat, k: nat)
    requires k > 0
    requires Shares(a, b, k) && Shares(b, c, k)
    requires !Shares(a, b, k - 1) && !Shares(b, c, k - 1)
    ensures Shares(a, c, k - 1)
  {
    hide Pow2;
    QuotientOfHalf(a, k);
    QuotientOfHalf(b, k);
    QuotientOfHalf(c, k);
  }

  lemma QuotientOfHalf(a: nat, k: nat)
    requires k > 0
    ensures a / Pow2(k) == (a / Pow2(k - 1)) / 2
  {
    var p := Pow2(k - 1);
    var q, r := (a / p) / 2, (a / p) % 2;
    assert a == q * (2 * p) + (r * p + a % p) by {
      assert a == (2 * q + r) * p + a % p;
    }
    assert r * p + a % p < 2 * p by { assert r == 0 || r == 1; }
    DivisionIsUnique(a, q, r * p + a % p, 2 * p);
  }

  lemma InRangeIsShared(begin: Id, end: Id, bits: nat, id: Id)
    requires IsBlock(begin, end, bits)
    ensures InRange(begin, end, id) <==> Shares(Val(id), Val(begin), bits)
  {
    hide IsBlock, InRange;
    InRangeIsSamePrefix(begin, end, bits, id);
  }

  /** An aligned block of the right width that starts in bucket m is bucket m. */
  lemma BlockIsBucket(w: nat, own: nat, n: nat, m: nat, begin: Id, end: Id, id: Id)
    requires m < n <= w + 1
    requires IsBlock(begin, end, BucketBits(w, n, m)) && InBucket(w, own, n, m, Val(begin))
    ensures InRange(begin, end, id) <==> InBucket(w, own, n, m, Val(id))
  {
    hide Pow2, IsBlock, InRange;
    var bits := BucketBits(w, n, m);
    InRangeIsShared(begin, end, bits, id);
    if m < n - 1 {
      if Shares(Val(id), Val(begin), bits) {
        CoarserPrefix(Val(id), Val(begin), bits, bits + 1);
      } else if InBucket(w, own, n, m, Val(id)) {
        OtherHalf(Val(id), own, Val(begin), bits + 1);
      }
    }
  }

  /** Which bucket an ID at the given distance from the router belongs to. */
  function BucketAtDistance(w: nat, n: nat, d: nat): (m: nat)
    requires 0 < n <= w + 1
    ensures m < n
  {
    if n == 1 || d < Pow2(w + 1 - n) then n - 1 else BucketAtDistance(w, n - 1, d)
  }

  lemma {:induction false} BucketAtDistanceBounds(w: nat, n: nat, d: nat)
    requires 0 < n <= w + 1 && d < Pow2(w)
    ensures var m := BucketAtDistance(w, n, d);
            if m == n - 1 then d < Pow2(w + 1 - n) else Pow2(w - 1 - m) <= d < Pow2(w - m)
  {
    if n > 1 && d >= Pow2(w + 1 - n) { BucketAtDistanceBounds(w, n - 1, d); }
  }

  lemma SharesNothing(x: nat, y: nat, w: nat)
    requires x < Pow2(w) && y < Pow2(w)
    ensures Shares(x, y, w)
  {
    hide Pow2;
    DivisionIsUnique(x, 0, x, Pow2(w));
    DivisionIsUnique(y, 0, y, Pow2(w));
  }

  /** The buckets partition the ID space: each ID is in exactly one of them. */
  lemma BucketsPartition(w: nat, own: nat, n: nat, x: nat, m: nat)
    requires m < n <= w + 1 && own < Pow2(w) && x < Pow2(w)
    ensures InBucket(w, own, n, m, x) <==> m == BucketAtDistance(w, n, Xor(x, own))
  {
    hide Xor, Shares, Pow2, BucketAtDistance;
    var d := Xor(x, own);
    XorIsCommonPrefix(x, own, w);
    SharesNothing(x, own, w);
    BucketAtDistanceBounds(w, n, d);
    var k := BucketAtDistance(w, n, d);
    if m < n - 1 {
      XorIsCommonPrefix(x, own, w - m);
      XorIsCommonPrefix(x, own, w - 1 - m);
    } else {
      XorIsCommonPrefix(x, own, w + 1 - n);
    }
    if m < k { Pow2Monotone(w - k, w - 1 - m); }
    if k < m { Pow2Monotone(w - m, w - 1 - k); }
  }

  /** Distance bands seen from a target in bucket s: bucket s itself is band 0, the buckets
      narrower than s are together band 1, then each wider bucket is a band of its own. */
  function Band(s: nat, m: nat): nat {
    if m == s then 0 else if m > s then 1 else 1 + (s - m)
  }

  /** The IDs of one bucket share all but its own bits. */
  lemma SameBucket(w: nat, own: nat, n: nat, s: nat, t: nat, x: nat)
    requires s < n <= w + 1 && InBucket(w, own, n, s, t) && InBucket(w, own, n, s, x)
    ensures Shares(x, t, BucketBits(w, n, s))
  {
    if s < n - 1 {
      hide Pow2;
      OtherHalf(x, own, t, w - s);
    }
  }

  /** An ID of a narrower bucket is as far from one of bucket s as the router's ID is. */
  lemma NarrowerBucket(w: nat, own: nat, n: nat, s: nat, t: nat, m: nat, x: nat)
    requires s < m < n <= w + 1 && InBucket(w, own, n, s, t) && InBucket(w, own, n, m, x)
    ensures Shares(x, t, w - s) && !Shares(x, t, w - 1 - s)
  {
    CoarserPrefix(x, own, if m < n - 1 then w - m else w + 1 - n, w - 1 - s);
    CoarserPrefix(x, own, w - 1 - s, w - s);
    hide Pow2;
  }

  lemma BandBounds(w: nat, own: nat, n: nat, s: nat, t: nat, m: nat, x: nat)
    requires s < n <= w + 1 && m < n
    requires InBucket(w, own, n, s, t) && InBucket(w, own, n, m, x)
    ensures m == s ==> Xor(x, t) < Pow2(BucketBits(w, n, s))
    ensures m > s ==> Pow2(w - 1 - s) <= Xor(x, t) < Pow2(w - s)
    ensures m < s ==> Pow2(w - 1 - m) <= Xor(x, t) < Pow2(w - m)
  {
    hide Xor, Shares, Pow2, InBucket;
    if m == s {
      XorIsCommonPrefix(x, t, BucketBits(w, n, s));
      SameBucket(w, own, n, s, t, x);
    } else {
      var k := if m > s then s else m;
      XorIsCommonPrefix(x, t, w - k);
      XorIsCommonPrefix(x, t, w - 1 - k);
      if m > s {
        NarrowerBucket(w, own, n, s, t, m, x);
      } else {
        NarrowerBucket(w, own, n, m, x, s, t);
        SharesBack(x, t, w - m);
        SharesBack(x, t, w - 1 - m);
      }
    }
  }

  lemma SharesBack(x: nat, y: nat, bits: nat)
    ensures Shares(x, y, bits) <==> Shares(y, x, bits)
  {
    hide Pow2;
  }

  /** Every ID of an earlier band is strictly closer to the target than every ID of a later one. */
  lemma BandsAreOrdered(w: nat, own: nat, n: nat, s: nat, t: nat, a: nat, x: nat, b: nat, y: nat)
    requires s < n <= w + 1 && a < n && b < n
    requires InBucket(w, own, n, s, t) && InBucket(w, own, n, a, x) && InBucket(w, own, n, b, y)
    requires Band(s, a) < Band(s, b)
    ensures Xor(x, t) < Xor(y, t)
  {
    hide Xor, Pow2, InBucket;
    BandBounds(w, own, n, s, t, a, x);
    BandBounds(w, own, n, s, t, b, y);
    if b < s && a < s {
      Pow2Monotone(w - a, w - 1 - b);
    } else if b < s {
      Pow2Monotone(BucketBits(w, n, s), w - s);
      Pow2Monotone(w - s, w - 1 - b);
    }
  }
}
