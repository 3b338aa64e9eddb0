/** 160-bit identifiers as the 20 big-endian bytes of a HashString, their value,
    and the aligned power-of-two ranges that the routing table is cut into. */
module Id160 {

  newtype Byte = x: int | 0 <= x < 256

  const SIZE: nat := 20

  /** HashString: exactly 20 bytes, compared with memcmp. */
  type Id = s: seq<Byte> | |s| == SIZE witness seq(SIZE, _ => 0)

  const ZERO_ID: Id := seq(SIZE, _ => 0)
  const ONES_ID: Id := seq(SIZE, _ => 255)

  function Pow2(k: nat): (r: nat)
    ensures r > 0
  {
    if k == 0 then 1 else 2 * Pow2(k - 1)
  }

  lemma {:induction false} Pow2Sum(a: nat, b: nat)
    ensures Pow2(a + b) == Pow2(a) * Pow2(b)
  {
    if a > 0 {
      Pow2Sum(a - 1, b);
      assert Pow2(a + b) == 2 * Pow2(a + b - 1);
    }
  }

  lemma {:induction false} Pow2Monotone(a: nat, b: nat)
    requires a <= b
    ensures Pow2(a) <= Pow2(b)
    decreases b - a
  {
    if a < b { Pow2Monotone(a, b - 1); }
  }

  lemma MulDistributes(x: int, p: int, v: int, q: int)
    ensures (x * p + v) * q == x * (p * q) + v * q
  {}

  lemma MulStep(x: int, y: int, p: nat)
    requires x < y
    ensures x * p + p <= y * p
  {
    var d := y - x - 1;
    ProductStep(x, d, p);
    assert d * p >= 0;
  }

  lemma ProductStep(x: int, d: int, p: int)
    ensures (x + d + 1) * p == x * p + d * p + p
  {
  }

  lemma DivisionIsUnique(a: int, q: int, r: int, m: nat)
    requires a == q * m + r && 0 <= r < m
    ensures a / m == q && a % m == r
  {
    var d := a / m;
    assert d * m <= a < d * m + m;
    if d < q { MulStep(d, q, m); }
    if q < d { MulStep(q, d, m); }
  }

  /** 256^n, the number of values of n bytes. */
  function Radix(n: nat): (r: nat)
    ensures r > 0
  {
    if n == 0 then 1 else 256 * Radix(n - 1)
  }

  lemma {:induction false} RadixSum(a: nat, b: nat)
    ensures Radix(a + b) == Radix(a) * Radix(b)
  {
    if a > 0 {
      RadixSum(a - 1, b);
      assert Radix(a + b) == 256 * Radix(a + b - 1);
    }
  }

  lemma {:induction false} RadixIsPow2(n: nat)
    ensures Radix(n) == Pow2(8 * n)
  {
    if n > 0 {
      RadixIsPow2(n - 1);
      Pow2Sum(8, 8 * (n - 1));
      assert Pow2(8) == 256;
    }
  }

  /** The big-endian value of a byte string. */
  function Val(s: seq<Byte>): nat {
    if s == [] then 0 else s[0] as int * Radix(|s| - 1) + Val(s[1..])
  }

  lemma {:induction false} ValBound(s: seq<Byte>)
    ensures Val(s) < Radix(|s|)
  {
    if s != [] {
      ValBound(s[1..]);
      MulStep(s[0] as int, 256, Radix(|s| - 1));
    }
  }

  lemma {:induction false} ValConcat(a: seq<Byte>, b: seq<Byte>)
    ensures Val(a + b) == Val(a) * Radix(|b|) + Val(b)
  {
    if a == [] {
      assert a + b == b;
    } else {
      ValConcat(a[1..], b);
      assert (a + b)[1..] == a[1..] + b;
      RadixSum(|a| - 1, |b|);
      MulDistributes(a[0] as int, Radix(|a| - 1), Val(a[1..]), Radix(|b|));
    }
  }

  lemma ValCons(x: Byte, a: seq<Byte>)
    ensures Val([x] + a) == x as int * Radix(|a|) + Val(a)
  {
    assert ([x] + a)[1..] == a;
  }

  lemma ValSnoc(a: seq<Byte>, x: Byte)
    ensures Val(a + [x]) == Val(a) * 256 + x as int
  {
    ValConcat(a, [x]);
    assert Radix(1) == 256 && Radix(0) == 1;
  }

  lemma {:induction false} ValFill(n: nat, x: Byte)
    requires x == 0 || x == 255
    ensures Val(seq(n, _ => x)) == if x == 0 then 0 else Radix(n) - 1
  {
    if n > 0 {
      ValFill(n - 1, x);
      assert seq(n, _ => x)[1..] == seq(n - 1, _ => x);
    }
  }

  /** memcmp on equally long byte strings, as operator< and operator<= of HashString use it. */
  function Compare(a: seq<Byte>, b: seq<Byte>): int
    requires |a| == |b|
  {
    if a == [] then 0
    else if a[0] != b[0] then a[0] as int - b[0] as int
    else Compare(a[1..], b[1..])
  }

  predicate LessEq(a: Id, b: Id) { Compare(a, b) <= 0 }

  /** memcmp order is the order of the values, and equal values are equal byte strings. */
  lemma {:induction false} CompareIsValueOrder(a: seq<Byte>, b: seq<Byte>)
    requires |a| == |b|
    ensures Compare(a, b) < 0 <==> Val(a) < Val(b)
    ensures Compare(a, b) == 0 <==> Val(a) == Val(b)
    ensures Val(a) == Val(b) <==> a == b
  {
    if a != [] {
      CompareIsValueOrder(a[1..], b[1..]);
      ValBound(a[1..]);
      ValBound(b[1..]);
      var p := Radix(|a| - 1);
      if a[0] < b[0] {
        MulStep(a[0] as int, b[0] as int, p);
      } else if b[0] < a[0] {
        MulStep(b[0] as int, a[0] as int, p);
      } else {
        assert a == [a[0]] + a[1..] && b == [b[0]] + b[1..];
      }
    }
  }

  lemma LessEqIsValueOrder(a: Id, b: Id)
    ensures LessEq(a, b) <==> Val(a) <= Val(b)
  {
    CompareIsValueOrder(a, b);
  }
}
