/** Powers of two and the bits of integers in infinite two's complement. */
module Bits {

  function Pow2(n: nat): (p: int)
    ensures p >= 1
  {
    if n == 0 then 1 else 2 * Pow2(n - 1)
  }

  lemma {:induction false} Pow2Add(m: nat, n: nat)
    ensures Pow2(m + n) == Pow2(m) * Pow2(n)
  {
    if m > 0 {
      Pow2Add(m - 1, n);
      assert Pow2(m + n) == 2 * Pow2(m - 1 + n);
    }
  }

  lemma {:induction false} Pow2Mono(m: nat, n: nat)
    requires m <= n
    ensures Pow2(m) <= Pow2(n)
  {
    if m < n {
      Pow2Mono(m, n - 1);
    }
  }

  lemma Pow2At62()
    ensures Pow2(31) == 0x8000_0000
    ensures Pow2(62) == 0x4000_0000_0000_0000
  {
    assert Pow2(4) == 16;
    Pow2Add(4, 4);
    Pow2Add(8, 8);
    Pow2Add(8, 4);
    Pow2Add(12, 3);
    Pow2Add(16, 15);
    Pow2Add(31, 31);
    assert Pow2(3) == 8;
  }

  // Bit i of an integer, reading negative numbers in two's complement without end
  ghost predicate Bit(x: int, i: nat) {
    (x / Pow2(i)) % 2 == 1
  }

  lemma QuotientIs(x: int, m: int, q: int, r: int)
    requires m >= 1 && x == q * m + r && 0 <= r < m
    ensures x / m == q && x % m == r
  {
    var e := x / m;
    assert x == e * m + x % m;
    if e > q {
      MulLe(q + 1, e, m);
    } else if e < q {
      MulLe(e + 1, q, m);
    }
  }

  lemma MulLe(a: int, b: int, p: int)
    requires a <= b && 0 <= p
    ensures a * p <= b * p
  {}

  lemma DivDiv(x: int, a: int, b: int)
    requires a >= 1 && b >= 1
    ensures a * b >= 1 && x / (a * b) == x / a / b
  {
    var q1, r1 := x / a, x % a;
    var q2, r2 := q1 / b, q1 % b;
    assert x == q1 * a + r1 && q1 == q2 * b + r2;
    MulLe(1, b, a);
    MulLe(r2, b - 1, a);
    MulLe(0, r2, a);
    assert q2 * (a * b) + (r2 * a + r1) == (q2 * b + r2) * a + r1;
    QuotientIs(x, a * b, q2, r2 * a + r1);
  }

  lemma BitShift(x: int, m: nat, i: nat)
    ensures Bit(x, m + i) == Bit(x / Pow2(m), i)
  {
    Pow2Add(m, i);
    DivDiv(x, Pow2(m), Pow2(i));
  }

  // Adding a multiple of 2^n does not touch the bits below n.
  lemma BitBelow(x: int, q: int, n: nat, i: nat)
    requires i < n
    ensures Bit(x + q * Pow2(n), i) == Bit(x, i)
  {
    Pow2Add(i, n - i);
    assert Pow2(n - i) == 2 * Pow2(n - 1 - i);
    KeepsParity(x, q, Pow2(i), Pow2(n - 1 - i), Pow2(n));
  }

  lemma KeepsParity(x: int, q: int, p: int, h: int, m: int)
    requires p >= 1 && m == p * (2 * h)
    ensures ((x + q * m) / p) % 2 == (x / p) % 2
  {
    var e, r, c := x / p, x % p, q * h;
    assert x == e * p + r;
    EvenMultiple(q, p, h, m, c, e);
    QuotientIs(x + q * m, p, e + 2 * c, r);
    assert (e + 2 * c) % 2 == e % 2;
  }

  lemma EvenMultiple(q: int, p: int, h: int, m: int, c: int, e: int)
    requires m == p * (2 * h) && c == q * h
    ensures (e + 2 * c) * p == e * p + q * m
  {
    assert q * (p * (2 * h)) == 2 * (q * h) * p;
  }

  // Above the magnitude there is only the sign.
  lemma BitAbove(x: int, n: nat, i: nat)
    requires n <= i && -Pow2(n) <= x < Pow2(n)
    ensures Bit(x, i) <==> x < 0
  {
    Pow2Mono(n, i);
    if x < 0 {
      QuotientIs(x, Pow2(i), -1, x + Pow2(i));
    } else {
      QuotientIs(x, Pow2(i), 0, x);
    }
  }

  // Complementing flips every bit.
  lemma BitNot(x: int, i: nat)
    ensures Bit(-x - 1, i) <==> !Bit(x, i)
  {
    ComplementQuotient(x, Pow2(i));
  }

  lemma ComplementQuotient(x: int, p: int)
    requires p >= 1
    ensures (-x - 1) / p == -(x / p) - 1
  {
    var e, r := x / p, x % p;
    assert x == e * p + r;
    NegateProduct(e, p);
    QuotientIs(-x - 1, p, -e - 1, p - 1 - r);
  }

  lemma NegateProduct(e: int, p: int)
    ensures (-e - 1) * p == -(e * p) - p
  {}

  datatype Op = And | Or | Xor

  predicate Apply(op: Op, a: bool, b: bool) {
    match op
    case And => a && b
    case Or => a || b
    case Xor => a != b
  }

  // The machine's & | ^ on words of n bits
  function WordOp(op: Op, x: int, y: int, n: nat): int
    decreases n, x, y
  {
    if n == 0 then 0
    else (if Apply(op, x % 2 == 1, y % 2 == 1) then 1 else 0) + 2 * WordOp(op, x / 2, y / 2, n - 1)
  }

  lemma {:induction false} WordOpRange(op: Op, x: int, y: int, n: nat)
    ensures 0 <= WordOp(op, x, y, n) < Pow2(n)
    decreases n
  {
    if n > 0 {
      WordOpRange(op, x / 2, y / 2, n - 1);
    }
  }

  lemma {:induction false} WordOpBit(op: Op, x: int, y: int, n: nat, i: nat)
    requires i < n
    ensures Bit(WordOp(op, x, y, n), i) == Apply(op, Bit(x, i), Bit(y, i))
    decreases n
  {
    hide Bit, WordOp, Apply;
    var w := WordOp(op, x, y, n);
    WordOpHalves(op, x, y, n);
    if i == 0 {
      BitZero(w);
      BitZero(x);
      BitZero(y);
    } else {
      BitHalf(w, i);
      BitHalf(x, i);
      BitHalf(y, i);
      WordOpBit(op, x / 2, y / 2, n - 1, i - 1);
    }
  }

  lemma WordOpHalves(op: Op, x: int, y: int, n: nat)
    requires n > 0
    ensures WordOp(op, x, y, n) % 2 == 1 <==> Apply(op, x % 2 == 1, y % 2 == 1)
    ensures WordOp(op, x, y, n) / 2 == WordOp(op, x / 2, y / 2, n - 1)
  {
    hide Apply;
    Halves(if Apply(op, x % 2 == 1, y % 2 == 1) then 1 else 0, WordOp(op, x / 2, y / 2, n - 1));
  }

  lemma Halves(b: int, rest: int)
    requires 0 <= b <= 1
    ensures (b + 2 * rest) % 2 == b && (b + 2 * rest) / 2 == rest
  {}

  lemma BitZero(x: int)
    ensures Bit(x, 0) <==> x % 2 == 1
  {
    assert Pow2(0) == 1;
  }

  lemma BitHalf(x: int, i: nat)
    requires i > 0
    ensures Bit(x, i) == Bit(x / 2, i - 1)
  {
    assert Pow2(1) == 2;
    BitShift(x, 1, i - 1);
  }

  // An integer op determined on the bits below n by r, and above n by the signs
  lemma SignExtended(op: Op, x: int, y: int, r: int, v: int, n: nat)
    requires -Pow2(n) <= x < Pow2(n) && -Pow2(n) <= y < Pow2(n) && 0 <= r < Pow2(n)
    requires forall i :: 0 <= i < n ==> Bit(r, i) == Apply(op, Bit(x, i), Bit(y, i))
    requires v == if Apply(op, x < 0, y < 0) then r - Pow2(n) else r
    ensures forall i: nat :: Bit(v, i) == Apply(op, Bit(x, i), Bit(y, i))
  {
    hide Bit, Pow2;
    forall i: nat ensures Bit(v, i) == Apply(op, Bit(x, i), Bit(y, i)) {
      if i < n {
        BitBelow(r, -1, n, i);
      } else {
        BitAbove(v, n, i);
        BitAbove(x, n, i);
        BitAbove(y, n, i);
      }
    }
  }

  // The position of the highest set bit (bsr)
  function Log2(d: int): (n: nat)
    requires d >= 1
    ensures Pow2(n) <= d < Pow2(n + 1)
    decreases d
  {
    if d == 1 then 0 else 1 + Log2(d / 2)
  }

  lemma Log2Unique(d: int, n: nat)
    requires Pow2(n) <= d < Pow2(n + 1)
    ensures Log2(d) == n
  {
    if Log2(d) < n {
      Pow2Mono(Log2(d) + 1, n);
    } else if Log2(d) > n {
      Pow2Mono(n + 1, Log2(d));
    }
  }

  // The position of the lowest set bit
  function Lowest(x: int): (n: nat)
    requires x > 0
    decreases x
  {
    if x % 2 == 1 then 0 else 1 + Lowest(x / 2)
  }

  lemma {:induction false} LowestIsFirst(x: int, i: nat)
    requires x > 0 && i <= Lowest(x)
    ensures Bit(x, i) <==> i == Lowest(x)
    decreases x
  {
    hide Bit;
    if i == 0 {
      BitZero(x);
    } else {
      BitHalf(x, i);
      LowestIsFirst(x / 2, i - 1);
    }
  }

  // x & (~x + 1) isolates the lowest set bit of a word of n bits.
  lemma {:induction false} IsolateLowest(x: int, n: nat)
    requires 0 < x < Pow2(n)
    ensures WordOp(And, x, Pow2(n) - x, n) == Pow2(Lowest(x))
    decreases n
  {
    assert Pow2(n) == 2 * Pow2(n - 1);
    if x % 2 == 1 {
      assert (Pow2(n) - x) / 2 == Pow2(n - 1) - x / 2 - 1;
      DisjointComplement(x / 2, n - 1);
    } else {
      assert (Pow2(n) - x) / 2 == Pow2(n - 1) - x / 2;
      IsolateLowest(x / 2, n - 1);
    }
  }

  lemma {:induction false} DisjointComplement(x: int, n: nat)
    requires 0 <= x < Pow2(n)
    ensures WordOp(And, x, Pow2(n) - 1 - x, n) == 0
    decreases n
  {
    if n > 0 {
      assert (Pow2(n) - 1 - x) / 2 == Pow2(n - 1) - 1 - x / 2;
      DisjointComplement(x / 2, n - 1);
    }
  }

  // The bits of (1 << k) - 1, and of the complement of a word
  lemma MaskBit(k: nat, i: nat)
    ensures Bit(Pow2(k) - 1, i) <==> i < k
  {
    if i < k {
      BitBelow(-1, 1, k, i);
      BitAbove(-1, 0, i);
    } else {
      BitAbove(Pow2(k) - 1, k, i);
    }
  }

  lemma ComplementBit(x: int, n: nat, i: nat)
    requires i < n
    ensures Bit(Pow2(n) - 1 - x, i) <==> !Bit(x, i)
  {
    BitNot(x, i);
    BitBelow(-x - 1, 1, n, i);
  }
}
