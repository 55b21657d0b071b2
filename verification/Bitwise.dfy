/** Bitwise operations on sign-magnitude numbers, specified on infinite two's complement. */
module Bitwise {
  import opened Digits
  import opened Bits
  import opened Bignum
  import opened Multiply

  // ----- bits of digit strings

  lemma {:induction false} PowIsPow2(n: nat)
    ensures Pow(n) == Pow2(62 * n)
  {
    if n > 0 {
      PowIsPow2(n - 1);
      Pow2At62();
      Pow2Add(62, 62 * (n - 1));
    }
  }

  lemma {:induction false} BitOfDigits(s: seq<Digit>, j: nat, t: nat)
    requires t < 62
    ensures Bit(Val(s), 62 * j + t) == Bit(DigitAt(s, j), t)
    decreases |s|
  {
    if |s| == 0 {
      BitAbove(0, 0, 62 * j + t);
      BitAbove(0, 0, t);
    } else {
      var rest := Val(s[1..]);
      assert Val(s) == s[0] + rest * R && (j > 0 ==> DigitAt(s, j) == DigitAt(s[1..], j - 1)) && DigitAt(s, 0) == s[0];
      hide Bit, Val, DigitAt;
      if j == 0 {
        LowDigitBit(s[0], rest, t);
      } else {
        HighDigitBit(s[0], rest, 62 * (j - 1) + t);
        BitOfDigits(s[1..], j - 1, t);
      }
    }
  }

  lemma LowDigitBit(d: Digit, rest: int, t: nat)
    requires t < 62
    ensures Bit(d + rest * R, t) == Bit(d, t)
  {
    hide Bit;
    Pow2At62();
    BitBelow(d, rest, 62, t);
  }

  lemma HighDigitBit(d: Digit, rest: int, i: nat)
    ensures Bit(d + rest * R, 62 + i) == Bit(rest, i)
  {
    hide Bit;
    Pow2At62();
    QuotientIs(d + rest * R, R, rest, d);
    BitShift(d + rest * R, 62, i);
  }

  // A string computed digit by digit is computed bit by bit.
  lemma BitsOfResult(op: Op, x: seq<Digit>, y: seq<Digit>, a: seq<Digit>, b: nat)
    requires Operated(op, x, y, a, |a|)
    requires b < 62 * |a|
    ensures Bit(Val(a), b) == Apply(op, Bit(Val(x), b), Bit(Val(y), b))
  {
    hide Bit, Val, DigitAt, WordOp, Apply;
    var j, t := b / 62, b % 62;
    assert b == 62 * j + t;
    assert j < |a|;
    InDigits(a, j);
    BitOfDigits(a, j, t);
    BitOfDigits(x, j, t);
    BitOfDigits(y, j, t);
    WordOpBit(op, DigitAt(x, j), DigitAt(y, j), 62, t);
  }

  // What the operations promise: the integer operation on every bit
  ghost predicate IsOp(op: Op, x: int, y: int, v: int) {
    forall i: nat :: Bit(v, i) == Apply(op, Bit(x, i), Bit(y, i))
  }

  // The digits hold the op of x and y modulo Pow(n); with the sign put back it is the op.
  lemma OpFromDigits(op: Op, x: int, y: int, sx: seq<Digit>, sy: seq<Digit>, a: seq<Digit>, n: nat, v: int)
    requires |a| == n && (Val(sx) == x || Val(sx) == x + Pow(n)) && (Val(sy) == y || Val(sy) == y + Pow(n))
    requires -Pow(n) <= x < Pow(n) && -Pow(n) <= y < Pow(n)
    requires Operated(op, sx, sy, a, n)
    requires v == if Apply(op, x < 0, y < 0) then Val(a) - Pow(n) else Val(a)
    ensures IsOp(op, x, y, v)
  {
    hide Bit, Val, DigitAt, WordOp, Apply, Pow, Pow2;
    PowIsPow2(n);
    ValBound(a);
    forall i | 0 <= i < 62 * n ensures Bit(Val(a), i) == Apply(op, Bit(x, i), Bit(y, i)) {
      BitsOfResult(op, sx, sy, a, i);
      BitBelow(x, 1, 62 * n, i);
      BitBelow(y, 1, 62 * n, i);
    }
    SignExtended(op, x, y, Val(a), v, 62 * n);
  }

  // ----- two's complement, digit by digit

  // Below digit i, c holds the two's complement of s, up to the carry of the final increment.
  ghost predicate Complement(s: seq<Digit>, c: seq<Digit>, i: nat, carry: int) {
    ValTo(c, i) + ValTo(s, i) + carry * Pow(i) == Pow(i)
  }

  lemma ComplementStart(s: seq<Digit>, c: seq<Digit>)
    ensures Complement(s, c, 0, 1)
  {}

  lemma ComplementStep(s: seq<Digit>, c: seq<Digit>, c': seq<Digit>, i: nat, carry: int, carry': int)
    requires Complement(s, c, i, carry)
    requires i < |c| && |c'| == |c| && c' == c[i := c'[i]]
    requires c'[i] + R * carry' == R - 1 - DigitAt(s, i) + carry
    ensures Complement(s, c', i + 1, carry')
  {
    Store(c, c', i);
    ComplementArith(ValTo(c, i), ValTo(s, i), carry, carry', c'[i], DigitAt(s, i), Pow(i));
  }

  lemma ComplementArith(c: int, s: int, carry: int, carry': int, d: int, sd: int, p: int)
    requires c + s + carry * p == p && d + R * carry' == R - 1 - sd + carry
    ensures c + d * p + (s + sd * p) + carry' * (R * p) == R * p
  {
    MulEq(d + R * carry', R - 1 - sd + carry, p);
  }

  lemma ComplementDone(s: seq<Digit>, c: seq<Digit>, carry: int)
    requires |s| <= |c| && Complement(s, c, |c|, carry) && 0 <= carry <= 1
    ensures Val(s) > 0 ==> carry == 0 && Val(c) == Pow(|c|) - Val(s)
    ensures Val(s) == 0 ==> Val(c) == 0
  {
    ValToAll(s, |c|);
    ValToAll(c, |c|);
    ValToBound(c, |c|);
    ComplementTotal(Val(c), Val(s), carry, Pow(|c|));
  }

  lemma ComplementTotal(c: int, s: int, carry: int, p: int)
    requires c + s + carry * p == p && 0 <= c < p && 0 <= s && 0 <= carry <= 1
    ensures s > 0 ==> carry == 0 && c == p - s
    ensures s == 0 ==> c == 0
  {
    if carry == 1 {
      assert c + s == 0;
    }
  }

  // (~digit & mask) + carry, reduced: one digit of a two's complement
  method ComplementDigit(d: Digit, carry: Fixnum) returns (digit: Digit, carry': Fixnum)
    requires 0 <= carry <= 1
    ensures digit + R * carry' == R - 1 - d + carry && 0 <= carry' <= 1
  {
    var sum: Fixnum := R - 1 - d + carry;
    if sum < R {
      digit, carry' := sum, 0;
    } else {
      digit, carry' := sum - R, 1;
    }
  }

  // bignum_negate_magnitude
  method NegateMagnitude(a: array<Digit>)
    modifies a
    ensures old(Val(a[..])) > 0 ==> Val(a[..]) == Pow(a.Length) - old(Val(a[..]))
    ensures old(Val(a[..])) == 0 ==> Val(a[..]) == 0
  {
    hide Complement, Val;
    ghost var a0 := a[..];
    var carry: Fixnum := 1;
    var i := 0;
    ComplementStart(a0, a[..]);
    while i < a.Length
      invariant 0 <= i <= a.Length && 0 <= carry <= 1
      invariant a[i..] == a0[i..]
      invariant Complement(a0, a[..], i, carry)
    {
      ghost var a1, c := a[..], carry;
      assert a[i] == a[i..][0] == a0[i..][0] == a0[i];
      InDigits(a0, i);
      a[i], carry := ComplementDigit(a[i], carry);
      ComplementStep(a0, a1, a[..], i, c, carry);
      i := i + 1;
      assert a[i..] == a1[i - 1..][1..];
    }
    ComplementDone(a0, a[..], carry);
  }

  lemma WordOpDigit(op: Op, x: Digit, y: Digit)
    ensures 0 <= WordOp(op, x, y, 62) < R
  {
    WordOpRange(op, x, y, 62);
    Pow2At62();
  }

  // The digits of a below i are the operation on the digits of x and y.
  ghost predicate Operated(op: Op, x: seq<Digit>, y: seq<Digit>, a: seq<Digit>, i: nat) {
    i <= |a| && forall j :: 0 <= j < i ==> a[j] == WordOp(op, DigitAt(x, j), DigitAt(y, j), 62)
  }

  lemma OperatedStart(op: Op, x: seq<Digit>, y: seq<Digit>, a: seq<Digit>)
    ensures Operated(op, x, y, a, 0)
  {}

  // One more digit; the operands may grow by the same digit.
  lemma OperatedStep(op: Op, x: seq<Digit>, x': seq<Digit>, y: seq<Digit>, y': seq<Digit>, a: seq<Digit>,
                     a': seq<Digit>, i: nat)
    requires Operated(op, x, y, a, i) && i < |a| && |a'| == |a| && a' == a[i := a'[i]]
    requires x' == x || (i < |x| == |x'| && x' == x[i := x'[i]])
    requires y' == y || (i < |y| == |y'| && y' == y[i := y'[i]])
    requires a'[i] == WordOp(op, DigitAt(x', i), DigitAt(y', i), 62)
    ensures Operated(op, x', y', a', i + 1)
  {
    hide WordOp;
    assert forall j :: 0 <= j < i ==> DigitAt(x', j) == DigitAt(x, j) && DigitAt(y', j) == DigitAt(y, j);
  }

  // ----- the three sign cases

  // bignum_pospos_bitwise_op
  method PosPos(op: Op, x: Number, y: Number) returns (r: Number)
    requires x.Valid() && y.Valid() && !x.negative && !y.negative
    ensures r.Valid() && IsOp(op, x.Value(), y.Value(), r.Value())
  {
    hide Val, WordOp, IsOp, Operated;
    var n := if |x.digits| > |y.digits| then |x.digits| else |y.digits|;
    var a := new Digit[n];
    var i := 0;
    OperatedStart(op, x.digits, y.digits, a[..]);
    while i < n
      invariant 0 <= i <= n
      invariant Operated(op, x.digits, y.digits, a[..], i)
    {
      ghost var a0 := a[..];
      var digit1, digit2 := DigitAt(x.digits, i), DigitAt(y.digits, i);
      WordOpDigit(op, digit1, digit2);
      a[i] := WordOp(op, digit1, digit2, 62);
      OperatedStep(op, x.digits, x.digits, y.digits, y.digits, a0, a[..], i);
      i := i + 1;
    }
    FitsLength(x, n);
    FitsLength(y, n);
    OpFromDigits(op, x.Value(), y.Value(), x.digits, y.digits, a[..], n, Val(a[..]));
    r := Trim(false, a);
  }

  lemma FitsLength(x: Number, n: nat)
    requires |x.digits| <= n
    ensures -Pow(n) < x.Value() < Pow(n)
  {
    ValBound(x.digits);
    PowMono(|x.digits|, n);
  }

  // The length that bignum_posneg_bitwise_op works with
  function PosNegLength(x: Number, y: Number): nat {
    if |x.digits| > |y.digits| + 1 then |x.digits| else |y.digits| + 1
  }

  // The digits of bignum_posneg_bitwise_op before the sign is put back
  method PosNegDigits(op: Op, x: seq<Digit>, y: seq<Digit>, a: array<Digit>) returns (ghost c: seq<Digit>)
    requires |y| < a.Length && Val(y) > 0
    modifies a
    ensures |c| == a.Length && Val(c) == Pow(a.Length) - Val(y)
    ensures Operated(op, x, c, a[..], a.Length)
  {
    hide Complement, WordOp, Val, DigitAt, Pow, Operated;
    c := seq(a.Length, _ => 0);
    var carry2: Fixnum := 1;
    var i := 0;
    ComplementStart(y, c);
    OperatedStart(op, x, c, a[..]);
    while i < a.Length
      invariant 0 <= i <= a.Length && 0 <= carry2 <= 1 && |c| == a.Length
      invariant Complement(y, c, i, carry2)
      invariant Operated(op, x, c, a[..], i)
    {
      ghost var c0, k, a0 := c, carry2, a[..];
      var digit1 := DigitAt(x, i);
      var digit2;
      digit2, carry2 := ComplementDigit(DigitAt(y, i), carry2);
      c := c[i := digit2];
      ComplementStep(y, c0, c, i, k, carry2);
      WordOpDigit(op, digit1, digit2);
      a[i] := WordOp(op, digit1, digit2, 62);
      InDigits(c, i);
      OperatedStep(op, x, x, c0, c, a0, a[..], i);
      i := i + 1;
    }
    ComplementDone(y, c, carry2);
  }

  // The magnitude does not fit: the sum of the magnitudes is exactly Pow(length).
  ghost predicate XorOverflows(x: Number, y: Number) {
    Val(x.digits) + Val(y.digits) == Pow(PosNegLength(x, y))
  }

  // bignum_posneg_bitwise_op.  It yields the operation except for one case of exclusive or, in which
  // the carry out of the top digit is lost and the result is zero.
  method PosNeg(op: Op, x: Number, y: Number) returns (r: Number)
    requires x.Valid() && y.Valid() && !x.negative && y.negative
    ensures r.Valid()
    ensures IsOp(op, x.Value(), y.Value(), r.Value()) <==> !(op == Xor && XorOverflows(x, y))
    ensures op == Xor && XorOverflows(x, y) ==> r == Zero
  {
    hide WordOp, IsOp, Val;
    SignOfValue(y);
    var a := new Digit[PosNegLength(x, y)];
    ghost var c := PosNegDigits(op, x.digits, y.digits, a);
    var negative := op == Or || op == Xor;
    ghost var n, v := a.Length, Val(a[..]);
    FitsLength(x, n);
    FitsLength(y, n);
    OpFromDigits(op, x.Value(), y.Value(), x.digits, c, a[..], n, if negative then v - Pow(n) else v);
    if op == Or {
      NegativeTopBit(y, n);
      TopBitSet(op, x.Value(), y.Value(), v, n);
    } else if op == Xor {
      XorZero(x.digits, c, a[..]);
    }
    if negative {
      NegateMagnitude(a);
    }
    r := Trim(negative, a);
    OnlyOneOp(op, x.Value(), y.Value(), if negative then v - Pow(n) else v, r.Value());
    ValueZero(r);
  }

  lemma ValueZero(r: Number)
    requires r.Valid()
    ensures r.Value() == 0 ==> r == Zero
  {
    SignOfValue(r);
  }

  // The operation determines its result.
  lemma OnlyOneOp(op: Op, x: int, y: int, v: int, w: int)
    requires IsOp(op, x, y, v)
    ensures IsOp(op, x, y, w) <==> v == w
  {
    if IsOp(op, x, y, w) && v != w {
      DifferInABit(v, w);
    }
  }

  lemma {:induction false} DifferInABit(v: int, w: int)
    requires v != w
    ensures exists i: nat :: Bit(v, i) != Bit(w, i)
    decreases if v < 0 then -v else v, if w < 0 then -w else w
  {
    if v % 2 != w % 2 {
      BitZero(v);
      BitZero(w);
      assert Bit(v, 0) != Bit(w, 0);
    } else if (v == 0 || v == -1) && (w == 0 || w == -1) {
      assert false;
    } else {
      DifferInABit(v / 2, w / 2);
      var i: nat :| Bit(v / 2, i) != Bit(w / 2, i);
      BitHalf(v, i + 1);
      BitHalf(w, i + 1);
      assert Bit(v, i + 1) != Bit(w, i + 1);
    }
  }

  // An operation that sets the top bit does not vanish modulo Pow(n).
  lemma TopBitSet(op: Op, x: int, y: int, v: int, n: nat)
    requires n >= 1 && IsOp(op, x, y, v - Pow(n))
    requires Apply(op, Bit(x, 62 * n - 1), Bit(y, 62 * n - 1))
    ensures v != 0
  {
    PowIsPow2(n);
    BitBelow(v, -1, 62 * n, 62 * n - 1);
    BitAbove(0, 0, 62 * n - 1);
  }

  // A negative number shorter than n digits has its top bit set.
  lemma NegativeTopBit(y: Number, n: nat)
    requires y.Valid() && y.negative && |y.digits| < n
    ensures Bit(y.Value(), 62 * n - 1)
  {
    FitsLength(y, n - 1);
    PowIsPow2(n - 1);
    SignOfValue(y);
    BitAbove(y.Value(), 62 * (n - 1), 62 * n - 1);
  }

  lemma {:induction false} WordXorZero(x: int, y: int, n: nat)
    requires 0 <= x < Pow2(n) && 0 <= y < Pow2(n)
    ensures WordOp(Xor, x, y, n) == 0 <==> x == y
    decreases n
  {
    if n > 0 {
      WordXorZero(x / 2, y / 2, n - 1);
      WordOpRange(Xor, x / 2, y / 2, n - 1);
    }
  }

  lemma XorZero(x: seq<Digit>, c: seq<Digit>, a: seq<Digit>)
    requires |x| <= |a| == |c|
    requires Operated(Xor, x, c, a, |a|)
    ensures Val(a) == 0 <==> Val(x) == Val(c)
  {
    hide WordOp, Val, ValTo, Pow2;
    Pow2At62();
    forall j | 0 <= j < |a| ensures a[j] == 0 <==> DigitAt(x, j) == c[j] {
      InDigits(c, j);
      WordXorZero(DigitAt(x, j), c[j], 62);
    }
    ValToAll(x, |a|);
    ValToAll(c, |a|);
    if Val(a) == 0 {
      forall j | 0 <= j < |a| ensures DigitAt(x, j) == DigitAt(c, j) {
        ZeroValZeroDigit(a, j);
      }
      ValToAgree(x, c, |a|);
    }
    if Val(x) == Val(c) {
      var padded := seq(|a|, j requires 0 <= j => DigitAt(x, j));
      ValToAgree(x, padded, |a|);
      ValToAll(padded, |a|);
      ValInjective(padded, c);
      ValZeros(a);
    }
  }

  // bignum_negneg_bitwise_op
  method NegNeg(op: Op, x: Number, y: Number) returns (r: Number)
    requires x.Valid() && y.Valid() && x.negative && y.negative
    ensures r.Valid() && IsOp(op, x.Value(), y.Value(), r.Value())
  {
    hide WordOp, IsOp, Val;
    SignOfValue(x);
    SignOfValue(y);
    var a := new Digit[if |x.digits| > |y.digits| then |x.digits| + 1 else |y.digits| + 1];
    ghost var c1, c2 := NegNegDigits(op, x.digits, y.digits, a);
    var negative := op == And || op == Or;
    ghost var n, v := a.Length, Val(a[..]);
    FitsLength(x, n);
    FitsLength(y, n);
    OpFromDigits(op, x.Value(), y.Value(), c1, c2, a[..], n, if negative then v - Pow(n) else v);
    if negative {
      NegativeTopBit(x, n);
      NegativeTopBit(y, n);
      TopBitSet(op, x.Value(), y.Value(), v, n);
      NegateMagnitude(a);
    }
    r := Trim(negative, a);
  }

  // The digits of bignum_negneg_bitwise_op before the sign is put back
  method NegNegDigits(op: Op, x: seq<Digit>, y: seq<Digit>, a: array<Digit>)
    returns (ghost c1: seq<Digit>, ghost c2: seq<Digit>)
    requires |x| < a.Length && |y| < a.Length && Val(x) > 0 && Val(y) > 0
    modifies a
    ensures |c1| == a.Length && Val(c1) == Pow(a.Length) - Val(x)
    ensures |c2| == a.Length && Val(c2) == Pow(a.Length) - Val(y)
    ensures Operated(op, c1, c2, a[..], a.Length)
  {
    hide Complement, WordOp, Val, DigitAt, Pow, Operated;
    c1, c2 := seq(a.Length, _ => 0), seq(a.Length, _ => 0);
    var carry1: Fixnum, carry2: Fixnum := 1, 1;
    var i := 0;
    ComplementStart(x, c1);
    ComplementStart(y, c2);
    OperatedStart(op, c1, c2, a[..]);
    while i < a.Length
      invariant 0 <= i <= a.Length && 0 <= carry1 <= 1 && 0 <= carry2 <= 1 && |c1| == |c2| == a.Length
      invariant Complement(x, c1, i, carry1) && Complement(y, c2, i, carry2)
      invariant Operated(op, c1, c2, a[..], i)
    {
      ghost var e1, e2, k1, k2, a0 := c1, c2, carry1, carry2, a[..];
      var digit1, digit2;
      digit1, carry1 := ComplementDigit(DigitAt(x, i), carry1);
      digit2, carry2 := ComplementDigit(DigitAt(y, i), carry2);
      c1, c2 := c1[i := digit1], c2[i := digit2];
      ComplementStep(x, e1, c1, i, k1, carry1);
      ComplementStep(y, e2, c2, i, k2, carry2);
      WordOpDigit(op, digit1, digit2);
      a[i] := WordOp(op, digit1, digit2, 62);
      InDigits(c1, i);
      InDigits(c2, i);
      OperatedStep(op, e1, c1, e2, c2, a0, a[..], i);
      i := i + 1;
    }
    ComplementDone(x, c1, carry1);
    ComplementDone(y, c2, carry2);
  }

  // bignum_bitwise_and, bignum_bitwise_ior and bignum_bitwise_xor dispatch on the signs.
  // The one exception is exclusive or of opposite signs when the magnitudes add up to Pow(length).
  ghost predicate LosesCarry(op: Op, x: Number, y: Number) {
    && op == Xor && x.negative != y.negative
    && (if x.negative then XorOverflows(y, x) else XorOverflows(x, y))
  }

  method Operate(op: Op, x: Number, y: Number) returns (r: Number)
    requires x.Valid() && y.Valid()
    ensures r.Valid()
    ensures IsOp(op, x.Value(), y.Value(), r.Value()) <==> !LosesCarry(op, x, y)
    ensures LosesCarry(op, x, y) ==> r == Zero
  {
    hide XorOverflows, IsOp;
    if x.negative {
      if y.negative {
        r := NegNeg(op, x, y);
      } else {
        r := PosNeg(op, y, x);
        OpCommutes(op, x.Value(), y.Value(), r.Value());
      }
    } else if y.negative {
      r := PosNeg(op, x, y);
    } else {
      r := PosPos(op, x, y);
    }
  }

  lemma OpCommutes(op: Op, x: int, y: int, v: int)
    ensures IsOp(op, x, y, v) <==> IsOp(op, y, x, v)
  {}

  // The smallest lost carry of two digits: R^2 - 1 xor -1 is -R^2, but two digits cannot hold it.
  lemma LostCarryExample()
    ensures var x, y := Number(false, [R - 1, R - 1]), Number(true, [1]);
            x.Valid() && y.Valid() && LosesCarry(Xor, x, y) && IsOp(Xor, x.Value(), y.Value(), -Pow(2))
  {
    var x, y := Number(false, [R - 1, R - 1]), Number(true, [1]);
    assert [R - 1 as Digit, R - 1][1..] == [R - 1];
    ValSingle(R - 1);
    ValSingle(1);
    assert Pow(2) == R * Pow(1) && Pow(1) == R;
    assert x.Value() == R * R - 1;
    forall i: nat ensures Bit(-Pow(2), i) == Apply(Xor, Bit(x.Value(), i), Bit(y.Value(), i)) {
      BitNot(x.Value(), i);
      BitAbove(-1, 0, i);
    }
  }
}
