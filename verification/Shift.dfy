/** Bitwise complement and arithmetic shifts. */
module Shift {
  import opened Digits
  import opened Bits
  import opened Bignum
  import opened Multiply
  import opened Bitwise
  import opened Divide

  // ----- complement

  // Below digit i, y holds x plus step (1 or -1), up to what has still to ripple on.
  ghost predicate Rippled(x: seq<Digit>, y: seq<Digit>, i: nat, step: int, pending: int) {
    ValTo(y, i) + pending * Pow(i) == ValTo(x, i) + step
  }

  lemma RippleStart(x: seq<Digit>, y: seq<Digit>, step: int)
    ensures Rippled(x, y, 0, step, step)
  {}

  lemma RippleStep(x: seq<Digit>, y: seq<Digit>, y': seq<Digit>, i: nat, step: int, pending: int, pending': int)
    requires Rippled(x, y, i, step, pending)
    requires i < |x| && i < |y| && |y'| == |y| && y' == y[i := y'[i]]
    requires y'[i] + R * pending' == x[i] + pending
    ensures Rippled(x, y', i + 1, step, pending')
  {
    Store(y, y', i);
    RippleArith(ValTo(y, i), ValTo(x, i), y'[i], x[i], step, pending, pending', Pow(i));
  }

  lemma RippleArith(y: int, x: int, yd: int, xd: int, step: int, pending: int, pending': int, p: int)
    requires y + pending * p == x + step && yd + R * pending' == xd + pending
    ensures y + yd * p + pending' * (R * p) == x + xd * p + step
  {
    MulEq(yd + R * pending', xd + pending, p);
  }

  // The digit loops of bignum_bitwise_not: subtract one from the magnitude of a negative number,
  // add one to that of any other.  `carry` tells whether the change rippled past the last digit.
  method RippleDigits(x: seq<Digit>, y: array<Digit>, isNegative: bool) returns (carry: bool)
    requires y.Length == |x|
    modifies y
    ensures Val(y[..]) + (if !carry then 0 else if isNegative then -Pow(|x|) else Pow(|x|))
            == Val(x) + (if isNegative then -1 else 1)
  {
    hide Rippled, Val, Pow;
    ghost var step := if isNegative then -1 else 1;
    carry := true;
    var i := 0;
    RippleStart(x, y[..], step);
    while carry && i < |x|
      invariant 0 <= i <= |x|
      invariant Rippled(x, y[..], i, step, if carry then step else 0)
      decreases |x| - i
    {
      ghost var y0 := y[..];
      if isNegative {
        if x[i] == 0 {
          y[i] := R - 1;
        } else {
          y[i] := x[i] - 1;
          carry := false;
        }
      } else {
        if x[i] == R - 1 {
          y[i] := 0;
        } else {
          y[i] := x[i] + 1;
          carry := false;
        }
      }
      RippleStep(x, y0, y[..], i, step, step, if carry then step else 0);
      i := i + 1;
    }
    while i < |x|
      invariant 0 <= i <= |x| && (i < |x| ==> !carry)
      invariant Rippled(x, y[..], i, step, if carry then step else 0)
    {
      ghost var y0 := y[..];
      y[i] := x[i];
      RippleStep(x, y0, y[..], i, step, 0, 0);
      i := i + 1;
    }
    RippleDone(x, y[..], step, if carry then step else 0);
  }

  lemma RippleDone(x: seq<Digit>, y: seq<Digit>, step: int, pending: int)
    requires |y| == |x| && Rippled(x, y, |x|, step, pending)
    ensures Val(y) + pending * Pow(|x|) == Val(x) + step
  {
    ValToAll(x, |x|);
    ValToAll(y, |x|);
  }

  // bignum_bitwise_not
  method Not(x: Number) returns (r: Number)
    requires x.Valid()
    ensures r.Valid() && r.Value() == -x.Value() - 1
    ensures forall i: nat :: Bit(r.Value(), i) <==> !Bit(x.Value(), i)
  {
    SignOfValue(x);
    hide Val, Pow;
    var size := |x.digits|;
    var y := new Digit[size];
    var carry := RippleDigits(x.digits, y, x.negative);
    NoFinalRipple(x, y[..], carry);
    if carry {
      ValSnoc(y[..], 1);
      r := Number(!x.negative, y[..] + [1]);
    } else {
      r := Trim(!x.negative, y);
    }
    forall i: nat ensures Bit(r.Value(), i) <==> !Bit(x.Value(), i) {
      BitNot(x.Value(), i);
    }
  }

  // A magnitude that is not zero can be decreased, so only an increase leaves its digits.
  lemma NoFinalRipple(x: Number, y: seq<Digit>, carry: bool)
    requires x.Valid() && |y| == |x.digits|
    requires Val(y) + (if !carry then 0 else if x.negative then -Pow(|y|) else Pow(|y|))
             == Val(x.digits) + (if x.negative then -1 else 1)
    ensures carry ==> !x.negative
    ensures !carry && |y| == 0 ==> false
  {
    SignOfValue(x);
    ValBound(y);
  }

  // ----- left shifts

  // The loop of bignum_magnitude_ash for n > 0, at digit offset `offset`
  ghost predicate MovedUp(x: seq<Digit>, a: seq<Digit>, k: int, offset: nat, i: nat) {
    && offset + i < |a|
    && ValTo(a, offset + i + 1) == ValTo(x, i) * k * Pow(offset)
    && a[offset + i] < k
    && forall j :: offset + i < j < |a| ==> a[j] == 0
  }

  lemma MoveStart(x: seq<Digit>, a: seq<Digit>, k: int, offset: nat)
    requires offset < |a| && k >= 1 && forall j :: 0 <= j < |a| ==> a[j] == 0
    ensures MovedUp(x, a, k, offset, 0)
  {
    ValZeros(a[..offset + 1]);
    ValToPrefix(a, offset + 1);
  }

  lemma MoveStep(x: seq<Digit>, a: seq<Digit>, b: seq<Digit>, k: int, offset: nat, i: nat)
    requires MovedUp(x, a, k, offset, i) && i < |x| && offset + i + 1 < |a| == |b|
    requires b == a[offset + i := b[offset + i]][offset + i + 1 := b[offset + i + 1]]
    requires b[offset + i] + R * b[offset + i + 1] == k * x[i] + a[offset + i]
    requires b[offset + i + 1] < k
    ensures MovedUp(x, b, k, offset, i + 1)
  {
    var m := offset + i;
    ValToAgree(a, b, m);
    PowAdd(offset, i);
    assert ValTo(b, m + 1) == ValTo(a, m) + b[m] * Pow(m);
    assert ValTo(b, m + 2) == ValTo(b, m + 1) + b[m + 1] * Pow(m + 1);
    assert ValTo(a, m + 1) == ValTo(a, m) + a[m] * Pow(m);
    assert Pow(m + 1) == R * Pow(m);
    MoveArith(ValTo(a, m), a[m], b[m], b[m + 1], x[i], ValTo(x, i), k, Pow(offset), Pow(i), Pow(m));
  }

  lemma MoveArith(lo: int, ad: int, b0: int, b1: int, d: int, xs: int, k: int, po: int, pi: int, p: int)
    requires lo + ad * p == xs * k * po && p == po * pi && b0 + R * b1 == k * d + ad
    ensures lo + b0 * p + b1 * (R * p) == (xs + d * pi) * k * po
  {
    MulEq(b0 + R * b1, k * d + ad, p);
    assert (xs + d * pi) * k * po == xs * k * po + k * d * (po * pi);
  }

  // (digit << bits) & mask keeps the low bits, digit >> (62 - bits) the high ones.
  lemma SplitShift(d: Digit, k: int, m: int)
    requires k >= 1 && m >= 1 && k * m == R
    ensures (d * k) % R == d % m * k && 0 <= d % m * k <= R - k
    ensures 0 <= d / m < k && d % m * k + R * (d / m) == k * d
  {
    ShiftDigit(d, k, m, 0);
    QuotientIs(d * k, R, d / m, d % m * k);
    MulMono(d % m + 1, m, k);
    assert (d % m + 1) * k == d % m * k + k;
  }

  method MoveUp(x: seq<Digit>, a: array<Digit>, offset: nat, bits: nat)
    requires bits < 62 && a.Length == |x| + offset + 1
    requires forall j :: 0 <= j < a.Length ==> a[j] == 0
    modifies a
    ensures Val(a[..]) == Val(x) * Pow2(bits) * Pow(offset)
  {
    hide MovedUp, Pow2, Pow, Val;
    var k, m := Pow2(bits), Pow2(62 - bits);
    ShiftFactors(bits);
    MoveStart(x, a[..], k, offset);
    var i := 0;
    while i < |x|
      invariant 0 <= i <= |x|
      invariant MovedUp(x, a[..], k, offset, i)
    {
      ghost var a0 := a[..];
      SplitShift(x[i], k, m);
      TopBelow(x, a0, k, offset, i);
      a[offset + i] := a[offset + i] + (x[i] * k) % R;
      a[offset + i + 1] := x[i] / m;
      MoveStep(x, a0, a[..], k, offset, i);
      i := i + 1;
    }
    MoveDone(x, a[..], k, offset);
  }

  lemma TopBelow(x: seq<Digit>, a: seq<Digit>, k: int, offset: nat, i: nat)
    requires MovedUp(x, a, k, offset, i)
    ensures offset + i < |a| && a[offset + i] < k
  {}

  lemma MoveDone(x: seq<Digit>, a: seq<Digit>, k: int, offset: nat)
    requires MovedUp(x, a, k, offset, |x|) && |a| == |x| + offset + 1
    ensures Val(a) == Val(x) * k * Pow(offset)
  {
    ValToAll(x, |x|);
    ValToAll(a, |a|);
  }

  // ----- right shifts

  // The loop of bignum_magnitude_ash for n < 0 on the digits from the offset on: r0 are the bits
  // dropped for good, `left` the low bits of digit i that go with the digit below it.
  ghost predicate MovedDown(x: seq<Digit>, a: seq<Digit>, k: int, i: nat, r0: int, left: int) {
    k * ValTo(a, i) + r0 == ValTo(x, i) + left * Pow(i)
  }

  lemma DownStart(x: seq<Digit>, a: seq<Digit>, k: int, r0: int)
    ensures MovedDown(x, a, k, 0, r0, r0)
  {}

  lemma DownStep(x: seq<Digit>, a: seq<Digit>, b: seq<Digit>, k: int, m: int, i: nat, r0: int, dq: int, left: int,
                 left': int)
    requires k * m == R && MovedDown(x, a, k, i, r0, left) && i < |a| && |b| == |a| && b == a[i := b[i]]
    requires DigitAt(x, i) == k * dq + left && b[i] == dq + left' * m
    ensures MovedDown(x, b, k, i + 1, r0, left')
  {
    Store(a, b, i);
    DownArith(ValTo(a, i), ValTo(x, i), b[i], DigitAt(x, i), dq, left, left', r0, k, m, Pow(i));
  }

  lemma DownArith(a: int, x: int, b: int, d: int, dq: int, dr: int, er: int, r0: int, k: int, m: int, p: int)
    requires k * a + r0 == x + dr * p && b == dq + er * m && d == k * dq + dr && k * m == R
    ensures k * (a + b * p) + r0 == x + d * p + er * (R * p)
  {
    MulEq(d, k * dq + dr, p);
    MulEq(k * m, R, er * p);
    assert k * (a + (dq + er * m) * p) == k * a + k * dq * p + k * m * (er * p);
  }

  lemma DownDigit(d: Digit, e: Digit, k: int, m: int)
    requires k >= 1 && m >= 1 && k * m == R
    ensures 0 <= d / k + e % k * m < R && (e * m) % R == e % k * m
  {
    UnshiftDigit(d, k, m, e % k);
    SplitShift(e, m, k);
  }

  method MoveDown(x: seq<Digit>, a: array<Digit>, bits: nat)
    requires bits < 62 && a.Length == |x| > 0
    modifies a
    ensures Val(a[..]) == Val(x) / Pow2(bits)
  {
    hide MovedDown, Pow2, Val, DigitAt;
    var k, m := Pow2(bits), Pow2(62 - bits);
    ShiftFactors(bits);
    ghost var r0 := x[0] % k;
    DownStart(x, a[..], k, r0);
    var i := 0;
    while i < a.Length - 1
      invariant 0 <= i < a.Length
      invariant MovedDown(x, a[..], k, i, r0, x[i] % k)
    {
      ghost var a0 := a[..];
      DownDigit(x[i], x[i + 1], k, m);
      a[i] := x[i] / k + (x[i + 1] * m) % R;
      InDigits(x, i);
      DownStep(x, a0, a[..], k, m, i, r0, x[i] / k, x[i] % k, x[i + 1] % k);
      i := i + 1;
    }
    ghost var a0 := a[..];
    DownDigit(x[i], 0, k, m);
    a[i] := x[i] / k;
    InDigits(x, i);
    DownStep(x, a0, a[..], k, m, i, r0, x[i] / k, x[i] % k, 0);
    DownDone(x, a[..], k, r0);
  }

  lemma DownDone(x: seq<Digit>, a: seq<Digit>, k: int, r0: int)
    requires |a| == |x| && MovedDown(x, a, k, |x|, r0, 0) && 0 <= r0 < k
    ensures Val(a) == Val(x) / k
  {
    hide Val, ValTo, Pow, MovedDown;
    DownTotal(x, a, k, r0);
    FloorIs(Val(x), k, Val(a), r0);
  }

  lemma DownTotal(x: seq<Digit>, a: seq<Digit>, k: int, r0: int)
    requires |a| == |x| && MovedDown(x, a, k, |x|, r0, 0)
    ensures Val(x) == k * Val(a) + r0
  {
    hide Val, ValTo, Pow;
    ValToAll(x, |x|);
    ValToAll(a, |x|);
  }

  lemma FloorIs(v: int, k: int, q: int, r: int)
    requires v == k * q + r && 0 <= r < k
    ensures v / k == q
  {
    QuotientIs(v, k, q, r);
  }

  // ----- both directions

  lemma ShiftSplit(n: nat)
    ensures Pow2(n) == Pow2(n % 62) * Pow(n / 62)
  {
    PowIsPow2(n / 62);
    Pow2Add(n % 62, 62 * (n / 62));
  }

  // Dropping whole digits and then bits is one floor division.
  lemma DropDigits(x: seq<Digit>, offset: nat, k: int)
    requires offset <= |x| && k >= 1
    ensures Val(x[offset..]) == Val(x) / Pow(offset)
    ensures Val(x[offset..]) / k == Val(x) / (Pow(offset) * k)
  {
    hide Val, Pow;
    ValSplit(x, offset);
    ValBound(x[..offset]);
    QuotientIs(Val(x), Pow(offset), Val(x[offset..]), Val(x[..offset]));
    DivDiv(Val(x), Pow(offset), k);
  }

  ghost function Shifted(v: int, n: int): int {
    if n >= 0 then v * Pow2(n) else v / Pow2(-n)
  }

  // bignum_magnitude_ash: shift the magnitude, keep the sign
  method MagnitudeShift(x: Number, n: int) returns (r: Number)
    requires x.Valid()
    ensures r.Valid() && r.Value() == Signed(x.negative, Shifted(Val(x.digits), n))
  {
    if x.IsZero() {
      ShiftZero(n);
      return x;
    }
    if n > 0 {
      r := ShiftLeft(x.digits, n, x.negative);
    } else if n < 0 {
      r := ShiftRight(x.digits, -n, x.negative);
    } else {
      r := x;
      ShiftByZero(Val(x.digits));
    }
  }

  method ShiftLeft(x: seq<Digit>, n: nat, negative: bool) returns (r: Number)
    requires |x| > 0
    ensures r.Valid() && r.Value() == Signed(negative, Val(x) * Pow2(n))
  {
    hide Val, Pow2, Pow;
    var offset, bits := n / 62, n % 62;
    var a := new Digit[|x| + offset + 1](_ => 0);
    MoveUp(x, a, offset, bits);
    ShiftSplit(n);
    Regroup(Val(x), Pow2(bits), Pow(offset));
    r := Trim(negative, a);
  }

  method ShiftRight(x: seq<Digit>, n: nat, negative: bool) returns (r: Number)
    requires |x| > 0
    ensures r.Valid() && r.Value() == Signed(negative, Val(x) / Pow2(n))
  {
    hide Val, Pow2, Pow;
    if n >= |x| * 62 {
      AllBitsDropped(x, n);
      return Zero;
    }
    var offset, bits := n / 62, n % 62;
    var a := new Digit[|x| - offset];
    MoveDown(x[offset..], a, bits);
    ShiftSplit(n);
    DropDigits(x, offset, Pow2(bits));
    Commute(Pow2(bits), Pow(offset));
    r := Trim(negative, a);
  }

  lemma Commute(a: int, b: int)
    ensures a * b == b * a
  {}

  lemma ShiftZero(n: int)
    ensures Val([]) == 0 && Shifted(0, n) == 0
  {
    if n < 0 {
      QuotientIs(0, Pow2(-n), 0, 0);
    }
  }

  lemma ShiftByZero(v: int)
    ensures Shifted(v, 0) == v
  {
    assert Pow2(0) == 1;
  }

  lemma Regroup(a: int, b: int, c: int)
    ensures a * b * c == a * (b * c)
  {}

  lemma AllBitsDropped(x: seq<Digit>, n: nat)
    requires n >= |x| * 62
    ensures Val(x) / Pow2(n) == 0 && Val([]) == 0
  {
    ValBound(x);
    PowIsPow2(|x|);
    Pow2Mono(62 * |x|, n);
    QuotientIs(Val(x), Pow2(n), 0, Val(x));
  }

  // bignum_arithmetic_shift: multiplication or floor division by a power of two
  method ArithmeticShift(x: Number, n: int) returns (r: Number)
    requires x.Valid()
    ensures r.Valid() && r.Value() == Shifted(x.Value(), n)
  {
    SignOfValue(x);
    if x.negative && n < 0 {
      var y := Not(x);
      SignOfValue(y);
      var z := MagnitudeShift(y, n);
      r := Not(z);
      FloorOfComplement(x.Value(), Pow2(-n));
    } else {
      r := MagnitudeShift(x, n);
      ShiftSign(Val(x.digits), n);
    }
  }

  lemma ShiftSign(v: int, n: int)
    ensures n >= 0 ==> Shifted(-v, n) == -Shifted(v, n)
  {
    if n >= 0 {
      assert (-v) * Pow2(n) == -(v * Pow2(n));
    }
  }

  lemma FloorOfComplement(x: int, k: int)
    requires k >= 1
    ensures -((-x - 1) / k) - 1 == x / k
  {
    ComplementQuotient(x, k);
  }
}
