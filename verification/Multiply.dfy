/** Multiplication: schoolbook rows over half digits, a squaring routine, and a small-factor path. */
module Multiply {
  import opened Digits
  import opened Bignum

  // The half-digit multiply-accumulate at the heart of every row: nothing overflows a machine
  // word, and the digit written plus the carry passed on is exactly r + x * y + carry.
  lemma HalfProduct(x: Digit, y: Digit, r: Digit, carry: Digit, pl: int, ph: int)
    requires pl == r + Low(x) * Low(y) + Low(carry)
    requires ph == High(x) * Low(y) + Low(x) * High(y) + High(pl) + High(carry)
    ensures 0 <= pl < 2 * R && 0 <= ph < 2 * R
    ensures 0 <= High(x) * High(y) + High(ph) < R
    ensures Cons(Low(ph), Low(pl)) + R * (High(x) * High(y) + High(ph)) == r + x * y + carry
  {
    MulBound(Low(x), Low(y), H - 1, H - 1);
    MulBound(High(x), Low(y), H - 1, H - 1);
    MulBound(Low(x), High(y), H - 1, H - 1);
    MulBound(High(x), High(y), H - 1, H - 1);
    HalvesOfProduct(x, y, High(x), Low(x), High(y), Low(y));
    MulBound(x, y, R - 1, R - 1);
  }

  lemma HalvesOfProduct(x: int, y: int, xh: int, xl: int, yh: int, yl: int)
    requires x == xh * H + xl && y == yh * H + yl
    ensures x * y == xh * yh * R + (xh * yl + xl * yh) * H + xl * yl
  {
    assert (xh * H + xl) * (yh * H + yl) == xh * yh * R + (xh * yl + xl * yh) * H + xl * yl;
  }

  // Inside a row that adds d times the digits of y from lo up to j, and e besides, at position i:
  // a0 is the accumulator when the row began.
  ghost predicate InRow(a0: seq<Digit>, a: seq<Digit>, e: int, d: int, y: seq<Digit>, lo: nat, i: nat, j: nat,
                        carry: int) {
    && |a0| == |a| && i + j <= |a|
    && a[i + j..] == a0[i + j..]
    && ValTo(a, i + j) + carry * Pow(i + j) == ValTo(a0, i + j) + e + d * (ValTo(y, j) - ValTo(y, lo)) * Pow(i)
  }

  lemma RowStart(a: seq<Digit>, d: int, y: seq<Digit>, i: nat)
    requires i <= |a|
    ensures InRow(a, a, 0, d, y, 0, i, 0, 0)
  {}

  lemma RowStep(a0: seq<Digit>, a: seq<Digit>, b: seq<Digit>, e: int, d: int, y: seq<Digit>, lo: nat, i: nat, j: nat,
                carry: int, carry': int)
    requires InRow(a0, a, e, d, y, lo, i, j, carry)
    requires i + j < |a| && |b| == |a| && b == a[i + j := b[i + j]]
    requires b[i + j] + carry' * R == a[i + j] + d * DigitAt(y, j) + carry
    ensures InRow(a0, b, e, d, y, lo, i, j + 1, carry')
  {
    var k := i + j;
    assert a[k] == a[k..][0] == a0[k..][0] == a0[k];
    assert b[k + 1..] == a[k..][1..] == a0[k..][1..] == a0[k + 1..];
    Store(a, b, k);
    PowAdd(i, j);
    RowArith(ValTo(a, k), ValTo(a0, k), e, ValTo(y, j) - ValTo(y, lo), Pow(i), Pow(j), Pow(k), d, DigitAt(y, j), a0[k],
             carry, b[k], carry');
  }

  lemma RowArith(a: int, a0: int, e: int, ys: int, pi: int, pj: int, p: int, d: int, yd: int, ad: int, carry: int,
                 b: int, carry': int)
    requires p == pi * pj
    requires a + carry * p == a0 + e + d * ys * pi
    requires b + carry' * R == ad + d * yd + carry
    ensures a + b * p + carry' * (R * p) == a0 + ad * p + e + d * (ys + yd * pj) * pi
  {
    MulEq(b + carry' * R, ad + d * yd + carry, p);
    assert d * (ys + yd * pj) * pi == d * ys * pi + d * yd * (pi * pj);
  }

  // The accumulator holds the product of the first i digits of x with y, and nothing above it.
  ghost predicate Rows(x: seq<Digit>, y: seq<Digit>, a: seq<Digit>, i: nat) {
    && i + |y| <= |a|
    && Val(a) == ValTo(x, i) * Val(y)
    && forall k :: i + |y| <= k < |a| ==> a[k] == 0
  }

  lemma RowsStart(x: seq<Digit>, y: seq<Digit>, a: seq<Digit>)
    requires |y| <= |a| && forall k :: 0 <= k < |a| ==> a[k] == 0
    ensures Rows(x, y, a, 0)
  {
    ValZeros(a);
  }

  lemma {:induction false} ZerosAbove(a: seq<Digit>, i: nat)
    requires i <= |a| && forall k :: i <= k < |a| ==> a[k] == 0
    ensures Val(a) == ValTo(a, i)
  {
    ValSplit(a, i);
    ValToPrefix(a, i);
    ValZeros(a[i..]);
  }

  // The last carry lands in a cell that still holds zero, and closes the row.
  lemma RowEnd(x: seq<Digit>, y: seq<Digit>, a0: seq<Digit>, a: seq<Digit>, b: seq<Digit>, i: nat, carry: int)
    requires i < |x| && i + |y| < |a0| && Rows(x, y, a0, i)
    requires InRow(a0, a, 0, x[i], y, 0, i, |y|, carry)
    requires |b| == |a| && b == a[i + |y| := b[i + |y|]] && b[i + |y|] == a[i + |y|] + carry
    ensures Rows(x, y, b, i + 1)
  {
    var m := i + |y|;
    assert forall k :: m <= k < |a| ==> a[k] == a[m..][k - m] == a0[m..][k - m] == a0[k];
    ZerosAbove(a0, m);
    Store(a, b, m);
    ZerosAbove(b, m + 1);
    ValToAll(y, |y|);
    RowEndArith(ValTo(a0, m), ValTo(x, i), x[i], Val(y), Pow(i), ValTo(b, m + 1));
  }

  lemma RowEndArith(a0: int, xs: int, d: int, ys: int, p: int, b: int)
    requires a0 == xs * ys && b == a0 + d * ys * p
    ensures b == (xs + d * p) * ys
  {
    assert (xs + d * p) * ys == xs * ys + d * ys * p;
  }

  lemma ValOne(s: seq<Digit>)
    requires |s| == 1
    ensures Val(s) == s[0]
  {
    ValSingle(s[0]);
    assert s == [s[0]];
  }

  // bignum_multiply_unsigned
  method MultiplyUnsigned(x: Number, y: Number, negative: bool) returns (r: Number)
    requires x.Valid() && y.Valid() && !x.IsZero() && !y.IsZero()
    ensures r.Valid() && r.Value() == Signed(negative, Val(x.digits) * Val(y.digits))
  {
    hide Val;
    if |y.digits| > |x.digits| {
      r := MultiplyRows(y.digits, x.digits, negative);
    } else {
      r := MultiplyRows(x.digits, y.digits, negative);
    }
  }

  // The row loops of bignum_multiply_unsigned
  method MultiplyRows(x: seq<Digit>, y: seq<Digit>, negative: bool) returns (r: Number)
    requires |x| > 0
    ensures r.Valid() && r.Value() == Signed(negative, Val(x) * Val(y))
  {
    hide InRow, Rows;
    var a := new Digit[|x| + |y|](_ => 0);
    RowsStart(x, y, a[..]);
    var i := 0;
    while i < |x|
      invariant 0 <= i <= |x|
      invariant Rows(x, y, a[..], i)
    {
      ghost var a0 := a[..];
      var carry := MultiplyRow(a, x[i], y, i);
      ghost var a1 := a[..];
      CarryFits(x, y, a0, a1, i, carry);
      a[i + |y|] := a[i + |y|] + carry;
      RowEnd(x, y, a0, a1, a[..], i, carry);
      i := i + 1;
    }
    RowsDone(x, y, a[..]);
    r := Trim(negative, a);
  }

  lemma RowsDone(x: seq<Digit>, y: seq<Digit>, a: seq<Digit>)
    requires Rows(x, y, a, |x|)
    ensures Val(a) == Val(x) * Val(y)
  {
    ValToAll(x, |x|);
  }

  lemma CarryFits(x: seq<Digit>, y: seq<Digit>, a0: seq<Digit>, a: seq<Digit>, i: nat, carry: int)
    requires i < |x| && i + |y| < |a0| && Rows(x, y, a0, i)
    requires InRow(a0, a, 0, x[i], y, 0, i, |y|, carry)
    ensures |a| == |a0| && a[i + |y|] == 0
  {
    assert a[i + |y|] == a[i + |y|..][0] == a0[i + |y|..][0];
  }

  // The inner loop of bignum_multiply_unsigned: add d * y at position i
  method MultiplyRow(a: array<Digit>, d: Digit, y: seq<Digit>, i: nat) returns (c: Digit)
    requires i + |y| <= a.Length
    modifies a
    ensures InRow(old(a[..]), a[..], 0, d, y, 0, i, |y|, c)
  {
    hide InRow;
    ghost var a0 := a[..];
    var dl: Fixnum, dh: Fixnum := Low(d), High(d);
    var carry: Fixnum := 0;
    var j := 0;
    RowStart(a0, d, y, i);
    while j < |y|
      invariant 0 <= j <= |y|
      invariant 0 <= carry < R
      invariant InRow(a0, a[..], 0, d, y, 0, i, j, carry)
    {
      ghost var a1, c1: Digit := a[..], carry;
      var yl: Fixnum, yh: Fixnum := Low(y[j]), High(y[j]);
      HalfProduct(d, y[j], a[i + j], carry,
        a[i + j] + dl * yl + Low(carry),
        dh * yl + dl * yh + High(a[i + j] + dl * yl + Low(carry)) + High(carry));
      var productLow: Fixnum := a[i + j] + dl * yl + Low(carry);
      var productHigh: Fixnum := dh * yl + dl * yh + High(productLow) + High(carry);
      a[i + j] := Cons(Low(productHigh), Low(productLow));
      carry := dh * yh + High(productHigh);
      RowStep(a0, a1, a[..], 0, d, y, 0, i, j, c1, carry);
      j := j + 1;
    }
    c := carry;
  }

  // ----- squaring

  // A squaring row opens with the diagonal term and goes on with the doubled digit.
  lemma SquareRowStart(z0: seq<Digit>, z: seq<Digit>, x: seq<Digit>, i: nat, d: int, e: int, f: int, carry: int)
    requires i + i < |z0| && |z| == |z0| && z == z0[i + i := z[i + i]]
    requires z[i + i] + carry * R == z0[i + i] + d
    requires e == d * Pow(i + i)
    ensures InRow(z0, z, e, f, x, i + 1, i, i + 1, carry)
  {
    var k := i + i;
    assert z[k + 1..] == z0[k + 1..];
    Store(z0, z, k);
    MulEq(z[k] + carry * R, z0[k] + d, Pow(k));
  }

  // The square of the digits from i on, at its place in the result
  ghost function SquareLeft(x: seq<Digit>, i: nat): (q: int)
    requires i <= |x|
    ensures q >= 0
  {
    MulBound(Val(x[i..]), Val(x[i..]), Val(x[i..]), Val(x[i..]));
    MulBound(Val(x[i..]) * Val(x[i..]), Pow(i + i), Val(x[i..]) * Val(x[i..]), Pow(i + i));
    Val(x[i..]) * Val(x[i..]) * Pow(i + i)
  }

  // After i rows the accumulator lacks exactly the square of the digits not yet used.
  ghost predicate Squared(x: seq<Digit>, z: seq<Digit>, i: nat) {
    && i <= |x| && |z| == 2 * |x|
    && Val(z) + SquareLeft(x, i) == Val(x) * Val(x)
    && forall k :: i + |x| < k < |z| ==> z[k] == 0
  }

  lemma SquaredStart(x: seq<Digit>, z: seq<Digit>)
    requires |z| == 2 * |x| && forall k :: 0 <= k < |z| ==> z[k] == 0
    ensures Squared(x, z, 0)
  {
    ValZeros(z);
    assert x[0..] == x;
  }

  // What row i has to add, in terms of the digits above i
  lemma SquareRowTotal(x: seq<Digit>, z: seq<Digit>, i: nat, d: int, e: int)
    requires i < |x| && Squared(x, z, i) && d == x[i] && e == d * d * Pow(i + i)
    ensures Val(z) + e + 2 * d * (Val(x) - ValTo(x, i + 1)) * Pow(i)
            + SquareLeft(x, i + 1) == Val(x) * Val(x)
  {
    ValSuffix(x, i);
    ValSplit(x, i + 1);
    ValToPrefix(x, i + 1);
    PowAdd(i, i);
    var t := Val(x[i + 1..]);
    assert Pow(i + 1 + (i + 1)) == R * (R * Pow(i + i)) by {
      assert Pow(i + i + 1) == R * Pow(i + i);
      assert Pow(i + i + 2) == R * Pow(i + i + 1);
    }
    BinomialStep(d, t, Pow(i), Pow(i + i), Val(x[i..]), Val(z), Val(x) * Val(x));
    assert Val(x) - ValTo(x, i + 1) == R * Pow(i) * t;
  }

  lemma BinomialStep(f: int, t: int, p: int, pp: int, u: int, z: int, total: int)
    requires u == f + R * t && pp == p * p && z + u * u * pp == total
    ensures z + f * f * pp + 2 * f * (R * p * t) * p + t * t * (R * (R * pp)) == total
  {
    assert u * u == f * f + 2 * f * t * R + t * t * R * R;
    MulEq(u * u, f * f + 2 * f * t * R + t * t * R * R, pp);
    assert 2 * f * (R * p * t) * p == 2 * f * t * R * (p * p);
  }

  // Once the column above the row has absorbed the carry, the row is in, up to a carry that
  // cannot leave the 2n digits of the result.
  lemma SquareRowLanded(x: seq<Digit>, z0: seq<Digit>, z: seq<Digit>, i: nat, e: int, f: int, carry: int, left: int,
                        total: int)
    requires i < |x| && |z0| == 2 * |x| && forall k :: i + |x| < k < |z0| ==> z0[k] == 0
    requires Val(z0) + e + f * (Val(x) - ValTo(x, i + 1)) * Pow(i) + left == total
    requires InRow(z0, z, e, f, x, i + 1, i, |x| + 1, carry) && carry >= 0
    requires left >= 0 && total < Pow(|x| + |x|)
    ensures ValTo(z, i + |x| + 1) + carry * Pow(i + |x| + 1) + left == total
    ensures i + 1 == |x| ==> carry == 0
    ensures forall k :: i + |x| < k < |z| ==> z[k] == 0
  {
    var m := i + |x| + 1;
    ZerosAbove(z0, m);
    ValToAll(x, |x| + 1);
    assert forall k :: m <= k < |z| ==> z[k] == z[m..][k - m] == z0[m..][k - m] == z0[k];
    if i + 1 == |x| {
      assert m == |x| + |x|;
      NoCarry(ValTo(z, m), carry, Pow(m), total - left);
    }
  }

  lemma SquareBound(x: seq<Digit>)
    ensures Val(x) * Val(x) < Pow(|x| + |x|)
  {
    ValBound(x);
    PowAdd(|x|, |x|);
    MulBound(Val(x), Val(x), Pow(|x|) - 1, Pow(|x|) - 1);
    assert (Pow(|x|) - 1) * (Pow(|x|) - 1) == Pow(|x|) * Pow(|x|) - 2 * Pow(|x|) + 1;
  }

  lemma SquareRowDone(x: seq<Digit>, z: seq<Digit>, w: seq<Digit>, i: nat, carry: int)
    requires i < |x| && |z| == |w| == 2 * |x|
    requires ValTo(z, i + |x| + 1) + carry * Pow(i + |x| + 1) + SquareLeft(x, i + 1) == Val(x) * Val(x)
    requires i + 1 == |x| ==> carry == 0
    requires forall k :: i + |x| < k < |z| ==> z[k] == 0
    requires if carry == 0 then w == z else w == z[i + |x| + 1 := w[i + |x| + 1]] && w[i + |x| + 1] == carry
    ensures Squared(x, w, i + 1)
  {
    hide SquareLeft;
    var m := i + |x| + 1;
    if carry == 0 {
      ZerosAbove(z, m);
    } else {
      Store(z, w, m);
      ZerosAbove(w, m + 1);
    }
  }

  // The digits of one row of bignum_square, within the bounds asserted there
  method SquareRowDigits(z: array<Digit>, x: seq<Digit>, i: nat, ghost d: int, ghost e: int) returns (carry: TwoDigit)
    requires i < |x| && z.Length == 2 * |x| && d == x[i] && e == d * d * Pow(i + i)
    modifies z
    ensures InRow(old(z[..]), z[..], e, 2 * d, x, i + 1, i, |x|, carry)
    ensures 0 <= carry <= 2 * (R - 1)
  {
    hide InRow, DigitAt;
    ghost var z0 := z[..];
    var f: TwoDigit := x[i];
    MulBound(f, f, R - 1, R - 1);
    carry := Deposit(z, i + i, f * f);
    assert carry <= R - 1;
    SquareRowStart(z0, z[..], x, i, f * f, e, 2 * f, carry);
    f := 2 * f;
    var j := i + 1;
    while j < |x|
      invariant i + 1 <= j <= |x|
      invariant 0 <= carry <= 2 * (R - 1)
      invariant InRow(z0, z[..], e, f, x, i + 1, i, j, carry)
    {
      ghost var z1, c := z[..], carry;
      MulBound(x[j], f, R - 1, 2 * (R - 1));
      carry := Deposit(z, i + j, carry + x[j] * f);
      InDigits(x, j);
      RowStep(z0, z1, z[..], e, f, x, i + 1, i, j, c, carry);
      j := j + 1;
    }
  }

  // One row of bignum_square.  The second carry, when there is one, has a cell to go to.
  method SquareRow(z: array<Digit>, x: seq<Digit>, i: nat)
    requires i < |x| && Squared(x, z[..], i)
    modifies z
    ensures Squared(x, z[..], i + 1)
  {
    ghost var z0 := z[..];
    ghost var d: int := x[i];
    ghost var e := d * d * Pow(i + i);
    assert z.Length == 2 * |x|;
    hide InRow, SquareLeft, ValTo, Pow, DigitAt, Squared, Val;
    var carry := SquareRowDigits(z, x, i, d, e);
    var k := i + |x|;
    ghost var z1, c := z[..], carry;
    if carry != 0 {
      carry := Deposit(z, k, carry);
      k := k + 1;
    }
    OutOfDigits(x, |x|);
    RowStep(z0, z1, z[..], e, 2 * d, x, i + 1, i, |x|, c, carry);
    ghost var z2 := z[..];
    SquareRowRoom(x, z0, z2, i, d, e, carry);
    if carry != 0 {
      z[k] := z[k] + carry % R;
    }
    SquareRowClosed(x, z0, z2, z[..], i, d, e, carry);
  }

  lemma SquareRowRoom(x: seq<Digit>, z0: seq<Digit>, z: seq<Digit>, i: nat, d: int, e: int, carry: int)
    requires i < |x| && Squared(x, z0, i) && d == x[i] && e == d * d * Pow(i + i)
    requires InRow(z0, z, e, 2 * d, x, i + 1, i, |x| + 1, carry) && carry >= 0
    ensures i + 1 == |x| ==> carry == 0
    ensures |z| == |z0| && forall k :: i + |x| < k < |z| ==> z[k] == 0
    ensures ValTo(z, i + |x| + 1) + carry * Pow(i + |x| + 1) + SquareLeft(x, i + 1) == Val(x) * Val(x)
  {
    SquareRowTotal(x, z0, i, d, e);
    SquareBound(x);
    hide SquareLeft, Val, ValTo, Pow, InRow;
    SquareRowLanded(x, z0, z, i, e, 2 * d, carry, SquareLeft(x, i + 1), Val(x) * Val(x));
  }

  lemma SquareRowClosed(x: seq<Digit>, z0: seq<Digit>, z: seq<Digit>, w: seq<Digit>, i: nat, d: int, e: int, carry: int)
    requires i < |x| && Squared(x, z0, i) && d == x[i] && e == d * d * Pow(i + i)
    requires InRow(z0, z, e, 2 * d, x, i + 1, i, |x| + 1, carry) && carry >= 0
    requires if carry == 0 then w == z
             else
               && |w| == |z| && i + |x| + 1 < |w|
               && w == z[i + |x| + 1 := w[i + |x| + 1]] && w[i + |x| + 1] == carry
    ensures Squared(x, w, i + 1)
  {
    hide SquareLeft, Val, ValTo, Pow, InRow;
    SquareRowRoom(x, z0, z, i, d, e, carry);
    SquareRowDone(x, z, w, i, carry);
  }

  lemma InDigits(s: seq<Digit>, i: nat)
    requires i < |s|
    ensures DigitAt(s, i) == s[i]
  {}

  lemma OutOfDigits(s: seq<Digit>, i: nat)
    requires |s| <= i
    ensures DigitAt(s, i) == 0
  {}

  // Add an amount into one cell; what does not fit is the carry.
  method Deposit(z: array<Digit>, k: nat, amount: TwoDigit) returns (carry: TwoDigit)
    requires k < z.Length && 0 <= amount <= 2 * R * R - R
    modifies z
    ensures z[..] == old(z[..])[k := z[k]]
    ensures z[k] + carry * R == old(z[k]) + amount
    ensures 0 <= carry && carry * R <= amount + R - 1
  {
    carry := amount + z[k];
    z[k] := carry % R;
    carry := carry / R;
  }

  // bignum_square
  method Square(x: Number) returns (r: Number)
    requires x.Valid()
    ensures r.Valid() && r.Value() == x.Value() * x.Value()
  {
    hide Squared;
    var z := new Digit[|x.digits| + |x.digits|](_ => 0);
    SquaredStart(x.digits, z[..]);
    var i := 0;
    while i < |x.digits|
      invariant 0 <= i <= |x.digits|
      invariant Squared(x.digits, z[..], i)
    {
      SquareRow(z, x.digits, i);
      i := i + 1;
    }
    SquaredAll(x.digits, z[..]);
    ProductOfSigns(x, x);
    r := Trim(false, z);
  }

  lemma SquaredAll(x: seq<Digit>, z: seq<Digit>)
    requires Squared(x, z, |x|)
    ensures Val(z) == Val(x) * Val(x)
  {
    assert x[|x|..] == [];
  }

  // ----- small factors

  lemma HalfScale(d: Digit, factor: int, carry: int, pl: int, ph: int)
    requires 1 < factor < H && 0 <= carry < H
    requires pl == factor * Low(d) + Low(carry)
    requires ph == factor * High(d) + High(pl) + High(carry)
    ensures 0 <= pl < R && 0 <= ph < R && 0 <= High(ph) < H
    ensures Cons(Low(ph), Low(pl)) + R * High(ph) == factor * d + carry
  {
    MulBound(factor, Low(d), H - 1, H - 1);
    MulBound(factor, High(d), H - 1, H - 1);
    assert factor * (High(d) * H + Low(d)) == factor * High(d) * H + factor * Low(d);
  }

  // bignum_destructive_scale_up; the caller allots enough digits for the product
  method ScaleUp(a: array<Digit>, factor: Fixnum)
    requires 1 < factor < H && Val(a[..]) * factor < Pow(a.Length)
    modifies a
    ensures Val(a[..]) == old(Val(a[..])) * factor
  {
    ghost var a0 := a[..];
    hide Scaled;
    var carry: Fixnum := 0;
    var i := 0;
    ScaleStart(a0, factor);
    while i < a.Length
      invariant 0 <= i <= a.Length
      invariant 0 <= carry < H
      invariant Scaled(a0, a[..], factor, i, carry)
    {
      ghost var a1, c := a[..], carry;
      var digits: Fixnum := a[i];
      HalfScale(a[i], factor, carry, factor * Low(digits) + Low(carry),
        factor * High(digits) + High(factor * Low(digits) + Low(carry)) + High(carry));
      var productLow: Fixnum := factor * Low(digits) + Low(carry);
      var productHigh: Fixnum := factor * High(digits) + High(productLow) + High(carry);
      a[i] := Cons(Low(productHigh), Low(productLow));
      carry := High(productHigh);
      ScaleStep(a0, a1, a[..], factor, i, c, carry);
      i := i + 1;
    }
    ScaleDone(a0, a[..], factor, carry);
  }

  ghost predicate Scaled(a0: seq<Digit>, a: seq<Digit>, factor: int, i: nat, carry: int) {
    && |a| == |a0| && i <= |a| && a[i..] == a0[i..]
    && ValTo(a, i) + carry * Pow(i) == ValTo(a0, i) * factor
  }

  lemma ScaleStart(a: seq<Digit>, factor: int)
    ensures Scaled(a, a, factor, 0, 0)
  {}

  lemma ScaleStep(a0: seq<Digit>, a: seq<Digit>, b: seq<Digit>, factor: int, i: nat, carry: int, carry': int)
    requires Scaled(a0, a, factor, i, carry)
    requires i < |a| && |b| == |a| && b == a[i := b[i]]
    requires b[i] + R * carry' == factor * a[i] + carry
    ensures Scaled(a0, b, factor, i + 1, carry')
  {
    assert a[i] == a[i..][0] == a0[i..][0] == a0[i];
    assert b[i + 1..] == a[i..][1..] == a0[i..][1..] == a0[i + 1..];
    Store(a, b, i);
    ScaleArith(ValTo(a, i), ValTo(a0, i), factor, a0[i], carry, b[i], carry', Pow(i));
  }

  lemma ScaleArith(a: int, a0: int, factor: int, d: int, carry: int, b: int, carry': int, p: int)
    requires a + carry * p == a0 * factor && b + R * carry' == factor * d + carry
    ensures a + b * p + carry' * (R * p) == (a0 + d * p) * factor
  {
    MulEq(b + R * carry', factor * d + carry, p);
    assert (a0 + d * p) * factor == a0 * factor + factor * d * p;
  }

  lemma ScaleDone(a0: seq<Digit>, a: seq<Digit>, factor: int, carry: int)
    requires Scaled(a0, a, factor, |a0|, carry) && carry >= 0 && Val(a0) * factor < Pow(|a0|)
    ensures carry == 0 && Val(a) == Val(a0) * factor
  {
    ScaleTotal(a0, a, factor, carry);
    hide Val, Pow, Scaled;
    ScaleEnd(Val(a), carry, Pow(|a0|), Val(a0), factor);
  }

  lemma ScaleEnd(v: int, carry: int, p: int, v0: int, factor: int)
    requires v >= 0 && carry >= 0 && p > 0 && v + carry * p == v0 * factor && v0 * factor < p
    ensures carry == 0 && v == v0 * factor
  {
    NoCarry(v, carry, p, v0 * factor);
  }

  lemma ScaleTotal(a0: seq<Digit>, a: seq<Digit>, factor: int, carry: int)
    requires Scaled(a0, a, factor, |a0|, carry)
    ensures Val(a) + carry * Pow(|a0|) == Val(a0) * factor
  {
    ValToAll(a0, |a0|);
    ValToAll(a, |a|);
  }

  // bignum_multiply_unsigned_small_factor
  method MultiplySmallFactor(x: Number, y: Fixnum, negative: bool) returns (r: Number)
    requires x.Valid() && !x.IsZero() && 1 < y < H
    ensures r.Valid() && r.Value() == Signed(negative, Val(x.digits) * y)
  {
    var n := |x.digits|;
    var p := new Digit[n + 1](i requires 0 <= i < n + 1 => if i < n then x.digits[i] else 0);
    assert p[..] == x.digits + [0];
    ValSnoc(x.digits, 0);
    ProductFits(x.digits, y);
    ScaleUp(p, y);
    r := Trim(negative, p);
  }

  lemma ProductFits(x: seq<Digit>, y: int)
    requires 1 < y < H
    ensures Val(x) * y < Pow(|x| + 1)
  {
    ValBound(x);
    MulBound(Val(x), y, Pow(|x|), H);
  }

  // bignum_multiply.  `same` tells whether both arguments are one heap object.
  method MultiplyNumbers(x: Number, y: Number, same: bool) returns (r: Number)
    requires x.Valid() && y.Valid() && (same ==> x == y)
    ensures r.Valid() && r.Value() == x.Value() * y.Value()
  {
    if same {
      r := Square(x);
      return;
    }
    ProductOfSigns(x, y);
    hide Val, Signed;
    if x.IsZero() {
      return x;
    }
    if y.IsZero() {
      return y;
    }
    r := MultiplyNonzero(x, y);
  }

  // bignum_multiply past its tests for zero
  method MultiplyNonzero(x: Number, y: Number) returns (r: Number)
    requires x.Valid() && y.Valid() && !x.IsZero() && !y.IsZero()
    ensures r.Valid() && r.Value() == Signed(x.negative != y.negative, Val(x.digits) * Val(y.digits))
  {
    var negative := x.negative != y.negative;
    hide Val;
    if |x.digits| == 1 {
      var digit: Fixnum := x.digits[0];
      ValOne(x.digits);
      if digit == 1 {
        return NewSign(y, negative);
      }
      if digit < H {
        r := MultiplySmallFactor(y, digit, negative);
        return;
      }
    }
    if |y.digits| == 1 {
      var digit: Fixnum := y.digits[0];
      ValOne(y.digits);
      if digit == 1 {
        return NewSign(x, negative);
      }
      if digit < H {
        r := MultiplySmallFactor(x, digit, negative);
        return;
      }
    }
    r := MultiplyUnsigned(x, y, negative);
  }

  lemma ProductOfSigns(x: Number, y: Number)
    ensures x.Value() * y.Value() == Signed(x.negative != y.negative, Val(x.digits) * Val(y.digits))
  {
    SignRule(Val(x.digits), Val(y.digits));
  }

  lemma SignRule(a: int, b: int)
    ensures (-a) * b == -(a * b) && a * (-b) == -(a * b) && (-a) * (-b) == a * b
  {}
}
