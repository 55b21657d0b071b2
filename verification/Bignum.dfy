/** Sign-magnitude integers: construction, comparison, addition and subtraction (vm/bignum.cpp). */
module Bignum {
  import opened Digits

  datatype Number = Number(negative: bool, digits: seq<Digit>) {

    // What every number handed out by the kernel satisfies: no leading zero digit, one zero.
    ghost predicate Valid() {
      && (|digits| > 0 ==> digits[|digits| - 1] != 0)
      && (|digits| == 0 ==> !negative)
    }

    ghost function Value(): int {
      if negative then -Val(digits) else Val(digits)
    }

    // BIGNUM_LENGTH and BIGNUM_ZERO_P
    function Length(): nat { |digits| }
    predicate IsZero() { |digits| == 0 }
  }

  datatype Comparison = Less | Equal | Greater

  // The cached constants BIGNUM_ZERO() and BIGNUM_ONE(neg_p)
  const Zero: Number := Number(false, [])
  function One(negative: bool): Number { Number(negative, [1]) }

  ghost function Signed(negative: bool, magnitude: int): int {
    if negative then -magnitude else magnitude
  }

  ghost function Abs(x: int): int { if x < 0 then -x else x }

  // A number is zero exactly when it has no digits, and its sign is its value's sign.
  lemma SignOfValue(x: Number)
    requires x.Valid()
    ensures x.IsZero() <==> x.Value() == 0
    ensures x.negative <==> x.Value() < 0
    ensures Abs(x.Value()) == Val(x.digits)
  {
    if |x.digits| > 0 {
      ValLower(x.digits);
    }
  }

  // Valid numbers are a normal form: equal values are equal representations.
  lemma ValueInjective(x: Number, y: Number)
    requires x.Valid() && y.Valid() && x.Value() == y.Value()
    ensures x == y
  {
    SignOfValue(x);
    SignOfValue(y);
    TrimmedUnique(x.digits, y.digits);
  }

  // bignum_trim: drop leading zero digits, and the sign with the last of them
  method Trim(negative: bool, a: array<Digit>) returns (r: Number)
    ensures r.Valid() || (a.Length == 0 && negative)
    ensures Val(r.digits) == Val(a[..])
    ensures r.negative == (negative && (Val(a[..]) != 0 || a.Length == 0))
    ensures r.digits <= a[..]
  {
    var scan := a.Length;
    assert a[..scan] == a[..];
    while 0 < scan && a[scan - 1] == 0
      invariant 0 <= scan <= a.Length
      invariant Val(a[..scan]) == Val(a[..])
    {
      scan := scan - 1;
      ValPrefix(a[..], scan);
      assert a[..][..scan + 1] == a[..scan + 1] && a[..][..scan] == a[..scan];
    }
    if scan < a.Length {
      r := Number(scan != 0 && negative, a[..scan]);
    } else {
      r := Number(negative, a[..]);
    }
    if scan > 0 {
      ValLower(a[..scan]);
    }
  }

  // bignum_new_sign and bignum_maybe_new_sign
  function NewSign(x: Number, negative: bool): (r: Number)
    ensures x.Valid() && !x.IsZero() ==> r.Valid() && r.Value() == Signed(negative, Abs(x.Value()))
  {
    Number(negative, x.digits)
  }

  // bignum_digit_to_bignum
  function DigitToNumber(digit: Digit, negative: bool): (r: Number)
    ensures r.Valid() && r.Value() == Signed(negative, digit)
  {
    ValSingle(digit);
    if digit == 0 then Zero else Number(negative, [digit])
  }

  // bignum_compare_unsigned: from the top digit down
  method CompareUnsigned(x: Number, y: Number) returns (c: Comparison)
    requires x.Valid() && y.Valid()
    ensures c == Less <==> Val(x.digits) < Val(y.digits)
    ensures c == Greater <==> Val(x.digits) > Val(y.digits)
  {
    if x.Length() < y.Length() {
      ShorterIsSmaller(x.digits, y.digits);
      return Less;
    }
    if x.Length() > y.Length() {
      ShorterIsSmaller(y.digits, x.digits);
      return Greater;
    }
    var scan := x.Length();
    while 0 < scan
      invariant 0 <= scan <= |x.digits|
      invariant x.digits[scan..] == y.digits[scan..]
    {
      scan := scan - 1;
      var xd, yd := x.digits[scan], y.digits[scan];
      if xd != yd {
        CompareAt(x.digits, y.digits, scan);
        CompareAt(y.digits, x.digits, scan);
        return if xd < yd then Less else Greater;
      }
      assert x.digits[scan..] == [xd] + x.digits[scan + 1..];
      assert y.digits[scan..] == [yd] + y.digits[scan + 1..];
    }
    assert x.digits == x.digits[0..] && y.digits == y.digits[0..];
    return Equal;
  }

  // The most significant position at which two equally long strings differ decides.
  lemma CompareAt(s: seq<Digit>, t: seq<Digit>, i: nat)
    requires |s| == |t| && i < |s| && s[i + 1..] == t[i + 1..]
    ensures s[i] < t[i] ==> Val(s) < Val(t)
  {
    if s[i] < t[i] {
      ValSplit(s, i + 1);
      ValSplit(t, i + 1);
      ValPrefix(s, i);
      ValPrefix(t, i);
      ValBound(s[..i]);
      TopDecides(Val(s[..i]), Val(t[..i]), s[i], t[i], Pow(i));
    }
  }

  // bignum_compare
  method Compare(x: Number, y: Number) returns (c: Comparison)
    requires x.Valid() && y.Valid()
    ensures c == Less <==> x.Value() < y.Value()
    ensures c == Greater <==> x.Value() > y.Value()
  {
    SignOfValue(x);
    SignOfValue(y);
    if x.IsZero() {
      c := if y.IsZero() then Equal else if y.negative then Greater else Less;
    } else if y.IsZero() {
      c := if x.negative then Less else Greater;
    } else if x.negative {
      if y.negative {
        c := CompareUnsigned(y, x);
      } else {
        c := Less;
      }
    } else if y.negative {
      c := Greater;
    } else {
      c := CompareUnsigned(x, y);
    }
  }

  // bignum_equal_p
  method EqualP(x: Number, y: Number) returns (e: bool)
    requires x.Valid() && y.Valid()
    ensures e <==> x.Value() == y.Value()
  {
    if x.Value() == y.Value() {
      ValueInjective(x, y);
    }
    if x.IsZero() {
      e := y.IsZero();
    } else {
      e := !y.IsZero() && x.negative == y.negative && |x.digits| == |y.digits|;
      var i := 0;
      while e && i < |x.digits|
        invariant i <= |x.digits|
        invariant e <==> (x.negative == y.negative && |x.digits| == |y.digits| && x.digits[..i] == y.digits[..i])
        decreases |x.digits| - i, e
      {
        if x.digits[i] != y.digits[i] {
          assert x.digits[..i + 1][i] != y.digits[..i + 1][i];
          e := false;
        }
        i := i + 1;
      }
      assert x.digits == x.digits[..|x.digits|] && y.digits == y.digits[..|y.digits|];
    }
  }

  // Below column i, the digits written and the carry out of them hold the sum of the digits read.
  ghost predicate Sums(x: seq<Digit>, y: seq<Digit>, a: seq<Digit>, i: nat, carry: int) {
    ValTo(a, i) + carry * Pow(i) == ValTo(x, i) + ValTo(y, i)
  }

  lemma AddColumn(x: seq<Digit>, y: seq<Digit>, a: seq<Digit>, b: seq<Digit>, i: nat, carry: int, carry': int)
    requires i < |a| && |b| == |a| && b == a[i := b[i]]
    requires Sums(x, y, a, i, carry)
    requires b[i] + carry' * R == DigitAt(x, i) + DigitAt(y, i) + carry
    ensures Sums(x, y, b, i + 1, carry')
  {
    Store(a, b, i);
    ColumnArith(ValTo(x, i), ValTo(y, i), ValTo(a, i), Pow(i), DigitAt(x, i), DigitAt(y, i), carry, b[i], carry');
  }

  lemma ColumnArith(x: int, y: int, a: int, p: int, xd: int, yd: int, carry: int, d: int, carry': int)
    requires a + carry * p == x + y && d + carry' * R == xd + yd + carry
    ensures a + d * p + carry' * (R * p) == x + xd * p + (y + yd * p)
  {
    MulEq(d + carry' * R, xd + yd + carry, p);
  }

  lemma SumStart(x: seq<Digit>, y: seq<Digit>, a: seq<Digit>)
    ensures Sums(x, y, a, 0, 0)
  {}

  // bignum_add_unsigned
  method AddUnsigned(x0: Number, y0: Number, negative: bool) returns (r: Number)
    requires x0.Valid() && y0.Valid() && (!x0.IsZero() || !y0.IsZero())
    ensures r.Valid() && r.Value() == Signed(negative, Val(x0.digits) + Val(y0.digits))
  {
    if |y0.digits| > |x0.digits| {
      r := AddShorter(y0.digits, x0.digits, negative);
    } else {
      r := AddShorter(x0.digits, y0.digits, negative);
    }
  }

  // The digit loops of bignum_add_unsigned, with the longer operand first
  method AddShorter(x: seq<Digit>, y: seq<Digit>, negative: bool) returns (r: Number)
    requires |y| <= |x| && |x| > 0 && x[|x| - 1] != 0
    ensures r.Valid() && r.Value() == Signed(negative, Val(x) + Val(y))
  {
    hide Sums;
    var a := new Digit[|x| + 1];
    SumStart(x, y, a[..]);
    var carry: Fixnum := 0;
    var i := 0;
    while i < |y|
      invariant 0 <= i <= |y|
      invariant 0 <= carry <= 1
      invariant Sums(x, y, a[..], i, carry)
    {
      ghost var a0, c := a[..], carry;
      var sum: Fixnum := x[i] + y[i] + carry;
      if sum < R {
        a[i] := sum;
        carry := 0;
      } else {
        a[i] := sum - R;
        carry := 1;
      }
      AddColumn(x, y, a0, a[..], i, c, carry);
      i := i + 1;
    }
    while carry != 0 && i < |x|
      invariant |y| <= i <= |x|
      invariant 0 <= carry <= 1
      invariant Sums(x, y, a[..], i, carry)
      decreases |x| - i
    {
      ghost var a0 := a[..];
      var xd: Fixnum := x[i];
      var sum: Fixnum := xd + 1;
      if sum < R {
        a[i] := sum;
        carry := 0;
      } else {
        a[i] := sum - R;
      }
      AddColumn(x, y, a0, a[..], i, 1, carry);
      i := i + 1;
    }
    while i < |x|
      invariant |y| <= i <= |x|
      invariant i < |x| ==> carry == 0
      invariant Sums(x, y, a[..], i, carry)
    {
      ghost var a0 := a[..];
      a[i] := x[i];
      AddColumn(x, y, a0, a[..], i, 0, 0);
      i := i + 1;
    }
    if carry != 0 {
      ghost var a0 := a[..];
      a[i] := 1;
      AddColumn(x, y, a0, a[..], i, 1, 0);
      SumDone(x, y, a[..], i + 1);
      r := Number(negative, a[..]);
    } else {
      r := Number(negative, a[..i]);
      SumShortened(x, y, a[..], i);
      SumKeepsTop(x, y, r.digits);
    }
  }

  lemma SumDone(x: seq<Digit>, y: seq<Digit>, a: seq<Digit>, i: nat)
    requires |x| <= i && |y| <= i && |a| <= i && Sums(x, y, a, i, 0)
    ensures Val(a) == Val(x) + Val(y)
  {
    ValToAll(x, i);
    ValToAll(y, i);
    ValToAll(a, i);
  }

  lemma SumShortened(x: seq<Digit>, y: seq<Digit>, a: seq<Digit>, i: nat)
    requires |x| <= i && |y| <= i && i <= |a| && Sums(x, y, a, i, 0)
    ensures Val(a[..i]) == Val(x) + Val(y)
  {
    ValToAll(x, i);
    ValToAll(y, i);
    ValToPrefix(a, i);
  }

  // A sum that fits the longer operand's length does not lose its top digit.
  lemma SumKeepsTop(x: seq<Digit>, y: seq<Digit>, s: seq<Digit>)
    requires |x| > 0 && x[|x| - 1] != 0
    requires |s| == |x| && Val(s) == Val(x) + Val(y)
    ensures s[|s| - 1] != 0
  {
    hide Val, Pow;
    var n := |s| - 1;
    ValLower(x);
    ValPrefix(s, n);
    assert s[..n + 1] == s;
    ValBound(s[..n]);
    ReachesTop(Val(s[..n]), s[n], Pow(n), Val(s));
  }

  lemma ReachesTop(lo: int, d: int, p: int, v: int)
    requires lo < p <= v && v == lo + d * p
    ensures d != 0
  {}

  ghost predicate Differs(x: seq<Digit>, y: seq<Digit>, a: seq<Digit>, i: nat, borrow: int) {
    ValTo(a, i) + ValTo(y, i) == ValTo(x, i) + borrow * Pow(i)
  }

  lemma SubtractColumn(x: seq<Digit>, y: seq<Digit>, a: seq<Digit>, b: seq<Digit>, i: nat, borrow: int, borrow': int)
    requires i < |a| && |b| == |a| && b == a[i := b[i]]
    requires Differs(x, y, a, i, borrow)
    requires b[i] == DigitAt(x, i) - DigitAt(y, i) - borrow + borrow' * R
    ensures Differs(x, y, b, i + 1, borrow')
  {
    Store(a, b, i);
    BorrowArith(ValTo(x, i), ValTo(y, i), ValTo(a, i), Pow(i), DigitAt(x, i), DigitAt(y, i), borrow, b[i], borrow');
  }

  lemma BorrowArith(x: int, y: int, a: int, p: int, xd: int, yd: int, borrow: int, d: int, borrow': int)
    requires a + y == x + borrow * p && d == xd - yd - borrow + borrow' * R
    ensures a + d * p + (y + yd * p) == x + xd * p + borrow' * (R * p)
  {
    MulEq(d, xd - yd - borrow + borrow' * R, p);
  }

  lemma DifferenceStart(x: seq<Digit>, y: seq<Digit>, a: seq<Digit>)
    ensures Differs(x, y, a, 0, 0)
  {}

  lemma DifferenceDone(x: seq<Digit>, y: seq<Digit>, a: seq<Digit>, i: nat)
    requires |x| <= i && |y| <= i && |a| <= i && Differs(x, y, a, i, 0)
    ensures Val(a) + Val(y) == Val(x)
  {
    ValToAll(x, i);
    ValToAll(y, i);
    ValToAll(a, i);
  }

  // bignum_subtract_unsigned
  method SubtractUnsigned(x0: Number, y0: Number) returns (r: Number)
    requires x0.Valid() && y0.Valid()
    ensures r.Valid() && r.Value() == Val(x0.digits) - Val(y0.digits)
  {
    if |x0.digits| != |y0.digits| {
      if |x0.digits| < |y0.digits| {
        ShorterIsSmaller(x0.digits, y0.digits);
      } else {
        ShorterIsSmaller(y0.digits, x0.digits);
      }
    }
    var cmp := CompareUnsigned(x0, y0);
    if cmp == Equal {
      r := Zero;
    } else if cmp == Less {
      r := SubtractSmaller(y0.digits, x0.digits, true);
    } else {
      r := SubtractSmaller(x0.digits, y0.digits, false);
    }
  }

  // The digit loops of bignum_subtract_unsigned, with the larger magnitude first
  method SubtractSmaller(x: seq<Digit>, y: seq<Digit>, negative: bool) returns (r: Number)
    requires Val(y) < Val(x) && |y| <= |x|
    ensures r.Valid() && r.Value() == Signed(negative, Val(x) - Val(y))
  {
    hide Differs;
    var a := new Digit[|x|];
    DifferenceStart(x, y, a[..]);
    var borrow: Fixnum := 0;
    var i := 0;
    while i < |y|
      invariant 0 <= i <= |y|
      invariant 0 <= borrow <= 1
      invariant Differs(x, y, a[..], i, borrow)
    {
      ghost var a0, b := a[..], borrow;
      var difference: Fixnum := x[i] as int - y[i] - borrow;
      if difference < 0 {
        a[i] := difference + R;
        borrow := 1;
      } else {
        a[i] := difference;
        borrow := 0;
      }
      SubtractColumn(x, y, a0, a[..], i, b, borrow);
      i := i + 1;
    }
    while borrow != 0 && i < |x|
      invariant |y| <= i <= |x|
      invariant 0 <= borrow <= 1
      invariant Differs(x, y, a[..], i, borrow)
      decreases |x| - i
    {
      ghost var a0, b := a[..], borrow;
      var difference: Fixnum := x[i] as int - borrow;
      if difference < 0 {
        a[i] := difference + R;
      } else {
        a[i] := difference;
        borrow := 0;
      }
      SubtractColumn(x, y, a0, a[..], i, b, borrow);
      i := i + 1;
    }
    NoFinalBorrow(x, y, a[..], i, borrow);
    while i < |x|
      invariant |y| <= i <= |x|
      invariant Differs(x, y, a[..], i, 0)
    {
      ghost var a0 := a[..];
      a[i] := x[i];
      SubtractColumn(x, y, a0, a[..], i, 0, 0);
      i := i + 1;
    }
    DifferenceDone(x, y, a[..], i);
    r := Trim(negative, a);
  }

  // BIGNUM_ASSERT(borrow == 0)
  lemma NoFinalBorrow(x: seq<Digit>, y: seq<Digit>, a: seq<Digit>, i: nat, borrow: int)
    requires |y| <= i && Val(y) < Val(x) && Differs(x, y, a, i, borrow) && 0 <= borrow <= 1
    requires i < |x| ==> borrow == 0
    ensures borrow == 0
  {
    if |x| <= i {
      ValToAll(x, i);
      ValToAll(y, i);
      ValToBound(a, i);
    }
  }

  // bignum_add
  method Add(x: Number, y: Number) returns (r: Number)
    requires x.Valid() && y.Valid()
    ensures r.Valid() && r.Value() == x.Value() + y.Value()
  {
    if x.IsZero() {
      r := y;
    } else if y.IsZero() {
      r := x;
    } else if x.negative {
      if y.negative {
        r := AddUnsigned(x, y, true);
      } else {
        r := SubtractUnsigned(y, x);
      }
    } else if y.negative {
      r := SubtractUnsigned(x, y);
    } else {
      r := AddUnsigned(x, y, false);
    }
  }

  // bignum_subtract
  method Subtract(x: Number, y: Number) returns (r: Number)
    requires x.Valid() && y.Valid()
    ensures r.Valid() && r.Value() == x.Value() - y.Value()
  {
    if x.IsZero() {
      r := if y.IsZero() then y else NewSign(y, !y.negative);
    } else if y.IsZero() {
      r := x;
    } else if x.negative {
      if y.negative {
        r := SubtractUnsigned(y, x);
      } else {
        r := AddUnsigned(x, y, true);
      }
    } else if y.negative {
      r := AddUnsigned(x, y, false);
    } else {
      r := SubtractUnsigned(x, y);
    }
  }
}
