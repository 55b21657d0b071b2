/** Truncating division of signed numbers: dispatch on the size of the denominator. */
module Divide {
  import opened Digits
  import opened Bits
  import opened Bignum
  import opened Multiply
  import LongDivide
  import DigitDivide

  // ----- shifting a digit string by less than a digit

  lemma ShiftFactors(shift: nat)
    requires shift <= 62
    ensures Pow2(shift) * Pow2(62 - shift) == R
  {
    Pow2At62();
    Pow2Add(shift, 62 - shift);
  }

  // The loop that finds how far a digit must be shifted to reach R / 2
  method NormalizingShift(d: Digit) returns (v: Digit, shift: nat)
    requires d > 0
    ensures v == d * Pow2(shift) && R / 2 <= v && shift <= 61
  {
    v, shift := d, 0;
    while v < R / 2
      invariant v == d * Pow2(shift) && 0 < v
      decreases R - v
    {
      v := 2 * v;
      shift := shift + 1;
    }
    ShiftBound(d, shift, v);
  }

  lemma ShiftBound(d: int, shift: nat, v: int)
    requires d >= 1 && v == d * Pow2(shift) < R
    ensures shift <= 61
  {
    Pow2At62();
    MulMono(1, d, Pow2(shift));
    if shift >= 62 {
      Pow2Mono(62, shift);
    }
  }

  ghost predicate ShiftedUp(s: seq<Digit>, a: seq<Digit>, k: int, i: nat, carry: int) {
    ValTo(a, i) + carry * Pow(i) == ValTo(s, i) * k
  }

  lemma ShiftStart(s: seq<Digit>, a: seq<Digit>, k: int)
    ensures ShiftedUp(s, a, k, 0, 0)
  {}

  lemma ShiftStep(s: seq<Digit>, a: seq<Digit>, b: seq<Digit>, k: int, i: nat, carry: int, carry': int)
    requires ShiftedUp(s, a, k, i, carry)
    requires i < |a| && |b| == |a| && b == a[i := b[i]]
    requires b[i] + R * carry' == k * DigitAt(s, i) + carry
    ensures ShiftedUp(s, b, k, i + 1, carry')
  {
    Store(a, b, i);
    ScaleArith(ValTo(a, i), ValTo(s, i), k, DigitAt(s, i), carry, b[i], carry', Pow(i));
  }

  // ((digit & mask) << shift) | carry, with k = 2^shift and m = 2^(62 - shift)
  lemma ShiftDigit(d: Digit, k: int, m: int, carry: int)
    requires k >= 1 && m >= 1 && k * m == R && 0 <= carry < k
    ensures 0 <= d % m * k + carry < R
    ensures 0 <= d / m < k
    ensures (d % m * k + carry) + R * (d / m) == k * d + carry
  {
    DivBound(d, m, k);
    ShiftArith(d, d / m, d % m, k, m, carry);
  }

  lemma ShiftArith(d: int, q: int, r: int, k: int, m: int, carry: int)
    requires k >= 1 && k * m == R && 0 <= carry < k && d == q * m + r && 0 <= r < m
    ensures 0 <= r * k + carry < R
    ensures (r * k + carry) + R * q == k * d + carry
  {
    MulMono(r, m - 1, k);
    assert (m - 1) * k == k * m - k;
    MulMono(0, r, k);
    MulEq(d, q * m + r, k);
    MulEq(k * m, R, q);
  }

  // bignum_destructive_normalization
  method Normalize(source: seq<Digit>, target: array<Digit>, shift: nat)
    requires 0 < shift < 62 && |source| <= target.Length <= |source| + 1
    requires target.Length == |source| ==> Val(source) * Pow2(shift) < Pow(|source|)
    modifies target
    ensures Val(target[..]) == Val(source) * Pow2(shift)
    ensures target.Length == |source| + 1 ==> target[|source|] < Pow2(shift)
  {
    hide ShiftedUp, Pow, Pow2, DigitAt;
    var k, m := Pow2(shift), Pow2(62 - shift);
    ShiftFactors(shift);
    var carry: Fixnum := 0;
    var i := 0;
    ShiftStart(source, target[..], k);
    while i < |source|
      invariant 0 <= i <= |source|
      invariant 0 <= carry < k
      invariant ShiftedUp(source, target[..], k, i, carry)
    {
      ghost var a, c := target[..], carry;
      var digit: Digit := source[i];
      ShiftDigit(digit, k, m, carry);
      target[i] := digit % m * k + carry;
      carry := digit / m;
      InDigits(source, i);
      ShiftStep(source, a, target[..], k, i, c, carry);
      i := i + 1;
    }
    if i < target.Length {
      ghost var a := target[..];
      target[i] := carry;
      OutOfDigits(source, i);
      ShiftStep(source, a, target[..], k, i, carry, 0);
      i := i + 1;
      carry := 0;
    }
    ShiftDone(source, target[..], k, i, carry);
  }

  lemma ShiftDone(s: seq<Digit>, a: seq<Digit>, k: int, i: nat, carry: int)
    requires |s| <= i == |a| && ShiftedUp(s, a, k, i, carry) && 0 <= carry
    requires carry == 0 || Val(s) * k < Pow(i)
    ensures Val(a) == Val(s) * k
  {
    ValToAll(s, i);
    ValToAll(a, i);
    if carry != 0 {
      NoCarry(Val(a), carry, Pow(i), Val(s) * k);
    }
  }

  // Reading from the top, the digits so far divided by k, and what is left over
  ghost predicate ShiftedDown(a0: seq<Digit>, a: seq<Digit>, k: int, i: nat, left: int) {
    && |a| == |a0| && i <= |a| && a[..i] == a0[..i]
    && Val(a0[i..]) == Val(a[i..]) * k + left && 0 <= left < k
  }

  lemma UnshiftStep(a0: seq<Digit>, a: seq<Digit>, b: seq<Digit>, k: int, i: nat, left: int, left': int)
    requires ShiftedDown(a0, a, k, i + 1, left)
    requires i < |a| && |b| == |a| && b == a[i := b[i]]
    requires a[i] + R * left == b[i] * k + left' && 0 <= left' < k
    ensures ShiftedDown(a0, b, k, i, left')
  {
    assert a[i] == a[..i + 1][i] == a0[..i + 1][i] == a0[i];
    assert b[..i] == a[..i + 1][..i] == a0[..i + 1][..i] == a0[..i];
    assert b[i + 1..] == a[i + 1..];
    ValSuffix(a0, i);
    ValSuffix(b, i);
    UnshiftArith(Val(a0[i..]), Val(a0[i + 1..]), Val(a[i + 1..]), a0[i], b[i], k, left, left');
  }

  lemma UnshiftArith(s: int, s1: int, t1: int, d: int, b: int, k: int, left: int, left': int)
    requires s == d + R * s1 && s1 == t1 * k + left && d + R * left == b * k + left'
    ensures s == (b + R * t1) * k + left'
  {
    assert (b + R * t1) * k == b * k + R * (t1 * k);
  }

  // (digit >> shift) | carry, where the carry is the bits left over above, moved up
  lemma UnshiftDigit(d: Digit, k: int, m: int, left: int)
    requires k >= 1 && m >= 1 && k * m == R && 0 <= left < k
    ensures 0 <= d / k + left * m < R
    ensures d + R * left == (d / k + left * m) * k + d % k
    ensures 0 <= d / k
  {
    DivBound(d, k, m);
    UnshiftWord(d, d / k, d % k, k, m, left);
  }

  lemma UnshiftWord(d: int, q: int, r: int, k: int, m: int, left: int)
    requires m >= 1 && k * m == R && 0 <= left < k && d == q * k + r && 0 <= q < m
    ensures 0 <= q + left * m < R
    ensures d + R * left == (q + left * m) * k + r
  {
    MulMono(left, k - 1, m);
    assert (k - 1) * m == k * m - m;
    MulMono(0, left, m);
    MulEq(k * m, R, left);
    assert (q + left * m) * k == q * k + k * m * left;
  }

  // bignum_destructive_unnormalization
  method Unnormalize(a: array<Digit>, shift: nat)
    requires 0 < shift < 62 && Val(a[..]) % Pow2(shift) == 0
    modifies a
    ensures Val(a[..]) * Pow2(shift) == old(Val(a[..]))
  {
    hide ShiftedDown, Pow, Pow2, Val;
    var k, m := Pow2(shift), Pow2(62 - shift);
    ShiftFactors(shift);
    ghost var a0, left := a[..], 0;
    var carry := 0;
    var scan := a.Length;
    UnshiftStart(a0, k);
    while 0 < scan
      invariant 0 <= scan <= a.Length
      invariant 0 <= left < k && carry == left * m
      invariant ShiftedDown(a0, a[..], k, scan, left)
    {
      scan := scan - 1;
      ghost var a1, l := a[..], left;
      var digit: Digit := a[scan];
      UnshiftDigit(digit, k, m, left);
      a[scan] := digit / k + carry;
      carry := digit % k * m;
      left := digit % k;
      UnshiftStep(a0, a1, a[..], k, scan, l, left);
    }
    UnshiftDone(a0, a[..], k, left);
  }

  lemma UnshiftStart(a: seq<Digit>, k: int)
    requires k >= 1
    ensures ShiftedDown(a, a, k, |a|, 0)
  {
    assert a[|a|..] == [];
  }

  lemma UnshiftDone(a0: seq<Digit>, a: seq<Digit>, k: int, left: int)
    requires ShiftedDown(a0, a, k, 0, left) && Val(a0) % k == 0
    ensures left == 0 && Val(a) * k == Val(a0)
  {
    assert a0[0..] == a0 && a[0..] == a;
    Divisible(Val(a0), Val(a), k, left);
  }

  lemma Divisible(n: int, q: int, k: int, left: int)
    requires k >= 1 && n % k == 0 && n == q * k + left && 0 <= left < k
    ensures left == 0
  {
    var e := n / k;
    assert n == e * k;
    if e > q {
      MulMono(q + 1, e, k);
    } else if e < q {
      MulMono(e + 1, q, k);
    }
  }

  // ----- denominators of one digit

  // ShiftedDown doubles as the invariant of a division by one digit: k is the denominator.

  // Two half-digit quotients make a digit quotient (bignum_destructive_scale_down).
  lemma HalfQuotients(d: Digit, k: int, r: int, n1: int, n2: int)
    requires 1 < k < H && 0 <= r < k
    requires n1 == r * H + High(d) && n2 == n1 % k * H + Low(d)
    ensures 0 <= n1 < R && 0 <= n2 < R && 0 <= n1 / k < H && 0 <= n2 / k < H
    ensures d + R * r == (n1 / k * H + n2 / k) * k + n2 % k
  {
    HalfQuotient(r, High(d), k, n1);
    HalfQuotient(n1 % k, Low(d), k, n2);
    assert (n1 / k * H + n2 / k) * k == n1 / k * k * H + n2 / k * k;
  }

  lemma HalfQuotient(r: int, h: int, k: int, n: int)
    requires 1 < k < H && 0 <= r < k && 0 <= h < H && n == r * H + h
    ensures 0 <= n < R && 0 <= n / k < H && n == n / k * k + n % k
  {
    DivBound(n, k, H);
  }

  // bignum_destructive_scale_down
  method ScaleDown(a: array<Digit>, k: Fixnum) returns (r: Fixnum)
    requires 1 < k < H
    modifies a
    ensures old(Val(a[..])) == Val(a[..]) * k + r && 0 <= r < k
  {
    hide ShiftedDown, Val;
    ghost var a0 := a[..];
    r := 0;
    var scan := a.Length;
    UnshiftStart(a0, k);
    while 0 < scan
      invariant 0 <= scan <= a.Length && 0 <= r < k
      invariant ShiftedDown(a0, a[..], k, scan, r)
    {
      scan := scan - 1;
      ghost var a1, r1 := a[..], r;
      var digits: Digit := a[scan];
      HalfQuotients(digits, k, r, r * H + High(digits), (r * H + High(digits)) % k * H + Low(digits));
      var n1: Fixnum := Cons(r, High(digits));
      var high: Fixnum := n1 / k;
      var n2: Fixnum := Cons(n1 % k, Low(digits));
      a[scan] := Cons(high, n2 / k);
      r := n2 % k;
      UnshiftStep(a0, a1, a[..], k, scan, r1, r);
    }
    QuotientDone(a0, a[..], k, r);
  }

  lemma QuotientDone(a0: seq<Digit>, a: seq<Digit>, k: int, r: int)
    requires ShiftedDown(a0, a, k, 0, r)
    ensures Val(a0) == Val(a) * k + r && 0 <= r < k
  {
    assert a0[0..] == a0 && a[0..] == a;
  }

  // What a truncating division of magnitudes delivers
  ghost predicate Divided(n: int, d: int, q: int, r: int) {
    n == q * d + r && 0 <= r < d
  }

  // bignum_divide_unsigned_small_denominator
  method SmallDenominator(n: Number, d: Fixnum, qNegative: bool, rNegative: bool) returns (q: Number, r: Number)
    requires n.Valid() && !n.IsZero() && 1 < d < H
    ensures q.Valid() && r.Valid() && Divided(Val(n.digits), d, Val(q.digits), Val(r.digits))
    ensures q.Value() == Signed(qNegative, Val(q.digits)) && r.Value() == Signed(rNegative, Val(r.digits))
  {
    var a := new Digit[|n.digits|](i requires 0 <= i < |n.digits| => n.digits[i]);
    assert a[..] == n.digits;
    var rest := ScaleDown(a, d);
    q := Trim(qNegative, a);
    r := DigitToNumber(rest, rNegative);
    ValSingle(rest);
  }

  // bignum_remainder_unsigned_small_denominator
  method SmallRemainder(n: Number, d: Fixnum, negative: bool) returns (r: Number)
    requires n.Valid() && 1 < d < H
    ensures r.Valid() && r.Value() == Signed(negative, Val(r.digits))
    ensures exists q :: Divided(Val(n.digits), d, q, Val(r.digits))
  {
    hide Val;
    ghost var q := 0;
    var rest: Fixnum := 0;
    var scan := |n.digits|;
    assert n.digits[scan..] == [];
    ValZeros([]);
    while 0 < scan
      invariant 0 <= scan <= |n.digits|
      invariant Divided(Val(n.digits[scan..]), d, q, rest)
    {
      scan := scan - 1;
      var digits: Digit := n.digits[scan];
      ghost var n1 := rest * H + High(digits);
      ghost var n2 := n1 % d * H + Low(digits);
      HalfQuotients(digits, d, rest, n1, n2);
      ValSuffix(n.digits, scan);
      UnshiftArith(Val(n.digits[scan..]), Val(n.digits[scan + 1..]), q, digits, n1 / d * H + n2 / d, d, rest, n2 % d);
      q := n1 / d * H + n2 / d + R * q;
      rest := Cons(Cons(rest, High(digits)) % d, Low(digits)) % d;
    }
    assert n.digits[0..] == n.digits;
    r := DigitToNumber(rest, negative);
    ValSingle(rest);
  }

  // The loop of bignum_divide_unsigned_medium_denominator
  method DivideByDigit(a: array<Digit>, d: Digit) returns (r: Digit)
    requires R / 2 <= d
    modifies a
    ensures old(Val(a[..])) == Val(a[..]) * d + r && r < d
  {
    hide ShiftedDown, Val;
    ghost var a0 := a[..];
    r := 0;
    var scan := a.Length;
    UnshiftStart(a0, d);
    while 0 < scan
      invariant 0 <= scan <= a.Length && 0 <= r < d
      invariant ShiftedDown(a0, a[..], d, scan, r)
    {
      scan := scan - 1;
      ghost var a1, r1 := a[..], r;
      var qj;
      qj, r := DigitDivide.Divide(r, a[scan], d);
      a[scan] := qj;
      UnshiftStep(a0, a1, a[..], d, scan, r1, r);
    }
    QuotientDone(a0, a[..], d, r);
  }

  // bignum_divide_unsigned_medium_denominator
  method MediumDenominator(n: Number, d: Digit, qNegative: bool, rNegative: bool) returns (q: Number, r: Number)
    requires n.Valid() && !n.IsZero() && d > 0
    ensures q.Valid() && r.Valid() && Divided(Val(n.digits), d, Val(q.digits), Val(r.digits))
    ensures q.Value() == Signed(qNegative, Val(q.digits)) && r.Value() == Signed(rNegative, Val(r.digits))
  {
    hide Pow2;
    var v, shift := NormalizingShift(d);
    var length := if shift == 0 then |n.digits| else |n.digits| + 1;
    var a := new Digit[length];
    if shift == 0 {
      Copy(n.digits, a);
      assert a[..] == n.digits;
    } else {
      Normalize(n.digits, a, shift);
    }
    ghost var k, n' := Pow2(shift), Val(a[..]);
    UnitShift(shift);
    var rest := DivideByDigit(a, v);
    ghost var qv := Val(a[..]);
    ScaledDivision(Val(n.digits), d, k, n', v, qv, rest);
    q := Trim(qNegative, a);
    var rest' := rest / Pow2(shift);
    r := DigitToNumber(rest', rNegative);
    ValSingle(rest');
  }

  lemma UnitShift(shift: nat)
    ensures shift == 0 ==> Pow2(shift) == 1
  {}

  // Scaling numerator and denominator scales the remainder and keeps the quotient.
  lemma ScaledDivision(n: int, d: int, k: int, n': int, d': int, q: int, r': int)
    requires k >= 1 && d >= 1 && n' == n * k && d' == d * k && n' == q * d' + r' && 0 <= r' < d'
    ensures r' % k == 0 && 0 <= r' / k <= r' && r' == r' / k * k
    ensures Divided(n, d, q, r' / k)
  {
    var r := n - q * d;
    assert r' == r * k by {
      assert (n - q * d) * k == n * k - q * (d * k);
    }
    MultipleDivides(r, k, r');
    if r < 0 {
      MulMono(r, -1, k);
    }
    if r >= d {
      MulMono(d, r, k);
    }
    MulMono(1, k, r);
  }

  lemma MultipleDivides(r: int, k: int, r': int)
    requires k >= 1 && r' == r * k
    ensures r' / k == r && r' % k == 0
  {
    var e := r' / k;
    assert r' == e * k + r' % k;
    if e > r {
      MulMono(r + 1, e, k);
    } else if e < r {
      MulMono(e + 1, r, k);
    }
  }

  // bignum_destructive_copy
  method Copy(source: seq<Digit>, target: array<Digit>)
    requires |source| <= target.Length
    modifies target
    ensures target[..|source|] == source
    ensures target[|source|..] == old(target[|source|..])
  {
    var i := 0;
    while i < |source|
      invariant 0 <= i <= |source|
      invariant target[..i] == source[..i]
      invariant target[|source|..] == old(target[|source|..])
    {
      target[i] := source[i];
      i := i + 1;
    }
  }

  // ----- denominators of several digits

  // Scaling by the normalizing shift of the top digit keeps the length and makes the top digit large.
  lemma NormalizedDenominator(d: seq<Digit>, k: int, v: int)
    requires |d| > 0 && k >= 1 && v == d[|d| - 1] * k && R / 2 <= v && v + k <= R
    ensures (R / 2) * Pow(|d| - 1) <= Val(d) * k < Pow(|d|)
  {
    var n := |d| - 1;
    ValPrefix(d, n);
    assert d[..n + 1] == d;
    ValBound(d[..n]);
    NormalArith(Val(d[..n]), d[n], k, v, Pow(n), Val(d));
  }

  lemma NormalArith(lo: int, top: int, k: int, v: int, p: int, d: int)
    requires 0 <= lo < p && k >= 1 && v == top * k && R / 2 <= v && v + k <= R && d == lo + top * p
    ensures (R / 2) * p <= d * k < R * p
  {
    ExpandArith(lo, top, k, v, p);
    MulMono(R / 2, v, p);
    MulMono(0, lo, k);
    MulMonoStrict(lo, p, k);
    MulMono(v + k, R, p);
  }

  lemma ExpandArith(lo: int, top: int, k: int, v: int, p: int)
    requires v == top * k
    ensures (lo + top * p) * k == lo * k + v * p
    ensures (v + k) * p == v * p + p * k
  {
    MulEq(v, top * k, p);
    assert (lo + top * p) * k == lo * k + top * k * p;
  }

  lemma TopDigitLarge(v: seq<Digit>)
    requires |v| > 0 && (R / 2) * Pow(|v| - 1) <= Val(v)
    ensures R / 2 <= v[|v| - 1]
  {
    var n := |v| - 1;
    ValPrefix(v, n);
    assert v[..n + 1] == v;
    ValBound(v[..n]);
    if v[n] < R / 2 {
      TopDecides(Val(v[..n]), 0, v[n], R / 2, Pow(n));
    }
  }

  lemma ShiftRoom(top: int, shift: nat, v: int)
    requires top >= 1 && shift <= 61 && v == top * Pow2(shift) < R
    ensures v + Pow2(shift) <= R && Pow2(shift) <= R / 2
  {
    ShiftFactors(shift);
    RoomArith(top, Pow2(shift), Pow2(62 - shift));
    Pow2Mono(shift, 61);
    Pow2At62();
    assert Pow2(62) == 2 * Pow2(61);
  }

  lemma RoomArith(top: int, k: int, m: int)
    requires top >= 1 && k >= 1 && m >= 1 && top * k < k * m
    ensures top * k + k <= k * m
  {
    if top >= m {
      MulMono(m, top, k);
    }
    MulMono(top + 1, m, k);
    assert (top + 1) * k == top * k + k;
  }

  // The divisor of the normalized division: the denominator itself or a shifted copy
  method NormalizedCopy(d: Number, shift: nat, ghost v: int) returns (a: seq<Digit>)
    requires d.Valid() && |d.digits| >= 2 && shift <= 61
    requires v == d.digits[|d.digits| - 1] * Pow2(shift) && R / 2 <= v < R
    ensures |a| == |d.digits| && Val(a) == Val(d.digits) * Pow2(shift) && R / 2 <= a[|a| - 1]
  {
    var n := |d.digits|;
    ShiftRoom(d.digits[n - 1], shift, v);
    NormalizedDenominator(d.digits, Pow2(shift), v);
    if shift == 0 {
      a := d.digits;
    } else {
      var copy := new Digit[n];
      Normalize(d.digits, copy, shift);
      a := copy[..];
    }
    TopDigitLarge(a);
  }

  // The dividend of the normalized division, with one digit to spare
  method NormalizedDividend(n: Number, shift: nat, u: array<Digit>)
    requires shift <= 61 && u.Length == |n.digits| + 1
    modifies u
    ensures Val(u[..]) == Val(n.digits) * Pow2(shift)
    ensures u[|n.digits|] < Pow2(shift)
  {
    if shift == 0 {
      Copy(n.digits, u);
      ghost var a := u[..|n.digits|];
      u[|n.digits|] := 0;
      assert u[..] == n.digits + [0];
      ValSnoc(n.digits, 0);
    } else {
      Normalize(n.digits, u, shift);
    }
  }

  // bignum_divide_unsigned_large_denominator; each result is computed only when it is wanted
  method LargeDenominator(n: Number, d: Number, wantQ: bool, wantR: bool, qNegative: bool, rNegative: bool)
    returns (q: Number, r: Number)
    requires n.Valid() && d.Valid() && |d.digits| >= 2 && Val(n.digits) > Val(d.digits)
    ensures wantQ ==> q.Valid() && q.Value() == Signed(qNegative, Val(q.digits))
    ensures wantR ==> r.Valid() && r.Value() == Signed(rNegative, Val(r.digits))
    ensures wantQ && wantR ==> Divided(Val(n.digits), Val(d.digits), Val(q.digits), Val(r.digits))
    ensures wantQ ==> exists r' :: Divided(Val(n.digits), Val(d.digits), Val(q.digits), r')
    ensures wantR ==> exists q' :: Divided(Val(n.digits), Val(d.digits), q', Val(r.digits))
  {
    hide Val, Pow2, Divided;
    var lengthN, lengthD := |n.digits| + 1, |d.digits|;
    NotShorter(n.digits, d.digits);
    var u := new Digit[lengthN];
    var v, shift := NormalizingShift(d.digits[lengthD - 1]);
    ghost var k := Pow2(shift);
    ShiftRoom(d.digits[lengthD - 1], shift, v);
    NormalizedDividend(n, shift, u);
    var divisor := NormalizedCopy(d, shift, v);
    ghost var n' := Val(u[..]);
    ghost var qs;
    if wantQ {
      var quotient := new Digit[lengthN - lengthD];
      qs := LongDivide.DivideNormalized(u, divisor, quotient);
      q := Trim(qNegative, quotient);
    } else {
      qs := LongDivide.DivideNormalized(u, divisor, null);
      q := Zero;
    }
    ScaledDivision(Val(n.digits), Val(d.digits), k, n', Val(divisor), Val(qs), Val(u[..]));
    ghost var rest := Val(u[..]) / k;
    if shift != 0 && wantR {
      Unnormalize(u, shift);
      CancelFactor(Val(u[..]), rest, k);
    }
    UnitShift(shift);
    r := Trim(rNegative, u);
  }

  lemma CancelFactor(a: int, b: int, k: int)
    requires k >= 1 && a * k == b * k
    ensures a == b
  {
    if a < b {
      MulMono(a + 1, b, k);
    } else if b < a {
      MulMono(b + 1, a, k);
    }
  }

  lemma NotShorter(n: seq<Digit>, d: seq<Digit>)
    requires Val(n) > Val(d) && |d| > 0 && d[|d| - 1] != 0
    ensures |n| >= |d| && Val(d) >= 1
  {
    if |n| < |d| {
      ShorterIsSmaller(n, d);
    }
    ValLower(d);
  }

  // ----- signed division

  datatype Division = DivideByZero | Quotient(quotient: Number, remainder: Number)

  // The signs of a truncating division: the remainder follows the numerator.
  lemma SignedDivision(n: Number, d: Number, q: int, r: int)
    requires n.Valid() && d.Valid() && Divided(Val(n.digits), Val(d.digits), q, r)
    ensures n.Value() == Signed(n.negative != d.negative, q) * d.Value() + Signed(n.negative, r)
    ensures Abs(Signed(n.negative, r)) < Abs(d.Value())
  {
    SignRule(q, Val(d.digits));
    SignOfValue(d);
  }

  // bignum_divide
  method DivideNumbers(n: Number, d: Number) returns (result: Division)
    requires n.Valid() && d.Valid()
    ensures result.DivideByZero? <==> d.Value() == 0
    ensures result.Quotient? ==>
      var q, r := result.quotient, result.remainder;
      && q.Valid() && r.Valid()
      && n.Value() == q.Value() * d.Value() + r.Value()
      && Abs(r.Value()) < Abs(d.Value())
      && (r.Value() == 0 || (r.Value() < 0 <==> n.Value() < 0))
  {
    SignOfValue(n);
    SignOfValue(d);
    if d.IsZero() {
      return DivideByZero;
    }
    if n.IsZero() {
      return Quotient(n, n);
    }
    var q, r := DivideMagnitudes(n, d);
    SignedDivision(n, d, Val(q.digits), Val(r.digits));
    result := Quotient(q, r);
  }

  // bignum_divide past its tests for zero: every path yields the truncated quotient
  method DivideMagnitudes(n: Number, d: Number) returns (q: Number, r: Number)
    requires n.Valid() && d.Valid() && !n.IsZero() && !d.IsZero()
    ensures q.Valid() && r.Valid() && Divided(Val(n.digits), Val(d.digits), Val(q.digits), Val(r.digits))
    ensures q.Value() == Signed(n.negative != d.negative, Val(q.digits))
    ensures r.Value() == Signed(n.negative, Val(r.digits))
  {
    var rNegative := n.negative;
    var qNegative := n.negative != d.negative;
    ValSingle(1);
    SignOfValue(n);
    SignOfValue(d);
    hide Val;
    var cmp := CompareUnsigned(n, d);
    match cmp
    case Equal =>
      q, r := One(qNegative), Zero;
      ValZeros([]);
    case Less =>
      q, r := Zero, n;
      ValZeros([]);
    case Greater =>
      if |d.digits| == 1 {
        var digit: Digit := d.digits[0];
        ValOne(d.digits);
        if digit == 1 {
          q, r := NewSign(n, qNegative), Zero;
          ValZeros([]);
        } else if digit < H {
          q, r := SmallDenominator(n, digit, qNegative, rNegative);
        } else {
          q, r := MediumDenominator(n, digit, qNegative, rNegative);
        }
      } else {
        q, r := LargeDenominator(n, d, true, true, qNegative, rNegative);
      }
  }

  datatype Outcome = ZeroDivisor | Result(number: Number)

  // bignum_remainder
  method Remainder(n: Number, d: Number) returns (result: Outcome)
    requires n.Valid() && d.Valid()
    ensures result.ZeroDivisor? <==> d.Value() == 0
    ensures result.Result? ==>
      var r := result.number;
      && r.Valid()
      && (exists q :: Divided(Abs(n.Value()), Abs(d.Value()), q, Abs(r.Value())))
      && (r.Value() == 0 || (r.Value() < 0 <==> n.Value() < 0))
  {
    SignOfValue(n);
    SignOfValue(d);
    if d.IsZero() {
      return ZeroDivisor;
    }
    if n.IsZero() {
      assert Divided(0, Val(d.digits), 0, 0);
      return Result(n);
    }
    var r := RemainderMagnitudes(n, d);
    SignOfValue(r);
    result := Result(r);
  }

  // bignum_remainder past its tests for zero
  method RemainderMagnitudes(n: Number, d: Number) returns (r: Number)
    requires n.Valid() && d.Valid() && !n.IsZero() && !d.IsZero()
    ensures r.Valid() && exists q :: Divided(Val(n.digits), Val(d.digits), q, Val(r.digits))
    ensures r.Value() == Signed(n.negative, Val(r.digits))
  {
    SignOfValue(n);
    SignOfValue(d);
    hide Val;
    ValZeros([]);
    var cmp := CompareUnsigned(n, d);
    match cmp
    case Equal =>
      r := Zero;
      assert Divided(Val(n.digits), Val(d.digits), 1, 0);
    case Less =>
      r := n;
      assert Divided(Val(n.digits), Val(d.digits), 0, Val(n.digits));
    case Greater =>
      if |d.digits| == 1 {
        var digit: Digit := d.digits[0];
        ValOne(d.digits);
        if digit == 1 {
          r := Zero;
          assert Divided(Val(n.digits), Val(d.digits), Val(n.digits), 0);
        } else if digit < H {
          r := SmallRemainder(n, digit, n.negative);
        } else {
          var q;
          q, r := MediumDenominator(n, digit, false, n.negative);
        }
      } else {
        var q;
        q, r := LargeDenominator(n, d, false, true, false, n.negative);
      }
  }
}
