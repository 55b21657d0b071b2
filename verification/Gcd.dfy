/** bignum_gcd: the Lehmer GCD on digit arrays, in place. */
module Gcd {
  import opened Digits
  import opened Bits
  import opened Bignum
  import opened Multiply
  import opened Lehmer
  import D = Divide

  // ----- common divisors

  ghost function Times(a: int, b: int): int { a * b }

  ghost predicate Divides(d: int, n: int) {
    exists k :: Times(d, k) == n
  }

  // A greatest common divisor: a common divisor that every common divisor divides
  ghost predicate IsGcd(g: int, a: int, b: int) {
    && g >= 0 && Divides(g, a) && Divides(g, b)
    && forall d :: Divides(d, a) && Divides(d, b) ==> Divides(d, g)
  }

  ghost predicate SameDivisors(a: int, b: int, c: int, e: int) {
    forall d :: (Divides(d, a) && Divides(d, b)) <==> (Divides(d, c) && Divides(d, e))
  }

  lemma DividesCombination(d: int, u: int, v: int, q: int)
    requires Divides(d, u) && Divides(d, v)
    ensures Divides(d, u + q * v)
  {
    var i :| Times(d, i) == u;
    var j :| Times(d, j) == v;
    assert d * (i + q * j) == d * i + q * (d * j);
    assert Times(d, i + q * j) == u + q * v;
  }

  lemma EuclidStepDivisors(u: int, v: int)
    requires v > 0
    ensures SameDivisors(u, v, v, u % v)
  {
    var q := u / v;
    assert u == q * v + u % v;
    forall d ensures (Divides(d, u) && Divides(d, v)) <==> (Divides(d, v) && Divides(d, u % v)) {
      if Divides(d, v) {
        if Divides(d, u) {
          DividesCombination(d, u, v, -q);
          assert u + (-q) * v == u % v;
        }
        if Divides(d, u % v) {
          DividesCombination(d, u % v, v, q);
        }
      }
    }
  }

  // Euclid's algorithm keeps the common divisors.
  lemma {:induction false} EuclidDivisors(a: int, b: int, k: nat)
    requires a >= b >= 0
    ensures SameDivisors(a, b, Euclid(a, b, k).0, Euclid(a, b, k).1)
  {
    if k > 0 {
      EuclidDivisors(a, b, k - 1);
      var (u, v) := Euclid(a, b, k - 1);
      if v > 0 {
        EuclidStepDivisors(u, v);
      }
    }
  }

  lemma GcdAtEnd(a: int, b: int, g: int)
    requires g >= 0 && SameDivisors(a, b, g, 0)
    ensures IsGcd(g, a, b)
  {
    assert Times(g, 1) == g;
    assert Times(g, 0) == 0;
    forall d ensures Divides(d, 0) {
      assert Times(d, 0) == 0;
    }
    assert Divides(g, g) && Divides(g, 0);
  }

  // ----- the digit update

  // Below digit i, x and the carry s hold the combination ca * a + cb * b.
  ghost predicate Combined(a: seq<Digit>, b: seq<Digit>, x: seq<Digit>, ca: int, cb: int, i: nat, s: int) {
    ValTo(x, i) + s * Pow(i) == ca * ValTo(a, i) + cb * ValTo(b, i)
  }

  lemma CombineStart(a: seq<Digit>, b: seq<Digit>, x: seq<Digit>, ca: int, cb: int)
    ensures Combined(a, b, x, ca, cb, 0, 0)
  {}

  lemma CombineColumn(a: seq<Digit>, b: seq<Digit>, x: seq<Digit>, x': seq<Digit>, ca: int, cb: int, i: nat, s: int,
                      s': int)
    requires Combined(a, b, x, ca, cb, i, s)
    requires i < |x| && |x'| == |x| && x' == x[i := x'[i]]
    requires x'[i] + R * s' == s + ca * DigitAt(a, i) + cb * DigitAt(b, i)
    ensures Combined(a, b, x', ca, cb, i + 1, s')
  {
    Store(x, x', i);
    CombineArith(ValTo(x, i), ValTo(a, i), ValTo(b, i), ca, cb, DigitAt(a, i), DigitAt(b, i), x'[i], s, s', Pow(i));
  }

  lemma CombineArith(x: int, a: int, b: int, ca: int, cb: int, ad: int, bd: int, xd: int, s: int, s': int, p: int)
    requires x + s * p == ca * a + cb * b
    requires xd + R * s' == s + ca * ad + cb * bd
    ensures x + xd * p + s' * (R * p) == ca * (a + ad * p) + cb * (b + bd * p)
  {
    MulEq(xd + R * s', s + ca * ad + cb * bd, p);
    assert ca * (a + ad * p) == ca * a + ca * ad * p;
    assert cb * (b + bd * p) == cb * b + cb * bd * p;
  }

  // Cofactors of opposite sign keep the carry within a word.
  ghost predicate Opposite(ca: int, cb: int) {
    (0 <= ca <= MaxWord && -MaxWord <= cb <= 0) || (-MaxWord <= ca <= 0 && 0 <= cb <= MaxWord)
  }

  lemma CarryBound(s: int, ca: int, cb: int, ad: Digit, bd: Digit, pa: int, pb: int)
    requires -MaxWord <= s <= MaxWord && Opposite(ca, cb) && pa == ca * ad && pb == cb * bd
    ensures -(MaxWord * R) <= pa <= MaxWord * R && -(MaxWord * R) <= pb <= MaxWord * R
    ensures -(MaxWord * R) <= s + pa + pb <= MaxWord * R
  {
    SignedBound(ca, ad);
    SignedBound(cb, bd);
  }

  lemma SignedBound(c: int, d: Digit)
    ensures 0 <= c <= MaxWord ==> 0 <= c * d <= MaxWord * (R - 1)
    ensures -MaxWord <= c <= 0 ==> -(MaxWord * (R - 1)) <= c * d <= 0
  {
    if 0 <= c <= MaxWord {
      MulBound(c, d, MaxWord, R - 1);
    } else if -MaxWord <= c <= 0 {
      MulBound(-c, d, MaxWord, R - 1);
      assert (-c) * d == -(c * d);
    }
  }

  // One digit of a combination: what is stored and what is carried (s & mask, s >> length)
  method CombineDigit(s: TwoDigit, ca: TwoDigit, cb: TwoDigit, ad: Digit, bd: Digit) returns (x: Digit, s': TwoDigit)
    requires -MaxWord <= s <= MaxWord && Opposite(ca, cb)
    ensures x + R * s' == s + ca * ad + cb * bd
    ensures -MaxWord <= s' <= MaxWord
  {
    CarryBound(s, ca, cb, ad, bd, ca * ad, cb * bd);
    var sum: TwoDigit := s + ca * ad + cb * bd;
    x := sum % R;
    s' := sum / R;
  }

  // The update of both numbers: a, b := ca * a + cb * b, da * a + db * b.  The digits of the second
  // combination above b are not stored; they are zero, and so are the carries s and t in the end.
  method Combine(a: array<Digit>, b: array<Digit>, sizeA: nat, sizeB: nat,
                 ca: TwoDigit, cb: TwoDigit, da: TwoDigit, db: TwoDigit, ghost va: int, ghost vb: int)
    returns (s: TwoDigit, t: TwoDigit)
    requires a != b && sizeB <= sizeA <= a.Length && sizeB <= b.Length
    requires Opposite(ca, cb) && Opposite(da, db)
    requires va == ca * ValTo(a[..], sizeA) + cb * ValTo(b[..], sizeB) && 0 <= va < Pow(sizeA)
    requires vb == da * ValTo(a[..], sizeA) + db * ValTo(b[..], sizeB) && 0 <= vb < Pow(sizeB)
    modifies a, b
    ensures ValTo(a[..], sizeA) == va && ValTo(b[..], sizeB) == vb
    ensures a[sizeA..] == old(a[sizeA..]) && b[sizeB..] == old(b[sizeB..])
    ensures s == 0 && t == 0
  {
    hide Combined, ValTo, Pow, DigitAt, Opposite;
    ghost var a0, b0 := a[..], b[..sizeB];
    ghost var tb := seq(sizeA, _ => 0);
    CombineTotals(a[..], b[..], b0, sizeA, sizeB);
    CombineStart(a0, b0, a[..], ca, cb);
    CombineStart(a0, b0, tb, da, db);
    s, t := 0, 0;
    var i := 0;
    while i < sizeB
      invariant 0 <= i <= sizeB
      invariant -MaxWord <= s <= MaxWord && -MaxWord <= t <= MaxWord
      invariant a[i..] == a0[i..] && b[i..sizeB] == b0[i..] && |tb| == sizeA && b[..i] == tb[..i]
      invariant Combined(a0, b0, a[..], ca, cb, i, s) && Combined(a0, b0, tb, da, db, i, t)
      invariant b[sizeB..] == old(b[sizeB..])
    {
      ghost var a1, tb1, s1, t1 := a[..], tb, s, t;
      var ad, bd := a[i], b[i];
      assert ad == a[i..][0] == a0[i..][0] && bd == b[i..sizeB][0] == b0[i..][0];
      InDigits(a0, i);
      InDigits(b0, i);
      a[i], s := CombineDigit(s, ca, cb, ad, bd);
      b[i], t := CombineDigit(t, da, db, ad, bd);
      tb := tb[i := b[i]];
      CombineColumn(a0, b0, a1, a[..], ca, cb, i, s1, s);
      CombineColumn(a0, b0, tb1, tb, da, db, i, t1, t);
      i := i + 1;
      assert a[i..] == a1[i - 1..][1..];
    }
    while i < sizeA
      invariant sizeB <= i <= sizeA
      invariant -MaxWord <= s <= MaxWord && -MaxWord <= t <= MaxWord
      invariant a[i..] == a0[i..] && |tb| == sizeA && b[..sizeB] == tb[..sizeB]
      invariant Combined(a0, b0, a[..], ca, cb, i, s) && Combined(a0, b0, tb, da, db, i, t)
      invariant b[sizeB..] == old(b[sizeB..])
    {
      ghost var a1, tb1, s1, t1 := a[..], tb, s, t;
      var ad := a[i];
      assert ad == a[i..][0] == a0[i..][0];
      InDigits(a0, i);
      OutOfDigits(b0, i);
      a[i], s := CombineDigit(s, ca, cb, ad, 0);
      ghost var td;
      td, t := CombineDigit(t, da, db, ad, 0);
      tb := tb[i := td];
      CombineColumn(a0, b0, a1, a[..], ca, cb, i, s1, s);
      CombineColumn(a0, b0, tb1, tb, da, db, i, t1, t);
      i := i + 1;
      assert a[i..] == a1[i - 1..][1..];
    }
    CombineTotal(a0, b0, a[..], ca, cb, sizeA, s, va);
    CombineDone(a[..], sizeA, s, va, sizeA);
    CombineTotal(a0, b0, tb, da, db, sizeA, t, vb);
    CombineDone(tb, sizeA, t, vb, sizeB);
    SamePrefix(tb, b[..], sizeB);
  }

  lemma CombineTotals(a: seq<Digit>, b: seq<Digit>, b0: seq<Digit>, sizeA: nat, sizeB: nat)
    requires sizeB <= sizeA && sizeB <= |b| && b0 == b[..sizeB]
    ensures ValTo(b0, sizeA) == ValTo(b, sizeB)
  {
    ValToAll(b0, sizeA);
    ValToPrefix(b, sizeB);
  }

  // A combination that is a proper number leaves no carry and fits in its size.
  lemma CombineDone(x: seq<Digit>, n: nat, s: int, v: int, size: nat)
    requires size <= n <= |x| && 0 <= v < Pow(size) && ValTo(x, n) + s * Pow(n) == v
    ensures s == 0 && ValTo(x, size) == v
  {
    hide ValTo, Pow;
    ValToBound(x, n);
    PowMono(size, n);
    ZeroCarry(ValTo(x, n), s, Pow(n), v);
    FitsIn(x, n, size);
  }

  lemma CombineTotal(a: seq<Digit>, b: seq<Digit>, x: seq<Digit>, ca: int, cb: int, n: nat, s: int, v: int)
    requires Combined(a, b, x, ca, cb, n, s) && v == ca * ValTo(a, n) + cb * ValTo(b, n)
    ensures ValTo(x, n) + s * Pow(n) == v
  {}

  lemma FitsIn(x: seq<Digit>, n: nat, size: nat)
    requires size <= n <= |x| && ValTo(x, n) < Pow(size)
    ensures ValTo(x, size) == ValTo(x, n)
  {
    ValToPrefix(x, n);
    ValToPrefix(x, size);
    ValSmallHighZero(x[..n], size);
    assert x[..n][..size] == x[..size];
  }

  lemma ZeroCarry(x: int, s: int, p: int, v: int)
    requires 0 <= x < p && 0 <= v < p && x + s * p == v
    ensures s == 0
  {
    if s >= 1 {
      MulMono(1, s, p);
    } else if s <= -1 {
      MulMono(s, -1, p);
    }
  }

  lemma SamePrefix(x: seq<Digit>, y: seq<Digit>, n: nat)
    requires n <= |x| && n <= |y| && x[..n] == y[..n]
    ensures ValTo(x, n) == ValTo(y, n)
  {
    ValToPrefix(x, n);
    ValToPrefix(y, n);
  }

  // ----- the leading words

  lemma Log2OfDigit(d: Digit)
    requires d >= 1
    ensures Log2(d) <= 61
  {
    Pow2At62();
    if Log2(d) >= 62 {
      Pow2Mono(62, Log2(d));
    }
  }

  // (high << (62 - nbits)) | (low >> nbits)
  function Word(high: Digit, low: Digit, nbits: nat): int
    requires nbits <= 61
  {
    high * Pow2(62 - nbits) + low / Pow2(nbits)
  }

  lemma LeadingWord(s: seq<Digit>, n: nat, nbits: nat, m: int)
    requires n >= 2 && nbits <= 61 && m == Pow(n - 2) * Pow2(nbits)
    ensures Leads(Word(DigitAt(s, n - 1), DigitAt(s, n - 2), nbits), ValTo(s, n), m)
  {
    D.ShiftFactors(nbits);
    ValToBound(s, n - 2);
    hide ValTo, Pow, Pow2, DigitAt;
    TopTwo(s, n);
    LeadArith(ValTo(s, n - 2), DigitAt(s, n - 2), DigitAt(s, n - 1), Pow(n - 2), Pow2(nbits), Pow2(62 - nbits),
      Word(DigitAt(s, n - 1), DigitAt(s, n - 2), nbits));
  }

  lemma TopTwo(s: seq<Digit>, n: nat)
    requires n >= 2
    ensures ValTo(s, n) == ValTo(s, n - 2) + DigitAt(s, n - 2) * Pow(n - 2) + DigitAt(s, n - 1) * (R * Pow(n - 2))
  {
    assert ValTo(s, n) == ValTo(s, n - 1) + DigitAt(s, n - 1) * Pow(n - 1);
    assert Pow(n - 1) == R * Pow(n - 2);
  }

  lemma LeadArith(r: int, lo: int, hi: int, p: int, k: int, j: int, x: int)
    requires 0 <= r < p && 0 <= lo && k >= 1 && k * j == R && x == hi * j + lo / k
    ensures p * k * x <= r + lo * p + hi * (R * p) < p * k * x + p * k
  {
    var e, f := lo / k, lo % k;
    assert lo == k * e + f;
    assert r + lo * p + hi * (R * p) == p * k * x + (r + f * p) by {
      MulEq(lo, k * e + f, p);
      MulEq(k * j, R, hi * p);
      assert p * k * (hi * j + e) == k * j * (hi * p) + k * e * p;
    }
    MulMono(f, k - 1, p);
    MulMono(0, f, p);
  }

  lemma WordBounds(hi: Digit, lo: Digit, nbits: nat)
    requires nbits <= 61 && Pow2(nbits) <= hi < Pow2(nbits + 1)
    ensures 1 <= Word(hi, lo, nbits) <= MaxWord
  {
    D.ShiftFactors(nbits);
    assert Pow2(nbits + 1) == 2 * Pow2(nbits);
    hide Pow2;
    DivBound(lo, Pow2(nbits), Pow2(62 - nbits));
    WordArith(hi, lo / Pow2(nbits), Pow2(nbits), Pow2(62 - nbits));
  }

  lemma WordArith(hi: int, lo: int, k: int, j: int)
    requires k >= 1 && j >= 1 && k * j == R && k <= hi < 2 * k && 0 <= lo < j
    ensures R <= hi * j + lo < 2 * R
  {
    MulMono(k, hi, j);
    MulMono(hi, 2 * k - 1, j);
    assert (2 * k - 1) * j == 2 * (k * j) - j;
  }

  lemma SmallerLead(x: int, y: int, a: int, b: int, m: int)
    requires m >= 1 && Leads(x, a, m) && Leads(y, b, m) && 0 <= b <= a
    ensures 0 <= y <= x
  {
    if y > x {
      MulMono(x + 1, y, m);
    } else if y < 0 {
      MulMono(y, -1, m);
    }
  }

  // ----- numbers in oversized buffers

  // The buffer holds v in its first `size` digits, of which the top one is not zero.
  ghost predicate Holds(a: seq<Digit>, size: nat, v: int) {
    && size <= |a| && ValTo(a, size) == v
    && (size > 0 ==> a[size - 1] != 0)
    && forall i :: size <= i < |a| ==> a[i] == 0
  }

  lemma HeldValue(a: seq<Digit>, size: nat, v: int)
    requires Holds(a, size, v)
    ensures Val(a) == v && Val(a[..size]) == v && 0 <= v < Pow(size)
    ensures size > 0 ==> Pow(size - 1) <= v
    ensures size == 0 ==> v == 0
  {
    ZerosAbove(a, size);
    ValToPrefix(a, size);
    ValBound(a[..size]);
    if size > 0 {
      ValLower(a[..size]);
    }
  }

  // The larger number is not the shorter one (BIGNUM_ASSERT(size_a >= size_b)).
  lemma SizesOrdered(a: seq<Digit>, b: seq<Digit>, sizeA: nat, sizeB: nat, va: int, vb: int)
    requires Holds(a, sizeA, va) && Holds(b, sizeB, vb) && vb <= va
    ensures sizeB <= sizeA
  {
    HeldValue(a, sizeA, va);
    HeldValue(b, sizeB, vb);
    if sizeA < sizeB {
      PowMono(sizeA, sizeB - 1);
    }
  }

  // Dropping the zeros at the top of the first `size` digits
  method TrimSize(a: array<Digit>, size: nat) returns (n: nat)
    requires size <= a.Length && forall i :: size <= i < a.Length ==> a[i] == 0
    ensures Holds(a[..], n, ValTo(a[..], size))
  {
    n := size;
    while n > 0 && a[n - 1] == 0
      invariant 0 <= n <= size
      invariant ValTo(a[..], n) == ValTo(a[..], size)
      invariant forall i :: n <= i < a.Length ==> a[i] == 0
    {
      n := n - 1;
    }
  }

  // The words that the inner loop starts from
  method LeadingWords(a: array<Digit>, b: array<Digit>, sizeA: nat, sizeB: nat, ghost va: int, ghost vb: int)
    returns (x: TwoDigit, y: TwoDigit, ghost m: int)
    requires 2 <= sizeA && Holds(a[..], sizeA, va) && Holds(b[..], sizeB, vb) && vb <= va
    ensures 1 <= x <= MaxWord && 0 <= y <= MaxWord && m >= 1
    ensures Leads(x, va, m) && Leads(y, vb, m)
  {
    SizesOrdered(a[..], b[..], sizeA, sizeB, va, vb);
    hide Pow2, Pow, ValTo, Word, Leads;
    var top: Digit, next: Digit := a[sizeA - 1], a[sizeA - 2];
    var nbits := Log2(top);
    Log2OfDigit(top);
    WordBounds(top, next, nbits);
    x := Word(top, next, nbits);
    m := Pow(sizeA - 2) * Pow2(nbits);
    MulBound(1, 1, Pow(sizeA - 2), Pow2(nbits));
    LeadingWord(a[..], sizeA, nbits, m);
    var low: Digit := if sizeB >= sizeA - 1 then b[sizeA - 2] else 0;
    var high: Digit := if sizeB >= sizeA then b[sizeA - 1] else 0;
    assert low == DigitAt(b[..], sizeA - 2) && high == DigitAt(b[..], sizeA - 1);
    BeyondSize(b[..], sizeB, sizeA, vb);
    LeadingWord(b[..], sizeA, nbits, m);
    SmallerLead(x, Word(high, low, nbits), va, vb, m);
    y := Word(high, low, nbits);
  }

  lemma BeyondSize(b: seq<Digit>, size: nat, n: nat, v: int)
    requires Holds(b, size, v) && size <= n
    ensures ValTo(b, n) == v
  {
    HeldValue(b, size, v);
    if n <= |b| {
      ZerosAbove(b, n);
    } else {
      ValToAll(b, n);
    }
  }

  // ----- one round

  // Lehmer's step: k Euclid steps at once, or nothing when no quotient could be accepted
  method LehmerStep(a: array<Digit>, b: array<Digit>, sizeA: nat, sizeB: nat, ghost va: int, ghost vb: int)
    returns (k: nat, sizeA': nat, sizeB': nat)
    requires a != b && 2 <= sizeA && Holds(a[..], sizeA, va) && Holds(b[..], sizeB, vb) && 0 <= vb <= va
    modifies a, b
    ensures k == 0 ==> a[..] == old(a[..]) && b[..] == old(b[..]) && sizeA' == sizeA && sizeB' == sizeB
    ensures k > 0 ==> vb > 0
    ensures Holds(a[..], sizeA', Euclid(va, vb, k).0) && Holds(b[..], sizeB', Euclid(va, vb, k).1)
  {
    var x, y, m := LeadingWords(a, b, sizeA, sizeB, va, vb);
    var A, B, C, D;
    A, B, C, D, k := InnerSteps(x, y, va, vb, m);
    if k == 0 {
      return 0, sizeA, sizeB;
    }
    SizesOrdered(a[..], b[..], sizeA, sizeB, va, vb);
    HeldValue(a[..], sizeA, va);
    HeldValue(b[..], sizeB, vb);
    sizeA', sizeB' := ApplyCofactors(a, b, sizeA, sizeB, A, B, C, D, k % 2 == 1, va, vb,
                                     Euclid(va, vb, k).0, Euclid(va, vb, k).1);
  }

  // The cofactors applied to both buffers; the parity of the step count says which number each multiplies.
  method ApplyCofactors(a: array<Digit>, b: array<Digit>, sizeA: nat, sizeB: nat,
                        A: TwoDigit, B: TwoDigit, C: TwoDigit, D: TwoDigit, odd: bool,
                        ghost va: int, ghost vb: int, ghost u: int, ghost v: int)
    returns (sizeA': nat, sizeB': nat)
    requires a != b && sizeB <= sizeA && Holds(a[..], sizeA, va) && Holds(b[..], sizeB, vb)
    requires 0 <= A <= MaxWord && 0 <= B <= MaxWord && 0 <= C <= MaxWord && 0 <= D <= MaxWord
    requires if odd then Image(A, B, C, D, vb, va, u, v) else Image(A, B, C, D, va, vb, u, v)
    requires 0 <= u < Pow(sizeA) && 0 <= v < Pow(sizeB)
    modifies a, b
    ensures Holds(a[..], sizeA', u) && Holds(b[..], sizeB', v)
  {
    hide Pow, ValTo;
    ghost var a0, b0 := a[..], b[..];
    var s, t;
    if odd {
      s, t := Combine(a, b, sizeA, sizeB, -B, A, D, -C, u, v);
    } else {
      s, t := Combine(a, b, sizeA, sizeB, A, -B, -C, D, u, v);
    }
    hide Image;
    SuffixZeros(a0, a[..], sizeA);
    SuffixZeros(b0, b[..], sizeB);
    sizeA' := TrimSize(a, sizeA);
    sizeB' := TrimSize(b, sizeB);
  }

  lemma SuffixZeros(s: seq<Digit>, t: seq<Digit>, n: nat)
    requires n <= |s| == |t| && s[n..] == t[n..] && forall i :: n <= i < |s| ==> s[i] == 0
    ensures forall i :: n <= i < |t| ==> t[i] == 0
  {
    forall i | n <= i < |t| ensures t[i] == 0 {
      assert t[i] == t[n..][i - n] == s[n..][i - n] == s[i];
    }
  }

  // The fallback when the leading words settle no quotient: one division, a, b := b, a mod b
  method EuclideanStep(a: array<Digit>, b: array<Digit>, sizeA: nat, sizeB: nat, ghost va: int, ghost vb: int)
    returns (sizeA': nat, sizeB': nat)
    requires a != b && 0 < sizeB && Holds(a[..], sizeA, va) && Holds(b[..], sizeB, vb) && vb <= va
    modifies a, b
    ensures vb > 0 && Holds(a[..], sizeA', vb) && Holds(b[..], sizeB', va % vb)
  {
    SizesOrdered(a[..], b[..], sizeA, sizeB, va, vb);
    HeldValue(a[..], sizeA, va);
    HeldValue(b[..], sizeB, vb);
    var e := Trim(false, a);
    var f := Trim(false, b);
    var result := D.Remainder(e, f);
    var c := result.number;
    SignOfValue(c);
    ghost var q :| D.Divided(va, vb, q, Val(c.digits));
    QuotientUnique(va, vb, q);
    RemainderFits(c, vb, sizeB);
    Overwrite(b[..sizeB], a, sizeA);
    Overwrite(c.digits, b, sizeB);
    sizeA', sizeB' := sizeB, |c.digits|;
  }

  lemma RemainderFits(c: Number, vb: int, sizeB: nat)
    requires c.Valid() && Val(c.digits) < vb < Pow(sizeB)
    ensures |c.digits| <= sizeB
  {
    if |c.digits| > sizeB {
      ValLower(c.digits);
      PowMono(sizeB, |c.digits| - 1);
    }
  }

  // Copy a number over the first `size` digits of a buffer, padding with zeros
  method Overwrite(s: seq<Digit>, a: array<Digit>, size: nat)
    requires |s| <= size <= a.Length && (|s| > 0 ==> s[|s| - 1] != 0)
    requires forall i :: size <= i < a.Length ==> a[i] == 0
    modifies a
    ensures Holds(a[..], |s|, Val(s))
  {
    var i := 0;
    while i < |s|
      invariant 0 <= i <= |s| && a[..i] == s[..i]
      invariant forall j :: size <= j < a.Length ==> a[j] == 0
    {
      a[i] := s[i];
      i := i + 1;
    }
    while i < size
      invariant |s| <= i <= size && a[..|s|] == s
      invariant forall j :: |s| <= j < i ==> a[j] == 0
      invariant forall j :: size <= j < a.Length ==> a[j] == 0
    {
      a[i] := 0;
      i := i + 1;
    }
    ValToPrefix(a[..], |s|);
    assert a[..][..|s|] == s;
    assert |s| > 0 ==> a[|s| - 1] == a[..|s|][|s| - 1];
  }

  const WordSize: int := 0x1_0000_0000_0000_0000

  // The signed machine word congruent to v
  function SignedWord(v: int): (x: Fixnum)
    ensures -0x8000_0000_0000_0000 <= v < 0x8000_0000_0000_0000 ==> x == v
  {
    (v + 0x8000_0000_0000_0000) % WordSize - 0x8000_0000_0000_0000
  }

  // bignum_to_fixnum on a sign and digits: 64-bit arithmetic that wraps around
  method ToFixnum(negative: bool, a: array<Digit>) returns (x: Fixnum)
    ensures x == SignedWord(if negative then -Val(a[..]) else Val(a[..]))
  {
    hide Val, SignedWord;
    var accumulator := 0;
    var scan := a.Length;
    assert a[scan..] == [];
    ValZeros([]);
    while 0 < scan
      invariant 0 <= scan <= a.Length
      invariant accumulator == Val(a[scan..]) % WordSize
    {
      scan := scan - 1;
      ValSuffix(a[..], scan);
      assert a[..][scan..] == a[scan..] && a[..][scan + 1..] == a[scan + 1..];
      WrapStep(Val(a[scan + 1..]), a[scan]);
      accumulator := (accumulator * R + a[scan]) % WordSize;
    }
    assert a[0..] == a[..];
    SameWord(Val(a[..]));
    x := SignedWord(if negative then -accumulator else accumulator);
  }

  // Wrapping before or after the sign is taken makes no difference.
  lemma SameWord(v: int)
    ensures SignedWord(v % WordSize) == SignedWord(v) && SignedWord(-(v % WordSize)) == SignedWord(-v)
  {
    Congruent(v % WordSize, v / WordSize);
    Congruent(-(v % WordSize), -(v / WordSize));
  }

  lemma Congruent(v: int, k: int)
    ensures SignedWord(v + k * WordSize) == SignedWord(v)
  {}

  lemma WrapStep(x: int, d: int)
    ensures (x % WordSize * R + d) % WordSize == (d + R * x) % WordSize
  {}

  // fixnum_to_bignum
  method FromFixnum(n: Fixnum) returns (r: Number)
    ensures r.Valid() && r.Value() == n
  {
    hide Val;
    var negative, v: int := n < 0, n;
    var digits := WordDigits(if negative then -v else v);
    ZeroDigits(digits);
    r := Number(negative, digits);
  }

  lemma ZeroDigits(digits: seq<Digit>)
    ensures digits == [] ==> Val(digits) == 0
  {}

  // The digits of a magnitude, without leading zeros
  method WordDigits(m: nat) returns (digits: seq<Digit>)
    ensures Val(digits) == m && (digits != [] ==> digits[|digits| - 1] != 0)
  {
    hide Val, Pow;
    digits := [];
    var accumulator: nat := m;
    WordStart(m);
    while accumulator != 0
      invariant Val(digits) + accumulator * Pow(|digits|) == m
      invariant accumulator == 0 && digits != [] ==> digits[|digits| - 1] != 0
      decreases accumulator
    {
      WordStep(digits, accumulator);
      digits := digits + [accumulator % R];
      accumulator := accumulator / R;
    }
  }

  lemma WordStart(m: nat)
    ensures Val([]) + m * Pow(0) == m
  {}

  lemma WordStep(digits: seq<Digit>, n: nat)
    ensures Val(digits + [n % R]) + n / R * Pow(|digits| + 1) == Val(digits) + n * Pow(|digits|)
  {
    ValSnoc(digits, n % R);
    hide Val;
    FromStep(Val(digits), n, Pow(|digits|));
  }

  lemma FromStep(v: int, n: int, p: int)
    ensures v + n * p == v + n % R * p + n / R * (R * p)
  {
    MulEq(n, n % R + n / R * R, p);
  }

  // The closing Euclidean algorithm on machine words
  method WordGcd(x: Fixnum, y: Fixnum) returns (g: Fixnum)
    requires x >= y >= 0
    ensures g >= 0 && SameDivisors(x, y, g, 0)
  {
    var xx: Fixnum, yy: Fixnum := x, y;
    while yy != 0
      invariant xx >= yy >= 0
      invariant SameDivisors(x, y, xx, yy)
      decreases yy
    {
      EuclidStepDivisors(xx, yy);
      xx, yy := yy, xx % yy;
    }
    g := xx;
  }

  // bignum_gcd
  method GcdNumbers(a: Number, b: Number) returns (g: Number)
    requires a.Valid() && b.Valid()
    ensures g.Valid() && IsGcd(g.Value(), Abs(a.Value()), Abs(b.Value()))
  {
    SignOfValue(a);
    SignOfValue(b);
    var c := CloneDigits(a);
    var d := CloneDigits(b);
    var cmp := CompareUnsigned(a, b);
    if cmp == Less {
      g := GcdBuffers(d, c, Val(b.digits), Val(a.digits));
    } else {
      g := GcdBuffers(c, d, Val(a.digits), Val(b.digits));
    }
    GcdSymmetric(g.Value(), Val(a.digits), Val(b.digits));
  }

  lemma GcdSymmetric(g: int, a: int, b: int)
    ensures IsGcd(g, a, b) <==> IsGcd(g, b, a)
  {}

  // The working copy of a number's digits
  method CloneDigits(x: Number) returns (a: array<Digit>)
    requires x.Valid()
    ensures fresh(a) && Holds(a[..], a.Length, Val(x.digits)) && a.Length == |x.digits|
  {
    a := new Digit[|x.digits|];
    D.Copy(x.digits, a);
    assert a[..] == a[..|x.digits|] == x.digits;
    ValToAll(x.digits, |x.digits|);
  }

  // The main loop of bignum_gcd, on buffers that hold 0 <= vb <= va
  method GcdBuffers(a: array<Digit>, b: array<Digit>, ghost va0: int, ghost vb0: int) returns (g: Number)
    requires a != b && Holds(a[..], a.Length, va0) && Holds(b[..], b.Length, vb0) && 0 <= vb0 <= va0
    modifies a, b
    ensures g.Valid() && IsGcd(g.Value(), va0, vb0)
  {
    hide Holds, Euclid, Divides, Val, ValTo, Pow;
    var sizeA: nat, sizeB: nat := a.Length, b.Length;
    ghost var va, vb := va0, vb0;
    while sizeA > 1
      invariant Holds(a[..], sizeA, va) && Holds(b[..], sizeB, vb) && 0 <= vb <= va
      invariant SameDivisors(va0, vb0, va, vb)
      decreases vb, sizeA
    {
      var k;
      k, sizeA, sizeB := LehmerStep(a, b, sizeA, sizeB, va, vb);
      if k == 0 {
        EuclidZero(va, vb);
        HeldValue(a[..], sizeA, va);
        HeldValue(b[..], sizeB, vb);
        if sizeB == 0 {
          GcdAtEnd(va0, vb0, va);
          g := Trim(false, a);
          return;
        }
        sizeA, sizeB := EuclideanStep(a, b, sizeA, sizeB, va, vb);
        EuclidStepDivisors(va, vb);
        va, vb := vb, va % vb;
      } else {
        EuclidDivisors(va, vb, k);
        va, vb := Euclid(va, vb, k).0, Euclid(va, vb, k).1;
      }
    }
    SmallHeld(a[..], sizeA, va);
    HeldValue(a[..], sizeA, va);
    HeldValue(b[..], sizeB, vb);
    var xx := ToFixnum(false, a);
    var yy := ToFixnum(false, b);
    var gg := WordGcd(xx, yy);
    GcdAtEnd(va0, vb0, gg);
    g := FromFixnum(gg);
  }

  lemma SmallHeld(a: seq<Digit>, size: nat, v: int)
    requires Holds(a, size, v) && size <= 1
    ensures 0 <= v < R
  {
    HeldValue(a, size, v);
    PowMono(size, 1);
    assert Pow(1) == R;
  }
}
