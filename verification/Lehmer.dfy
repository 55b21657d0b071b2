/** The inner loop of the Lehmer GCD (Algorithm L of section 4.5.2 of Knuth's volume 2, in the
    one-sided form of vm/bignum.cpp): Euclid's algorithm on leading words, with cofactors. */
module Lehmer {
  import opened Digits

  // The pair reached from (a, b) after k steps of Euclid's algorithm
  ghost function Euclid(a: int, b: int, k: nat): (r: (int, int))
    requires a >= b >= 0
    ensures a >= r.0 >= r.1 >= 0 && r.1 <= b
    ensures k > 0 && b > 0 ==> r.1 < b
    decreases k
  {
    if k == 0 then (a, b)
    else
      var (u, v) := Euclid(a, b, k - 1);
      if v == 0 then (u, v) else (v, u % v)
  }

  // (u, v) is the image of (p, w) under the cofactor matrix
  ghost predicate Image(A: int, B: int, C: int, D: int, p: int, w: int, u: int, v: int) {
    u == A * p - B * w && v == D * w - C * p
  }

  lemma ImageStep(A: int, B: int, C: int, D: int, p: int, w: int, u: int, v: int, q: int)
    requires Image(A, B, C, D, p, w, u, v)
    ensures Image(D, C, B + q * D, A + q * C, w, p, v, u - q * v)
  {
    assert q * (D * w - C * p) == q * D * w - q * C * p;
    assert (A + q * C) * p == A * p + q * C * p;
    assert (B + q * D) * w == B * w + q * D * w;
  }

  lemma DeterminantStep(A: int, B: int, C: int, D: int, q: int)
    requires A * D - B * C == 1
    ensures D * (A + q * C) - C * (B + q * D) == 1
  {
    assert D * (A + q * C) == A * D + q * C * D;
    assert C * (B + q * D) == B * C + q * C * D;
  }

  // a holds x leading units of size m
  ghost predicate Leads(x: int, a: int, m: int) {
    m * x <= a < m * x + m
  }

  // Truncation moves the image by less than the positive cofactor upwards and the negative one downwards.
  lemma ImageBounds(A: int, B: int, p: int, w: int, x: int, y: int, m: int, u: int, z: int)
    requires A >= 0 && B >= 0 && m >= 1 && Leads(x, p, m) && Leads(y, w, m)
    requires u == A * p - B * w && z == A * x - B * y
    ensures m * z - B * (m - 1) <= u <= m * z + A * (m - 1)
  {
    var rp, rw := p - m * x, w - m * y;
    TruncationError(A, B, p, w, x, y, m, rp, rw, z);
    ErrorBounds(A, B, rp, rw, m - 1);
  }

  lemma ErrorBounds(A: int, B: int, rp: int, rw: int, n: int)
    requires A >= 0 && B >= 0 && 0 <= rp <= n && 0 <= rw <= n
    ensures -(B * n) <= A * rp - B * rw <= A * n
  {
    MulBound(A, rp, A, n);
    MulBound(B, rw, B, n);
  }

  lemma TruncationError(A: int, B: int, p: int, w: int, x: int, y: int, m: int, rp: int, rw: int, z: int)
    requires p == m * x + rp && w == m * y + rw && z == A * x - B * y
    ensures A * p - B * w == m * z + (A * rp - B * rw)
  {
    MulEq(p, m * x + rp, A);
    MulEq(w, m * y + rw, B);
    assert m * (A * x - B * y) == A * (m * x) - B * (m * y);
  }

  // A quotient accepted from the leading words is the quotient of the full numbers.
  lemma QuotientExact(x: int, y: int, A: int, B: int, C: int, D: int, m: int, u: int, v: int, q: int)
    requires m >= 1 && A >= 1 && B >= 0 && C >= 0 && D >= 0
    requires m * x - B * (m - 1) <= u <= m * x + A * (m - 1)
    requires m * y - C * (m - 1) <= v <= m * y + D * (m - 1)
    requires y - C > 0 && q >= 0 && q == (x + (A - 1)) / (y - C)
    requires B + q * D <= x - q * y
    ensures v > 0 && q * v <= u < q * v + v
  {
    NotTooLarge(x, y, B, D, m, u, v, q);
    RoundedUp(x + A, y - C, q);
    NotTooSmall(x, y, A, C, m, u, v, q);
  }

  lemma RoundedUp(n: int, e: int, q: int)
    requires e > 0 && q == (n - 1) / e
    ensures n <= q * e + e
  {
    assert n - 1 == e * q + (n - 1) % e;
  }

  lemma NotTooLarge(x: int, y: int, B: int, D: int, m: int, u: int, v: int, q: int)
    requires m >= 1 && B >= 0 && D >= 0 && q >= 0
    requires m * x - B * (m - 1) <= u && v <= m * y + D * (m - 1)
    requires B + q * D <= x - q * y
    ensures q * v <= u
  {
    MulMono(v, m * y + D * (m - 1), q);
    assert q * (m * y + D * (m - 1)) == m * (q * y) + q * D * (m - 1);
    MulMono(B + q * D, x - q * y, m - 1);
    assert (B + q * D) * (m - 1) == B * (m - 1) + q * D * (m - 1);
    assert (x - q * y) * (m - 1) == m * x - m * (q * y) - (x - q * y);
    MulMono(0, q, D);
  }

  lemma NotTooSmall(x: int, y: int, A: int, C: int, m: int, u: int, v: int, q: int)
    requires m >= 1 && A >= 1 && C >= 0 && q >= 0 && y > C
    requires u <= m * x + A * (m - 1) && m * y - C * (m - 1) <= v
    requires x + A <= q * (y - C) + (y - C)
    ensures v > 0 && u < q * v + v
  {
    var e := y - C;
    LowerProduct(y, C, m, e, q);
    MulMono(1, e, m);
    MulMono(m * e + C, v, q + 1);
    MulMono(0, q + 1, C);
    MulMono(x + A, q * e + e, m);
    UpperProduct(x, A, m, v, q);
  }

  lemma LowerProduct(y: int, C: int, m: int, e: int, q: int)
    requires e == y - C
    ensures m * y - C * (m - 1) == m * e + C
    ensures (m * e + C) * (q + 1) == (q * e + e) * m + (q + 1) * C
  {}

  lemma UpperProduct(x: int, A: int, m: int, v: int, q: int)
    ensures (x + A) * m == m * x + A * (m - 1) + A
    ensures v * (q + 1) == q * v + v
  {}

  const MaxWord: int := 0x7fff_ffff_ffff_ffff

  // The state of the inner loop after k steps: words (x, y) and full numbers (u, v) are images of
  // what the loop started from under one matrix of determinant 1, and (u, v) is k Euclid steps on.
  ghost predicate InnerLoop(x: int, y: int, A: int, B: int, C: int, D: int, k: nat,
                            x0: int, y0: int, a: int, b: int)
    requires a >= b >= 0
  {
    && A >= 1 && B >= 0 && C >= 0 && D >= 1 && x >= 1 && C <= y
    && A * D - B * C == 1
    && (if k % 2 == 0 then Image(A, B, C, D, x0, y0, x, y) else Image(A, B, C, D, y0, x0, x, y))
    && (if k % 2 == 0 then Image(A, B, C, D, a, b, Euclid(a, b, k).0, Euclid(a, b, k).1)
        else Image(A, B, C, D, b, a, Euclid(a, b, k).0, Euclid(a, b, k).1))
  }

  lemma InnerStart(x0: int, y0: int, a: int, b: int)
    requires a >= b >= 0 && x0 >= 1 && y0 >= 0
    ensures InnerLoop(x0, y0, 1, 0, 0, 1, 0, x0, y0, a, b)
  {}

  lemma TrueQuotient(x: int, y: int, A: int, B: int, C: int, D: int, k: nat, x0: int, y0: int, a: int, b: int, m: int,
                     q: int)
    requires a >= b >= 0 && InnerLoop(x, y, A, B, C, D, k, x0, y0, a, b)
    requires m >= 1 && Leads(x0, a, m) && Leads(y0, b, m)
    requires y - C > 0 && q == (x + (A - 1)) / (y - C) && q >= 0 && B + q * D <= x - q * y
    ensures Euclid(a, b, k).1 > 0 && q == Euclid(a, b, k).0 / Euclid(a, b, k).1
    ensures Euclid(a, b, k + 1) == (Euclid(a, b, k).1, Euclid(a, b, k).0 - q * Euclid(a, b, k).1)
  {
    var (u, v) := Euclid(a, b, k);
    if k % 2 == 0 {
      ImageBounds(A, B, a, b, x0, y0, m, u, x);
      ImageBounds(D, C, b, a, y0, x0, m, v, y);
    } else {
      ImageBounds(A, B, b, a, y0, x0, m, u, x);
      ImageBounds(D, C, a, b, x0, y0, m, v, y);
    }
    QuotientExact(x, y, A, B, C, D, m, u, v, q);
    QuotientUnique(u, v, q);
  }

  lemma QuotientUnique(u: int, v: int, q: int)
    requires v > 0 && q * v <= u < q * v + v
    ensures q == u / v && u % v == u - q * v
  {
    var e := u / v;
    assert u == e * v + u % v;
    if e > q {
      MulMono(q + 1, e, v);
    } else if e < q {
      MulMono(e + 1, q, v);
    }
  }

  lemma InnerStep(x: int, y: int, A: int, B: int, C: int, D: int, k: nat, x0: int, y0: int, a: int, b: int, m: int,
                  q: int)
    requires a >= b >= 0 && InnerLoop(x, y, A, B, C, D, k, x0, y0, a, b)
    requires m >= 1 && Leads(x0, a, m) && Leads(y0, b, m)
    requires y - C > 0 && q == (x + (A - 1)) / (y - C) && q >= 0 && B + q * D <= x - q * y
    ensures InnerLoop(y, x - q * y, D, C, B + q * D, A + q * C, k + 1, x0, y0, a, b)
    ensures 0 < Euclid(a, b, k).1 && Euclid(a, b, k + 1).1 < Euclid(a, b, k).1
  {
    var (u, v) := Euclid(a, b, k);
    TrueQuotient(x, y, A, B, C, D, k, x0, y0, a, b, m, q);
    hide Euclid;
    DeterminantStep(A, B, C, D, q);
    if k % 2 == 0 {
      ImageStep(A, B, C, D, x0, y0, x, y, q);
      ImageStep(A, B, C, D, a, b, u, v, q);
    } else {
      ImageStep(A, B, C, D, y0, x0, x, y, q);
      ImageStep(A, B, C, D, b, a, u, v, q);
    }
    MulMono(0, q, D);
    MulMono(0, q, C);
  }

  // The matrix is inverted by its adjugate, so no entry outgrows the words it came from.
  lemma CofactorBounds(x: int, y: int, A: int, B: int, C: int, D: int, p: int, w: int, bound: int)
    requires A >= 1 && B >= 0 && C >= 0 && D >= 1 && x >= 1 && 0 <= C <= y && A * D - B * C == 1
    requires Image(A, B, C, D, p, w, x, y) && p <= bound && w <= bound
    ensures D <= bound && C <= bound && x <= bound && y <= bound
  {
    assert p == D * x + B * y by {
      Adjugate(A, B, C, D, p, w);
    }
    assert w == C * x + A * y by {
      Adjugate(A, B, C, D, p, w);
    }
    MulMono(1, x, D);
    MulMono(1, D, x);
    MulMono(0, B, y);
    MulMono(0, C, x);
    MulMono(1, A, y);
  }

  lemma Adjugate(A: int, B: int, C: int, D: int, p: int, w: int)
    requires A * D - B * C == 1
    ensures D * (A * p - B * w) + B * (D * w - C * p) == p
    ensures C * (A * p - B * w) + A * (D * w - C * p) == w
  {
    MulEq(A * D - B * C, 1, p);
    MulEq(A * D - B * C, 1, w);
  }

  // The inner loop of bignum_gcd on the leading words x0 and y0 of a and b: after k accepted
  // quotients the cofactors take (a, b) to the pair k Euclid steps on.
  method InnerSteps(x0: TwoDigit, y0: TwoDigit, ghost a: int, ghost b: int, ghost m: int)
    returns (A: TwoDigit, B: TwoDigit, C: TwoDigit, D: TwoDigit, k: nat)
    requires 1 <= x0 <= MaxWord && 0 <= y0 <= MaxWord
    requires a >= b >= 0 && m >= 1 && Leads(x0, a, m) && Leads(y0, b, m)
    ensures 0 <= A <= MaxWord && 0 <= B <= MaxWord && 0 <= C <= MaxWord && 0 <= D <= MaxWord
    ensures k % 2 == 0 ==> Image(A, B, C, D, a, b, Euclid(a, b, k).0, Euclid(a, b, k).1)
    ensures k % 2 == 1 ==> Image(A, B, C, D, b, a, Euclid(a, b, k).0, Euclid(a, b, k).1)
    ensures A * D - B * C == 1
    ensures k > 0 ==> b > 0
  {
    hide InnerLoop, Image, Euclid, Leads;
    var x: TwoDigit, y: TwoDigit := x0, y0;
    A, B, C, D := 1, 0, 0, 1;
    k := 0;
    InnerStart(x0, y0, a, b);
    EuclidZero(a, b);
    while true
      invariant 1 <= x <= MaxWord && 0 <= C <= y <= MaxWord
      invariant 1 <= A <= MaxWord && 0 <= B <= MaxWord && 1 <= D <= MaxWord
      invariant InnerLoop(x, y, A, B, C, D, k, x0, y0, a, b)
      invariant k > 0 ==> b > 0
      decreases Euclid(a, b, k).1
    {
      if y - C == 0 {
        break;
      }
      var q, s, t, d := Propose(x, y, A, B, C, D);
      if s > t {
        break;
      }
      InnerStep(x, y, A, B, C, D, k, x0, y0, a, b, m, q);
      x := y;
      y := t;
      A, B, C, D := D, C, s, d;
      k := k + 1;
      StepBounds(x, y, A, B, C, D, k, x0, y0, a, b);
      EuclidPositive(a, b, k - 1);
    }
    InnerDone(x, y, A, B, C, D, k, x0, y0, a, b);
  }

  // The candidate quotient and what it makes of the words and cofactors, all within two digits
  method Propose(x: TwoDigit, y: TwoDigit, A: TwoDigit, B: TwoDigit, C: TwoDigit, D: TwoDigit)
    returns (q: TwoDigit, s: TwoDigit, t: TwoDigit, d: TwoDigit)
    requires 0 <= x <= MaxWord && 0 <= C < y <= MaxWord
    requires 1 <= A <= MaxWord && 0 <= B <= MaxWord && 0 <= D <= MaxWord
    ensures q >= 0 && q == (x + (A - 1)) / (y - C)
    ensures s == B + q * D && t == x - q * y && d == A + q * C
  {
    QuotientBound(x + (A - 1), y - C, 2 * MaxWord);
    q := (x + (A - 1)) / (y - C);
    MulBound(q, D, 2 * MaxWord, MaxWord);
    MulBound(q, y, 2 * MaxWord, MaxWord);
    MulBound(q, C, 2 * MaxWord, MaxWord);
    s := B + q * D;
    t := x - q * y;
    d := A + q * C;
  }

  lemma QuotientBound(n: int, e: int, bound: int)
    requires 0 <= n <= bound && e >= 1
    ensures 0 <= n / e <= bound
  {
    var q := n / e;
    assert n == e * q + n % e;
    if q < 0 {
      MulMono(q, -1, e);
    } else {
      MulMono(1, e, q);
    }
  }

  lemma StepBounds(x: int, y: int, A: int, B: int, C: int, D: int, k: nat, x0: int, y0: int, a: int, b: int)
    requires a >= b >= 0 && InnerLoop(x, y, A, B, C, D, k, x0, y0, a, b)
    requires x0 <= MaxWord && y0 <= MaxWord
    ensures 1 <= x <= MaxWord && 0 <= C <= y <= MaxWord && 1 <= D <= MaxWord
  {
    if k % 2 == 0 {
      CofactorBounds(x, y, A, B, C, D, x0, y0, MaxWord);
    } else {
      CofactorBounds(x, y, A, B, C, D, y0, x0, MaxWord);
    }
  }

  lemma EuclidZero(a: int, b: int)
    requires a >= b >= 0
    ensures Euclid(a, b, 0) == (a, b)
  {}

  // Euclid's algorithm has not ended only if it had something to divide by at the start.
  lemma EuclidPositive(a: int, b: int, k: nat)
    requires a >= b >= 0 && Euclid(a, b, k).1 > 0
    ensures b > 0
  {
    if b == 0 {
      EuclidStuck(a, k);
    }
  }

  lemma {:induction false} EuclidStuck(a: int, k: nat)
    requires a >= 0
    ensures Euclid(a, 0, k) == (a, 0)
  {
    if k > 0 {
      EuclidStuck(a, k - 1);
    }
  }

  lemma InnerDone(x: int, y: int, A: int, B: int, C: int, D: int, k: nat, x0: int, y0: int, a: int, b: int)
    requires a >= b >= 0 && InnerLoop(x, y, A, B, C, D, k, x0, y0, a, b)
    ensures k % 2 == 0 ==> Image(A, B, C, D, a, b, Euclid(a, b, k).0, Euclid(a, b, k).1)
    ensures k % 2 == 1 ==> Image(A, B, C, D, b, a, Euclid(a, b, k).0, Euclid(a, b, k).1)
    ensures A * D - B * C == 1
  {}
}
