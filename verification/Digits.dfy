/** Positional notation of the bignum kernel, as laid out in vm/bignumint.hpp for 64-bit builds.
    A digit is a 62-bit cell; it splits into two 31-bit half digits so that every product of half
    digits fits into a machine word.  The subset types below make each assignment in the kernel
    carry the obligation that the machine word does not overflow. */
module Digits {

  // BIGNUM_RADIX_ROOT and BIGNUM_RADIX
  const H: int := 0x8000_0000
  const R: int := 0x4000_0000_0000_0000

  // bignum_digit_type values that may be stored in a number
  type Digit = d: int | 0 <= d < R

  // bignum_digit_type as a machine word (fixnum) and bignum_twodigit_type (__int128_t)
  type Fixnum = x: int | -0x8000_0000_0000_0000 <= x < 0x8000_0000_0000_0000
  type TwoDigit = x: int |
    -0x8000_0000_0000_0000_0000_0000_0000_0000 <= x < 0x8000_0000_0000_0000_0000_0000_0000_0000

  // HD_LOW, HD_HIGH and HD_CONS; the low argument of HD_CONS is a half digit
  function Low(d: int): int { d % H }
  function High(d: int): int { d / H }
  function Cons(high: int, low: int): int
    requires 0 <= low < H
  {
    high * H + low
  }

  // R to the n
  function Pow(n: nat): (p: int)
    ensures p >= 1
  {
    if n == 0 then 1 else R * Pow(n - 1)
  }

  // The number denoted by a digit string, least significant digit first.
  function Val(s: seq<Digit>): (v: int)
    ensures v >= 0
  {
    if |s| == 0 then 0 else s[0] + R * Val(s[1..])
  }

  lemma MulEq(a: int, b: int, p: int)
    requires a == b
    ensures a * p == b * p
  {}

  lemma MulMono(a: int, b: int, p: int)
    requires a <= b && 0 <= p
    ensures a * p <= b * p
  {}

  lemma MulMonoStrict(a: int, b: int, p: int)
    requires a < b && 0 < p
    ensures a * p < b * p
  {}

  lemma LessFromProducts(a: int, b: int, p: int)
    requires a * p < b * p && 0 <= p
    ensures a < b
  {
    if b <= a {
      MulMono(b, a, p);
    }
  }

  // A quotient is below b when the dividend is below b divisors.
  lemma DivBound(n: int, k: int, b: int)
    requires k >= 1 && 0 <= n < k * b
    ensures 0 <= n / k < b && n == n / k * k + n % k
  {
    var q := n / k;
    assert n == k * q + n % k;
    LessFromProducts(q, b, k);
    LessFromProducts(0, q + 1, k);
  }

  lemma MulBound(a: int, b: int, m: int, n: int)
    requires 0 <= a <= m && 0 <= b <= n
    ensures 0 <= a * b <= m * n
  {
    MulMono(a, m, b);
    assert a * b <= m * b;
    MulMono(b, n, m);
    assert b * m <= n * m;
  }

  lemma {:induction false} PowAdd(m: nat, n: nat)
    ensures Pow(m + n) == Pow(m) * Pow(n)
  {
    if m > 0 {
      PowAdd(m - 1, n);
      assert Pow(m + n) == R * Pow(m - 1 + n);
    }
  }

  lemma {:induction false} ValConcat(s: seq<Digit>, t: seq<Digit>)
    ensures Val(s + t) == Val(s) + Pow(|s|) * Val(t)
  {
    if |s| == 0 {
      assert s + t == t;
    } else {
      assert (s + t)[1..] == s[1..] + t;
      ValConcat(s[1..], t);
      assert R * (Pow(|s| - 1) * Val(t)) == Pow(|s|) * Val(t);
    }
  }

  lemma ValSplit(s: seq<Digit>, i: nat)
    requires i <= |s|
    ensures Val(s) == Val(s[..i]) + Pow(i) * Val(s[i..])
  {
    assert s == s[..i] + s[i..];
    ValConcat(s[..i], s[i..]);
  }

  lemma ValSingle(d: Digit)
    ensures Val([d]) == d
  {
    assert [d][1..] == [];
  }

  lemma ValSnoc(s: seq<Digit>, d: Digit)
    ensures Val(s + [d]) == Val(s) + d * Pow(|s|)
  {
    ValConcat(s, [d]);
    ValSingle(d);
  }

  // The prefix that ends with digit i
  lemma ValPrefix(s: seq<Digit>, i: nat)
    requires i < |s|
    ensures Val(s[..i + 1]) == Val(s[..i]) + s[i] * Pow(i)
  {
    assert s[..i + 1] == s[..i] + [s[i]];
    ValSnoc(s[..i], s[i]);
  }

  // The suffix that starts with digit i
  lemma ValSuffix(s: seq<Digit>, i: nat)
    requires i < |s|
    ensures Val(s[i..]) == s[i] + R * Val(s[i + 1..])
  {
    assert s[i..][1..] == s[i + 1..];
  }

  lemma {:induction false} ValBound(s: seq<Digit>)
    ensures Val(s) < Pow(|s|)
  {
    if |s| > 0 {
      ValBound(s[1..]);
    }
  }

  lemma {:induction false} ValZeros(s: seq<Digit>)
    requires forall k :: 0 <= k < |s| ==> s[k] == 0
    ensures Val(s) == 0
  {
    if |s| > 0 {
      ValZeros(s[1..]);
    }
  }

  // A number that is not longer than its digits need to be reaches the weight of its top digit.
  lemma ValLower(s: seq<Digit>)
    requires |s| > 0 && s[|s| - 1] != 0
    ensures Pow(|s| - 1) <= Val(s)
  {
    var n := |s| - 1;
    ValPrefix(s, n);
    assert s[..n + 1] == s;
    MulMono(1, s[n], Pow(n));
  }

  lemma PowMono(m: nat, n: nat)
    requires m <= n
    ensures Pow(m) <= Pow(n)
  {
    PowAdd(m, n - m);
    MulMono(1, Pow(n - m), Pow(m));
  }

  lemma BelowOne(p: int, k: int)
    requires p > 0 && k >= 0 && p * k < p
    ensures k == 0
  {
    if k > 0 {
      MulMono(1, k, p);
    }
  }

  // A total that fits leaves no carry.
  lemma NoCarry(v: int, carry: int, p: int, total: int)
    requires v >= 0 && carry >= 0 && p > 0 && v + carry * p == total && total < p
    ensures carry == 0
  {
    if carry > 0 {
      MulMono(1, carry, p);
    }
  }

  // The leading digit outweighs everything below it.
  lemma TopDecides(lo: int, hi: int, d: int, e: int, p: int)
    requires 0 <= lo < p && 0 <= hi && d < e
    ensures lo + d * p < hi + e * p
  {
    MulMono(d + 1, e, p);
  }

  // A digit string whose value is below Pow(n) has only zeros from position n on.
  lemma {:induction false} ValSmallHighZero(s: seq<Digit>, n: nat)
    requires n <= |s| && Val(s) < Pow(n)
    ensures forall k :: n <= k < |s| ==> s[k] == 0
    ensures Val(s[..n]) == Val(s)
  {
    ValSplit(s, n);
    BelowOne(Pow(n), Val(s[n..]));
    forall k | n <= k < |s| ensures s[k] == 0 {
      ZeroValZeroDigit(s[n..], k - n);
      assert s[n..][k - n] == s[k];
    }
  }

  lemma {:induction false} ZeroValZeroDigit(s: seq<Digit>, k: nat)
    requires Val(s) == 0 && k < |s|
    ensures s[k] == 0
  {
    if k > 0 {
      ZeroValZeroDigit(s[1..], k - 1);
    }
  }

  lemma {:induction false} ValInjective(s: seq<Digit>, t: seq<Digit>)
    requires |s| == |t| && Val(s) == Val(t)
    ensures s == t
  {
    if |s| > 0 {
      assert s[0] + R * Val(s[1..]) == t[0] + R * Val(t[1..]);
      ValInjective(s[1..], t[1..]);
      assert s == [s[0]] + s[1..];
      assert t == [t[0]] + t[1..];
    }
  }

  // Strings that end in a non-zero digit are determined by their value.
  lemma TrimmedUnique(s: seq<Digit>, t: seq<Digit>)
    requires |s| > 0 ==> s[|s| - 1] != 0
    requires |t| > 0 ==> t[|t| - 1] != 0
    requires Val(s) == Val(t)
    ensures s == t
  {
    if |s| < |t| {
      ShorterIsSmaller(s, t);
      assert false;
    } else if |t| < |s| {
      ShorterIsSmaller(t, s);
      assert false;
    }
    ValInjective(s, t);
  }

  lemma ShorterIsSmaller(s: seq<Digit>, t: seq<Digit>)
    requires |s| < |t| && t[|t| - 1] != 0
    ensures Val(s) < Val(t)
  {
    ValBound(s);
    PowMono(|s|, |t| - 1);
    ValLower(t);
  }

  // The digit at position i, where a string is followed by endless zeros
  function DigitAt(s: seq<Digit>, i: nat): Digit {
    if i < |s| then s[i] else 0
  }

  // The value of the i least significant digits
  function ValTo(s: seq<Digit>, i: nat): (v: int)
    ensures v >= 0
  {
    if i == 0 then 0 else ValTo(s, i - 1) + DigitAt(s, i - 1) * Pow(i - 1)
  }

  lemma {:induction false} ValToPrefix(s: seq<Digit>, i: nat)
    requires i <= |s|
    ensures ValTo(s, i) == Val(s[..i])
  {
    if i > 0 {
      ValToPrefix(s, i - 1);
      ValPrefix(s, i - 1);
    }
  }

  lemma {:induction false} ValToAll(s: seq<Digit>, i: nat)
    requires |s| <= i
    ensures ValTo(s, i) == Val(s)
  {
    if i == |s| {
      ValToPrefix(s, i);
      assert s[..i] == s;
    } else {
      ValToAll(s, i - 1);
    }
  }

  lemma {:induction false} ValToAgree(s: seq<Digit>, t: seq<Digit>, i: nat)
    requires forall k :: 0 <= k < i ==> DigitAt(s, k) == DigitAt(t, k)
    ensures ValTo(s, i) == ValTo(t, i)
  {
    if i > 0 {
      ValToAgree(s, t, i - 1);
    }
  }

  lemma {:induction false} ValToBound(s: seq<Digit>, i: nat)
    ensures ValTo(s, i) < Pow(i)
  {
    if i > 0 {
      ValToBound(s, i - 1);
      TopDecides(ValTo(s, i - 1), 0, DigitAt(s, i - 1), R, Pow(i - 1));
    }
  }

  // Storing the next digit extends the value written so far.
  lemma Store(s: seq<Digit>, t: seq<Digit>, i: nat)
    requires i < |s| && |t| == |s| && t == s[i := t[i]]
    ensures ValTo(t, i + 1) == ValTo(s, i) + t[i] * Pow(i)
  {
    ValToAgree(s, t, i);
  }
}
