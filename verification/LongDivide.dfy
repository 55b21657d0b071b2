/** Knuth's Algorithm D on normalized digit strings (bignum_divide_unsigned_normalized). */
module LongDivide {
  import opened Digits
  import opened Bignum
  import opened Multiply
  import DigitDivide

  // ----- subtracting guess times the divisor from a window of the dividend

  // Below column i, guess * v has been taken from w0, up to a borrow.
  ghost predicate Taken(w0: seq<Digit>, w: seq<Digit>, v: seq<Digit>, guess: int, i: nat, borrow: int) {
    && |w| == |w0| && i <= |w| && w[i..] == w0[i..]
    && ValTo(w, i) + guess * ValTo(v, i) == ValTo(w0, i) + borrow * Pow(i)
  }

  lemma TakeStart(w: seq<Digit>, v: seq<Digit>, guess: int)
    ensures Taken(w, w, v, guess, 0, 0)
  {}

  lemma TakeColumn(w0: seq<Digit>, w: seq<Digit>, x: seq<Digit>, v: seq<Digit>, guess: int, i: nat, borrow: int,
                   borrow': int)
    requires Taken(w0, w, v, guess, i, borrow)
    requires i < |w| && i < |v| && |x| == |w| && x == w[i := x[i]]
    requires x[i] + (guess * v[i] + borrow) == w[i] + borrow' * R
    ensures Taken(w0, x, v, guess, i + 1, borrow')
  {
    assert w[i] == w[i..][0] == w0[i..][0] == w0[i];
    assert x[i + 1..] == w[i..][1..] == w0[i..][1..] == w0[i + 1..];
    Store(w, x, i);
    TakeArith(ValTo(w, i), ValTo(w0, i), ValTo(v, i), guess, v[i], w0[i], x[i], borrow, borrow', Pow(i));
  }

  lemma TakeArith(w: int, w0: int, vs: int, guess: int, vd: int, wd: int, xd: int, borrow: int, borrow': int, p: int)
    requires w + guess * vs == w0 + borrow * p
    requires xd + (guess * vd + borrow) == wd + borrow' * R
    ensures w + xd * p + guess * (vs + vd * p) == w0 + wd * p + borrow' * (R * p)
  {
    MulEq(xd + (guess * vd + borrow), wd + borrow' * R, p);
    assert guess * (vs + vd * p) == guess * vs + guess * vd * p;
  }

  // The column loop of bignum_divide_subtract on the window of u from start on
  method TakeDigits(v: seq<Digit>, u: array<Digit>, start: nat, guess: Digit) returns (carry: Digit)
    requires start + |v| < u.Length
    modifies u
    ensures Taken(old(u[start..start + |v| + 1]), u[start..start + |v| + 1], v, guess, |v|, carry)
    ensures u[..start] == old(u[..start]) && u[start + |v| + 1..] == old(u[start + |v| + 1..])
  {
    hide Taken;
    var end := start + |v| + 1;
    ghost var w0 := u[start..end];
    var gl: Fixnum, gh: Fixnum := Low(guess), High(guess);
    var i := 0;
    carry := 0;
    TakeStart(w0, v, guess);
    while i < |v|
      invariant 0 <= i <= |v|
      invariant Taken(w0, u[start..end], v, guess, i, carry)
      invariant u[..start] == old(u[..start]) && u[end..] == old(u[end..])
    {
      ghost var w, c := u[start..end], carry;
      u[start + i], carry := TakeDigit(v[i], guess, gl, gh, u[start + i], carry);
      assert u[start..end] == w[i := u[start + i]];
      TakeColumn(w0, w, u[start..end], v, guess, i, c, carry);
      i := i + 1;
    }
  }

  // One column: the half-digit product, and the borrow it needs
  method TakeDigit(v: Digit, guess: Digit, gl: Fixnum, gh: Fixnum, u: Digit, carry: Digit)
    returns (d: Digit, carry': Digit)
    requires gl == Low(guess) && gh == High(guess)
    ensures d + (guess * v + carry) == u + carry' * R
  {
    var vl: Fixnum, vh: Fixnum := Low(v), High(v);
    HalfProduct(v, guess, 0, carry, vl * gl + Low(carry), vl * gh + vh * gl + High(vl * gl + Low(carry)) + High(carry));
    var pl: Fixnum := vl * gl + Low(carry);
    var ph: Fixnum := vl * gh + vh * gl + High(pl) + High(carry);
    var product: Digit := Cons(Low(ph), Low(pl));
    var high: Digit := vh * gh + High(ph);
    BorrowFits(v, guess, carry, product, high);
    var diff: Fixnum := u as int - product;
    if diff < 0 {
      d, carry' := diff + R, high + 1;
    } else {
      d, carry' := diff, high;
    }
  }

  lemma BorrowFits(v: Digit, guess: Digit, carry: Digit, product: int, high: int)
    requires product + R * high == v * guess + carry && 0 <= product && 0 <= high < R
    ensures high == R - 1 ==> product == 0
  {
    MulBound(v, guess, R - 1, R - 1);
  }

  // The add-back loop of bignum_divide_subtract
  ghost predicate AddedBack(w0: seq<Digit>, w: seq<Digit>, v: seq<Digit>, i: nat, carry: int) {
    && |w| == |w0| && i <= |w| && w[i..] == w0[i..]
    && ValTo(w, i) + carry * Pow(i) == ValTo(w0, i) + ValTo(v, i)
  }

  lemma AddBackStart(w: seq<Digit>, v: seq<Digit>)
    ensures AddedBack(w, w, v, 0, 0)
  {}

  lemma AddBackColumn(w0: seq<Digit>, w: seq<Digit>, x: seq<Digit>, v: seq<Digit>, i: nat, carry: int, carry': int)
    requires AddedBack(w0, w, v, i, carry)
    requires i < |w| && i < |v| && |x| == |w| && x == w[i := x[i]]
    requires x[i] + carry' * R == w[i] + v[i] + carry
    ensures AddedBack(w0, x, v, i + 1, carry')
  {
    assert w[i] == w[i..][0] == w0[i..][0] == w0[i];
    assert x[i + 1..] == w[i..][1..] == w0[i..][1..] == w0[i + 1..];
    Store(w, x, i);
    ColumnArith(ValTo(w0, i), ValTo(v, i), ValTo(w, i), Pow(i), w0[i], v[i], carry, x[i], carry');
  }

  method AddBack(v: seq<Digit>, u: array<Digit>, start: nat) returns (carry: Fixnum)
    requires start + |v| < u.Length
    modifies u
    ensures AddedBack(old(u[start..start + |v| + 1]), u[start..start + |v| + 1], v, |v|, carry)
    ensures 0 <= carry <= 1
    ensures u[..start] == old(u[..start]) && u[start + |v| + 1..] == old(u[start + |v| + 1..])
  {
    hide AddedBack;
    var end := start + |v| + 1;
    ghost var w0 := u[start..end];
    var i := 0;
    carry := 0;
    AddBackStart(w0, v);
    while i < |v|
      invariant 0 <= i <= |v| && 0 <= carry <= 1
      invariant AddedBack(w0, u[start..end], v, i, carry)
      invariant u[..start] == old(u[..start]) && u[end..] == old(u[end..])
    {
      ghost var w, c := u[start..end], carry;
      var sum: Fixnum := v[i] as int + u[start + i] + carry;
      if sum < R {
        u[start + i] := sum;
        carry := 0;
      } else {
        u[start + i] := sum - R;
        carry := 1;
      }
      assert u[start..end] == w[i := u[start + i]];
      AddBackColumn(w0, w, u[start..end], v, i, c, carry);
      i := i + 1;
    }
  }

  // Taking a guess that is exact or one too large borrows from the top digit as often as it holds,
  // or once more; the latter shows the guess to be one too large.
  lemma BorrowCases(low: int, top: int, borrow: int, p: int, v: int, gv: int, u: int)
    requires 0 <= low < p && 0 < v <= p
    requires u - gv == low + (top - borrow) * p
    requires gv - v <= u < gv + v
    ensures borrow <= top ==> borrow == top && u == gv + low
    ensures borrow > top ==> borrow == top + 1 && u == gv - v + (low + v - p)
  {
    var k := top - borrow;
    if k >= 1 {
      MulMono(1, k, p);
    } else if k <= -2 {
      MulMono(k, -2, p);
    } else if k == 0 {
      assert k * p == 0;
    } else {
      assert k * p == -p;
    }
  }

  // A window whose top digit is zero has the value of its other digits.
  lemma WindowValue(w: seq<Digit>, n: nat)
    requires |w| == n + 1
    ensures Val(w) == ValTo(w, n) + w[n] * Pow(n)
  {
    ValToAll(w, n + 1);
  }

  ghost function Quot(guess: int, gv: int, u: int): int { if gv <= u then guess else guess - 1 }
  ghost function Rest(v: int, gv: int, u: int): int { if gv <= u then u - gv else u - (gv - v) }

  // A digit sum reduced to one digit
  function Wrap(sum: int): Digit
    requires 0 <= sum < 2 * R
  {
    if sum < R then sum else sum - R
  }

  // bignum_divide_subtract: for a guess that is exact or one too large, leave the remainder in the
  // window and return the exact quotient digit.
  method DivideSubtract(v: seq<Digit>, u: array<Digit>, start: nat, guess: Digit, ghost gv: int) returns (q: Digit)
    requires start + |v| < u.Length && gv == guess * Val(v) && Val(v) > 0
    requires gv - Val(v) <= Val(u[start..start + |v| + 1]) < gv + Val(v)
    modifies u
    ensures q == Quot(guess, gv, old(Val(u[start..start + |v| + 1])))
    ensures Val(u[start..start + |v| + 1]) == Rest(Val(v), gv, old(Val(u[start..start + |v| + 1])))
    ensures u[..start] == old(u[..start]) && u[start + |v| + 1..] == old(u[start + |v| + 1..])
  {
    if guess == 0 {
      return 0;
    }
    hide Taken, AddedBack, Val, ValTo, Pow;
    var n, end := |v|, start + |v| + 1;
    ghost var w0 := u[start..end];
    var carry := TakeDigits(v, u, start, guess);
    ghost var w1 := u[start..end];
    TakenAll(w0, w1, v, guess, gv, carry);
    if carry == 0 {
      return guess;
    }
    var diff: Fixnum := u[start + n] as int - carry;
    if diff < 0 {
      u[start + n] := diff + R;
    } else {
      u[start + n] := diff;
      ghost var w2 := u[start..end];
      assert w2 == w1[n := w2[n]];
      TopReplaced(w1, w2, n);
      return guess;
    }
    ghost var w2 := u[start..end];
    assert w2 == w1[n := w2[n]];
    TopReplaced(w1, w2, n);
    Restore(v, u, start);
    q := guess - 1;
  }

  // The add-back half of bignum_divide_subtract: the carry out of it cancels the borrowed top digit.
  method Restore(v: seq<Digit>, u: array<Digit>, start: nat)
    requires start + |v| < u.Length && u[start + |v|] == R - 1
    requires 0 <= ValTo(u[start..start + |v| + 1], |v|) + Val(v) - Pow(|v|)
    modifies u
    ensures Val(u[start..start + |v| + 1]) == old(ValTo(u[start..start + |v| + 1], |v|)) + Val(v) - Pow(|v|)
    ensures u[..start] == old(u[..start]) && u[start + |v| + 1..] == old(u[start + |v| + 1..])
  {
    hide AddedBack, Val, ValTo, Pow;
    var n, end := |v|, start + |v| + 1;
    ghost var w0 := u[start..end];
    var carry := AddBack(v, u, start);
    ghost var w1 := u[start..end];
    AddedBackAll(w0, w1, v, carry);
    if carry == 1 {
      var sum: Fixnum := u[start + n] as int + carry;
      u[start + n] := Wrap(sum);
    }
    ghost var w2 := u[start..end];
    assert w2 == w1[n := w2[n]];
    TopReplaced(w1, w2, n);
  }

  // After all columns: either the guess was right and the rest is in the low digits, or it was one
  // too large and the low digits lack the divisor.
  lemma TakenAll(w0: seq<Digit>, w: seq<Digit>, v: seq<Digit>, guess: int, gv: int, carry: int)
    requires |w0| == |v| + 1 && Taken(w0, w, v, guess, |v|, carry) && gv == guess * Val(v) && Val(v) > 0
    requires gv - Val(v) <= Val(w0) < gv + Val(v)
    ensures |w| == |w0| && w[|v|] == w0[|v|]
    ensures carry <= w[|v|] ==> carry == w[|v|] && gv <= Val(w0) && ValTo(w, |v|) == Val(w0) - gv
    ensures carry > w[|v|] ==> carry - 1 == w[|v|] && Val(w0) < gv
    ensures carry > w[|v|] ==> ValTo(w, |v|) + Val(v) - Pow(|v|) == Val(w0) - (gv - Val(v))
    ensures carry == 0 ==> Val(w) == Val(w0) - gv
  {
    var n := |v|;
    assert w[n] == w[n..][0] == w0[n..][0] == w0[n];
    WindowValue(w0, n);
    WindowValue(w, n);
    ValToAll(v, n);
    ValToBound(w, n);
    ValBound(v);
    TakenArith(ValTo(w, n), ValTo(w0, n), w0[n], carry, Pow(n), Val(v), gv, Val(w0), Val(w));
  }

  lemma TakenArith(w: int, w0: int, top: int, carry: int, p: int, v: int, gv: int, u: int, all: int)
    requires w + gv == w0 + carry * p && u == w0 + top * p && all == w + top * p
    requires 0 <= w < p && 0 < v <= p && gv - v <= u < gv + v && 0 <= top
    ensures carry <= top ==> carry == top && gv <= u && w == u - gv
    ensures carry > top ==> carry - 1 == top && u < gv && w + v - p == u - (gv - v)
    ensures carry == 0 ==> all == u - gv
  {
    assert u - gv == w + (top - carry) * p;
    BorrowCases(w, top, carry, p, v, gv, u);
    if carry == 0 {
      MulEq(top, 0, p);
    }
  }

  lemma TopReplaced(w: seq<Digit>, x: seq<Digit>, n: nat)
    requires |w| == n + 1 && |x| == n + 1 && x == w[n := x[n]]
    ensures ValTo(x, n) == ValTo(w, n)
    ensures x[n] == 0 ==> Val(x) == ValTo(w, n)
  {
    ValToAgree(w, x, n);
    WindowValue(x, n);
    hide Val, ValTo, Pow;
    if x[n] == 0 {
      MulEq(x[n], 0, Pow(n));
    }
  }

  lemma AddedBackAll(w0: seq<Digit>, w: seq<Digit>, v: seq<Digit>, carry: int)
    requires |w0| == |v| + 1 && AddedBack(w0, w, v, |v|, carry) && 0 <= carry <= 1
    requires 0 <= ValTo(w0, |v|) + Val(v) - Pow(|v|)
    ensures |w| == |w0| && w[|v|] == w0[|v|]
    ensures carry == 1 && ValTo(w, |v|) == ValTo(w0, |v|) + Val(v) - Pow(|v|)
  {
    var n := |v|;
    assert w[n] == w[n..][0] == w0[n..][0] == w0[n];
    ValToAll(v, n);
    ValToBound(w, n);
    ValToBound(w0, n);
    ValBound(v);
    AddBackArith(ValTo(w, n), ValTo(w0, n), Val(v), Pow(n), carry);
  }

  lemma AddBackArith(w: int, w0: int, v: int, p: int, carry: int)
    requires w + carry * p == w0 + v && 0 <= w < p && p <= w0 + v && 0 <= carry <= 1
    ensures carry == 1 && w == w0 + v - p
  {}

  // ----- guessing a quotient digit

  ghost function Two(a: int, b: int): int { a * R + b }
  ghost function Three(a: int, b: int, c: int): int { (a * R + b) * R + c }

  // The guess is as large as it can be without its product with the two leading divisor digits
  // exceeding the three leading dividend digits, unless it is R - 1.
  ghost predicate GoodGuess(guess: int, n3: int, v2: int) {
    0 <= guess < R && guess * v2 <= n3 && (guess == R - 1 || n3 < guess * v2 + v2)
  }

  // product = guess * v2 on half digits
  method GuessProduct(guess: Digit, v2: Digit) returns (ph: Digit, pl: Digit)
    ensures ph * R + pl == guess * v2
  {
    var gl: Fixnum, gh: Fixnum := Low(guess), High(guess);
    var vl: Fixnum, vh: Fixnum := Low(v2), High(v2);
    HalfProduct(v2, guess, 0, 0, vl * gl, vl * gh + vh * gl + High(vl * gl));
    var low: Fixnum := vl * gl;
    var high: Fixnum := vl * gh + vh * gl + High(low);
    pl := Cons(Low(high), Low(low));
    ph := vh * gh + High(high);
  }

  // The guess loop of bignum_divide_unsigned_normalized
  method GuessDigit(uj: Digit, u1: Digit, u2: Digit, v1: Digit, v2: Digit) returns (guess: Digit)
    requires R / 2 <= v1 && uj <= v1
    ensures GoodGuess(guess, Three(uj, u1, u2), Two(v1, v2))
  {
    var ch: Fixnum;
    if uj != v1 {
      guess, ch := DigitDivide.Divide(uj, u1, v1);
      FirstGuess(uj, u1, u2, v1, v2, guess, ch);
    } else {
      ch := u1 as int + v1;
      guess := R - 1;
    }
    while true
      invariant 0 <= ch < 2 * R && ch == uj * R + u1 - guess * v1
      invariant guess < R - 1 ==> ch < R
      invariant guess == R - 1 || Three(uj, u1, u2) < guess * Two(v1, v2) + Two(v1, v2)
      decreases guess
    {
      var ph, pl := GuessProduct(guess, v2);
      if ch > ph || (ch == ph && u2 >= pl) {
        GuessSettles(uj, u1, u2, v1, v2, guess, ch);
        return;
      }
      GuessTooLarge(uj, u1, u2, v1, v2, guess, ch);
      guess := guess - 1;
      ch := ch + v1;
      if ch >= R {
        MulBound(guess, v2, R - 1, R - 1);
        GuessSettles(uj, u1, u2, v1, v2, guess, ch);
        return;
      }
    }
  }

  lemma FirstGuess(uj: int, u1: int, u2: int, v1: int, v2: int, guess: int, ch: int)
    requires uj * R + u1 == guess * v1 + ch && ch < v1 && 0 <= v2 && 0 <= guess && 0 <= u2 < R
    ensures Three(uj, u1, u2) < guess * Two(v1, v2) + Two(v1, v2)
  {
    assert guess * Two(v1, v2) == guess * v1 * R + guess * v2;
    MulMono(0, guess, v2);
  }

  lemma GuessTooLarge(uj: int, u1: int, u2: int, v1: int, v2: int, guess: int, ch: int)
    requires ch == uj * R + u1 - guess * v1 && ch * R + u2 < guess * v2
    requires 0 <= v2 && 0 <= guess && 0 <= ch && 0 <= u2
    ensures guess > 0
    ensures Three(uj, u1, u2) < (guess - 1) * Two(v1, v2) + Two(v1, v2)
    ensures ch + v1 == uj * R + u1 - (guess - 1) * v1
  {
    assert (guess - 1) * Two(v1, v2) + Two(v1, v2) == guess * v1 * R + guess * v2;
  }

  lemma GuessSettles(uj: int, u1: int, u2: int, v1: int, v2: int, guess: int, ch: int)
    requires ch == uj * R + u1 - guess * v1 && guess * v2 <= ch * R + u2 && 0 <= guess < R
    requires guess == R - 1 || Three(uj, u1, u2) < guess * Two(v1, v2) + Two(v1, v2)
    ensures GoodGuess(guess, Three(uj, u1, u2), Two(v1, v2))
  {
    assert guess * Two(v1, v2) == guess * v1 * R + guess * v2;
  }

  // Knuth's bound (theorem B of section 4.3.1): with a normalized divisor, a good guess is the
  // quotient digit or one more than it.
  lemma GoodGuessBound(guess: int, n3: int, v2: int, p: int, ur: int, vr: int, u: int, v: int)
    requires GoodGuess(guess, n3, v2)
    requires p >= 1 && 0 <= ur < p && 0 <= vr < p
    requires u == n3 * p + ur && v == v2 * p + vr && u < R * v && R * (R / 2) <= v2
    ensures guess * v - v <= u < guess * v + v
  {
    // not too small
    if guess < R - 1 {
      MulMono(n3 + 1, guess * v2 + v2, p);
      assert (guess * v2 + v2) * p == (guess + 1) * (v2 * p);
      MulMono(0, guess + 1, vr);
      assert (guess + 1) * (v2 * p) + (guess + 1) * vr == guess * v + v;
    }
    // not more than one too large
    MulMono(guess * v2, n3, p);
    assert guess * v == guess * v2 * p + guess * vr;
    MulBound(guess, vr, R, p);
    MulMono(R, v2, p);
  }

  lemma ValPair(a: Digit, b: Digit)
    ensures Val([a, b]) == Two(b, a)
  {
    assert [a, b][1..] == [b];
    ValSingle(b);
  }

  lemma ValTriple(a: Digit, b: Digit, c: Digit)
    ensures Val([a, b, c]) == Three(c, b, a)
  {
    assert [a, b, c][1..] == [b, c];
    ValPair(b, c);
  }

  // The leading digits of a window against all of it
  lemma Leading3(w: seq<Digit>, n: nat)
    requires n >= 2 && |w| == n + 1
    ensures Val(w) == Three(w[n], w[n - 1], w[n - 2]) * Pow(n - 2) + Val(w[..n - 2])
    ensures Val(w[..n - 2]) < Pow(n - 2)
  {
    hide Val, Pow, Three;
    ValSplit(w, n - 2);
    ValBound(w[..n - 2]);
    assert w[n - 2..] == [w[n - 2], w[n - 1], w[n]];
    ValTriple(w[n - 2], w[n - 1], w[n]);
  }

  lemma Leading2(v: seq<Digit>, n: nat)
    requires n >= 2 && |v| == n
    ensures Val(v) == Two(v[n - 1], v[n - 2]) * Pow(n - 2) + Val(v[..n - 2])
    ensures Val(v[..n - 2]) < Pow(n - 2)
  {
    hide Val, Pow, Two;
    ValSplit(v, n - 2);
    ValBound(v[..n - 2]);
    assert v[n - 2..] == [v[n - 2], v[n - 1]];
    ValPair(v[n - 2], v[n - 1]);
  }

  // A remainder below the divisor does not start with a larger digit.
  lemma TopNotLarger(w: seq<Digit>, v: seq<Digit>)
    requires |w| == |v| > 0 && Val(w) < Val(v)
    ensures w[|v| - 1] <= v[|v| - 1]
  {
    var n := |v| - 1;
    ValPrefix(w, n);
    ValPrefix(v, n);
    assert w[..n + 1] == w && v[..n + 1] == v;
    ValBound(v[..n]);
    if w[n] > v[n] {
      TopDecides(Val(v[..n]), Val(w[..n]), v[n], w[n], Pow(n));
    }
  }

  // A good guess for a window of the dividend is the quotient digit or one more.
  lemma GuessForWindow(w: seq<Digit>, v: seq<Digit>, n: nat, guess: int)
    requires n >= 2 && |v| == n && |w| == n + 1 && R / 2 <= v[n - 1]
    requires GoodGuess(guess, Three(w[n], w[n - 1], w[n - 2]), Two(v[n - 1], v[n - 2]))
    requires Val(w) < R * Val(v)
    ensures guess * Val(v) - Val(v) <= Val(w) < guess * Val(v) + Val(v)
    ensures Val(v) > 0
  {
    Leading3(w, n);
    Leading2(v, n);
    assert Two(v[n - 1], v[n - 2]) >= R * (R / 2);
    hide Val, Pow, Two, Three, GoodGuess;
    GoodGuessBound(guess, Three(w[n], w[n - 1], w[n - 2]), Two(v[n - 1], v[n - 2]), Pow(n - 2),
      Val(w[..n - 2]), Val(v[..n - 2]), Val(w), Val(v));
    MulMono(1, Two(v[n - 1], v[n - 2]), Pow(n - 2));
  }

  // With the digits of u from k on consumed: qs are the quotient digits found, what is left of the
  // dividend is in u[..k], and its leading part is a remainder.
  ghost predicate Dividing(u0: int, u: seq<Digit>, v: seq<Digit>, qs: seq<Digit>, k: nat) {
    && |v| <= k <= |u| && |qs| == |u| - k
    && u0 == Val(qs) * Val(v) * Pow(k - |v|) + Val(u)
    && Val(u[k - |v|..k]) < Val(v)
    && forall i :: k <= i < |u| ==> u[i] == 0
  }

  // The window that the next digit is taken from
  lemma NextWindow(u0: int, u: seq<Digit>, v: seq<Digit>, qs: seq<Digit>, k: nat, s: nat)
    requires Dividing(u0, u, v, qs, k) && s == k - 1 - |v|
    ensures Val(u[s..k]) < R * Val(v)
    ensures |v| > 0 ==> u[k - 1] <= v[|v| - 1]
  {
    assert u[s..k] == [u[s]] + u[s + 1..k];
    assert u[s..k][1..] == u[s + 1..k];
    if |v| > 0 {
      TopNotLarger(u[s + 1..k], v);
      assert u[s + 1..k][|v| - 1] == u[k - 1];
    }
  }

  // Cutting a dividend whose digits from k on are zero at s
  lemma CutWindow(u: seq<Digit>, s: nat, k: nat)
    requires s <= k <= |u| && forall i :: k <= i < |u| ==> u[i] == 0
    ensures Val(u) == Val(u[..s]) + Pow(s) * Val(u[s..k])
  {
    hide Val, Pow;
    ValSplit(u, s);
    assert u[s..] == u[s..k] + u[k..];
    ValConcat(u[s..k], u[k..]);
    ValZeros(u[k..]);
  }

  lemma StepArith(u0: int, q: int, qs: int, qs': int, v: int, p: int, pk: int, lo: int, w: int, r: int, u: int, x: int)
    requires u0 == qs * v * pk + u && pk == R * p && qs' == q + R * qs
    requires u == lo + p * w && x == lo + p * r && w == q * v + r
    ensures u0 == qs' * v * p + x
  {
    assert (q + R * qs) * v * p == q * v * p + qs * v * (R * p);
    assert p * (q * v + r) == q * v * p + p * r;
  }

  // A window that holds less than the divisor has a zero top digit.
  lemma WindowShrinks(x: seq<Digit>, v: seq<Digit>, s: nat, k: nat)
    requires s + |v| + 1 == k <= |x| && Val(x[s..k]) < Val(v)
    ensures x[k - 1] == 0 && Val(x[s..k - 1]) == Val(x[s..k])
  {
    ValBound(v);
    ValSmallHighZero(x[s..k], |v|);
    assert x[s..k][|v|] == x[k - 1];
    assert x[s..k][..|v|] == x[s..k - 1];
  }

  lemma DivideStep(u0: int, u: seq<Digit>, x: seq<Digit>, v: seq<Digit>, qs: seq<Digit>, q: Digit, k: nat, s: nat)
    requires Dividing(u0, u, v, qs, k) && s == k - 1 - |v|
    requires |x| == |u| && x[..s] == u[..s] && x[k..] == u[k..]
    requires 0 <= Val(x[s..k]) < Val(v) && Val(u[s..k]) == q * Val(v) + Val(x[s..k])
    ensures Dividing(u0, x, v, [q] + qs, k - 1)
  {
    WindowShrinks(x, v, s, k);
    forall i | k <= i < |x| ensures x[i] == 0 {
      assert x[i] == x[k..][i - k] == u[k..][i - k] == u[i];
    }
    CutWindow(u, s, k);
    CutWindow(x, s, k);
    assert ([q] + qs)[1..] == qs;
    assert Val([q] + qs) == q + R * Val(qs);
    assert Pow(k - |v|) == R * Pow(s);
    StepArith(u0, q, Val(qs), Val([q] + qs), Val(v), Pow(s), Pow(k - |v|), Val(u[..s]), Val(u[s..k]), Val(x[s..k]),
              Val(u), Val(x));
  }

  lemma QuotRest(guess: int, v: int, gv: int, u: int)
    requires gv == guess * v && gv - v <= u < gv + v
    ensures Rest(v, gv, u) == u - Quot(guess, gv, u) * v
    ensures 0 <= Rest(v, gv, u) < v
  {
    assert (guess - 1) * v == guess * v - v;
  }

  // One round of bignum_divide_unsigned_normalized: an exact quotient digit, its remainder in place
  method QuotientDigit(u: array<Digit>, v: seq<Digit>, scan: nat) returns (q: Digit)
    requires 2 <= |v| <= scan < u.Length && R / 2 <= v[|v| - 1]
    requires Val(u[scan - |v|..scan + 1]) < R * Val(v) && u[scan] <= v[|v| - 1]
    modifies u
    ensures 0 <= Val(u[scan - |v|..scan + 1]) < Val(v)
    ensures old(Val(u[scan - |v|..scan + 1])) == q * Val(v) + Val(u[scan - |v|..scan + 1])
    ensures u[..scan - |v|] == old(u[..scan - |v|]) && u[scan + 1..] == old(u[scan + 1..])
  {
    hide GoodGuess, Three, Two, Val;
    var n, start := |v|, scan - |v|;
    ghost var w := u[start..scan + 1];
    assert w[n] == u[scan] && w[n - 1] == u[scan - 1] && w[n - 2] == u[scan - 2];
    var guess := GuessDigit(u[scan], u[scan - 1], u[scan - 2], v[n - 1], v[n - 2]);
    GuessForWindow(w, v, n, guess);
    ghost var gv := guess * Val(v);
    QuotRest(guess, Val(v), gv, Val(w));
    hide Quot, Rest;
    q := DivideSubtract(v, u, start, guess, gv);
  }

  // bignum_divide_unsigned_normalized: the remainder is left in u, the quotient digits go to q
  // when the caller wants them (q is BIGNUM_OUT_OF_BAND otherwise).
  method DivideNormalized(u: array<Digit>, v: seq<Digit>, q: array?<Digit>) returns (ghost qs: seq<Digit>)
    requires 2 <= |v| < u.Length && R / 2 <= v[|v| - 1]
    requires u[u.Length - 1] < v[|v| - 1]
    requires q != null ==> q != u && q.Length == u.Length - |v|
    modifies u
    modifies if q == null then {} else {q}
    ensures |qs| == u.Length - |v| && (q != null ==> q[..] == qs)
    ensures old(Val(u[..])) == Val(qs) * Val(v) + Val(u[..])
    ensures Val(u[..]) < Val(v)
  {
    hide Dividing, Val;
    ghost var u0 := Val(u[..]);
    var scan := u.Length;
    qs := [];
    DivideStart(u[..], v);
    while |v| < scan
      invariant |v| <= scan <= u.Length
      invariant Dividing(u0, u[..], v, qs, scan)
      invariant |qs| == u.Length - scan
      invariant q != null ==> q[scan - |v|..] == qs
    {
      ghost var k, before := scan, u[..];
      scan := scan - 1;
      NextWindow(u0, before, v, qs, k, scan - |v|);
      assert before[scan - |v|..k] == u[scan - |v|..k];
      var qj := QuotientDigit(u, v, scan);
      assert u[..][scan - |v|..k] == u[scan - |v|..k];
      DivideStep(u0, before, u[..], v, qs, qj, k, scan - |v|);
      qs := [qj] + qs;
      if q != null {
        q[scan - |v|] := qj;
      }
    }
    DivideEnd(u0, u[..], v, qs);
  }

  lemma DivideStart(u: seq<Digit>, v: seq<Digit>)
    requires 2 <= |v| < |u| && u[|u| - 1] < v[|v| - 1]
    ensures Dividing(Val(u), u, v, [], |u|)
  {
    var w := u[|u| - |v|..|u|];
    var n := |v| - 1;
    ValPrefix(w, n);
    ValPrefix(v, n);
    assert w[..n + 1] == w && v[..n + 1] == v && w[n] == u[|u| - 1];
    ValBound(w[..n]);
    TopDecides(Val(w[..n]), Val(v[..n]), w[n], v[n], Pow(n));
  }

  lemma DivideEnd(u0: int, u: seq<Digit>, v: seq<Digit>, qs: seq<Digit>)
    requires Dividing(u0, u, v, qs, |v|)
    ensures u0 == Val(qs) * Val(v) + Val(u)
    ensures Val(u) < Val(v)
  {
    assert u0 == Val(qs) * Val(v) * Pow(0) + Val(u) && Pow(0) == 1;
    CutWindow(u, 0, |v|);
    assert u[..0] == [];
    assert Val(u[..0]) == 0 && u[0..|v|] == u[..|v|];
    hide Val, Pow, Dividing;
    MulEq(Pow(0), 1, Val(qs) * Val(v));
    MulEq(Pow(0), 1, Val(u[..|v|]));
  }
}
