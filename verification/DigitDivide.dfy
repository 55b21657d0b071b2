/** Division of two digits by one digit, carried out on half digits (bignum_digit_divide). */
module DigitDivide {
  import opened Digits

  // Three half digits and two half digits as numbers
  ghost function Three(a: int, b: int, c: int): int { (a * H + b) * H + c }
  ghost function Two(a: int, b: int): int { a * H + b }

  // bignum_digit_divide_subtract on the window of u that starts at j, for any guess that is exact
  // or one too large.  The cell u[j] is dead afterwards.  v is the divisor, gv the product.
  method Subtract(v1: Fixnum, v2: Fixnum, guess: Fixnum, u: array<Fixnum>, j: nat, ghost v: int, ghost gv: int)
    returns (q: Fixnum)
    requires 0 <= v1 < H && 0 <= v2 < H && 0 <= guess < H
    requires v == Two(v1, v2) && gv == Two(guess * v1, guess * v2)
    requires j + 2 < u.Length && (forall k :: j <= k <= j + 2 ==> 0 <= u[k] < H)
    requires gv - v <= Three(u[j], u[j + 1], u[j + 2]) < gv + v
    modifies u
    ensures q == if gv <= old(Three(u[j], u[j + 1], u[j + 2])) then guess else guess - 1
    ensures old(Three(u[j], u[j + 1], u[j + 2])) == (if q == guess then gv else gv - v) + Two(u[j + 1], u[j + 2])
    ensures 0 <= u[j + 1] < H && 0 <= u[j + 2] < H
    ensures forall k :: 0 <= k < u.Length && !(j <= k <= j + 2) ==> u[k] == old(u[k])
  {
    MulBound(guess, v2, H - 1, H - 1);
    MulBound(guess, v1, H - 1, H - 1);
    ghost var u0, low := u[j], Two(u[j + 1], u[j + 2]);
    var carry;
    u[j + 2], carry := MulSub(v2, u[j + 2], 0, guess);
    u[j + 1], carry := MulSub(v1, u[j + 1], carry, guess);
    BorrowCases(u0, low, v, gv, Two(u[j + 1], u[j + 2]), carry);
    hide Two, Three;
    if carry == 0 {
      return guess;
    }
    var diff: Fixnum := u[j] - carry;
    if diff < 0 {
      u[j] := diff + R;
    } else {
      u[j] := diff;
      return guess;
    }
    AddDivisor(v1, v2, u, j);
    q := guess - 1;
  }

  // Subtracting the product borrows from the top half digit as often as it holds, or once more;
  // the latter shows the guess to be one too large.
  lemma BorrowCases(u0: int, low: int, v: int, gv: int, low': int, carry: int)
    requires 0 <= u0 && 0 <= low < R && 0 <= low' < R && 0 <= v < R
    requires low' == low - gv + R * carry
    requires gv - v <= u0 * R + low < gv + v
    ensures carry <= u0 ==> carry == u0 && u0 * R + low == gv + low'
    ensures carry > u0 ==> u0 * R + low == gv - v + (low' + v - R) && R <= low' + v
  {}

  // The add-back of bignum_digit_divide_subtract
  method AddDivisor(v1: Fixnum, v2: Fixnum, u: array<Fixnum>, j: nat)
    requires 0 <= v1 < H && 0 <= v2 < H && j + 2 < u.Length
    requires 0 <= u[j] < R && 0 <= u[j + 1] < H && 0 <= u[j + 2] < H
    requires Two(v1, v2) + Two(u[j + 1], u[j + 2]) >= R
    modifies u
    ensures Two(u[j + 1], u[j + 2]) == Two(v1, v2) + old(Two(u[j + 1], u[j + 2])) - R
    ensures 0 <= u[j + 1] < H && 0 <= u[j + 2] < H
    ensures forall k :: 0 <= k < u.Length && !(j <= k <= j + 2) ==> u[k] == old(u[k])
  {
    var carry;
    u[j + 2], carry := AddBack(v2, u[j + 2], 0);
    u[j + 1], carry := AddBack(v1, u[j + 1], carry);
    if carry == 1 {
      u[j] := u[j] + 1;
    }
  }

  // BDDS_MULSUB: subtract one half digit of the product, borrowing
  method MulSub(vn: Fixnum, un: Fixnum, carryIn: Fixnum, guess: Fixnum) returns (r: Fixnum, carry: Fixnum)
    requires 0 <= un < H && 0 <= carryIn <= H && 0 <= vn * guess <= (H - 1) * (H - 1)
    ensures 0 <= r < H && 0 <= carry <= H
    ensures r == un - guess * vn - carryIn + H * carry
  {
    var product: Fixnum := vn * guess + carryIn;
    var diff: Fixnum := un - Low(product);
    if diff < 0 {
      r := diff + H;
      carry := High(product) + 1;
    } else {
      r := diff;
      carry := High(product);
    }
  }

  // BDDS_ADD
  method AddBack(vn: Fixnum, un: Fixnum, carryIn: Fixnum) returns (r: Fixnum, carry: Fixnum)
    requires 0 <= un < H && 0 <= vn < H && 0 <= carryIn <= 1
    ensures 0 <= r < H && 0 <= carry <= 1
    ensures r + H * carry == un + vn + carryIn
  {
    var sum: Fixnum := vn + un + carryIn;
    if sum < H {
      r := sum;
      carry := 0;
    } else {
      r := sum - H;
      carry := 1;
    }
  }

  // BDD_STEP's guess.  With a two-digit divisor the corrected guess is exact, so the add-back of
  // bignum_digit_divide_subtract never triggers from here.
  method Guess(u0: Fixnum, u1: Fixnum, u2: Fixnum, v1: Fixnum, v2: Fixnum) returns (guess: Fixnum)
    requires H / 2 <= v1 < H && 0 <= v2 < H
    requires 0 <= u0 && 0 <= u1 < H && 0 <= u2 < H && Two(u0, u1) < Two(v1, v2)
    ensures 0 <= guess < H
    ensures guess * Two(v1, v2) <= Three(u0, u1, u2) < guess * Two(v1, v2) + Two(v1, v2)
  {
    ghost var v, n := Two(v1, v2), Three(u0, u1, u2);
    var comparand: Fixnum;
    guess, comparand := Estimate(u0, u1, u2, v1, v2);
    while guess * v2 > comparand
      invariant 0 <= guess < H
      invariant 0 <= comparand < 2 * R && comparand == (u0 * H + u1 - guess * v1) * H + u2
      invariant guess < H - 1 ==> comparand < R
      invariant guess == H - 1 || n < guess * v + v
      decreases guess
    {
      GuessTooLarge(u0, u1, u2, v1, v2, guess, comparand);
      MulBound(guess, v2, H - 1, H - 1);
      guess := guess - 1;
      comparand := comparand + v1 * H;
      MulBound(guess, v2, H - 1, H - 1);
      if comparand >= R {
        break;
      }
    }
    GuessExact(u0, u1, u2, v1, v2, guess, comparand);
  }

  // The guess of BDD_STEP before it is corrected, from the leading half digit of the divisor
  method Estimate(u0: Fixnum, u1: Fixnum, u2: Fixnum, v1: Fixnum, v2: Fixnum) returns (guess: Fixnum, comparand: Fixnum)
    requires H / 2 <= v1 < H && 0 <= v2 < H
    requires 0 <= u0 && 0 <= u1 < H && 0 <= u2 < H && Two(u0, u1) < Two(v1, v2)
    ensures 0 <= guess < H
    ensures 0 <= comparand < 2 * R && comparand == (u0 * H + u1 - guess * v1) * H + u2
    ensures guess < H - 1 ==> comparand < R
    ensures guess == H - 1 || Three(u0, u1, u2) < guess * Two(v1, v2) + Two(v1, v2)
  {
    if u0 != v1 {
      var top: Fixnum := u0 * H + u1;
      guess := top / v1;
      comparand := (top % v1) * H + u2;
      FirstGuess(top, v1, v2, guess, Three(u0, u1, u2), u2);
    } else {
      guess := H - 1;
      comparand := (u1 + v1) * H + u2;
    }
  }

  lemma FirstGuess(top: int, v1: int, v2: int, guess: int, n: int, u2: int)
    requires H / 2 <= v1 < H && 0 <= v2 && 0 <= u2 < H && 0 <= top < v1 * H && guess == top / v1 && n == top * H + u2
    ensures 0 <= guess < H
    ensures top % v1 == top - guess * v1
    ensures n < guess * (v1 * H + v2) + (v1 * H + v2)
  {
    assert top == guess * v1 + top % v1;
    if guess >= H {
      MulMono(H, guess, v1);
    }
    assert (guess + 1) * v1 > top;
    assert (guess + 1) * v1 * H + (guess + 1) * v2 == guess * (v1 * H + v2) + (v1 * H + v2);
    if guess < 0 {
      MulMono(guess, -1, v1);
    }
    MulMono(0, guess + 1, v2);
  }

  lemma GuessTooLarge(u0: int, u1: int, u2: int, v1: int, v2: int, guess: int, comparand: int)
    requires comparand == (u0 * H + u1 - guess * v1) * H + u2 && guess * v2 > comparand >= 0
    requires 0 <= v2 && 0 <= guess
    ensures guess > 0
    ensures Three(u0, u1, u2) < (guess - 1) * Two(v1, v2) + Two(v1, v2)
    ensures comparand + v1 * H == (u0 * H + u1 - (guess - 1) * v1) * H + u2
  {
    assert (guess - 1) * Two(v1, v2) + Two(v1, v2) == guess * v1 * H + guess * v2;
  }

  lemma GuessExact(u0: int, u1: int, u2: int, v1: int, v2: int, guess: int, comparand: int)
    requires comparand == (u0 * H + u1 - guess * v1) * H + u2 && guess * v2 <= comparand
    requires 0 <= u2 < H && Two(u0, u1) < Two(v1, v2)
    requires guess == H - 1 || Three(u0, u1, u2) < guess * Two(v1, v2) + Two(v1, v2)
    ensures guess * Two(v1, v2) <= Three(u0, u1, u2) < guess * Two(v1, v2) + Two(v1, v2)
  {
    assert guess * Two(v1, v2) == guess * v1 * H + guess * v2;
  }

  // BDD_STEP
  method Step(u: array<Fixnum>, j: nat, v1: Fixnum, v2: Fixnum) returns (q: Fixnum)
    requires j + 2 < u.Length && H / 2 <= v1 < H && 0 <= v2 < H
    requires forall k :: j <= k <= j + 2 ==> 0 <= u[k] < H
    requires Two(u[j], u[j + 1]) < Two(v1, v2)
    modifies u
    ensures 0 <= q < H && 0 <= u[j + 1] < H && 0 <= u[j + 2] < H
    ensures Two(u[j + 1], u[j + 2]) < Two(v1, v2)
    ensures old(Three(u[j], u[j + 1], u[j + 2])) == q * Two(v1, v2) + Two(u[j + 1], u[j + 2])
    ensures forall k :: 0 <= k < u.Length && !(j <= k <= j + 2) ==> u[k] == old(u[k])
  {
    var guess := Guess(u[j], u[j + 1], u[j + 2], v1, v2);
    ghost var v, gv := Two(v1, v2), Two(guess * v1, guess * v2);
    assert gv == guess * v;
    hide Two, Three;
    q := Subtract(v1, v2, guess, u, j, v, gv);
  }

  // bignum_digit_divide: the exact quotient and remainder of uh * R + ul by a normalized digit
  method Divide(uh: Digit, ul: Digit, v: Digit) returns (q: Digit, r: Digit)
    requires R / 2 <= v && uh < v
    ensures uh * R + ul == q * v + r && r < v
  {
    if uh == 0 {
      if ul < v {
        return 0, ul;
      } else if ul == v {
        return 1, 0;
      }
    }
    var q1, q2, r1, r2 := DivideHalves(High(uh), Low(uh), High(ul), Low(ul), High(v), Low(v));
    q := Cons(q1, q2);
    r := Cons(r1, r2);
  }

  // The two steps of bignum_digit_divide, on the half digits of its arguments
  method DivideHalves(a: Fixnum, b: Fixnum, c: Fixnum, d: Fixnum, v1: Fixnum, v2: Fixnum)
    returns (q1: Fixnum, q2: Fixnum, r1: Fixnum, r2: Fixnum)
    requires 0 <= a < H && 0 <= b < H && 0 <= c < H && 0 <= d < H && H / 2 <= v1 < H && 0 <= v2 < H
    requires Two(a, b) < Two(v1, v2)
    ensures 0 <= q1 < H && 0 <= q2 < H && 0 <= r1 < H && 0 <= r2 < H
    ensures Two(a, b) * R + Two(c, d) == Two(q1, q2) * Two(v1, v2) + Two(r1, r2)
    ensures Two(r1, r2) < Two(v1, v2)
  {
    var u := new Fixnum[4];
    u[0], u[1], u[2], u[3] := a, b, c, d;
    q1 := Step(u, 0, v1, v2);
    ghost var rest := Two(u[1], u[2]);
    q2 := Step(u, 1, v1, v2);
    TwoSteps(a, b, c, d, Two(v1, v2), q1, q2, rest, Two(u[2], u[3]));
    hide Two, Three;
    r1, r2 := u[2], u[3];
  }

  lemma TwoSteps(a: int, b: int, c: int, d: int, v: int, q1: int, q2: int, rest: int, r: int)
    requires Three(a, b, c) == q1 * v + rest
    requires rest * H + d == q2 * v + r
    ensures Two(a, b) * R + Two(c, d) == Two(q1, q2) * v + r
  {
    assert (q1 * H + q2) * v == q1 * v * H + q2 * v;
  }
}
